/** `is_empty_value`: when a table cell counts as holding no value. */
module Cells {
  import opened Wrappers
  import opened Text

  /** Strings that, whatever their case, stand for a missing value. */
  const NullTokens: set<string> := {"nan", "none", "null"}

  /** `is_empty_value(value)`; `None` is a NaN or None cell. */
  predicate IsEmptyValue(v: Option<string>) {
    match v
    case None => true
    case Some(s) => Strip(s) == "" || Lower(s) in NullTokens
  }

  /** `str(value)` of a cell; a NaN cell prints as "nan". */
  function CellText(v: Option<string>): string {
    match v
    case None => "nan"
    case Some(s) => s
  }

  /** Empty means: missing, whitespace only, or a null token up to case (and not trimmed). */
  lemma IsEmptyValueCharacterized(v: Option<string>)
    ensures IsEmptyValue(v) <==>
      v.None? || AllSpace(v.value) || Lower(v.value) in NullTokens
  {
  }

  /** Case does not matter to emptiness. */
  lemma IsEmptyValueIgnoresCase(s: string)
    ensures IsEmptyValue(Some(Lower(s))) <==> IsEmptyValue(Some(s))
  {
    LowerKeepsBlank(s);
    assert Lower(Lower(s)) == Lower(s);
  }

  /** Printing a cell with `str` keeps it empty or non-empty. */
  lemma CellTextKeepsEmptiness(v: Option<string>)
    ensures IsEmptyValue(Some(CellText(v))) <==> IsEmptyValue(v)
  {
    if v.None? {
      assert Lower("nan") == "nan";
    }
  }

  /** The null tokens match in any case. */
  lemma NullTokensAnyCase()
    ensures IsEmptyValue(Some("NaN")) && IsEmptyValue(Some("null")) && IsEmptyValue(Some("NONE"))
  {
    assert Lower("NaN") == "nan";
    assert Lower("null") == "null";
    assert Lower("NONE") == "none";
  }

  /**
   * The null-token test does not trim: a null token in any case with
   * whitespace on at least one side is a value, although stripping it would
   * leave an empty one.
   */
  lemma PaddedNullTokensAreValues(p: string, t: string, q: string)
    requires Lower(t) in NullTokens
    requires AllSpace(p) && AllSpace(q) && p + q != []
    ensures !IsEmptyValue(Some(p + t + q))
    ensures IsEmptyValue(Some(Strip(p + t + q)))
  {
    var w := p + t + q;
    NullTokenBounded(t);
    StripAroundToken(p, t, q);
    PaddedNotBounded(p, t, q);
    UnboundedIsNoToken(w);
  }

  lemma NullTokenBounded(t: string)
    requires Lower(t) in NullTokens
    ensures t != [] && Bounded(t)
  {
    assert Bounded(Lower(t)) && Lower(t) != [] by {
      assert Lower(t) == "nan" || Lower(t) == "none" || Lower(t) == "null";
    }
    LowerBounded(t);
  }

  lemma StripAroundToken(p: string, t: string, q: string)
    requires t != [] && Bounded(t) && AllSpace(p) && AllSpace(q)
    ensures Strip(p + t + q) == t
  {
    var w := p + t + q;
    assert w[|p|..|p| + |t|] == t && w[..|p|] == p && w[|p| + |t|..] == q;
    StripUnique(w, |p|, |t|);
  }

  lemma PaddedNotBounded(p: string, t: string, q: string)
    requires AllSpace(p) && AllSpace(q) && p + q != []
    ensures !Bounded(p + t + q)
  {
    var w := p + t + q;
    if p != [] {
      assert w[0] == p[0];
    } else {
      assert w[|w| - 1] == q[|q| - 1];
    }
  }

  /** Every null token is stripped already, so a string with whitespace at an end is none of them. */
  lemma UnboundedIsNoToken(w: string)
    requires !Bounded(w)
    ensures Lower(w) !in NullTokens
  {
    LowerBounded(w);
    assert Bounded("nan") && Bounded("none") && Bounded("null");
  }

  /** A null token with anything around it, even whitespace, is a value. */
  lemma PaddedNullTokenIsValue()
    ensures !IsEmptyValue(Some(" null "))
  {
    var s := " null ";
    assert !IsSpace(s[1]);
    assert !AllSpace(s);
    var l := Lower(s);
    assert |l| == 6;
    assert l !in NullTokens by {
      assert l != "nan" && l != "none" && l != "null";
    }
    IsEmptyValueCharacterized(Some(s));
  }

  /** `" null ".strip()` is the null token itself. */
  lemma PaddedNullStrips()
    ensures Strip(" null ") == "null"
  {
    assert " null " == " " + "null" + " ";
    StripPadded("null");
  }

  lemma BlankCellsAreEmpty()
    ensures IsEmptyValue(Some("")) && IsEmptyValue(Some(" \t "))
  {
    assert AllSpace(" \t ");
  }

  lemma TextIsValue()
    ensures !IsEmptyValue(Some("already here"))
  {
    var s := "already here";
    assert !IsSpace(s[0]);
    assert !AllSpace(s);
    var l := Lower(s);
    assert |l| == 12;
    assert l !in NullTokens by {
      assert l != "nan" && l != "none" && l != "null";
    }
    IsEmptyValueCharacterized(Some(s));
  }
}
