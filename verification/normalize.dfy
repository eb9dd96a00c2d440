/**
 * Word normalisation for URL building: `clean_word_for_url` and `safe_segment`
 * of anki_audio_fetcher_with_translations.py.
 */
module Normalize {
  import opened Text

  /** The class `[\s\-]` whose runs `clean_word_for_url` turns into one underscore. */
  predicate IsSeparator(c: char) {
    IsSpace(c) || c == '-'
  }

  /** What a normalised word may contain: lower-case ASCII letters, digits and underscore. */
  predicate IsCleanChar(c: char) {
    'a' <= c <= 'z' || '0' <= c <= '9' || c == '_'
  }

  predicate IsCleanWord(w: string) {
    forall i :: 0 <= i < |w| ==> IsCleanChar(w[i])
  }

  /**
   * `re.sub(r'[\s\-]+', '_', s)`. `inRun` holds when the character before `s`
   * was a separator that has already produced its underscore.
   */
  function CollapseSeparators(s: string, inRun: bool): (r: string)
    ensures forall c :: c in r ==> !IsSeparator(c) && (c == '_' || c in s)
    decreases |s|
  {
    if |s| == 0 then ""
    else if IsSeparator(s[0]) then
      (if inRun then "" else "_") + CollapseSeparators(s[1..], true)
    else
      [s[0]] + CollapseSeparators(s[1..], false)
  }

  /** `re.sub(r'[^\w_]', '', s)`: keeps the word characters, in order. */
  function KeepWordChars(s: string): (r: string)
    ensures forall c :: c in r ==> IsWordChar(c) && c in s
    decreases |s|
  {
    if |s| == 0 then ""
    else if IsWordChar(s[0]) then [s[0]] + KeepWordChars(s[1..])
    else KeepWordChars(s[1..])
  }

  /**
   * `clean_word_for_url`: trim, lower-case, collapse each run of whitespace or
   * hyphens into one `_`, then drop every non-word character.
   */
  function CleanWordForUrl(word: string): (r: string)
    ensures IsCleanWord(r)
  {
    if word == "" then ""
    else
      var lowered := Lower(Strip(word));
      var collapsed := CollapseSeparators(lowered, false);
      var kept := KeepWordChars(collapsed);
      assert IsCleanWord(kept) by {
        forall i | 0 <= i < |kept|
          ensures IsCleanChar(kept[i])
        {
          var c := kept[i];
          assert c in kept;
          assert IsWordChar(c) && c in collapsed;
          if c != '_' {
            assert c in lowered;
            LowerHasNoUpper(Strip(word), c);
          }
        }
      }
      kept
  }

  lemma LowerHasNoUpper(s: string, c: char)
    requires c in Lower(s)
    ensures !IsAsciiUpper(c)
  {
    var i :| 0 <= i < |s| && Lower(s)[i] == c;
  }

  lemma {:induction false} CollapseWithoutSeparators(s: string, inRun: bool)
    requires forall i :: 0 <= i < |s| ==> !IsSeparator(s[i])
    ensures CollapseSeparators(s, inRun) == s
    decreases |s|
  {
    if |s| > 0 {
      CollapseWithoutSeparators(s[1..], false);
      assert [s[0]] + s[1..] == s;
    }
  }

  lemma {:induction false} KeepOnlyWordChars(s: string)
    requires forall i :: 0 <= i < |s| ==> IsWordChar(s[i])
    ensures KeepWordChars(s) == s
    decreases |s|
  {
    if |s| > 0 {
      KeepOnlyWordChars(s[1..]);
      assert [s[0]] + s[1..] == s;
    }
  }

  /** The words normalisation leaves alone are exactly the normalised words. */
  lemma CleanFixedPoints(w: string)
    ensures CleanWordForUrl(w) == w <==> IsCleanWord(w)
  {
    if IsCleanWord(w) && w != "" {
      assert !IsSpace(w[0]) && !IsSpace(w[|w| - 1]);
      assert Strip(w) == w;
      assert Lower(w) == w;
      CollapseWithoutSeparators(w, false);
      KeepOnlyWordChars(w);
    }
  }

  /** Normalising twice is normalising once. */
  lemma CleanIdempotent(w: string)
    ensures CleanWordForUrl(CleanWordForUrl(w)) == CleanWordForUrl(w)
  {
    CleanFixedPoints(CleanWordForUrl(w));
  }

  /** A normalised word has no whitespace, no hyphen, no upper-case letter and no slash. */
  lemma CleanWordShape(word: string)
    ensures var w := CleanWordForUrl(word);
      forall i :: 0 <= i < |w| ==>
        IsWordChar(w[i]) && !IsSpace(w[i]) && w[i] != '-' && !IsAsciiUpper(w[i]) && w[i] != '/'
  {
    var w := CleanWordForUrl(word);
    forall i | 0 <= i < |w|
      ensures IsWordChar(w[i]) && !IsSpace(w[i]) && w[i] != '-' && !IsAsciiUpper(w[i]) && w[i] != '/'
    {
      assert IsCleanChar(w[i]);
    }
  }

  /** Case does not matter: a word and its lower-case form normalise alike. */
  lemma CleanLowers(w: string)
    ensures CleanWordForUrl(Lower(w)) == CleanWordForUrl(w)
  {
    if w != "" {
      StripLower(w);
      LowerIdempotent(Strip(w));
      assert Lower(w) != "";
    }
  }

  /**
   * A run of whitespace and hyphens between two normalised words becomes
   * exactly one underscore, whatever its length or mix.
   */
  lemma CleanCollapsesRun(a: string, sep: string, b: string)
    requires a != "" && b != "" && sep != ""
    requires IsCleanWord(a) && IsCleanWord(b)
    requires forall i :: 0 <= i < |sep| ==> IsSeparator(sep[i])
    ensures CleanWordForUrl(a + sep + b) == a + "_" + b
  {
    var w := a + sep + b;
    RunUnchangedByStripLower(a, sep, b);
    CollapseJoin(a, sep, b);
    JoinedClean(a, b);
    KeepOnlyWordChars(a + "_" + b);
    assert Lower(Strip(w)) == w;
  }

  /** Trimming and lower-casing leave two normalised words and the run between them alone. */
  lemma RunUnchangedByStripLower(a: string, sep: string, b: string)
    requires a != "" && b != ""
    requires IsCleanWord(a) && IsCleanWord(b)
    requires forall i :: 0 <= i < |sep| ==> IsSeparator(sep[i])
    ensures Strip(a + sep + b) == a + sep + b && Lower(a + sep + b) == a + sep + b
  {
    var w := a + sep + b;
    CleanHasNoSeparator(a);
    CleanHasNoSeparator(b);
    assert w[0] == a[0] && w[|w| - 1] == b[|b| - 1];
    forall i | 0 <= i < |w| ensures !IsAsciiUpper(w[i]) {
      if i < |a| {
        assert w[i] == a[i];
      } else if i < |a| + |sep| {
        assert w[i] == sep[i - |a|];
      } else {
        assert w[i] == b[i - |a| - |sep|];
      }
    }
    LowerNoUpper(w);
  }

  lemma CollapseJoin(a: string, sep: string, b: string)
    requires a != "" && b != "" && sep != ""
    requires IsCleanWord(a) && IsCleanWord(b)
    requires forall i :: 0 <= i < |sep| ==> IsSeparator(sep[i])
    ensures CollapseSeparators(a + sep + b, false) == a + "_" + b
  {
    CleanHasNoSeparator(a);
    CleanHasNoSeparator(b);
    assert a + sep + b == a + (sep + b);
    CollapseInk(a, sep + b, false);
    CollapseRun(sep, b, false);
    CollapseWithoutSeparators(b, true);
  }

  lemma JoinedClean(a: string, b: string)
    requires IsCleanWord(a) && IsCleanWord(b)
    ensures forall i :: 0 <= i < |a + "_" + b| ==> IsWordChar((a + "_" + b)[i])
  {
    var j := a + "_" + b;
    forall i | 0 <= i < |j| ensures IsWordChar(j[i]) {
      if i < |a| {
        assert j[i] == a[i];
      } else if i > |a| {
        assert j[i] == b[i - |a| - 1];
      }
    }
  }

  /**
   * Characters that are neither word characters nor separators (apostrophes,
   * dots, slashes) are deleted and the words around them close up.
   */
  lemma CleanDropsNonWord(a: string, p: string, b: string)
    requires a != "" && b != ""
    requires IsCleanWord(a) && IsCleanWord(b)
    requires forall i :: 0 <= i < |p| ==> !IsWordChar(p[i]) && !IsSeparator(p[i])
    ensures CleanWordForUrl(a + p + b) == a + b
  {
    var w := a + p + b;
    NonWordUnchangedByStripLower(a, p, b);
    CleanHasNoSeparator(a);
    CleanHasNoSeparator(b);
    assert forall i :: 0 <= i < |w| ==> !IsSeparator(w[i]) by {
      forall i | 0 <= i < |w| ensures !IsSeparator(w[i]) {
        PartOfThree(a, p, b, i);
      }
    }
    CollapseWithoutSeparators(w, false);
    KeepConcat(a + p, b);
    KeepConcat(a, p);
    KeepNothing(p);
    KeepOnlyWordChars(a);
    KeepOnlyWordChars(b);
    assert a + "" == a;
  }

  /** Where position `i` of `a + p + b` comes from. */
  lemma PartOfThree(a: string, p: string, b: string, i: nat)
    requires i < |a + p + b|
    ensures i < |a| ==> (a + p + b)[i] == a[i]
    ensures |a| <= i < |a| + |p| ==> (a + p + b)[i] == p[i - |a|]
    ensures |a| + |p| <= i ==> (a + p + b)[i] == b[i - |a| - |p|]
  {
  }

  lemma NonWordUnchangedByStripLower(a: string, p: string, b: string)
    requires a != "" && b != ""
    requires IsCleanWord(a) && IsCleanWord(b)
    requires forall i :: 0 <= i < |p| ==> !IsWordChar(p[i])
    ensures Strip(a + p + b) == a + p + b && Lower(a + p + b) == a + p + b
  {
    var w := a + p + b;
    CleanHasNoSeparator(a);
    CleanHasNoSeparator(b);
    assert w[0] == a[0] && w[|w| - 1] == b[|b| - 1];
    forall i | 0 <= i < |w| ensures !IsAsciiUpper(w[i]) {
      PartOfThree(a, p, b, i);
    }
    LowerNoUpper(w);
  }

  /** Line 134 works character by character, so it distributes over concatenation. */
  lemma {:induction false} KeepConcat(x: string, y: string)
    ensures KeepWordChars(x + y) == KeepWordChars(x) + KeepWordChars(y)
    decreases |x|
  {
    if x != [] {
      assert (x + y)[0] == x[0] && (x + y)[1..] == x[1..] + y;
      KeepConcat(x[1..], y);
      if IsWordChar(x[0]) {
        assert [x[0]] + (KeepWordChars(x[1..]) + KeepWordChars(y))
          == ([x[0]] + KeepWordChars(x[1..])) + KeepWordChars(y);
      }
    } else {
      assert x + y == y;
    }
  }

  /** A string without word characters leaves nothing behind. */
  lemma {:induction false} KeepNothing(x: string)
    requires forall i :: 0 <= i < |x| ==> !IsWordChar(x[i])
    ensures KeepWordChars(x) == ""
    decreases |x|
  {
    if x != [] {
      assert forall i :: 0 <= i < |x| - 1 ==> x[1..][i] == x[i + 1];
      KeepNothing(x[1..]);
    }
  }

  /** Normalisation sees only the stripped word: surrounding whitespace never reaches the URL. */
  lemma CleanStripFirst(x: string)
    ensures CleanWordForUrl(x) == CleanWordForUrl(Strip(x))
  {
    StripIdempotent(x);
    if x != "" && Strip(x) == "" {
      assert Lower(Strip(x)) == "";
    }
  }

  /** A normalised word with whitespace around it normalises to itself. */
  lemma CleanTrims(s1: string, w: string, s2: string)
    requires w != "" && IsCleanWord(w)
    requires AllSpace(s1) && AllSpace(s2)
    ensures CleanWordForUrl(s1 + w + s2) == w
  {
    var x := s1 + w + s2;
    CleanHasNoSeparator(w);
    assert !IsSpace(w[0]) && !IsSpace(w[|w| - 1]);
    assert x[|s1|..|s1| + |w|] == w && x[..|s1|] == s1 && x[|s1| + |w|..] == s2;
    StripUnique(x, |s1|, |w|);
    CleanStripFirst(x);
    CleanFixedPoints(w);
  }

  lemma CleanHasNoSeparator(w: string)
    requires IsCleanWord(w)
    ensures forall i :: 0 <= i < |w| ==> !IsSeparator(w[i]) && !IsAsciiUpper(w[i]) && IsWordChar(w[i])
  {
  }

  /** A leading stretch without separators passes through, and ends any run. */
  lemma {:induction false} CollapseInk(x: string, y: string, inRun: bool)
    requires x != []
    requires forall i :: 0 <= i < |x| ==> !IsSeparator(x[i])
    ensures CollapseSeparators(x + y, inRun) == x + CollapseSeparators(y, false)
    decreases |x|
  {
    var z := x + y;
    var c := CollapseSeparators(y, false);
    assert z[0] == x[0] && z[1..] == x[1..] + y;
    CollapseInkStep(z, inRun);
    if |x| == 1 {
      assert x[1..] + y == y;
      assert [x[0]] + c == x + c;
    } else {
      assert forall i :: 0 <= i < |x| - 1 ==> x[1..][i] == x[i + 1];
      CollapseInk(x[1..], y, false);
      assert CollapseSeparators(z[1..], false) == x[1..] + c;
      ConsAppend(x, c);
    }
  }

  lemma ConsAppend(x: string, c: string)
    requires x != []
    ensures [x[0]] + (x[1..] + c) == x + c
  {
    assert [x[0]] + x[1..] == x;
  }

  lemma CollapseInkStep(z: string, inRun: bool)
    requires z != [] && !IsSeparator(z[0])
    ensures CollapseSeparators(z, inRun) == [z[0]] + CollapseSeparators(z[1..], false)
  {
  }

  /** A leading run of separators yields one underscore, or none if a run was already open. */
  lemma {:induction false} CollapseRun(sep: string, y: string, inRun: bool)
    requires sep != []
    requires forall i :: 0 <= i < |sep| ==> IsSeparator(sep[i])
    ensures CollapseSeparators(sep + y, inRun) == (if inRun then "" else "_") + CollapseSeparators(y, true)
    decreases |sep|
  {
    assert (sep + y)[1..] == sep[1..] + y;
    if |sep| > 1 {
      CollapseRun(sep[1..], y, true);
    }
  }

  function Min(a: nat, b: nat): nat {
    if a <= b then a else b
  }

  /** `safe_segment`: the first `length` characters, right-padded with `_` to exactly `length`. */
  function SafeSegment(word: string, length: nat): (r: string)
    ensures |r| == length
    ensures r[..Min(length, |word|)] == word[..Min(length, |word|)]
    ensures forall i :: Min(length, |word|) <= i < length ==> r[i] == '_'
  {
    if word == "" then Repeat('_', length)
    else LeftJustify(Take(word, length), length, '_')
  }
}
