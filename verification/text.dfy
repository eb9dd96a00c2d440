/**
 * The Python string builtins the fetcher relies on, over `string = seq<char>`:
 * `str.isspace` (and the `\s` class of a str regular expression), `str.strip`,
 * `str.lower`, `str.split`, `str.join`, slicing, `str.ljust` and `str.endswith`.
 */
module Text {

  /** Python's `str.isspace()` for one character; `\s` in a str pattern matches the same set. */
  predicate IsSpace(c: char) {
    || c == ' '
    || '\t' <= c <= '\r'
    || '\U{1C}' <= c <= '\U{1F}'
    || c == '\U{85}'
    || c == '\U{A0}'
    || c == '\U{1680}'
    || '\U{2000}' <= c <= '\U{200A}'
    || c == '\U{2028}'
    || c == '\U{2029}'
    || c == '\U{202F}'
    || c == '\U{205F}'
    || c == '\U{3000}'
  }

  predicate AllSpace(s: string) {
    forall i :: 0 <= i < |s| ==> IsSpace(s[i])
  }

  /** Empty, or neither starting nor ending with whitespace: the shape `strip()` leaves behind. */
  predicate Bounded(s: string) {
    s == [] || (!IsSpace(s[0]) && !IsSpace(s[|s| - 1]))
  }

  predicate IsAsciiUpper(c: char) {
    'A' <= c <= 'Z'
  }

  /** The `\w` class, restricted to ASCII: letters, digits and underscore. */
  predicate IsWordChar(c: char) {
    'a' <= c <= 'z' || 'A' <= c <= 'Z' || '0' <= c <= '9' || c == '_'
  }

  function LowerChar(c: char): char {
    if IsAsciiUpper(c) then (c as int + ('a' as int - 'A' as int)) as char else c
  }

  /** `s.lower()` on the ASCII letters. */
  function Lower(s: string): string {
    seq(|s|, i requires 0 <= i < |s| => LowerChar(s[i]))
  }

  /** `s.lstrip()`. */
  function TrimStart(s: string): (r: string)
    ensures |r| <= |s| && r == s[|s| - |r|..]
    ensures forall i :: 0 <= i < |s| - |r| ==> IsSpace(s[i])
    ensures r == [] || !IsSpace(r[0])
    decreases |s|
  {
    if |s| > 0 && IsSpace(s[0]) then TrimStart(s[1..]) else s
  }

  /** `s.rstrip()`. */
  function TrimEnd(s: string): (r: string)
    ensures |r| <= |s| && r == s[..|r|]
    ensures forall i :: |r| <= i < |s| ==> IsSpace(s[i])
    ensures r == [] || !IsSpace(r[|r| - 1])
    decreases |s|
  {
    if |s| > 0 && IsSpace(s[|s| - 1]) then TrimEnd(s[..|s| - 1]) else s
  }

  /** `s.strip()`. */
  function Strip(s: string): (r: string)
    ensures Bounded(r)
    ensures Bounded(s) ==> r == s
    ensures r == [] <==> AllSpace(s)
  {
    TrimShape(s);
    TrimEnd(TrimStart(s))
  }

  /** How many characters `lstrip()` drops from the front. */
  function LeadingSpace(s: string): nat {
    |s| - |TrimStart(s)|
  }

  /** The shape of `lstrip()` then `rstrip()`: stripped, unchanged when already stripped, empty only for blank input. */
  lemma TrimShape(s: string)
    ensures var r := TrimEnd(TrimStart(s));
      && Bounded(r)
      && (Bounded(s) ==> r == s)
      && (r == [] <==> AllSpace(s))
  {
    var t := TrimStart(s);
    var r := TrimEnd(t);
    assert r != [] ==> r[0] == t[0];
    if r == [] {
      assert AllSpace(t);
      assert t == [];
    }
  }

  /**
   * `strip()` keeps one slice of `s`, starting where `lstrip()` stops, and
   * everything it drops on either side is whitespace.
   */
  lemma StripSlice(s: string)
    ensures var r := Strip(s);
      var i := LeadingSpace(s);
      && i + |r| <= |s| && r == s[i..i + |r|]
      && AllSpace(s[..i]) && AllSpace(s[i + |r|..])
  {
    var t := TrimStart(s);
    var r := TrimEnd(t);
    var i := LeadingSpace(s);
    TrimStartDrops(s);
    TrimEndDrops(t);
    assert Strip(s) == r;
    SliceOfSuffix(s, i, |r|);
  }

  lemma SliceOfSuffix(s: string, i: nat, n: nat)
    requires i + n <= |s|
    ensures s[i..][..n] == s[i..i + n] && s[i..][n..] == s[i + n..]
  {
  }

  lemma TrimStartDrops(s: string)
    ensures AllSpace(s[..LeadingSpace(s)])
  {
    var i := LeadingSpace(s);
    forall k | 0 <= k < i ensures IsSpace(s[..i][k]) {
      assert s[..i][k] == s[k];
    }
  }

  lemma TrimEndDrops(t: string)
    ensures AllSpace(t[|TrimEnd(t)|..])
  {
    var n := |TrimEnd(t)|;
    forall k | 0 <= k < |t| - n ensures IsSpace(t[n..][k]) {
      assert t[n..][k] == t[n + k];
    }
  }

  /**
   * Conversely, a non-empty stripped slice with only whitespace around it is
   * what `strip()` returns: the slice StripSlice describes is the only one.
   */
  lemma StripUnique(s: string, i: nat, n: nat)
    requires 0 < n && i + n <= |s|
    requires Bounded(s[i..i + n]) && AllSpace(s[..i]) && AllSpace(s[i + n..])
    ensures Strip(s) == s[i..i + n]
  {
    var x := s[i..i + n];
    assert x[0] == s[i] && x[n - 1] == s[i + n - 1];
    assert !AllSpace(s) by {
      assert !IsSpace(s[i]);
    }
    StripInk(s);
    var r := Strip(s);
    var j := LeadingSpace(s);
    FirstInk(s, i, j);
    LastInk(s, i + n, j + |r|);
  }

  /** For a string that is not blank, the kept slice starts and ends with ink. */
  lemma StripInk(s: string)
    requires !AllSpace(s)
    ensures var r := Strip(s);
      var j := LeadingSpace(s);
      && r != [] && j + |r| <= |s|
      && !IsSpace(s[j]) && !IsSpace(s[j + |r| - 1])
      && AllSpace(s[..j]) && AllSpace(s[j + |r|..])
  {
    StripSlice(s);
    var r := Strip(s);
    var j := LeadingSpace(s);
    assert r[0] == s[j] && r[|r| - 1] == s[j + |r| - 1];
  }

  /** Two positions that each have only whitespace before them and ink at them are the same. */
  lemma FirstInk(s: string, a: nat, b: nat)
    requires a < |s| && b < |s| && !IsSpace(s[a]) && !IsSpace(s[b])
    requires AllSpace(s[..a]) && AllSpace(s[..b])
    ensures a == b
  {
  }

  /** Two ends that each have only whitespace after them and ink just before them are the same. */
  lemma LastInk(s: string, a: nat, b: nat)
    requires 0 < a <= |s| && 0 < b <= |s| && !IsSpace(s[a - 1]) && !IsSpace(s[b - 1])
    requires AllSpace(s[a..]) && AllSpace(s[b..])
    ensures a == b
  {
  }

  lemma StripIdempotent(s: string)
    ensures Strip(Strip(s)) == Strip(s)
  {
  }

  /** Lower-casing changes no character's whitespace status, so it commutes with blankness. */
  lemma LowerKeepsBlank(s: string)
    ensures AllSpace(Lower(s)) <==> AllSpace(s)
  {
    assert forall i :: 0 <= i < |s| ==> (IsSpace(Lower(s)[i]) <==> IsSpace(s[i]));
  }

  /** Lower-casing works character by character, so it commutes with slicing. */
  lemma LowerSlice(s: string, i: nat, j: nat)
    requires i <= j <= |s|
    ensures Lower(s)[i..j] == Lower(s[i..j])
  {
  }

  lemma LowerIdempotent(s: string)
    ensures Lower(Lower(s)) == Lower(s)
  {
  }

  /** A string without upper-case ASCII letters is its own lower case. */
  lemma LowerNoUpper(s: string)
    requires forall i :: 0 <= i < |s| ==> !IsAsciiUpper(s[i])
    ensures Lower(s) == s
  {
  }

  /** Stripping and lower-casing can be done in either order. */
  lemma StripLower(s: string)
    ensures Strip(Lower(s)) == Lower(Strip(s))
  {
    if AllSpace(s) {
      LowerKeepsBlank(s);
      assert Lower(Strip(s)) == [];
    } else {
      StripLowerInk(s);
    }
  }

  lemma StripLowerInk(s: string)
    requires !AllSpace(s)
    ensures Strip(Lower(s)) == Lower(Strip(s))
  {
    StripInk(s);
    StripSlice(s);
    var r := Strip(s);
    var i := LeadingSpace(s);
    var n := |r|;
    var l := Lower(s);
    assert 0 < n && i + n <= |l|;
    LowerSlice(s, i, i + n);
    assert l[i..i + n] == Lower(r);
    LowerAround(s, i, i + n);
    LowerBounded(r);
    StripUnique(l, i, n);
  }

  /** Lower-casing neither adds nor removes whitespace at the ends. */
  lemma LowerBounded(r: string)
    ensures Bounded(Lower(r)) <==> Bounded(r)
  {
    if r != [] {
      assert Lower(r)[0] == LowerChar(r[0]);
      assert Lower(r)[|r| - 1] == LowerChar(r[|r| - 1]);
    }
  }

  /** What lies before `i` and after `j` is blank in `Lower(s)` exactly when it is blank in `s`. */
  lemma LowerAround(s: string, i: nat, j: nat)
    requires i <= j <= |s|
    ensures AllSpace(Lower(s)[..i]) <==> AllSpace(s[..i])
    ensures AllSpace(Lower(s)[j..]) <==> AllSpace(s[j..])
  {
    var l := Lower(s);
    assert l[..i] == Lower(s[..i]);
    assert l[j..] == Lower(s[j..]);
    LowerKeepsBlank(s[..i]);
    LowerKeepsBlank(s[j..]);
  }

  /** Gluing two stripped strings together leaves a stripped string. */
  lemma BoundedConcat(a: string, b: string)
    requires Bounded(a) && Bounded(b)
    ensures Bounded(a + b)
  {
    if a != [] && b != [] {
      assert (a + b)[0] == a[0];
      assert (a + b)[|a + b| - 1] == b[|b| - 1];
    }
  }

  /** One space on either side of a stripped string is exactly what `strip()` removes. */
  lemma {:induction false} StripPadded(s: string)
    requires Bounded(s)
    ensures Strip(" " + s + " ") == s
  {
    var p := " " + s + " ";
    if s == [] {
      assert AllSpace(p);
    } else {
      assert p[1..] == s + " ";
      assert TrimStart(p) == TrimStart(s + " ");
      assert TrimStart(s + " ") == s + " " by { assert (s + " ")[0] == s[0]; }
      assert (s + " ")[..|s|] == s;
      assert TrimEnd(s + " ") == TrimEnd(s);
    }
  }

  /** Python's `s[:n]` for `n >= 0`. */
  function Take(s: string, n: nat): string {
    if n <= |s| then s[..n] else s
  }

  function Repeat(c: char, n: nat): string {
    seq(n, _ => c)
  }

  /** `s.ljust(width, fill)`. */
  function LeftJustify(s: string, width: nat, fill: char): string {
    if |s| >= width then s else s + Repeat(fill, width - |s|)
  }

  /** `s.endswith(t)`. */
  predicate EndsWith(s: string, t: string) {
    |t| <= |s| && s[|s| - |t|..] == t
  }

  /** A non-empty string that ends in a non-space character does not end with " ". */
  lemma NotEndsWithSpace(s: string)
    requires s != [] && !IsSpace(s[|s| - 1])
    ensures !EndsWith(s, " ")
  {
  }

  /** `s.split(d)`: the pieces between occurrences of `d`; never an empty list. */
  function Split(s: string, d: char): (parts: seq<string>)
    ensures |parts| >= 1
    decreases |s|
  {
    if |s| == 0 then [""]
    else
      var rest := Split(s[1..], d);
      if s[0] == d then [""] + rest
      else [[s[0]] + rest[0]] + rest[1..]
  }

  /** `sep.join(parts)`. */
  function Join(parts: seq<string>, sep: string): string
    decreases |parts|
  {
    if |parts| == 0 then ""
    else if |parts| == 1 then parts[0]
    else parts[0] + sep + Join(parts[1..], sep)
  }

  /** `s.split('/')[-1]`: the text after the last slash. */
  function LastSegment(s: string): string {
    var parts := Split(s, '/');
    parts[|parts| - 1]
  }

  lemma {:induction false} SplitWithoutDelimiter(s: string, d: char)
    requires d !in s
    ensures Split(s, d) == [s]
    decreases |s|
  {
    if |s| > 0 {
      assert d !in s[1..] by {
        assert forall k :: 0 <= k < |s| - 1 ==> s[1..][k] == s[k + 1];
      }
      SplitWithoutDelimiter(s[1..], d);
      assert s[0] != d;
      assert [s[0]] + s[1..] == s;
    }
  }

  /** Splitting at a delimiter occurrence splits the two sides independently. */
  lemma {:induction false} SplitConcat(a: string, d: char, b: string)
    ensures Split(a + [d] + b, d) == Split(a, d) + Split(b, d)
    decreases |a|
  {
    var s := a + [d] + b;
    if |a| == 0 {
      assert s == [d] + b;
      assert s[1..] == b;
    } else {
      assert s[0] == a[0];
      assert s[1..] == a[1..] + [d] + b;
      SplitConcat(a[1..], d, b);
    }
  }

  /** Joining delimiter-free pieces and splitting again gives the pieces back. */
  lemma {:induction false} SplitJoin(parts: seq<string>, d: char)
    requires |parts| >= 1
    requires forall i :: 0 <= i < |parts| ==> d !in parts[i]
    ensures Split(Join(parts, [d]), d) == parts
    decreases |parts|
  {
    if |parts| == 1 {
      SplitWithoutDelimiter(parts[0], d);
    } else {
      SplitWithoutDelimiter(parts[0], d);
      SplitJoin(parts[1..], d);
      SplitConcat(parts[0], d, Join(parts[1..], [d]));
      assert [parts[0]] + parts[1..] == parts;
    }
  }

  /** Splitting and joining again gives the string back. */
  lemma {:induction false} JoinSplit(s: string, d: char)
    ensures Join(Split(s, d), [d]) == s
    decreases |s|
  {
    if |s| > 0 {
      var rest := Split(s[1..], d);
      JoinSplit(s[1..], d);
      if s[0] == d {
        assert Split(s, d) == [""] + rest;
        assert ([""] + rest)[1..] == rest;
        assert s == [d] + s[1..];
      } else {
        var parts := Split(s, d);
        assert parts == [[s[0]] + rest[0]] + rest[1..];
        if |rest| == 1 {
          assert s == [s[0]] + s[1..];
        } else {
          assert parts[1..] == rest[1..];
          assert Join(rest, [d]) == rest[0] + [d] + Join(rest[1..], [d]);
          assert s == [s[0]] + s[1..];
        }
      }
    }
  }

  /** The last segment of `a + "/" + b` is `b` when `b` holds no slash. */
  lemma LastSegmentAfterSlash(a: string, b: string)
    requires '/' !in b
    ensures LastSegment(a + "/" + b) == b
  {
    assert a + "/" + b == a + ['/'] + b;
    SplitConcat(a, '/', b);
    SplitWithoutDelimiter(b, '/');
  }

  /** Appending one more piece to a join. */
  lemma {:induction false} JoinAppend(parts: seq<string>, sep: string, x: string)
    requires |parts| >= 1
    ensures Join(parts + [x], sep) == Join(parts, sep) + sep + x
    decreases |parts|
  {
    if |parts| == 1 {
      assert parts + [x] == [parts[0], x];
      assert [parts[0], x][1..] == [x];
    } else {
      assert (parts + [x])[1..] == parts[1..] + [x];
      JoinAppend(parts[1..], sep, x);
    }
  }
}
