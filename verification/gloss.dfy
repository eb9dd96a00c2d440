/**
 * The in-brief gloss of `get_onelook_definition_selenium`: the walk over the
 * siblings that follow the title span of the in-brief box, gluing their texts
 * together. The browser and the HTML parser are not modelled: a rendered page
 * is given by what the walk sees of it.
 */
module Gloss {
  import opened Wrappers
  import opened Text

  /** The placeholder returned when the page yields no gloss. */
  const NotFound := "Definition not found."

  /**
   * One sibling after the title span: a string node (comments and the other
   * `NavigableString` subclasses included, which take the same branch), or an
   * element given by the strings it contains (what `get_text` collects from it).
   */
  datatype Sibling = TextNode(raw: string) | Element(strings: seq<string>)

  /** What the parser finds on the rendered search page. */
  datatype PageView =
    | NoInBrief                              // no `div.ol_inbrief`
    | InBriefUntitled                        // the box, but no `span.ol_inbrief_title`
    | InBrief(afterTitle: seq<Sibling>)      // the box, its title span and the siblings after it

  /** One browser session for one word. */
  datatype BrowserRun =
    | LaunchFailed                           // creating the Chrome driver raised
    | PageFailed                             // navigation or parsing raised inside the `try`
    | Rendered(view: PageView)
    | QuitFailed                             // `driver.quit()` in the `finally` raised, replacing any result

  /** The sessions whose exception leaves the function: the launch before the `try`, or the `finally`. */
  predicate Raises(run: BrowserRun) {
    run.LaunchFailed? || run.QuitFailed?
  }

  /** What the call does: raise out of the function, or return a value (None on a caught error). */
  datatype Lookup = Raised | Returned(definition: Option<string>)

  /** `tag.get_text(strip=True)`: the element's strings, each stripped, glued together. */
  function ElementText(strings: seq<string>): (r: string)
    ensures Bounded(r)
    decreases |strings|
  {
    if strings == [] then ""
    else
      var first := Strip(strings[0]);
      var rest := ElementText(strings[1..]);
      BoundedConcat(first, rest);
      first + rest
  }

  /** The text a sibling contributes: the stripped string, or the element's text. */
  function Fragment(n: Sibling): (r: string)
    ensures Bounded(r)
  {
    match n
    case TextNode(raw) => Strip(raw)
    case Element(strings) => ElementText(strings)
  }

  /** `definition` and `prev_ended_with_space` of the walk. */
  datatype FoldState = FoldState(definition: string, prevEndedWithSpace: bool)

  const Initial := FoldState("", true)

  /**
   * One iteration of the sibling walk. With `skipEmptyElements` false this is
   * the loop as written; true skips an element with no text, as a string node
   * with no text is skipped.
   */
  function Step(st: FoldState, n: Sibling, skipEmptyElements: bool): FoldState {
    match n
    case TextNode(raw) =>
      var text := Strip(raw);
      if text == "" then st
      else FoldState(st.definition + (if st.prevEndedWithSpace then "" else " ") + text, EndsWith(text, " "))
    case Element(strings) =>
      var tagText := ElementText(strings);
      if skipEmptyElements && tagText == "" then st
      else
        var sep := if st.definition != "" && !EndsWith(st.definition, " ") then " " else "";
        FoldState(st.definition + sep + tagText, EndsWith(tagText, " "))
  }

  function Fold(st: FoldState, siblings: seq<Sibling>, skipEmptyElements: bool): FoldState
    decreases |siblings|
  {
    if siblings == [] then st
    else Fold(Step(st, siblings[0], skipEmptyElements), siblings[1..], skipEmptyElements)
  }

  /** The non-empty sibling texts, in document order. */
  function NonEmptyFragments(siblings: seq<Sibling>): seq<string>
    decreases |siblings|
  {
    if siblings == [] then []
    else
      var f := Fragment(siblings[0]);
      (if f == "" then [] else [f]) + NonEmptyFragments(siblings[1..])
  }

  predicate GoodFragments(acc: seq<string>) {
    forall i :: 0 <= i < |acc| ==> acc[i] != "" && Bounded(acc[i])
  }

  lemma {:induction false} NonEmptyFragmentsGood(siblings: seq<Sibling>)
    ensures GoodFragments(NonEmptyFragments(siblings))
    decreases |siblings|
  {
    if siblings != [] {
      var f := Fragment(siblings[0]);
      var rest := NonEmptyFragments(siblings[1..]);
      NonEmptyFragmentsGood(siblings[1..]);
      assert NonEmptyFragments(siblings) == (if f == "" then [] else [f]) + rest;
      if f != "" {
        GoodPrepend(f, rest);
      }
    }
  }

  lemma GoodPrepend(f: string, acc: seq<string>)
    requires GoodFragments(acc) && f != "" && Bounded(f)
    ensures GoodFragments([f] + acc)
  {
    forall i | 0 <= i < |[f] + acc| ensures ([f] + acc)[i] != "" && Bounded(([f] + acc)[i]) {
      if i > 0 {
        assert ([f] + acc)[i] == acc[i - 1];
      }
    }
  }

  /** Space-joining non-empty stripped fragments gives a non-empty stripped string. */
  lemma {:induction false} JoinFragments(acc: seq<string>)
    requires GoodFragments(acc) && acc != []
    ensures Join(acc, " ") != "" && Bounded(Join(acc, " "))
    ensures Join(acc, " ")[0] == acc[0][0]
    decreases |acc|
  {
    if |acc| > 1 {
      JoinFragments(acc[1..]);
      var j := Join(acc, " ");
      var t := Join(acc[1..], " ");
      assert j == acc[0] + " " + t;
      assert j[|j| - 1] == t[|t| - 1];
      assert j[0] == acc[0][0];
    }
  }

  lemma JoinFragmentsBounded(acc: seq<string>)
    requires GoodFragments(acc)
    ensures Bounded(Join(acc, " "))
    ensures Join(acc, " ") == "" <==> acc == []
  {
    if acc != [] {
      JoinFragments(acc);
    }
  }

  /** The fragments a single sibling adds: its text, unless that is empty. */
  function Kept(n: Sibling): seq<string> {
    var f := Fragment(n);
    if f == "" then [] else [f]
  }

  /** The invariant of the corrected walk after the fragments `acc`. */
  predicate Joined(st: FoldState, acc: seq<string>) {
    && GoodFragments(acc)
    && st.definition == Join(acc, " ")
    && (st.prevEndedWithSpace <==> acc == [])
  }

  /** The corrected step appends the sibling's fragment after one space, or after nothing at the start. */
  lemma StepAppends(st: FoldState, n: Sibling)
    requires st.prevEndedWithSpace <==> st.definition == ""
    requires st.definition == "" || !IsSpace(st.definition[|st.definition| - 1])
    ensures var f := Fragment(n);
      Step(st, n, true) ==
        if f == "" then st
        else FoldState(st.definition + (if st.definition == "" then "" else " ") + f, false)
  {
    var f := Fragment(n);
    if f != "" {
      NotEndsWithSpace(f);
      if st.definition != "" {
        NotEndsWithSpace(st.definition);
      }
    }
  }

  lemma StepJoins(st: FoldState, acc: seq<string>, n: Sibling)
    requires Joined(st, acc)
    ensures Joined(Step(st, n, true), acc + Kept(n))
  {
    var f := Fragment(n);
    JoinFragmentsBounded(acc);
    StepAppends(st, n);
    if f != "" {
      GoodAppend(acc, f);
      assert acc + Kept(n) == acc + [f];
    } else {
      assert acc + Kept(n) == acc;
    }
  }

  lemma GoodAppend(acc: seq<string>, f: string)
    requires GoodFragments(acc) && f != "" && Bounded(f)
    ensures GoodFragments(acc + [f])
    ensures Join(acc + [f], " ") == Join(acc, " ") + (if acc == [] then "" else " ") + f
  {
    if acc == [] {
      assert acc + [f] == [f];
    } else {
      JoinAppend(acc, " ", f);
    }
    assert GoodFragments(acc + [f]) by {
      forall i | 0 <= i < |acc + [f]| ensures (acc + [f])[i] != "" && Bounded((acc + [f])[i]) {
        if i < |acc| {
          assert (acc + [f])[i] == acc[i];
        }
      }
    }
  }

  lemma FragmentsAfter(acc: seq<string>, siblings: seq<Sibling>)
    requires siblings != []
    ensures acc + Kept(siblings[0]) + NonEmptyFragments(siblings[1..]) == acc + NonEmptyFragments(siblings)
  {
    assert NonEmptyFragments(siblings) == Kept(siblings[0]) + NonEmptyFragments(siblings[1..]);
  }

  /** The corrected walk keeps `definition` equal to the space-join of the fragments seen. */
  lemma {:induction false} FoldJoins(st: FoldState, acc: seq<string>, siblings: seq<Sibling>)
    requires Joined(st, acc)
    ensures Fold(st, siblings, true).definition == Join(acc + NonEmptyFragments(siblings), " ")
    decreases |siblings|
  {
    if siblings == [] {
      assert acc + [] == acc;
    } else {
      var head, rest := siblings[0], siblings[1..];
      var acc' := acc + Kept(head);
      var st' := Step(st, head, true);
      assert Joined(st', acc') by { StepJoins(st, acc, head); }
      var tail := NonEmptyFragments(rest);
      assert Fold(st', rest, true).definition == Join(acc' + tail, " ") by {
        FoldJoins(st', acc', rest);
      }
      assert Fold(st, siblings, true) == Fold(st', rest, true);
      FragmentsAfter(acc, siblings);
    }
  }

  /** The gloss, corrected: the non-empty sibling texts joined by single spaces. */
  function GlossText(siblings: seq<Sibling>): (r: string)
    ensures r == Join(NonEmptyFragments(siblings), " ")
  {
    var joined := Fold(Initial, siblings, true).definition;
    FoldJoins(Initial, [], siblings);
    assert [] + NonEmptyFragments(siblings) == NonEmptyFragments(siblings);
    NonEmptyFragmentsGood(siblings);
    JoinFragmentsBounded(NonEmptyFragments(siblings));
    Strip(joined)
  }

  /** The gloss as the loop is written: `definition.strip()` after the walk. */
  function GlossAsWritten(siblings: seq<Sibling>): string {
    Strip(Fold(Initial, siblings, false).definition)
  }

  predicate NoEmptyElements(siblings: seq<Sibling>) {
    forall i :: 0 <= i < |siblings| ==> siblings[i].Element? ==> ElementText(siblings[i].strings) != ""
  }

  lemma {:induction false} FoldAgrees(st: FoldState, siblings: seq<Sibling>)
    requires NoEmptyElements(siblings)
    ensures Fold(st, siblings, false) == Fold(st, siblings, true)
    decreases |siblings|
  {
    if siblings != [] {
      assert Step(st, siblings[0], false) == Step(st, siblings[0], true);
      assert NoEmptyElements(siblings[1..]) by {
        forall i | 0 <= i < |siblings| - 1
          ensures siblings[1..][i] == siblings[i + 1]
        {
        }
      }
      FoldAgrees(Step(st, siblings[0], true), siblings[1..]);
    }
  }

  /** Without empty elements the loop as written joins the fragments with single spaces. */
  lemma GlossAsWrittenJoins(siblings: seq<Sibling>)
    requires NoEmptyElements(siblings)
    ensures GlossAsWritten(siblings) == Join(NonEmptyFragments(siblings), " ")
  {
    FoldAgrees(Initial, siblings);
    assert GlossAsWritten(siblings) == GlossText(siblings);
  }

  lemma FoldCons(st: FoldState, n: Sibling, rest: seq<Sibling>, skip: bool)
    ensures Fold(st, [n] + rest, skip) == Fold(Step(st, n, skip), rest, skip)
  {
    assert ([n] + rest)[1..] == rest;
  }

  lemma FoldThree(st: FoldState, a: Sibling, b: Sibling, c: Sibling, skip: bool)
    ensures Fold(st, [a, b, c], skip) == Step(Step(Step(st, a, skip), b, skip), c, skip)
  {
    assert [a, b, c] == [a] + [b, c] && [b, c] == [b] + [c] && [c] == [c] + [];
    FoldCons(st, a, [b, c], skip);
    var s1 := Step(st, a, skip);
    FoldCons(s1, b, [c], skip);
    var s2 := Step(s1, b, skip);
    FoldCons(s2, c, [], skip);
  }

  /** A stripped fragment and then an empty element: the fragment and one space. */
  lemma TextThenEmptyElement(x: string)
    requires x != "" && Bounded(x)
    ensures Step(Step(Initial, TextNode(x), false), Element([]), false) == FoldState(x + " ", false)
  {
    NotEndsWithSpace(x);
    var s1 := Step(Initial, TextNode(x), false);
    assert s1 == FoldState(x, false) by {
      assert "" + "" + x == x;
    }
    assert ElementText([]) == "";
    assert x + " " + "" == x + " ";
  }

  lemma EmptyElementSteps(x: string, y: string)
    requires x != "" && Bounded(x) && y != "" && Bounded(y)
    ensures Fold(Initial, [TextNode(x), Element([]), TextNode(y)], false).definition == (x + " ") + " " + y
  {
    TextThenEmptyElement(x);
    var s2 := FoldState(x + " ", false);
    assert Step(s2, TextNode(y), false).definition == (x + " ") + " " + y by {
      assert Strip(y) == y;
    }
    FoldThree(Initial, TextNode(x), Element([]), TextNode(y), false);
  }

  lemma DoubleSpaceGlue(x: string, y: string)
    requires x != "" && Bounded(x) && y != "" && Bounded(y)
    ensures (x + " ") + " " + y == x + "  " + y
    ensures Bounded(x + "  " + y)
  {
    var r := x + "  " + y;
    assert r[0] == x[0];
    assert r[|r| - 1] == y[|y| - 1];
  }

  /**
   * An element with no text (a `<br/>`) between two fragments, the second a
   * string node, leaves two spaces in the gloss as written: "a", `<br/>`, "b"
   * gives "a  b".
   */
  lemma EmptyElementDoubleSpace(x: string, y: string)
    requires x != "" && Bounded(x) && y != "" && Bounded(y)
    ensures GlossAsWritten([TextNode(x), Element([]), TextNode(y)]) == x + "  " + y
  {
    EmptyElementSteps(x, y);
    DoubleSpaceGlue(x, y);
  }

  /** The corrected walk glues the same siblings with one space: "a b". */
  lemma EmptyElementSingleSpace(x: string, y: string)
    requires x != "" && Bounded(x) && y != "" && Bounded(y)
    ensures GlossText([TextNode(x), Element([]), TextNode(y)]) == x + " " + y
  {
    var ns := [TextNode(x), Element([]), TextNode(y)];
    assert ns[1..] == [ns[1], ns[2]] && ns[1..][1..] == [ns[2]] && ns[1..][1..][1..] == [];
    assert Fragment(ns[0]) == x && Fragment(ns[1]) == "" && Fragment(ns[2]) == y;
    assert NonEmptyFragments([ns[2]]) == [y];
    assert NonEmptyFragments(ns[1..]) == [y];
    assert NonEmptyFragments(ns) == [x] + [y];
    assert Join([x, y], " ") == x + " " + y by {
      assert [x, y][1..] == [y];
    }
  }

  /** So the two walks disagree on every such input. */
  lemma EmptyElementDiverges(x: string, y: string)
    requires x != "" && Bounded(x) && y != "" && Bounded(y)
    ensures GlossAsWritten([TextNode(x), Element([]), TextNode(y)]) != GlossText([TextNode(x), Element([]), TextNode(y)])
  {
    EmptyElementDoubleSpace(x, y);
    EmptyElementSingleSpace(x, y);
    assert |x + "  " + y| != |x + " " + y|;
  }

  lemma AllSpaceConcat(a: string, b: string)
    ensures AllSpace(a + b) <==> AllSpace(a) && AllSpace(b)
  {
    if AllSpace(a) && AllSpace(b) {
      forall i | 0 <= i < |a + b| ensures IsSpace((a + b)[i]) {
        if i >= |a| {
          assert (a + b)[i] == b[i - |a|];
        }
      }
    }
    if AllSpace(a + b) {
      forall i | 0 <= i < |a| ensures IsSpace(a[i]) {
        assert (a + b)[i] == a[i];
      }
      forall i | 0 <= i < |b| ensures IsSpace(b[i]) {
        assert (a + b)[|a| + i] == b[i];
      }
    }
  }

  /** One step of the loop as written adds a non-space character exactly when the sibling has text. */
  lemma StepInk(st: FoldState, n: Sibling)
    ensures AllSpace(Step(st, n, false).definition) <==> AllSpace(st.definition) && Fragment(n) == ""
  {
    var f := Fragment(n);
    var d := Step(st, n, false).definition;
    if n.TextNode? && f == "" {
      assert d == st.definition;
    } else {
      var sep := if n.TextNode? then (if st.prevEndedWithSpace then "" else " ")
        else (if st.definition != "" && !EndsWith(st.definition, " ") then " " else "");
      assert d == st.definition + sep + f;
      AllSpaceConcat(st.definition, sep);
      AllSpaceConcat(st.definition + sep, f);
      assert AllSpace(sep);
      if f != "" {
        assert !IsSpace(f[0]);
      }
    }
  }

  /** The loop as written ends with a non-space character exactly when some sibling has text. */
  lemma {:induction false} FoldInk(st: FoldState, siblings: seq<Sibling>)
    ensures AllSpace(Fold(st, siblings, false).definition) <==>
      AllSpace(st.definition) && NonEmptyFragments(siblings) == []
    decreases |siblings|
  {
    if siblings != [] {
      var st' := Step(st, siblings[0], false);
      StepInk(st, siblings[0]);
      FoldInk(st', siblings[1..]);
      assert NonEmptyFragments(siblings) == Kept(siblings[0]) + NonEmptyFragments(siblings[1..]);
    }
  }

  /** The gloss as written is empty exactly when no sibling has text. */
  lemma GlossAsWrittenEmpty(siblings: seq<Sibling>)
    ensures GlossAsWritten(siblings) == "" <==> NonEmptyFragments(siblings) == []
  {
    FoldInk(Initial, siblings);
  }

  /**
   * `get_onelook_definition_selenium` on one browser session: raises if the
   * driver cannot start or cannot quit, returns None on an error caught while
   * rendering, otherwise the gloss of the loop as written or the placeholder,
   * never the empty string.
   */
  function OneLookDefinition(run: BrowserRun): (r: Lookup)
    ensures r.Raised? <==> Raises(run)
    ensures r.Returned? ==> (r.definition.None? <==> run.PageFailed?)
    ensures r.Returned? && r.definition.Some? ==> r.definition.value != ""
    ensures run.Rendered? && run.view.InBrief? && NonEmptyFragments(run.view.afterTitle) != [] ==>
      r == Returned(Some(GlossAsWritten(run.view.afterTitle)))
    ensures (run.Rendered? && run.view.InBrief? && NoEmptyElements(run.view.afterTitle)
             && NonEmptyFragments(run.view.afterTitle) != []) ==>
      r == Returned(Some(Join(NonEmptyFragments(run.view.afterTitle), " ")))
    ensures run.Rendered? && (!run.view.InBrief? || NonEmptyFragments(run.view.afterTitle) == []) ==>
      r == Returned(Some(NotFound))
  {
    match run
    case LaunchFailed => Raised
    case QuitFailed => Raised
    case PageFailed => Returned(None)
    case Rendered(view) =>
      var definition := (
        match view
        case InBrief(afterTitle) =>
          GlossAsWrittenEmpty(afterTitle);
          if NoEmptyElements(afterTitle) then
            GlossAsWrittenJoins(afterTitle);
            GlossAsWritten(afterTitle)
          else
            GlossAsWritten(afterTitle)
        case _ => "");
      Returned(Some(if definition == "" then NotFound else definition))
  }

  /** A definition made of one stripped text node is returned as it stands. */
  lemma SingleTextGloss(text: string)
    requires text != "" && Bounded(text)
    ensures OneLookDefinition(Rendered(InBrief([TextNode(text)]))) == Returned(Some(text))
  {
    var siblings := [TextNode(text)];
    assert siblings[1..] == [];
    assert NonEmptyFragments(siblings) == [text];
    assert NoEmptyElements(siblings);
    assert Join([text], " ") == text;
  }

  /** The row loop receives the double space too: `x`, `<br/>`, `y` come back as `x  y`. */
  lemma EmptyElementLookup(x: string, y: string)
    requires x != "" && Bounded(x) && y != "" && Bounded(y)
    ensures OneLookDefinition(Rendered(InBrief([TextNode(x), Element([]), TextNode(y)]))) ==
      Returned(Some(x + "  " + y))
  {
    EmptyElementDoubleSpace(x, y);
  }
}
