/**
 * The loop of `process_csv`: drop rows without a headword, then for each row
 * fill the gloss if `Back` is empty, find audio, probe the definition page,
 * update the columns, download the audio and append its sound tag, and count
 * what was found. Every network call is an oracle; the table is a sequence of
 * rows.
 */
module Pipeline {
  import opened Wrappers
  import opened Text
  import opened Normalize
  import opened Urls
  import opened Discovery
  import opened Cells
  import opened Gloss

  /**
   * One table row: the five columns the fetcher uses, and the values of any
   * other columns, which it carries through untouched.
   */
  datatype Row = Row(
    front: Option<string>,
    back: Option<string>,
    audio: Option<string>,
    definition: Option<string>,
    dlValid: Option<bool>,
    others: seq<Option<string>>)

  /** The outside world, asked per word or per URL. */
  datatype Oracles = Oracles(
    browse: string -> BrowserRun,     // the Chrome session of get_onelook_definition_selenium(word)
    probeAudio: string -> bool,       // try_url(url): GET answered with status 200
    probePage: string -> bool,        // the GET of check_definition_url(url) answered with 200
    download: string -> bool)         // the GET and file write of download_audio(url, audio_dir)

  /** The filter of `process_csv`: `Front` is not NaN and not blank once stripped. */
  predicate HasFront(row: Row) {
    row.front.Some? && Strip(row.front.value) != ""
  }

  /** `df[df['Front'].notna() & (df['Front'].astype(str).str.strip() != '')]`. */
  function FilterFront(rows: seq<Row>): seq<Row>
    decreases |rows|
  {
    if rows == [] then []
    else (if HasFront(rows[0]) then [rows[0]] else []) + FilterFront(rows[1..])
  }

  /** The filter keeps exactly the rows with a headword, and no run starts when there is none. */
  lemma {:induction false} FilterFrontKeeps(rows: seq<Row>)
    ensures |FilterFront(rows)| <= |rows|
    ensures forall r :: r in FilterFront(rows) <==> r in rows && HasFront(r)
    ensures forall i :: 0 <= i < |FilterFront(rows)| ==> HasFront(FilterFront(rows)[i])
    ensures FilterFront(rows) == [] <==> forall r :: r in rows ==> !HasFront(r)
    decreases |rows|
  {
    if rows != [] {
      FilterFrontKeeps(rows[1..]);
      var kept := FilterFront(rows);
      assert forall r :: r in rows <==> r == rows[0] || r in rows[1..];
      assert forall i :: 0 <= i < |kept| ==> kept[i] in kept;
    }
  }

  /** The filter keeps order: filtering a concatenation concatenates the filtered parts. */
  lemma {:induction false} FilterFrontConcat(a: seq<Row>, b: seq<Row>)
    ensures FilterFront(a + b) == FilterFront(a) + FilterFront(b)
    decreases |a|
  {
    if a == [] {
      assert a + b == b;
    } else {
      var head := if HasFront(a[0]) then [a[0]] else [];
      assert (a + b)[0] == a[0];
      assert (a + b)[1..] == a[1..] + b;
      FilterFrontConcat(a[1..], b);
      calc {
        FilterFront(a + b);
        head + FilterFront(a[1..] + b);
        head + (FilterFront(a[1..]) + FilterFront(b));
        (head + FilterFront(a[1..])) + FilterFront(b);
      }
    }
  }

  /** Filtering an already filtered table changes nothing. */
  lemma {:induction false} FilterFrontIdempotent(rows: seq<Row>)
    ensures FilterFront(FilterFront(rows)) == FilterFront(rows)
    decreases |rows|
  {
    if rows != [] {
      var head := if HasFront(rows[0]) then [rows[0]] else [];
      FilterFrontIdempotent(rows[1..]);
      FilterFrontConcat(head, FilterFront(rows[1..]));
      if HasFront(rows[0]) {
        assert FilterFront(head) == head by {
          assert head[1..] == [];
        }
      }
    }
  }

  /** `str(row['Front']).strip()`: the word the row is processed under. */
  function FrontWord(row: Row): string {
    Strip(CellText(row.front))
  }

  /** `check_definition_url`: no request for an empty URL. */
  function CheckDefinitionUrl(url: string, probe: string -> bool): bool {
    url != "" && probe(url)
  }

  /** `download_audio`: no request for an empty URL. */
  function DownloadAudio(url: string, fetch: string -> bool): bool {
    url != "" && fetch(url)
  }

  /** The flashcard audio marker. */
  function SoundTag(filename: string): string {
    "[sound:" + filename + "]"
  }

  /**
   * The `Back` value after a successful download: the stripped previous value,
   * one space and the marker, or the marker alone when the stripped value
   * counts as empty.
   */
  function TagBack(back: Option<string>, filename: string): (r: string)
    ensures EndsWith(r, SoundTag(filename))
    ensures var current := Strip(CellText(back));
      r == SoundTag(filename) <==> IsEmptyValue(Some(current))
    ensures var current := Strip(CellText(back));
      !IsEmptyValue(Some(current)) ==>
        |r| == |current| + 1 + |SoundTag(filename)| && r[..|current|] == current && r[|current|] == ' '
  {
    var current := Strip(CellText(back));
    var tag := SoundTag(filename);
    if current != "" && !IsEmptyValue(Some(current)) then
      SpaceJoin(current, tag);
      current + " " + tag
    else
      tag
  }

  lemma SpaceJoin(a: string, b: string)
    requires a != ""
    ensures var r := a + " " + b;
      && EndsWith(r, b) && r != b
      && |r| == |a| + 1 + |b| && r[..|a|] == a && r[|a|] == ' '
  {
    var r := a + " " + b;
    assert r[|a| + 1..] == b;
    assert r[..|a|] == a;
  }

  /** What one row produced, and which counters it advances. */
  datatype RowReport = RowReport(row: Row, glossAdded: bool, audioFound: bool, definitionFound: bool)

  /** The gloss lookup of a row: made only when `Back` is empty; `Returned(None)` stands for no call. */
  function GlossLookup(row: Row, o: Oracles): Lookup {
    if IsEmptyValue(row.back) then OneLookDefinition(o.browse(FrontWord(row))) else Returned(None)
  }

  /** `Back` after the gloss stage: a truthy lookup result replaces it. */
  function GlossStage(back: Option<string>, gloss: Option<string>): Option<string> {
    if gloss.Some? && gloss.value != "" then gloss else back
  }

  /** Columns `Back`, `Audio`, `Definition` and `DL valid` from the outcomes of the row's calls. */
  function ApplyOutcomes(
    row: Row, gloss: Option<string>, hit: Option<AudioHit>,
    definitionUrl: string, hasDefinition: bool, downloaded: bool): RowReport
  {
    var glossAdded := gloss.Some? && gloss.value != "";
    var back := GlossStage(row.back, gloss);
    var tagged := if hit.Some? && downloaded then Some(TagBack(back, hit.value.filename)) else back;
    RowReport(
      row.(back := tagged,
           audio := Some(if hit.Some? then hit.value.url else ""),
           definition := Some(if hasDefinition then definitionUrl else ""),
           dlValid := Some(hit.Some?)),
      glossAdded, hit.Some?, hasDefinition)
  }

  predicate HasAudio(row: Row) {
    row.dlValid == Some(true)
  }

  predicate HasDefinitionPage(row: Row) {
    row.definition.Some? && row.definition.value != ""
  }

  /** A row whose lookup raises (the browser cannot start or cannot quit): the only way a row raises. */
  predicate Aborts(row: Row, o: Oracles) {
    IsEmptyValue(row.back) && Raises(o.browse(FrontWord(row)))
  }

  /** A row whose lookup returns a page: the only rows that advance `successful_onelook`. */
  predicate Glossed(row: Row, o: Oracles) {
    IsEmptyValue(row.back) && o.browse(FrontWord(row)).Rendered?
  }

  /**
   * Everything the row loop does after the gloss lookup: find the audio,
   * check the definition page, download, and fill in the columns.
   */
  function FinishRow(
    row: Row, gloss: Option<string>,
    probeAudio: string -> bool, probePage: string -> bool, download: string -> bool): (r: RowReport)
    ensures r.row.front == row.front && r.row.others == row.others
    ensures var hit := FindWorkingAudioUrl(FrontWord(row), probeAudio);
      && r.row.dlValid == Some(hit.Some?)
      && r.row.audio == Some(if hit.Some? then hit.value.url else "")
      && (r.audioFound <==> HasAudio(r.row))
      && (HasAudio(r.row) <==> r.row.audio != Some(""))
    ensures var url := DefinitionUrl(FrontWord(row));
      && r.row.definition == Some(if probePage(url) then url else "")
      && (r.definitionFound <==> HasDefinitionPage(r.row))
    ensures r.glossAdded <==> gloss.Some? && gloss.value != ""
  {
    var word := FrontWord(row);
    var hit := FindWorkingAudioUrl(word, probeAudio);
    var definitionUrl := DefinitionUrl(word);
    var hasDefinition := if definitionUrl != "" then CheckDefinitionUrl(definitionUrl, probePage) else false;
    var downloaded := hit.Some? && DownloadAudio(hit.value.url, download);
    ApplyOutcomes(row, gloss, hit, definitionUrl, hasDefinition, downloaded)
  }

  /**
   * The body of the row loop. None when the gloss lookup raised (the browser
   * could not be started or could not be shut down), which ends the whole run.
   */
  function ProcessRow(row: Row, o: Oracles): (r: Option<RowReport>)
    ensures r.None? <==> Aborts(row, o)
    ensures r.Some? ==> r.value.row.front == row.front && r.value.row.others == row.others
    ensures r.Some? ==> var hit := FindWorkingAudioUrl(FrontWord(row), o.probeAudio);
      && r.value.row.dlValid == Some(hit.Some?)
      && r.value.row.audio == Some(if hit.Some? then hit.value.url else "")
      && (r.value.audioFound <==> HasAudio(r.value.row))
      && (HasAudio(r.value.row) <==> r.value.row.audio != Some(""))
    ensures r.Some? ==> var url := DefinitionUrl(FrontWord(row));
      && r.value.row.definition == Some(if o.probePage(url) then url else "")
      && (r.value.definitionFound <==> HasDefinitionPage(r.value.row))
    ensures r.Some? ==> Counted(row, r.value)
    ensures r.Some? ==> (r.value.glossAdded <==> Glossed(row, o))
  {
    var lookup := GlossLookup(row, o);
    if lookup.Raised? then None
    else Some(FinishRow(row, lookup.definition, o.probeAudio, o.probePage, o.download))
  }

  /** The gloss is looked up only for an empty `Back`: otherwise the browser's answers do not matter. */
  lemma GlossFetchedOnlyWhenEmpty(row: Row, o: Oracles, browse: string -> BrowserRun)
    requires !IsEmptyValue(row.back)
    ensures ProcessRow(row, o) == ProcessRow(row, o.(browse := browse))
  {
    var o2 := o.(browse := browse);
    assert GlossLookup(row, o) == Returned(None) == GlossLookup(row, o2);
    assert ProcessRow(row, o2) == Some(FinishRow(row, None, o.probeAudio, o.probePage, o.download));
  }

  /** A row whose `Back` has content and whose audio was not downloaded keeps `Back` verbatim. */
  lemma BackKeptWhenFilled(row: Row, o: Oracles)
    requires !IsEmptyValue(row.back)
    requires var hit := FindWorkingAudioUrl(FrontWord(row), o.probeAudio);
      hit.None? || !o.download(hit.value.url)
    ensures ProcessRow(row, o).Some? && ProcessRow(row, o).value.row.back == row.back
    ensures !ProcessRow(row, o).value.glossAdded
  {
    assert GlossLookup(row, o) == Returned(None);
    var fin := FinishRow(row, None, o.probeAudio, o.probePage, o.download);
    assert ProcessRow(row, o) == Some(fin);
    assert GlossStage(row.back, None) == row.back;
    assert fin.row.back == row.back;
  }

  /**
   * An empty `Back` takes whatever the lookup returned, the placeholder
   * included; a lookup that failed inside the page leaves it alone.
   */
  lemma GlossFillsEmptyBack(row: Row, o: Oracles)
    requires IsEmptyValue(row.back)
    requires !Raises(o.browse(FrontWord(row)))
    requires var hit := FindWorkingAudioUrl(FrontWord(row), o.probeAudio);
      hit.None? || !o.download(hit.value.url)
    ensures ProcessRow(row, o).Some?
    ensures var run := o.browse(FrontWord(row));
      run.Rendered? ==>
        ProcessRow(row, o).value.row.back == OneLookDefinition(run).definition && ProcessRow(row, o).value.glossAdded
    ensures var run := o.browse(FrontWord(row));
      run.PageFailed? ==>
        ProcessRow(row, o).value.row.back == row.back && !ProcessRow(row, o).value.glossAdded
  {
    var lookup := GlossLookup(row, o);
    assert lookup == OneLookDefinition(o.browse(FrontWord(row)));
    assert ProcessRow(row, o) == Some(FinishRow(row, lookup.definition, o.probeAudio, o.probePage, o.download));
  }

  /**
   * After a successful download `Back` ends with the sound tag of the audio
   * URL's file name, which is the name the candidate was built with.
   */
  lemma SoundTagAfterDownload(row: Row, o: Oracles)
    requires ProcessRow(row, o).Some?
    requires var hit := FindWorkingAudioUrl(FrontWord(row), o.probeAudio);
      hit.Some? && o.download(hit.value.url)
    ensures var out := ProcessRow(row, o).value.row;
      && out.back.Some? && out.audio.Some?
      && out.back.value == TagBack(GlossStage(row.back, GlossLookup(row, o).definition), LastSegment(out.audio.value))
      && EndsWith(out.back.value, SoundTag(LastSegment(out.audio.value)))
      && ParseAudioUrl(out.audio.value).Some?
      && ParseAudioUrl(out.audio.value).value.filename == LastSegment(out.audio.value)
  {
    var lookup := GlossLookup(row, o);
    var fin := FinishRow(row, lookup.definition, o.probeAudio, o.probePage, o.download);
    assert ProcessRow(row, o) == Some(fin);
    var hit := FindWorkingAudioUrl(FrontWord(row), o.probeAudio).value;
    assert fin.row.back == Some(TagBack(GlossStage(row.back, lookup.definition), hit.filename));
    assert fin.row.audio == Some(hit.url);
    HitFilenameIsConstructed(FrontWord(row), o.probeAudio);
  }

  /**
   * A failed download after a successful find leaves `Audio` and `DL valid`
   * saying the audio exists while `Back` gets no sound tag.
   */
  lemma DownloadFailureKeepsFind(row: Row, o: Oracles)
    requires ProcessRow(row, o).Some?
    requires var hit := FindWorkingAudioUrl(FrontWord(row), o.probeAudio);
      hit.Some? && !o.download(hit.value.url)
    ensures var out := ProcessRow(row, o).value.row;
      && HasAudio(out)
      && out.audio == Some(FindWorkingAudioUrl(FrontWord(row), o.probeAudio).value.url)
      && out.back == GlossStage(row.back, GlossLookup(row, o).definition)
  {
    var lookup := GlossLookup(row, o);
    assert ProcessRow(row, o) == Some(FinishRow(row, lookup.definition, o.probeAudio, o.probePage, o.download));
  }

  /**
   * A `Back` of " null " is a value, so no gloss is fetched, but once stripped
   * it is a null token, so a successful download replaces it by the tag alone.
   */
  lemma PaddedNullBackReplacedByTag(filename: string)
    ensures !IsEmptyValue(Some(" null "))
    ensures TagBack(Some(" null "), filename) == SoundTag(filename)
  {
    PaddedNullTokenIsValue();
    PaddedNullStrips();
    NullTokensAnyCase();
  }

  function CountAudio(rows: seq<Row>): nat
    decreases |rows|
  {
    if rows == [] then 0 else (if HasAudio(rows[0]) then 1 else 0) + CountAudio(rows[1..])
  }

  function CountDefinitions(rows: seq<Row>): nat
    decreases |rows|
  {
    if rows == [] then 0 else (if HasDefinitionPage(rows[0]) then 1 else 0) + CountDefinitions(rows[1..])
  }

  function CountEmptyBacks(rows: seq<Row>): nat
    decreases |rows|
  {
    if rows == [] then 0 else (if IsEmptyValue(rows[0].back) then 1 else 0) + CountEmptyBacks(rows[1..])
  }

  /** The rows on which a row step reports an added gloss. */
  function CountGlossed(rows: seq<Row>, step: Row -> Option<RowReport>): nat
    decreases |rows|
  {
    if rows == [] then 0
    else (if step(rows[0]).Some? && step(rows[0]).value.glossAdded then 1 else 0) + CountGlossed(rows[1..], step)
  }

  /** The rows whose lookup returns a page. */
  function CountGlosses(rows: seq<Row>, o: Oracles): nat
    decreases |rows|
  {
    if rows == [] then 0 else (if Glossed(rows[0], o) then 1 else 0) + CountGlosses(rows[1..], o)
  }

  /** Over rows that do not raise, the glosses the row loop reports are the rows whose lookup returns a page. */
  lemma {:induction false} CountGlossedRows(rows: seq<Row>, o: Oracles, step: Row -> Option<RowReport>)
    requires forall i :: 0 <= i < |rows| ==>
      step(rows[i]).Some? && (step(rows[i]).value.glossAdded <==> Glossed(rows[i], o))
    ensures CountGlossed(rows, step) == CountGlosses(rows, o)
    decreases |rows|
  {
    if rows != [] {
      assert forall i :: 0 <= i < |rows| - 1 ==> rows[1..][i] == rows[i + 1];
      CountGlossedRows(rows[1..], o, step);
    }
  }

  /** The rows written so far and the counters `successful_audio`, `successful_definitions`, `successful_onelook`. */
  datatype Progress = Progress(rows: seq<Row>, audioFound: nat, definitionsFound: nat, glossesAdded: nat)

  /**
   * What a row outcome promises the loop: `Front` is kept, the flags agree
   * with the columns written, and a gloss is only added where `Back` was empty.
   */
  predicate Counted(row: Row, report: RowReport) {
    && report.row.front == row.front
    && (report.audioFound <==> HasAudio(report.row))
    && (report.definitionFound <==> HasDefinitionPage(report.row))
    && (report.glossAdded ==> IsEmptyValue(row.back))
  }

  /**
   * The row loop over any row step whose outcomes are `Counted`. None when
   * some row raised; otherwise each output row is that row's step alone, and
   * the counters count the output.
   */
  function RunRows(rows: seq<Row>, step: Row -> Option<RowReport>): (r: Option<Progress>)
    requires forall row :: step(row).Some? ==> Counted(row, step(row).value)
    ensures r.None? <==> exists i :: 0 <= i < |rows| && step(rows[i]).None?
    ensures r.Some? ==> |r.value.rows| == |rows|
    ensures r.Some? ==> forall i :: 0 <= i < |rows| ==>
      step(rows[i]).Some? && r.value.rows[i] == step(rows[i]).value.row
    ensures r.Some? ==> forall i :: 0 <= i < |rows| ==> r.value.rows[i].front == rows[i].front
    ensures r.Some? ==> r.value.audioFound == CountAudio(r.value.rows)
    ensures r.Some? ==> r.value.definitionsFound == CountDefinitions(r.value.rows)
    ensures r.Some? ==> r.value.glossesAdded <= CountEmptyBacks(rows)
    ensures r.Some? ==> r.value.glossesAdded == CountGlossed(rows, step)
    decreases |rows|
  {
    if rows == [] then Some(Progress([], 0, 0, 0))
    else
      match step(rows[0])
      case None => None
      case Some(report) =>
        match RunRows(rows[1..], step)
        case None =>
          assert exists i :: 0 <= i < |rows| && step(rows[i]).None? by {
            var j :| 0 <= j < |rows| - 1 && step(rows[1..][j]).None?;
            assert rows[1..][j] == rows[j + 1];
          }
          None
        case Some(rest) =>
          var out := [report.row] + rest.rows;
          RowwiseCons(rows, step, out, rest.rows);
          assert out[1..] == rest.rows;
          Some(Progress(
            out,
            rest.audioFound + (if report.audioFound then 1 else 0),
            rest.definitionsFound + (if report.definitionFound then 1 else 0),
            rest.glossesAdded + (if report.glossAdded then 1 else 0)))
  }

  lemma RowwiseCons(rows: seq<Row>, step: Row -> Option<RowReport>, out: seq<Row>, tail: seq<Row>)
    requires rows != [] && step(rows[0]).Some? && out == [step(rows[0]).value.row] + tail
    requires |tail| == |rows| - 1
    requires forall i :: 0 <= i < |rows| - 1 ==> step(rows[1..][i]).Some? && tail[i] == step(rows[1..][i]).value.row
    ensures forall i :: 0 <= i < |rows| ==> step(rows[i]).Some? && out[i] == step(rows[i]).value.row
  {
    forall i | 0 <= i < |rows| ensures step(rows[i]).Some? && out[i] == step(rows[i]).value.row {
      if i > 0 {
        assert rows[i] == rows[1..][i - 1];
      }
    }
  }

  /** The row loop of `process_csv`: `ProcessRow` on every row, in order, stopping at the first that raises. */
  function ProcessRows(rows: seq<Row>, o: Oracles): (r: Option<Progress>)
    ensures r.None? <==> exists row :: row in rows && Aborts(row, o)
    ensures r.Some? ==> |r.value.rows| == |rows| && Fronts(r.value.rows) == Fronts(rows)
    ensures r.Some? ==> r.value.audioFound == CountAudio(r.value.rows)
    ensures r.Some? ==> r.value.definitionsFound == CountDefinitions(r.value.rows)
    ensures r.Some? ==> r.value.glossesAdded <= CountEmptyBacks(rows)
    ensures r.Some? ==> r.value.glossesAdded == CountGlosses(rows, o)
  {
    ProcessRowCounted(o);
    var step := row => ProcessRow(row, o);
    var r := RunRows(rows, step);
    assert r.None? ==> exists row :: row in rows && Aborts(row, o) by {
      if r.None? {
        var i :| 0 <= i < |rows| && ProcessRow(rows[i], o).None?;
        assert rows[i] in rows;
      }
    }
    if r.Some? then
      FrontsAgree(r.value.rows, rows);
      assert forall i :: 0 <= i < |rows| ==>
        step(rows[i]).Some? && (step(rows[i]).value.glossAdded <==> Glossed(rows[i], o));
      CountGlossedRows(rows, o, step);
      r
    else
      r
  }

  lemma ProcessRowCounted(o: Oracles)
    ensures forall row :: ProcessRow(row, o).Some? ==> Counted(row, ProcessRow(row, o).value)
  {
  }

  lemma FrontsAgree(a: seq<Row>, b: seq<Row>)
    requires |a| == |b| && forall i :: 0 <= i < |a| ==> a[i].front == b[i].front
    ensures Fronts(a) == Fronts(b)
  {
  }

  /** Rows do not interact: every output row is what `ProcessRow` makes of that row alone. */
  lemma ProcessRowsRowwise(rows: seq<Row>, o: Oracles)
    requires ProcessRows(rows, o).Some?
    ensures forall i :: 0 <= i < |rows| ==>
      ProcessRow(rows[i], o).Some? && ProcessRows(rows, o).value.rows[i] == ProcessRow(rows[i], o).value.row
  {
    assert ProcessRows(rows, o) == RunRows(rows, row => ProcessRow(row, o));
  }

  /** The summary printed at the end of a run. */
  datatype Stats = Stats(total: nat, audioFound: nat, definitionsFound: nat, glossesAdded: nat)

  /** How a run ends: nothing to do, an exception that stops it before the table is written, or the written table. */
  datatype RunResult = NoValidWords | Crashed | Completed(table: seq<Row>, stats: Stats)

  /** The `Front` column of a table. */
  function Fronts(rows: seq<Row>): seq<Option<string>> {
    seq(|rows|, i requires 0 <= i < |rows| => rows[i].front)
  }

  /** `HasFront` depends on `Front` alone, so tables with the same `Front` column pass the filter alike. */
  lemma SameFrontsSameFilter(a: seq<Row>, b: seq<Row>)
    requires Fronts(a) == Fronts(b)
    requires forall row :: row in b ==> HasFront(row)
    ensures forall row :: row in a ==> HasFront(row)
  {
    forall row | row in a ensures HasFront(row) {
      var i :| 0 <= i < |a| && a[i] == row;
      assert Fronts(a)[i] == Fronts(b)[i];
      assert b[i] in b;
    }
  }

  /** A kept row that aborts is a row of the table with a headword that aborts. */
  lemma KeptRowsAbort(table: seq<Row>, o: Oracles)
    ensures (exists row :: row in FilterFront(table) && Aborts(row, o)) <==>
      exists row :: row in table && HasFront(row) && Aborts(row, o)
  {
    FilterFrontKeeps(table);
  }

  /**
   * `process_csv` once the table is read: no run without a headword, a crash
   * as soon as a kept row aborts, otherwise the kept rows in their order with
   * the counters of the summary.
   */
  function ProcessCsv(table: seq<Row>, o: Oracles): (r: RunResult)
    ensures r.NoValidWords? <==> forall row :: row in table ==> !HasFront(row)
    ensures r.Crashed? <==> exists row :: row in table && HasFront(row) && Aborts(row, o)
    ensures r.Completed? ==>
      && |r.table| == r.stats.total == |FilterFront(table)|
      && Fronts(r.table) == Fronts(FilterFront(table))
      && (forall row :: row in r.table ==> HasFront(row))
      && r.stats.audioFound == CountAudio(r.table)
      && r.stats.definitionsFound == CountDefinitions(r.table)
      && r.stats.glossesAdded <= CountEmptyBacks(FilterFront(table))
      && r.stats.glossesAdded == CountGlosses(FilterFront(table), o)
  {
    var kept := FilterFront(table);
    FilterFrontKeeps(table);
    KeptRowsAbort(table, o);
    if |kept| == 0 then NoValidWords
    else
      match ProcessRows(kept, o)
      case None => Crashed
      case Some(progress) =>
        SameFrontsSameFilter(progress.rows, kept);
        Completed(progress.rows, Stats(|kept|, progress.audioFound, progress.definitionsFound, progress.glossesAdded))
  }

  /** Each written row is what `ProcessRow` makes of the kept row at the same position. */
  lemma ProcessCsvRowwise(table: seq<Row>, o: Oracles)
    requires ProcessCsv(table, o).Completed?
    ensures var out := ProcessCsv(table, o).table;
      var kept := FilterFront(table);
      |out| == |kept| &&
      forall i :: 0 <= i < |out| ==> ProcessRow(kept[i], o).Some? && out[i] == ProcessRow(kept[i], o).value.row
  {
    var kept := FilterFront(table);
    assert ProcessCsv(table, o).table == ProcessRows(kept, o).value.rows;
    ProcessRowsRowwise(kept, o);
  }

  /** Nothing found: every probe fails, so the row is marked as having neither audio nor page. */
  lemma NothingFound(row: Row, o: Oracles)
    requires !IsEmptyValue(row.back)
    requires forall u :: !o.probeAudio(u) && !o.probePage(u)
    ensures ProcessRow(row, o) ==
      Some(RowReport(row.(audio := Some(""), definition := Some(""), dlValid := Some(false)), false, false, false))
  {
    assert GlossLookup(row, o) == Returned(None);
    assert ProcessRow(row, o) == Some(FinishRow(row, None, o.probeAudio, o.probePage, o.download));
    assert FindWorkingAudioUrl(FrontWord(row), o.probeAudio).None?;
  }

  /** A word already in URL form is its own headword, normalised word and page name. */
  lemma CleanWordIsItself(w: string)
    requires w != "" && IsCleanWord(w)
    ensures Strip(w) == w
    ensures CleanWordForUrl(w) == w
    ensures DefinitionUrl(w) == DefinitionDir + "/" + w
  {
    CleanWordStripped(w);
    CleanFixedPoints(w);
    assert DefinitionUrl(w) == DefinitionDir + "/" + CleanWordForUrl(w);
  }

  lemma CleanWordStripped(w: string)
    requires w != "" && IsCleanWord(w)
    ensures Strip(w) == w
  {
    assert IsCleanChar(w[0]) && IsCleanChar(w[|w| - 1]);
    assert Bounded(w);
  }

  /** The plain US `.mp3` candidate of a normalised word: the second one probed. */
  function UsMp3Ref(w: string): AudioRef {
    AudioRef(UsMp3, WordShard(w), w + "__us_1.mp3")
  }

  /**
   * A prober that answers only for the plain US `.mp3` finds it, after
   * rejecting the `.ogg` before it, and reports the file name it was built with.
   */
  lemma UsMp3Hit(w: string, probe: string -> bool)
    requires w != "" && IsCleanWord(w)
    requires forall u :: probe(u) <==> u == Render(UsMp3Ref(w))
    ensures FindWorkingAudioUrl(w, probe) == Some(AudioHit(Render(UsMp3Ref(w)), w + "__us_1.mp3"))
  {
    UsMp3Second(w);
    var urls := CandidateUrls(w);
    assert probe(urls[1]) && !probe(urls[0]);
    var hit := FindWorkingAudioUrl(w, probe).value;
    assert hit.url == urls[1];
  }

  /** The plain US `.mp3` is the second candidate, after the `.ogg` that differs from it. */
  lemma UsMp3Second(w: string)
    requires w != "" && IsCleanWord(w)
    ensures |CandidateUrls(w)| == 9
    ensures CandidateUrls(w)[1] == Render(UsMp3Ref(w))
    ensures CandidateUrls(w)[0] != CandidateUrls(w)[1]
    ensures LastSegment(CandidateUrls(w)[1]) == w + "__us_1.mp3"
  {
    CleanWordIsItself(w);
    var refs := CandidateRefs(w);
    var urls := CandidateUrls(w);
    assert urls == RenderAll(refs);
    assert refs[1] == UsMp3Ref(w);
    assert refs[0].collection == UsOgg != UsMp3 == refs[1].collection;
    CandidateUrlsParse(w);
    assert ParseAudioUrl(urls[0]) != ParseAudioUrl(urls[1]);
  }

  /** A stripped, non-null gloss is kept in front of the tag. */
  lemma TagAfterGloss(gloss: string, filename: string)
    requires gloss != "" && Bounded(gloss) && !IsEmptyValue(Some(gloss))
    ensures TagBack(Some(gloss), filename) == gloss + " " + SoundTag(filename)
  {
  }

  /** A row holding only a headword. */
  function HeadwordRow(w: string): Row {
    Row(Some(w), None, None, None, None, [])
  }

  /** The columns a fully successful row ends with. */
  function FoundReport(w: string, gloss: string): RowReport {
    RowReport(
      Row(Some(w), Some(gloss + " " + SoundTag(w + "__us_1.mp3")), Some(Render(UsMp3Ref(w))),
          Some(DefinitionDir + "/" + w), Some(true), []),
      true, true, true)
  }

  lemma FoundLookup(w: string, gloss: string, o: Oracles)
    requires w != "" && IsCleanWord(w)
    requires gloss != "" && Bounded(gloss)
    requires o.browse(w) == Rendered(InBrief([TextNode(gloss)]))
    ensures FrontWord(HeadwordRow(w)) == w
    ensures GlossLookup(HeadwordRow(w), o) == Returned(Some(gloss))
  {
    CleanWordIsItself(w);
    SingleTextGloss(gloss);
  }

  /** What the three calls after the lookup answer for a word in URL form. */
  lemma FoundCalls(w: string, o: Oracles)
    requires w != "" && IsCleanWord(w)
    requires forall u :: o.probeAudio(u) <==> u == Render(UsMp3Ref(w))
    requires o.probePage(DefinitionDir + "/" + w)
    requires o.download(Render(UsMp3Ref(w)))
    ensures FindWorkingAudioUrl(w, o.probeAudio) == Some(AudioHit(Render(UsMp3Ref(w)), w + "__us_1.mp3"))
    ensures DefinitionUrl(w) == DefinitionDir + "/" + w
    ensures CheckDefinitionUrl(DefinitionDir + "/" + w, o.probePage)
    ensures DownloadAudio(Render(UsMp3Ref(w)), o.download)
  {
    UsMp3Hit(w, o.probeAudio);
    CleanWordIsItself(w);
    assert MediaDir + "/" <= Render(UsMp3Ref(w));
  }

  lemma FoundOutcomes(w: string, gloss: string)
    requires gloss != "" && Bounded(gloss) && !IsEmptyValue(Some(gloss))
    ensures ApplyOutcomes(HeadwordRow(w), Some(gloss), Some(AudioHit(Render(UsMp3Ref(w)), w + "__us_1.mp3")),
      DefinitionDir + "/" + w, true, true) == FoundReport(w, gloss)
  {
    TagAfterGloss(gloss, w + "__us_1.mp3");
  }

  lemma FoundFinish(w: string, gloss: string, o: Oracles)
    requires w != "" && IsCleanWord(w)
    requires gloss != "" && Bounded(gloss) && !IsEmptyValue(Some(gloss))
    requires FrontWord(HeadwordRow(w)) == w
    requires forall u :: o.probeAudio(u) <==> u == Render(UsMp3Ref(w))
    requires o.probePage(DefinitionDir + "/" + w)
    requires o.download(Render(UsMp3Ref(w)))
    ensures FinishRow(HeadwordRow(w), Some(gloss), o.probeAudio, o.probePage, o.download) == FoundReport(w, gloss)
  {
    FoundCalls(w, o);
    FoundOutcomes(w, gloss);
  }

  /**
   * A fully successful row, for any word already in URL form (such as "apple"):
   * an empty `Back` gets the gloss and then the sound tag, `Audio` the found
   * URL, `Definition` the page, `DL valid` true, and all three counters move.
   */
  lemma FoundRow(w: string, gloss: string, o: Oracles)
    requires w != "" && IsCleanWord(w)
    requires gloss != "" && Bounded(gloss) && !IsEmptyValue(Some(gloss))
    requires o.browse(w) == Rendered(InBrief([TextNode(gloss)]))
    requires forall u :: o.probeAudio(u) <==> u == Render(UsMp3Ref(w))
    requires o.probePage(DefinitionDir + "/" + w)
    requires o.download(Render(UsMp3Ref(w)))
    ensures ProcessRow(HeadwordRow(w), o) == Some(FoundReport(w, gloss))
  {
    FoundLookup(w, gloss, o);
    FoundFinish(w, gloss, o);
  }
}
