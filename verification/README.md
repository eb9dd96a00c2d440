# Anki audio fetcher: a Dafny model of its core

The fetcher reads a flashcard table with a `Front` word column. For every
word it:

- fills an empty `Back` with the in-brief gloss from OneLook;
- guesses the Oxford Learner's Dictionaries audio URLs and probes them in
  order;
- probes the Oxford definition page;
- writes the `Audio`, `Definition` and `DL valid` columns;
- downloads the first audio file found and appends an Anki `[sound:…]` tag
  to `Back`.

The model covers the deterministic part of that work:

- word normalisation (`clean_word_for_url`, `safe_segment`);
- the nine candidate URLs and the definition URL;
- the first-success scan of `find_working_audio_url`;
- `is_empty_value`;
- the sibling walk that builds the gloss in `get_onelook_definition_selenium`;
- the `process_csv` row loop, with its `Front` filter and its counters.

Everything that touches the outside world is a parameter, in `Oracles`:

- the Chrome session, as the page the walk sees or the way it failed;
- `try_url`;
- the GET of `check_definition_url`;
- the download.

Modules, one per file:

- `Wrappers`: `Option`.
- `Text`: the Python string builtins the program relies on (`strip`, `lower`, `split`, `join`, `ljust`, `endswith`, `\s`, `\w`).
- `Normalize`: `clean_word_for_url` and `safe_segment`.
- `Urls`: the candidate URLs, a parser that reads an audio URL back into collection, shard and file name, and the definition URL with its own parser.
- `Discovery`: `find_working_audio_url`.
- `Cells`: `is_empty_value`.
- `Gloss`: the sibling walk, as written and corrected, and `get_onelook_definition_selenium` over one browser session, using the walk as written.
- `Pipeline`: the row, the filter, the row loop and the result of a run.

A cell is an `Option<string>`, where `None` is a NaN or missing cell. Each URL
builder has a partner:

- `ParseAudioUrl` inverts rendering of the audio URLs, and `ParseDefinitionUrl` inverts the definition URL.
- `Join(NonEmptyFragments(…), " ")` is the reference the gloss walk is proved against. The loop as written meets it whenever no sibling element is empty.
- `FirstAccepted` is the reference for the probing loop.
- The `Counted` predicate is what each row outcome promises the counters.

## Model

| member | source | states |
|---|---|---|
| Text.Strip | anki_audio_fetcher_with_translations.py:130 | `str.strip()`: the result neither starts nor ends with whitespace (the full Python `isspace` set), an already stripped string is unchanged, and the result is empty exactly when the input is all whitespace |
| Text.StripSlice | anki_audio_fetcher_with_translations.py:130 | `strip()` keeps one contiguous slice of the input, starting where `lstrip()` stops, and everything before and after that slice is whitespace |
| Text.StripUnique | anki_audio_fetcher_with_translations.py:130 | any non-empty slice that neither starts nor ends with whitespace and has only whitespace around it is exactly what `strip()` returns |
| Text.StripLower | anki_audio_fetcher_with_translations.py:130 | `strip().lower()` equals `lower().strip()` |
| Text.StripIdempotent | anki_audio_fetcher_with_translations.py:351 | stripping a stripped `Back` again changes nothing |
| Text.SplitJoin | anki_audio_fetcher_with_translations.py:195 | splitting a `/`-join of slash-free parts at `/` gives the parts back |
| Text.JoinSplit | anki_audio_fetcher_with_translations.py:195 | joining the pieces of `split('/')` with `/` gives the string back |
| Text.LastSegmentAfterSlash | anki_audio_fetcher_with_translations.py:195 | `url.split('/')[-1]` of `a/b` is `b` when `b` has no slash |
| Normalize.CleanWordForUrl | anki_audio_fetcher_with_translations.py:125-135 | the normalised word holds only lower-case ASCII letters, digits and `_` |
| Normalize.CleanWordShape | anki_audio_fetcher_with_translations.py:130-134 | the normalised word has no whitespace, no hyphen, no upper-case letter and no slash |
| Normalize.CleanFixedPoints | anki_audio_fetcher_with_translations.py:125-135 | normalisation leaves a word unchanged if and only if the word is already made of lower-case letters, digits and `_` |
| Normalize.CleanIdempotent | anki_audio_fetcher_with_translations.py:125-135 | normalising twice is normalising once |
| Normalize.CleanStripFirst | anki_audio_fetcher_with_translations.py:130 | normalisation sees only the stripped word: a word and its `strip()` normalise alike |
| Normalize.CleanTrims | anki_audio_fetcher_with_translations.py:130-135 | a normalised word with any whitespace on either side normalises to itself |
| Normalize.KeepConcat | anki_audio_fetcher_with_translations.py:134 | `re.sub(r'[^\w_]', '', s)` works character by character: on a concatenation it is the concatenation of the parts' results |
| Normalize.CleanDropsNonWord | anki_audio_fetcher_with_translations.py:130-135 | characters that are neither word characters nor separators are deleted, and the normalised words on either side close up (`don't` gives `dont`) |
| Normalize.CleanLowers | anki_audio_fetcher_with_translations.py:130-135 | a word and its lower-case form normalise to the same word |
| Normalize.CleanCollapsesRun | anki_audio_fetcher_with_translations.py:130-135 | two normalised words joined by any non-empty run of whitespace and hyphens normalise to the two words joined by exactly one `_` |
| Normalize.CollapseInk | anki_audio_fetcher_with_translations.py:132 | in `re.sub(r'[\s\-]+', '_', s)`, a leading stretch without separators is copied unchanged |
| Normalize.CollapseRun | anki_audio_fetcher_with_translations.py:132 | a leading run of separators becomes one `_`, and no second `_` follows within the same run |
| Normalize.SafeSegment | anki_audio_fetcher_with_translations.py:109-113 | exactly `length` characters: the word's first `min(length, len(word))` characters, then `_` padding (all `_` for the empty word) |
| Urls.RenderParse | anki_audio_fetcher_with_translations.py:153 | an audio URL built from slash-free parts parses back to exactly those parts, and its last segment is the file name |
| Urls.CandidateUrls | anki_audio_fetcher_with_translations.py:137-185 | no candidates exactly when the word normalises to nothing, otherwise nine |
| Urls.CandidateRefsTable | anki_audio_fetcher_with_translations.py:147-180 | the nine candidates in probing order: `us_pron_ogg` `__us_1.ogg`, `us_pron` `__us_1.mp3`, `__us_1_rr.mp3`, `us_pron_ogg` `__us_1_rr.ogg`, `us_pron` `__us_1/2/3.mp3`, `uk_pron` `__gb_1.mp3`, all under shard `w[0]/seg3/seg5`; then `us_pron` `x{w}__us_1.mp3` under `x/x+seg3/x+seg5` |
| Urls.CandidateUrlsParse | anki_audio_fetcher_with_translations.py:151-180 | every candidate URL parses back into the candidate it was built from, and its last segment is that candidate's file name |
| Urls.CandidateRefsWellFormed | anki_audio_fetcher_with_translations.py:147-180 | no part of any candidate of a normalised word contains a slash |
| Urls.CandidatesUnderMedia | anki_audio_fetcher_with_translations.py:153-180 | every candidate lies under `…/media/english/`, so none is empty |
| Urls.CandidateRefsRepeat | anki_audio_fetcher_with_translations.py:156-170 | the `n = 1` entry of the numbered loop repeats the plain `__us_1.mp3` candidate |
| Urls.DuplicateCandidate | anki_audio_fetcher_with_translations.py:156-170 | candidate URL 5 equals candidate URL 2 |
| Urls.CandidateFilenames | anki_audio_fetcher_with_translations.py:195 | the last segment of each candidate URL is the file name its parse reports |
| Urls.DefinitionUrl | anki_audio_fetcher_with_translations.py:198-203 | empty exactly for an empty word; otherwise it parses back to exactly the normalised word (which may be empty), and its last segment is that word |
| Urls.DefinitionParseRender | anki_audio_fetcher_with_translations.py:203 | a URL that parses to `w` is exactly `…/definition/english/` followed by `w`, so the definition URL is pinned down character for character |
| Discovery.FirstAccepted | anki_audio_fetcher_with_translations.py:193-196 | the index of the first URL the prober accepts, none before it accepted; none at all exactly when no URL is accepted |
| Discovery.FirstAcceptedShortCircuits | anki_audio_fetcher_with_translations.py:193-195 | probes after the first success are never made: another prober that agrees up to that index finds the same one |
| Discovery.FindWorkingAudioUrl | anki_audio_fetcher_with_translations.py:187-196 | no hit exactly when no candidate is accepted (also for the empty word); a hit is the first accepted candidate, lies under the media directory, and its file name is the URL's last segment |
| Discovery.HitFilenameIsConstructed | anki_audio_fetcher_with_translations.py:195 | the file name reported with a hit is the file name the candidate was built with |
| Discovery.Scan | anki_audio_fetcher_with_translations.py:193-196 | the probing loop returns what `FirstAccepted` returns and probes exactly the URLs up to and including the hit, or all of them |
| Discovery.ProbeCandidates | anki_audio_fetcher_with_translations.py:187-196 | the URLs probed are a prefix of the candidates, all rejected but the last one, which is the hit; with no hit every candidate was probed |
| Cells.IsEmptyValueCharacterized | anki_audio_fetcher_with_translations.py:243-253 | a cell is empty if and only if it is NaN/None, all whitespace, or, without trimming, `nan`/`none`/`null` in lower case |
| Cells.IsEmptyValueIgnoresCase | anki_audio_fetcher_with_translations.py:251 | lower-casing a value never changes whether it is empty |
| Cells.CellTextKeepsEmptiness | anki_audio_fetcher_with_translations.py:245-251 | `str(value)` of a cell (`nan` for NaN) is empty exactly when the cell is |
| Cells.PaddedNullTokensAreValues | anki_audio_fetcher_with_translations.py:249-253 | the null-token test lower-cases without trimming: a null token in any case, with whitespace on at least one side, is a value, while its stripped form is empty |
| Gloss.ElementText | anki_audio_fetcher_with_translations.py:68 | `get_text(strip=True)` never starts or ends with whitespace |
| Gloss.StepAppends | anki_audio_fetcher_with_translations.py:59-72 | one corrected step appends the sibling's text after one space, or after nothing at the start, and skips a sibling without text |
| Gloss.FoldJoins | anki_audio_fetcher_with_translations.py:58-72 | the corrected walk keeps `definition` equal to the single-space join of the non-empty sibling texts seen so far |
| Gloss.GlossText | anki_audio_fetcher_with_translations.py:54-73 | the corrected gloss is the non-empty sibling texts, in order, joined by single spaces |
| Gloss.GlossAsWrittenJoins | anki_audio_fetcher_with_translations.py:58-73 | with no empty element among the siblings, the loop as written gives the same single-space join |
| Gloss.EmptyElementDoubleSpace | anki_audio_fetcher_with_translations.py:60-73 | as written, text `x`, an empty element, then text `y` give `x  y` with two spaces |
| Gloss.EmptyElementSingleSpace | anki_audio_fetcher_with_translations.py:60-73 | the corrected walk gives `x y` on the same siblings |
| Gloss.EmptyElementDiverges | anki_audio_fetcher_with_translations.py:60-73 | the two walks disagree on every such input |
| Gloss.OneLookDefinition | anki_audio_fetcher_with_translations.py:32-85 | raises exactly when the driver cannot start or `driver.quit()` fails; returns None exactly on an error caught in the page; never returns the empty string; returns the gloss of the loop as written when some sibling after the title has text, which is the single-space join of the sibling texts when no sibling element is empty; otherwise `Definition not found.` |
| Gloss.GlossAsWrittenEmpty | anki_audio_fetcher_with_translations.py:58-77 | the loop as written leaves `definition` empty after `strip()` exactly when no sibling after the title has text |
| Gloss.FoldInk | anki_audio_fetcher_with_translations.py:58-72 | from any state, the loop as written ends with only whitespace exactly when it started with only whitespace and no sibling has text |
| Gloss.EmptyElementLookup | anki_audio_fetcher_with_translations.py:54-79 | the function returns `x  y`, with two spaces, for text `x`, an empty element, then text `y` |
| Gloss.SingleTextGloss | anki_audio_fetcher_with_translations.py:54-79 | a box whose only sibling is a stripped text gives that text |
| Pipeline.FilterFrontKeeps | anki_audio_fetcher_with_translations.py:267-270 | the filter keeps exactly the rows whose `Front` is present and not blank, and it is empty exactly when no row has one |
| Pipeline.FilterFrontConcat | anki_audio_fetcher_with_translations.py:269 | the filter keeps order: filtering a concatenation concatenates the filtered parts |
| Pipeline.FilterFrontIdempotent | anki_audio_fetcher_with_translations.py:269 | filtering a filtered table changes nothing |
| Pipeline.TagBack | anki_audio_fetcher_with_translations.py:351-356 | the new `Back` ends with `[sound:file]`; it is the tag alone exactly when the stripped old `Back` is empty-valued, and otherwise the stripped old `Back`, one space, then the tag |
| Pipeline.FinishRow | anki_audio_fetcher_with_translations.py:315-358 | `Audio` is the found URL or `""`, `DL valid` says whether one was found, `Definition` is the page URL when its probe succeeds or `""`, `Front` and the other columns are kept, and the row's flags agree with the columns |
| Pipeline.ProcessRow | anki_audio_fetcher_with_translations.py:289-358 | the row raises exactly when `Back` is empty and the browser cannot start or cannot quit; otherwise the same column facts as `FinishRow`, the row outcome is `Counted`, and a gloss is counted exactly when `Back` was empty and the lookup rendered the page |
| Pipeline.GlossFetchedOnlyWhenEmpty | anki_audio_fetcher_with_translations.py:295-313 | with a non-empty `Back` the browser is never asked: any browser gives the same row |
| Pipeline.BackKeptWhenFilled | anki_audio_fetcher_with_translations.py:295-313 | a non-empty `Back` with no download stays verbatim, and no gloss is counted |
| Pipeline.GlossFillsEmptyBack | anki_audio_fetcher_with_translations.py:296-311 | an empty `Back` takes the lookup's answer, placeholder included, and counts a gloss; a lookup that failed inside the page leaves `Back` alone and counts nothing |
| Pipeline.SoundTagAfterDownload | anki_audio_fetcher_with_translations.py:346-356 | after a download `Back` is `TagBack` of the post-gloss `Back` and ends with the tag of the audio URL's last segment, which is the constructed file name |
| Pipeline.DownloadFailureKeepsFind | anki_audio_fetcher_with_translations.py:341-358 | a failed download leaves `Back` as the gloss stage left it, while `Audio` and `DL valid` still record the find |
| Pipeline.PaddedNullBackReplacedByTag | anki_audio_fetcher_with_translations.py:351-356 | a `Back` of `" null "` counts as a value, so no gloss is fetched, yet the tag replaces it, because it is a null token once stripped |
| Pipeline.NothingFound | anki_audio_fetcher_with_translations.py:323-343 | when every probe fails, a filled row gets `Audio` `""`, `Definition` `""`, `DL valid` false, and advances no counter |
| Pipeline.RunRows | anki_audio_fetcher_with_translations.py:285-358 | the loop stops exactly when some row raises; otherwise each output row is that row's own outcome, `Front` is kept, the audio and definition counters count the output rows, and the gloss counter counts the rows whose step reports a gloss, at most the empty `Back`s |
| Pipeline.CountGlossedRows | anki_audio_fetcher_with_translations.py:296-308 | when every row's step reports a gloss exactly for a rendered lookup on an empty `Back`, the reported glosses are the rows with such a lookup |
| Pipeline.RowwiseCons | anki_audio_fetcher_with_translations.py:289 | one more row in front keeps the output row-for-row |
| Pipeline.ProcessRows | anki_audio_fetcher_with_translations.py:289-358 | the loop crashes exactly when some row aborts; otherwise the same number of rows in the same `Front` order, with the audio and definition counters counting the output, and `successful_onelook` equal to the number of rows with an empty `Back` whose lookup rendered the page |
| Pipeline.ProcessRowsRowwise | anki_audio_fetcher_with_translations.py:289-358 | rows do not interact: each output row is `ProcessRow` of that input row alone |
| Pipeline.SameFrontsSameFilter | anki_audio_fetcher_with_translations.py:269 | tables with the same `Front` column pass the filter alike |
| Pipeline.KeptRowsAbort | anki_audio_fetcher_with_translations.py:389-391 | a kept row aborts if and only if some row of the table has a headword and aborts |
| Pipeline.ProcessCsv | anki_audio_fetcher_with_translations.py:267-381 | no run exactly when no row has a `Front`; a crash exactly when a kept row aborts; otherwise the kept rows in order, all with a headword, the total is their number, the audio and definition counters count the written rows, and the gloss counter is the number of kept rows with an empty `Back` whose lookup rendered the page |
| Pipeline.ProcessCsvRowwise | anki_audio_fetcher_with_translations.py:269-358 | each written row is what the loop body makes of the kept row at the same position |
| Pipeline.CleanWordIsItself | anki_audio_fetcher_with_translations.py:198-203 | a word already in URL form is its own stripped headword, its own normalised word and its own page name |
| Pipeline.UsMp3Second | anki_audio_fetcher_with_translations.py:151-157 | the plain US `.mp3` is the second candidate, distinct from the `.ogg` before it, and its last segment is `w__us_1.mp3` |
| Pipeline.UsMp3Hit | anki_audio_fetcher_with_translations.py:187-196 | a prober that serves only the plain US `.mp3` has it found, with file name `w__us_1.mp3` |
| Pipeline.TagAfterGloss | anki_audio_fetcher_with_translations.py:351-354 | a stripped, non-null gloss stays in front of the tag |
| Pipeline.FoundRow | anki_audio_fetcher_with_translations.py:289-358 | for a word in URL form whose gloss, audio, page and download all succeed, the row gets gloss plus tag in `Back`, the audio URL, the page URL, `DL valid` true, and moves all three counters |

## Left out

- HTTP (`try_url`, the GET in `check_definition_url`, streaming and writing the file in `download_audio`): these are oracles that answer true or false per URL. The empty-URL guards are modelled.
- Selenium, ChromeDriver and BeautifulSoup: a session is given by what the walk sees of the page (`BrowserRun`, `PageView`, `Sibling`). Comments and the other `NavigableString` subclasses take the text branch at line 60 and are modelled as `TextNode`; their text enters the gloss.
- `get_human_headers`, `random.uniform` and `time.sleep`: the pacing has no effect on the output. So has its `index < total_words - 1` test, which compares a label of the filtered frame with a position.
- pandas reading and writing, adding missing columns, logging, printed progress and `argparse`: the table is a sequence of `Row` values with the five columns and the other columns carried along.
- The `FileNotFoundError` and `EmptyDataError` branches belong to reading the file. They are outside the model. `Crashed` stands for the generic handler, which reports and writes nothing.
- Normalize.CleanWordForUrl: `\w` and `lower()` are modelled on ASCII only. Python's `\w` also keeps non-ASCII letters and digits, and `lower()` maps non-ASCII capitals.
- Cells.IsEmptyValueCharacterized: cells are strings or missing. Numeric and boolean cells, and their `str()` forms, are not modelled.
- Urls.CandidateUrls: the code builds nine candidates, the fifth repeating the second (lines 147-180), and the model states exactly those nine. The `try`/`except` around the construction cannot fire on a non-empty normalised word and is not modelled.
- Pipeline.ProcessRow: the driver is created at line 40, outside the function's `try`, and `driver.quit()` runs in the `finally` at lines 84-85. So a driver that cannot start, or a quit that raises, propagates into the generic handler of `process_csv` (line 389) and ends the whole run. Which exception the browser raises is not modelled, only that it raised.
- Pipeline.FoundRow: the success scenario is stated for every word already in URL form, such as "apple", rather than for one literal word.

## Findings

| source | as written | input that shows it | evidently intended | confidence | as-written member | corrected member |
|---|---|---|---|---|---|---|
| anki_audio_fetcher_with_translations.py:67-72 | an element whose text is empty still runs the separator logic: a space is appended after the previous text, and `prev_ended_with_space` becomes false, so the next string node adds another space | siblings after the title: text `a`, an empty element such as `<br/>`, text `b`; the gloss is `a  b` | non-empty sibling texts joined by single spaces, as the loop does when no element is empty | not executed | Gloss.EmptyElementDoubleSpace | Gloss.EmptyElementSingleSpace |
