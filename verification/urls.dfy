/**
 * The Oxford Learner's Dictionaries URLs: the sharded audio candidates of
 * `construct_candidate_urls` and the page of `construct_definition_url`,
 * together with a parser that reads an audio URL back into its parts.
 */
module Urls {
  import opened Wrappers
  import opened Text
  import opened Normalize

  const OxfordHost := "https://www.oxfordlearnersdictionaries.com"
  /** Audio files live under `{MediaDir}/{collection}/{letter}/{prefix3}/{prefix5}/{filename}`. */
  const MediaDir := OxfordHost + "/media/english"
  const DefinitionDir := OxfordHost + "/definition/english"

  /** The three media collections the candidates are drawn from. */
  const UsOgg := "us_pron_ogg"
  const UsMp3 := "us_pron"
  const UkMp3 := "uk_pron"

  /** The directory nesting the site buckets audio by. */
  datatype Shard = Shard(letter: string, prefix3: string, prefix5: string)

  /** One candidate audio file, before it is written out as a URL. */
  datatype AudioRef = AudioRef(collection: string, shard: Shard, filename: string)

  function Parts(a: AudioRef): seq<string> {
    [a.collection, a.shard.letter, a.shard.prefix3, a.shard.prefix5, a.filename]
  }

  /** No part holds a slash, so the parts survive as path segments. */
  predicate WellFormed(a: AudioRef) {
    forall i :: 0 <= i < |Parts(a)| ==> '/' !in Parts(a)[i]
  }

  /** The URL of one candidate. */
  function Render(a: AudioRef): string {
    MediaDir + "/" + Join(Parts(a), "/")
  }

  /** Reads an audio URL back into its collection, shard and filename. */
  function ParseAudioUrl(url: string): Option<AudioRef> {
    var root := MediaDir + "/";
    if |root| <= |url| && url[..|root|] == root then
      var parts := Split(url[|root|..], '/');
      if |parts| == 5 then Some(AudioRef(parts[0], Shard(parts[1], parts[2], parts[3]), parts[4]))
      else None
    else None
  }

  /** Rendering and parsing are inverse; the URL's last segment is the filename. */
  lemma RenderParse(a: AudioRef)
    requires WellFormed(a)
    ensures ParseAudioUrl(Render(a)) == Some(a)
    ensures LastSegment(Render(a)) == a.filename
  {
    var root := MediaDir + "/";
    var path := Join(Parts(a), "/");
    assert Render(a) == root + path;
    assert (root + path)[..|root|] == root;
    assert (root + path)[|root|..] == path;
    SplitJoin(Parts(a), '/');
    assert Render(a) == MediaDir + ['/'] + path;
    SplitConcat(MediaDir, '/', path);
  }

  /** `part1 = word_clean[0] if word_clean else 'a'`. */
  function FirstLetter(w: string): string {
    if w != "" then [w[0]] else "a"
  }

  function Digit(n: nat): char
    requires n <= 9
  {
    ('0' as int + n) as char
  }

  /** `__us_{n}.mp3`, the file-name tail of the `for n in range(1, 4)` entries. */
  function NumberedSuffix(n: nat): string
    requires 1 <= n <= 3
  {
    "__us_" + [Digit(n)] + ".mp3"
  }

  lemma NumberedSuffixValues()
    ensures NumberedSuffix(1) == "__us_1.mp3"
    ensures NumberedSuffix(2) == "__us_2.mp3"
    ensures NumberedSuffix(3) == "__us_3.mp3"
  {
  }

  /** The shard of the first eight candidates: first letter, 3- and 5-character prefixes. */
  function WordShard(w: string): Shard {
    Shard(FirstLetter(w), SafeSegment(w, 3), SafeSegment(w, 5))
  }

  /** The shard of the derived-word candidate: `x`, `x` + prefix3, `x` + prefix5. */
  function DerivedShard(w: string): Shard {
    Shard("x", "x" + SafeSegment(w, 3), "x" + SafeSegment(w, 5))
  }

  /** The candidates for a normalised word, in probing order (entries 5 to 7 are the numbered loop). */
  function CandidateRefs(w: string): seq<AudioRef> {
    var shard := WordShard(w);
    [ AudioRef(UsOgg, shard, w + "__us_1.ogg"),
      AudioRef(UsMp3, shard, w + "__us_1.mp3"),
      AudioRef(UsMp3, shard, w + "__us_1_rr.mp3"),
      AudioRef(UsOgg, shard, w + "__us_1_rr.ogg"),
      AudioRef(UsMp3, shard, w + NumberedSuffix(1)),
      AudioRef(UsMp3, shard, w + NumberedSuffix(2)),
      AudioRef(UsMp3, shard, w + NumberedSuffix(3)),
      AudioRef(UkMp3, shard, w + "__gb_1.mp3"),
      AudioRef(UsMp3, DerivedShard(w), "x" + w + "__us_1.mp3") ]
  }

  /** Entry 5 (`n = 1` of the numbered loop) repeats entry 2. */
  lemma CandidateRefsRepeat(w: string)
    ensures CandidateRefs(w)[4] == CandidateRefs(w)[1]
  {
    NumberedSuffixValues();
  }

  function RenderAll(refs: seq<AudioRef>): (urls: seq<string>)
    ensures |urls| == |refs|
    ensures forall i :: 0 <= i < |refs| ==> urls[i] == Render(refs[i])
  {
    seq(|refs|, i requires 0 <= i < |refs| => Render(refs[i]))
  }

  /** `construct_candidate_urls`: no candidates for a word that normalises to nothing, nine otherwise. */
  function CandidateUrls(word: string): (urls: seq<string>)
    ensures |urls| == 0 <==> CleanWordForUrl(word) == ""
    ensures |urls| != 0 ==> |urls| == 9
  {
    var w := CleanWordForUrl(word);
    if w == "" then [] else RenderAll(CandidateRefs(w))
  }

  /** Every candidate lies under the media directory, so none is empty. */
  lemma CandidatesUnderMedia(word: string, i: nat)
    requires i < |CandidateUrls(word)|
    ensures MediaDir + "/" <= CandidateUrls(word)[i]
  {
    var refs := CandidateRefs(CleanWordForUrl(word));
    assert CandidateUrls(word)[i] == MediaDir + "/" + Join(Parts(refs[i]), "/");
  }

  /** The numbered loop's first entry duplicates the plain `.mp3` candidate. */
  lemma DuplicateCandidate(word: string)
    requires CleanWordForUrl(word) != ""
    ensures CandidateUrls(word)[4] == CandidateUrls(word)[1]
  {
    CandidateRefsRepeat(CleanWordForUrl(word));
  }

  lemma NoSlashInSegment(w: string, n: nat)
    requires '/' !in w
    ensures '/' !in SafeSegment(w, n)
  {
    var s := SafeSegment(w, n);
    var k := Min(n, |w|);
    forall i | 0 <= i < n
      ensures s[i] != '/'
    {
      if i < k {
        assert s[i] == s[..k][i] == w[..k][i] == w[i];
      }
    }
  }

  lemma NoSlashInSuffixes()
    ensures '/' !in "__us_1.ogg" && '/' !in "__us_1.mp3" && '/' !in "__us_1_rr.mp3"
    ensures '/' !in "__us_1_rr.ogg" && '/' !in "__gb_1.mp3" && '/' !in "x"
    ensures '/' !in "us_pron_ogg" && '/' !in "us_pron" && '/' !in "uk_pron"
    ensures forall n :: 1 <= n <= 3 ==> '/' !in NumberedSuffix(n)
  {
  }

  /** Every candidate of a normalised word parses back into its parts. */
  lemma CandidateRefsWellFormed(w: string)
    requires IsCleanWord(w) && w != ""
    ensures forall i :: 0 <= i < |CandidateRefs(w)| ==> WellFormed(CandidateRefs(w)[i])
  {
    assert '/' !in w by {
      forall i | 0 <= i < |w| ensures w[i] != '/' { assert IsCleanChar(w[i]); }
    }
    NoSlashInSegment(w, 3);
    NoSlashInSegment(w, 5);
    NoSlashInSuffixes();
    assert '/' !in [w[0]];
  }

  /** Every candidate URL parses back into the candidate it was rendered from. */
  lemma CandidateUrlsParse(word: string)
    ensures var urls := CandidateUrls(word);
      forall i :: 0 <= i < |urls| ==>
        && ParseAudioUrl(urls[i]) == Some(CandidateRefs(CleanWordForUrl(word))[i])
        && LastSegment(urls[i]) == CandidateRefs(CleanWordForUrl(word))[i].filename
  {
    var w := CleanWordForUrl(word);
    if w != "" {
      var refs := CandidateRefs(w);
      CandidateRefsWellFormed(w);
      forall i | 0 <= i < |refs|
        ensures ParseAudioUrl(Render(refs[i])) == Some(refs[i])
        ensures LastSegment(Render(refs[i])) == refs[i].filename
      {
        RenderParse(refs[i]);
      }
    }
  }

  /**
   * The candidate table in order: collection directory, shard and file name of
   * each of the nine guesses; together with CandidateUrlsParse this is what
   * the URL list decodes to.
   */
  lemma CandidateRefsTable(w: string)
    requires w != ""
    ensures var s := Shard([w[0]], SafeSegment(w, 3), SafeSegment(w, 5));
      var x := Shard("x", "x" + SafeSegment(w, 3), "x" + SafeSegment(w, 5));
      CandidateRefs(w) == [
        AudioRef("us_pron_ogg", s, w + "__us_1.ogg"),
        AudioRef("us_pron", s, w + "__us_1.mp3"),
        AudioRef("us_pron", s, w + "__us_1_rr.mp3"),
        AudioRef("us_pron_ogg", s, w + "__us_1_rr.ogg"),
        AudioRef("us_pron", s, w + "__us_1.mp3"),
        AudioRef("us_pron", s, w + "__us_2.mp3"),
        AudioRef("us_pron", s, w + "__us_3.mp3"),
        AudioRef("uk_pron", s, w + "__gb_1.mp3"),
        AudioRef("us_pron", x, "x" + w + "__us_1.mp3")]
  {
    NumberedSuffixValues();
  }

  /** The file name of every candidate is its last path segment. */
  lemma CandidateFilenames(word: string, i: nat)
    requires i < |CandidateUrls(word)|
    ensures ParseAudioUrl(CandidateUrls(word)[i]).Some?
    ensures LastSegment(CandidateUrls(word)[i]) == ParseAudioUrl(CandidateUrls(word)[i]).value.filename
  {
    CandidateUrlsParse(word);
  }

  /** Reads a definition-page URL back into the word it names. */
  function ParseDefinitionUrl(url: string): Option<string> {
    var root := DefinitionDir + "/";
    if |root| <= |url| && url[..|root|] == root then Some(url[|root|..]) else None
  }

  /** A URL that parses is the definition directory followed by what it parses to. */
  lemma DefinitionParseRender(url: string, w: string)
    requires ParseDefinitionUrl(url) == Some(w)
    ensures url == DefinitionDir + "/" + w
  {
    var root := DefinitionDir + "/";
    assert url == url[..|root|] + url[|root|..];
  }

  /** `construct_definition_url`: empty for an empty word, else the page named by the normalised word. */
  function DefinitionUrl(word: string): (url: string)
    ensures url == "" <==> word == ""
    ensures word != "" ==> ParseDefinitionUrl(url) == Some(CleanWordForUrl(word))
    ensures word != "" ==> LastSegment(url) == CleanWordForUrl(word)
  {
    if word == "" then ""
    else
      var w := CleanWordForUrl(word);
      var root := DefinitionDir + "/";
      CleanWordShape(word);
      LastSegmentAfterSlash(DefinitionDir, w);
      assert (root + w)[..|root|] == root && (root + w)[|root|..] == w;
      root + w
  }
}
