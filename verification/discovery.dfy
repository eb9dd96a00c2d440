/**
 * `find_working_audio_url`: probe the candidate URLs in order and stop at the
 * first one the site serves. The HTTP probe (`try_url`) is an oracle parameter.
 */
module Discovery {
  import opened Wrappers
  import opened Text
  import opened Normalize
  import opened Urls

  /** A found audio file: its URL and `url.split('/')[-1]`. */
  datatype AudioHit = AudioHit(url: string, filename: string)

  /** The index of the first URL the probe accepts; no earlier URL is accepted. */
  function FirstAccepted(urls: seq<string>, accept: string -> bool): (r: Option<nat>)
    ensures r.Some? ==> r.value < |urls| && accept(urls[r.value])
    ensures r.Some? ==> forall j :: 0 <= j < r.value ==> !accept(urls[j])
    ensures r.None? <==> forall j :: 0 <= j < |urls| ==> !accept(urls[j])
    decreases |urls|
  {
    if |urls| == 0 then None
    else if accept(urls[0]) then Some(0)
    else
      match FirstAccepted(urls[1..], accept)
      case None => None
      case Some(i) => Some(i + 1)
  }

  /** Probes past the first accepted URL are never made: their answers do not matter. */
  lemma {:induction false} FirstAcceptedShortCircuits(urls: seq<string>, a: string -> bool, b: string -> bool, i: nat)
    requires FirstAccepted(urls, a) == Some(i)
    requires forall j :: 0 <= j <= i ==> a(urls[j]) == b(urls[j])
    ensures FirstAccepted(urls, b) == Some(i)
    decreases |urls|
  {
    if i > 0 {
      var tail := urls[1..];
      assert FirstAccepted(tail, a) == Some(i - 1);
      forall j | 0 <= j <= i - 1
        ensures a(tail[j]) == b(tail[j])
      {
        assert tail[j] == urls[j + 1];
      }
      FirstAcceptedShortCircuits(tail, a, b, i - 1);
    }
  }

  /** `find_working_audio_url(word)` with `try_url` given as `accept`. */
  function FindWorkingAudioUrl(word: string, accept: string -> bool): (r: Option<AudioHit>)
    ensures var urls := CandidateUrls(word);
      r.None? <==> forall j :: 0 <= j < |urls| ==> !accept(urls[j])
    ensures r.Some? ==> r.value.filename == LastSegment(r.value.url)
    ensures r.Some? ==> MediaDir + "/" <= r.value.url
    ensures r.Some? ==> var urls := CandidateUrls(word);
      exists i :: 0 <= i < |urls| && urls[i] == r.value.url && accept(urls[i])
        && forall j :: 0 <= j < i ==> !accept(urls[j])
  {
    if word == "" then None
    else
      var urls := CandidateUrls(word);
      match FirstAccepted(urls, accept)
      case None => None
      case Some(i) =>
        CandidatesUnderMedia(word, i);
        Some(AudioHit(urls[i], LastSegment(urls[i])))
  }

  /** The file name reported with a hit is the one the candidate was built with. */
  lemma HitFilenameIsConstructed(word: string, accept: string -> bool)
    requires FindWorkingAudioUrl(word, accept).Some?
    ensures var hit := FindWorkingAudioUrl(word, accept).value;
      ParseAudioUrl(hit.url).Some? && ParseAudioUrl(hit.url).value.filename == hit.filename
  {
    var urls := CandidateUrls(word);
    var i := FirstAccepted(urls, accept).value;
    CandidateFilenames(word, i);
  }

  /**
   * The `for url in candidates: if try_url(url): return` loop, also returning
   * the URLs probed, in order.
   */
  method Scan(urls: seq<string>, accept: string -> bool) returns (found: Option<nat>, probed: seq<string>)
    ensures found == FirstAccepted(urls, accept)
    ensures found.Some? ==> probed == urls[..found.value + 1]
    ensures found.None? ==> probed == urls
  {
    probed := [];
    var k := 0;
    while k < |urls|
      invariant 0 <= k <= |urls|
      invariant probed == urls[..k]
      invariant forall j :: 0 <= j < k ==> !accept(urls[j])
    {
      probed := probed + [urls[k]];
      if accept(urls[k]) {
        assert probed == urls[..k + 1];
        return Some(k), probed;
      }
      k := k + 1;
    }
    assert probed == urls;
    return None, probed;
  }

  /**
   * `find_working_audio_url` as a scan that also reports the URLs it probed:
   * a prefix of the candidates, all rejected but the last, which is the hit.
   */
  method ProbeCandidates(word: string, accept: string -> bool) returns (hit: Option<AudioHit>, probed: seq<string>)
    ensures hit == FindWorkingAudioUrl(word, accept)
    ensures probed <= CandidateUrls(word)
    ensures forall j :: 0 <= j < |probed| - 1 ==> !accept(probed[j])
    ensures hit.Some? ==> |probed| > 0 && probed[|probed| - 1] == hit.value.url && accept(hit.value.url)
    ensures hit.None? ==> probed == CandidateUrls(word)
  {
    if word == "" {
      return None, [];
    }
    var urls := CandidateUrls(word);
    var found;
    found, probed := Scan(urls, accept);
    match found {
      case None =>
        hit := None;
      case Some(i) =>
        hit := Some(AudioHit(urls[i], LastSegment(urls[i])));
    }
  }
}
