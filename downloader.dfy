/** The deduplication ledger, the segment filter and the master/media step of
    one playlist poll (internal/downloader/downloader.go). */
module Downloader {
  import opened Text
  import Parser
  import Storage

  // ---- processSegmentURL ------------------------------------------------------

  /** What `processSegmentURL` makes of one URL: skipped as an invalid URL,
      skipped as an invalid name, or kept with its segment ID. */
  datatype SegmentCheck = InvalidUrl | InvalidName | Valid(id: string)

  /** `processSegmentURL`. The empty-ID branch never fires, since derived IDs
      are never empty. */
  function ProcessSegmentURL(urlStr: string, mediaSeq: int, index: int): (r: SegmentCheck)
    ensures r.InvalidUrl? <==> Parser.ExtractSegmentID(urlStr, mediaSeq, index).Err?
    ensures r.Valid? ==> Parser.ExtractSegmentID(urlStr, mediaSeq, index) == Ok(r.id)
    ensures !r.InvalidName?
  {
    match Parser.ExtractSegmentID(urlStr, mediaSeq, index)
    case Err(_) => InvalidUrl
    case Ok(id) => if id == "" then InvalidName else Valid(id)
  }

  /** The check applied at every position of a batch with a fixed media sequence. */
  function Checker(mediaSeq: int): (string, nat) -> SegmentCheck {
    (u, i) => ProcessSegmentURL(u, mediaSeq, i)
  }

  ghost predicate NeverInvalidName(check: (string, nat) -> SegmentCheck) {
    forall u: string, i: nat :: !check(u, i).InvalidName?
  }

  lemma CheckerNeverInvalidName(mediaSeq: int)
    ensures NeverInvalidName(Checker(mediaSeq))
  {
    forall u: string, i: nat ensures !Checker(mediaSeq)(u, i).InvalidName? {
      assert Checker(mediaSeq)(u, i) == ProcessSegmentURL(u, mediaSeq, i);
    }
  }

  // ---- filterNewSegments -----------------------------------------------------------

  /** `d.downloaded[id]`: a missing key reads as `false`. */
  predicate Marked(ledger: map<string, bool>, id: string) {
    id in ledger && ledger[id]
  }

  /** The counters `filterNewSegments` logs. */
  datatype Stats = Stats(invalidURL: nat, invalidName: nat, downloaded: nat)

  datatype FilterResult = FilterResult(newURLs: seq<string>, ledger: map<string, bool>, stats: Stats)

  /** The filter loop run over `urls` from `ledger`, position `i` checked
      with `check(urls[i], i)`. */
  function Filter(ledger: map<string, bool>, urls: seq<string>, check: (string, nat) -> SegmentCheck)
    : FilterResult
  {
    if urls == [] then FilterResult([], ledger, Stats(0, 0, 0))
    else
      var n := |urls| - 1;
      var prev := Filter(ledger, urls[..n], check);
      match check(urls[n], n)
      case InvalidUrl => prev.(stats := prev.stats.(invalidURL := prev.stats.invalidURL + 1))
      case InvalidName => prev.(stats := prev.stats.(invalidName := prev.stats.invalidName + 1))
      case Valid(id) =>
        if Marked(prev.ledger, id) then prev.(stats := prev.stats.(downloaded := prev.stats.downloaded + 1))
        else FilterResult(prev.newURLs + [urls[n]], prev.ledger[id := true], prev.stats)
  }

  /** The positions of `urls` the filter dispatches, in order. */
  function Picked(ledger: map<string, bool>, urls: seq<string>, check: (string, nat) -> SegmentCheck)
    : seq<nat>
  {
    if urls == [] then []
    else
      var n := |urls| - 1;
      var prev := Filter(ledger, urls[..n], check);
      Picked(ledger, urls[..n], check)
      + (match check(urls[n], n)
         case Valid(id) => if Marked(prev.ledger, id) then [] else [n]
         case _ => [])
  }

  /** The segment ID at a position the filter dispatched. */
  function IdAt(urls: seq<string>, check: (string, nat) -> SegmentCheck, j: nat): string
    requires j < |urls| && check(urls[j], j).Valid?
  {
    check(urls[j], j).id
  }

  /** The dispatched URLs are the input URLs at strictly increasing positions. */
  lemma {:induction false} FilterSubsequence(ledger: map<string, bool>, urls: seq<string>,
                                             check: (string, nat) -> SegmentCheck)
    ensures var r := Filter(ledger, urls, check);
            var p := Picked(ledger, urls, check);
            && |p| == |r.newURLs|
            && (forall k :: 0 <= k < |p| ==> p[k] < |urls| && r.newURLs[k] == urls[p[k]])
            && (forall k, l :: 0 <= k < l < |p| ==> p[k] < p[l])
  {
    if urls != [] {
      var n := |urls| - 1;
      var init := urls[..n];
      FilterSubsequence(ledger, init, check);
      assert forall j :: 0 <= j < n ==> urls[j] == init[j];
    }
  }

  /** Every dispatched position has a valid ID that the ledger did not hold
      before the call, that no earlier dispatched position has, and that the
      ledger holds after it. */
  lemma {:induction false} FilterPicksFresh(ledger: map<string, bool>, urls: seq<string>,
                                            check: (string, nat) -> SegmentCheck)
    ensures var r := Filter(ledger, urls, check);
            var p := Picked(ledger, urls, check);
            forall k :: 0 <= k < |p| ==>
              && p[k] < |urls| && check(urls[p[k]], p[k]).Valid?
              && !Marked(ledger, IdAt(urls, check, p[k]))
              && Marked(r.ledger, IdAt(urls, check, p[k]))
  {
    if urls != [] {
      var n := |urls| - 1;
      var init := urls[..n];
      FilterPicksFresh(ledger, init, check);
      FilterLedgerGrows(ledger, init, check);
      FilterLedgerGrows(ledger, urls, check);
      FilterSubsequence(ledger, init, check);
      assert forall j :: 0 <= j < n ==> urls[j] == init[j];
      var pp := Picked(ledger, init, check);
      assert forall k :: 0 <= k < |pp| ==> IdAt(urls, check, pp[k]) == IdAt(init, check, pp[k]);
    }
  }

  /** A mark the call adds comes from the batch: an ID marked afterwards was
      marked before or is the valid ID of some position. */
  lemma {:induction false} MarkedOnlyFromBatch(ledger: map<string, bool>, urls: seq<string>,
                                               check: (string, nat) -> SegmentCheck, id: string)
    requires Marked(Filter(ledger, urls, check).ledger, id)
    ensures Marked(ledger, id) || exists k :: 0 <= k < |urls| && check(urls[k], k) == Valid(id)
  {
    if urls != [] {
      var n := |urls| - 1;
      var init := urls[..n];
      var prev := Filter(ledger, init, check);
      if Marked(prev.ledger, id) {
        MarkedOnlyFromBatch(ledger, init, check, id);
        if !Marked(ledger, id) {
          var k :| 0 <= k < |init| && check(init[k], k) == Valid(id);
          assert urls[k] == init[k];
        }
      } else {
        assert check(urls[n], n) == Valid(id);
      }
    }
  }

  /** The converse of `FilterPicksFresh`: the first position of a batch that
      carries a valid ID the ledger did not hold is dispatched. */
  lemma {:induction false} FilterPicksAllFresh(ledger: map<string, bool>, urls: seq<string>,
                                               check: (string, nat) -> SegmentCheck, j: nat)
    requires j < |urls| && check(urls[j], j).Valid?
    requires !Marked(ledger, check(urls[j], j).id)
    requires forall k :: 0 <= k < j ==> check(urls[k], k) != check(urls[j], j)
    ensures j in Picked(ledger, urls, check)
  {
    var n := |urls| - 1;
    var init := urls[..n];
    if j < n {
      assert urls[j] == init[j];
      forall k | 0 <= k < j ensures check(init[k], k) != check(init[j], j) {
        assert init[k] == urls[k];
      }
      FilterPicksAllFresh(ledger, init, check, j);
    } else {
      var id := check(urls[j], j).id;
      if Marked(Filter(ledger, init, check).ledger, id) {
        // An earlier position would carry the same valid ID.
        MarkedOnlyFromBatch(ledger, init, check, id);
      }
    }
  }

  /** So `filterNewSegments` returns every URL whose valid ID is new to the
      ledger, at the first position that carries that ID. */
  lemma FilterReturnsAllFresh(ledger: map<string, bool>, urls: seq<string>,
                              check: (string, nat) -> SegmentCheck, j: nat)
    requires j < |urls| && check(urls[j], j).Valid?
    requires !Marked(ledger, check(urls[j], j).id)
    requires forall k :: 0 <= k < j ==> check(urls[k], k) != check(urls[j], j)
    ensures urls[j] in Filter(ledger, urls, check).newURLs
  {
    FilterPicksAllFresh(ledger, urls, check, j);
    FilterSubsequence(ledger, urls, check);
    var p := Picked(ledger, urls, check);
    var m :| 0 <= m < |p| && p[m] == j;
    assert Filter(ledger, urls, check).newURLs[m] == urls[j];
  }

  /** No two dispatched positions share a segment ID, even when the batch
      repeats one, because each ID is marked as soon as it is dispatched. */
  lemma {:induction false} FilterDistinctIds(ledger: map<string, bool>, urls: seq<string>,
                                             check: (string, nat) -> SegmentCheck)
    ensures var p := Picked(ledger, urls, check);
            && (forall k :: 0 <= k < |p| ==> p[k] < |urls| && check(urls[p[k]], p[k]).Valid?)
            && (forall k, l :: 0 <= k < l < |p| ==> IdAt(urls, check, p[k]) != IdAt(urls, check, p[l]))
  {
    if urls != [] {
      var n := |urls| - 1;
      var init := urls[..n];
      FilterDistinctIds(ledger, init, check);
      FilterPicksFresh(ledger, init, check);
      FilterSubsequence(ledger, init, check);
      assert forall j :: 0 <= j < n ==> urls[j] == init[j];
      var pp := Picked(ledger, init, check);
      assert forall k :: 0 <= k < |pp| ==> IdAt(urls, check, pp[k]) == IdAt(init, check, pp[k]);
    }
  }

  /** The ledger only grows: every key stays, and every value that changes
      changes to `true`. */
  lemma {:induction false} FilterLedgerGrows(ledger: map<string, bool>, urls: seq<string>,
                                             check: (string, nat) -> SegmentCheck)
    ensures var l := Filter(ledger, urls, check).ledger;
            && (forall id :: id in ledger ==> id in l)
            && (forall id :: id in l && !(id in ledger && l[id] == ledger[id]) ==> l[id])
            && (forall id :: Marked(ledger, id) ==> Marked(l, id))
  {
    if urls != [] {
      FilterLedgerGrows(ledger, urls[..|urls| - 1], check);
    }
  }

  /** After the loop every valid ID of the batch is marked. */
  lemma {:induction false} FilterMarksAll(ledger: map<string, bool>, urls: seq<string>,
                                          check: (string, nat) -> SegmentCheck)
    ensures var l := Filter(ledger, urls, check).ledger;
            forall j :: 0 <= j < |urls| && check(urls[j], j).Valid? ==> Marked(l, IdAt(urls, check, j))
  {
    if urls != [] {
      var n := |urls| - 1;
      var init := urls[..n];
      FilterMarksAll(ledger, init, check);
      var prev := Filter(ledger, init, check);
      var l := Filter(ledger, urls, check).ledger;
      forall j | 0 <= j < |urls| && check(urls[j], j).Valid?
        ensures Marked(l, IdAt(urls, check, j))
      {
        if j < n {
          assert urls[j] == init[j];
          assert Marked(prev.ledger, IdAt(init, check, j));
        }
      }
    }
  }

  /** A batch whose valid IDs are all marked dispatches nothing and leaves
      the ledger as it is. */
  lemma {:induction false} FilterNothingNew(ledger: map<string, bool>, urls: seq<string>,
                                            check: (string, nat) -> SegmentCheck)
    requires forall j :: 0 <= j < |urls| && check(urls[j], j).Valid? ==> Marked(ledger, IdAt(urls, check, j))
    ensures Filter(ledger, urls, check).newURLs == []
    ensures Filter(ledger, urls, check).ledger == ledger
  {
    if urls != [] {
      var n := |urls| - 1;
      var init := urls[..n];
      forall j | 0 <= j < |init| && check(init[j], j).Valid?
        ensures Marked(ledger, IdAt(init, check, j))
      {
        assert urls[j] == init[j];
        assert IdAt(urls, check, j) == IdAt(init, check, j);
      }
      FilterNothingNew(ledger, init, check);
    }
  }

  /** Re-polling: a second pass over the same batch with the same media
      sequence dispatches nothing and changes nothing. */
  lemma FilterIdempotent(ledger: map<string, bool>, urls: seq<string>, check: (string, nat) -> SegmentCheck)
    ensures var r := Filter(ledger, urls, check);
            Filter(r.ledger, urls, check).newURLs == []
            && Filter(r.ledger, urls, check).ledger == r.ledger
  {
    FilterMarksAll(ledger, urls, check);
    FilterNothingNew(Filter(ledger, urls, check).ledger, urls, check);
  }

  /** Every URL is counted exactly once: dispatched, an invalid URL, an invalid
      name or already downloaded; and no invalid name is ever counted when
      the check never reports one. */
  lemma {:induction false} FilterCounts(ledger: map<string, bool>, urls: seq<string>,
                                        check: (string, nat) -> SegmentCheck)
    ensures var r := Filter(ledger, urls, check);
            |r.newURLs| + r.stats.invalidURL + r.stats.invalidName + r.stats.downloaded == |urls|
    ensures NeverInvalidName(check) ==> Filter(ledger, urls, check).stats.invalidName == 0
  {
    if urls != [] {
      var n := |urls| - 1;
      FilterCounts(ledger, urls[..n], check);
      if NeverInvalidName(check) {
        assert !check(urls[n], n).InvalidName?;
      }
    }
  }

  // ---- processM3U8: the master/media branch -------------------------------------

  /** What a parsed playlist leads to. */
  datatype Selection = EmptyMaster | RedirectTo(url: string) | Media(urls: seq<string>, mediaSequence: int)

  /** A master playlist redirects to its first entry and is an error when it
      has none; a media playlist goes on to the segment filter. */
  function Select(p: Parser.Playlist): (r: Selection)
    ensures r.EmptyMaster? <==> p.isMaster && p.urls == []
    ensures r.RedirectTo? <==> p.isMaster && p.urls != []
    ensures r.RedirectTo? ==> r.url == p.urls[0] && r.url in p.urls
    ensures r.Media? <==> !p.isMaster
    ensures r.Media? ==> r.urls == p.urls && r.mediaSequence == p.mediaSequence
  {
    if p.isMaster then
      if |p.urls| == 0 then EmptyMaster else RedirectTo(p.urls[0])
    else Media(p.urls, p.mediaSequence)
  }

  /** How one poll of a playlist ends. */
  datatype PollOutcome =
    | ParseFailed(cause: Parser.ParseError)
    | NoMediaInMaster
    | Redirect(url: string)
    | NothingNew
    | DownloadFailed(newURLs: seq<string>, failure: Storage.TaskError)
    | Downloaded(newURLs: seq<string>)

  /** The downloader: its fixed configuration and the ledger of segment IDs
      already dispatched. */
  class HLSDownloader {
    const maxConcurrentDownloads: int
    const downloadIntervalSeconds: nat
    const maxRetryAttempts: int
    const retryDelayBaseSeconds: nat
    var downloaded: map<string, bool>

    /** `New`. */
    constructor ()
      ensures maxConcurrentDownloads == 8 && downloadIntervalSeconds == 5
      ensures maxRetryAttempts == 3 && retryDelayBaseSeconds == 1
      ensures downloaded == map[]
    {
      maxConcurrentDownloads := 8;
      downloadIntervalSeconds := 5;
      maxRetryAttempts := 3;
      retryDelayBaseSeconds := 1;
      downloaded := map[];
    }

    /** `filterNewSegments`: the new URLs in order, each new ID marked as soon
        as it is seen; the counters are returned instead of logged. */
    method FilterNewSegments(tsURLs: seq<string>, mediaSeq: int) returns (newURLs: seq<string>, stats: Stats)
      modifies this
      ensures var r := Filter(old(downloaded), tsURLs, Checker(mediaSeq));
              newURLs == r.newURLs && downloaded == r.ledger && stats == r.stats
      ensures tsURLs == [] ==> newURLs == [] && downloaded == old(downloaded)
    {
      stats := Stats(0, 0, 0);
      if |tsURLs| == 0 {
        return [], stats;
      }
      newURLs := [];
      var processSegmentURL := Checker(mediaSeq);
      for index := 0 to |tsURLs|
        invariant Filter(old(downloaded), tsURLs[..index], Checker(mediaSeq))
                  == FilterResult(newURLs, downloaded, stats)
      {
        assert tsURLs[..index + 1][..index] == tsURLs[..index];
        var check := processSegmentURL(tsURLs[index], index);
        if check.InvalidUrl? {
          stats := stats.(invalidURL := stats.invalidURL + 1);
          continue;
        }
        if check.InvalidName? {
          // The empty-ID branch: derived IDs are never empty, so it is dead.
          assert false;
        }
        var segmentID := check.id;
        if segmentID in downloaded && downloaded[segmentID] {
          stats := stats.(downloaded := stats.downloaded + 1);
          continue;
        }
        newURLs := newURLs + [tsURLs[index]];
        downloaded := downloaded[segmentID := true];
      }
      assert tsURLs[..|tsURLs|] == tsURLs;
    }

    /** One poll of `processM3U8` on fetched `content`: parse it, redirect
        from a master playlist, otherwise filter the segments and download
        the new ones into `tempDir`. */
    method ProcessPlaylist(content: string, m3u8URL: string, tempDir: string,
                           clock: nat -> Storage.Clock, env: nat -> nat -> Storage.Attempt,
                           disk: string -> Storage.FileState)
      returns (outcome: PollOutcome)
      modifies this
      ensures Parser.Parse(content, m3u8URL).Err? ==>
                outcome == ParseFailed(Parser.Parse(content, m3u8URL).error) && downloaded == old(downloaded)
      ensures Parser.Parse(content, m3u8URL).Ok? ==>
                var p := Parser.Parse(content, m3u8URL).value;
                match Select(p)
                case EmptyMaster => outcome == NoMediaInMaster && downloaded == old(downloaded)
                case RedirectTo(u) => outcome == Redirect(u) && downloaded == old(downloaded)
                case Media(urls, ms) =>
                  var r := Filter(old(downloaded), urls, Checker(ms));
                  downloaded == r.ledger
                  && (r.newURLs == [] <==> outcome == NothingNew)
                  && (outcome.Downloaded? || outcome.DownloadFailed? ==> outcome.newURLs == r.newURLs)
                  && (r.newURLs != [] ==>
                        var b := Storage.Batch(tempDir, maxRetryAttempts, clock, env, disk);
                        && (outcome.Downloaded? || outcome.DownloadFailed?)
                        && (outcome.Downloaded? <==> forall i :: 0 <= i < |r.newURLs| ==> Storage.TaskOutcome(b, r.newURLs[i], i).None?)
                        && (outcome.DownloadFailed? ==>
                              outcome.failure.index < |r.newURLs|
                              && Storage.TaskOutcome(b, r.newURLs[outcome.failure.index], outcome.failure.index)
                                 == Some(outcome.failure)))
    {
      var parsed := Parser.Parse(content, m3u8URL);
      if parsed.Err? {
        return ParseFailed(parsed.error);
      }
      var playlist := parsed.value;
      if playlist.isMaster {
        if |playlist.urls| == 0 {
          return NoMediaInMaster;
        }
        return Redirect(playlist.urls[0]);
      }
      var newTSURLs, _ := FilterNewSegments(playlist.urls, playlist.mediaSequence);
      if |newTSURLs| == 0 {
        return NothingNew;
      }
      var batch := Storage.Batch(tempDir, maxRetryAttempts, clock, env, disk);
      var err := Storage.ConcurrentDownload(batch, newTSURLs);
      if err.Some? {
        return DownloadFailed(newTSURLs, err.value);
      }
      return Downloaded(newTSURLs);
    }
  }
}
