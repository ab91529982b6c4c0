/** The client's search call: its own checks of the request, and of the driver's reply. */
module SearchClient {
  import opened Base
  import opened Memory
  import opened Pool
  import opened Search
  import opened SearchContent

  datatype Result =
    | BadRequest
    | NoDevice
    | Failed(status: Status)
    | Malformed
    | Found(reply: SearchReply)

  function ResultLimit(maxResults: u32): (r: nat)
    ensures 1 <= maxResults <= 1024 <==> r == maxResults
    ensures r != maxResults ==> r == 1024
  {
    if maxResults == 0 || maxResults > MAX_SEARCH_RESULTS then MAX_SEARCH_RESULTS else maxResults
  }

  predicate GoodRequest(pattern: seq<byte>, target: u32) {
    0 < |pattern| <= MAX_SEARCH_PATTERN && (target == TARGET_DIFF || target == TARGET_CURRENT)
  }

  function Padded(pattern: seq<byte>): (r: seq<byte>)
    requires |pattern| <= MAX_SEARCH_PATTERN
    ensures |r| == MAX_SEARCH_PATTERN && r[..|pattern|] == pattern
  {
    pattern + seq(MAX_SEARCH_PATTERN - |pattern|, i => 0)
  }

  /** A good request is never refused as such and its reply never rejected; the caller gets all matches up to the limit. */
  method CallSearch(opens: bool, pattern: seq<byte>, maxResults: u32, target: u32, snapshot: Option<seq<Entry>>,
                       copy: CopyOracle, clock: nat, allocOk: nat -> bool)
    returns (result: Result)
    ensures result == BadRequest <==> |pattern| == 0 || |pattern| > 256 || target > 1
    ensures result != Malformed
    ensures GoodRequest(pattern, target) && !opens ==> result == NoDevice
    ensures GoodRequest(pattern, target) && opens && snapshot.None? ==> result == Failed(InsufficientResources)
    ensures GoodRequest(pattern, target) && opens && snapshot.Some? ==>
              var entries, limit := snapshot.value, ResultLimit(maxResults);
              if exists i :: 0 <= i < |entries| && FailsAt(copy, clock, entries, pattern, limit, allocOk, i)
              then exists i :: FirstFailure(copy, clock, entries, pattern, limit, allocOk, i)
                               && result == Failed(FailureStatus(allocOk(i)))
              else
                && result.Found? && result.reply.Answered?
                && result.reply.results == Capped(MatchesIn(copy, clock, entries, pattern, |entries|), limit)
                && (result.reply.truncated <==> |MatchesIn(copy, clock, entries, pattern, |entries|)| > limit)
  {
    hide MatchesIn, FailsAt, UnseenIn, FailedIn;
    if pattern == [] || |pattern| > MAX_SEARCH_PATTERN {
      return BadRequest;
    }
    var limit := ResultLimit(maxResults);
    if target != TARGET_DIFF && target != TARGET_CURRENT {
      return BadRequest;
    }
    if !opens {
      return NoDevice;
    }
    var outputSize := SEARCH_HEADER_SIZE + limit * SEARCH_RESULT_SIZE;
    var request := SearchRequest(|pattern|, limit, target, Padded(pattern));
    assert Capacity(request, outputSize) == limit;
    var reply := HandleSearchContent(request, SEARCH_REQUEST_SIZE, outputSize, snapshot, copy, clock, allocOk);
    if reply.Refused? {
      return Failed(reply.status);
    }
    var returned := SEARCH_HEADER_SIZE + SEARCH_RESULT_SIZE * |reply.results|;
    if returned < SEARCH_HEADER_SIZE || reply.target != target {
      return Malformed;
    }
    if reply.results == [] {
      return Found(reply);
    }
    if |reply.results| > limit || returned < SEARCH_HEADER_SIZE + |reply.results| * SEARCH_RESULT_SIZE {
      return Malformed;
    }
    return Found(reply);
  }
}
