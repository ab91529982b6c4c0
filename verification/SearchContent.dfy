/** HandleSearchContent: one search over all entries of a snapshot, within one response. */
module SearchContent {
  import opened Base
  import opened Memory
  import opened Pool
  import opened SearchSpec
  import opened Search

  const SEARCH_HEADER_SIZE: nat := 32
  const SEARCH_RESULT_SIZE: nat := 64
  const SEARCH_REQUEST_SIZE: nat := 272
  const MAX_SEARCH_RESULTS: nat := 1024
  const MAX_SEARCH_PATTERN: nat := 256

  datatype SearchRequest = SearchRequest(patternLength: u32, maxResults: u32, target: u32, pattern: seq<byte>)

  datatype SearchReply =
    | Refused(status: Status)
    | Answered(results: seq<SearchResult>, totalMatches: nat, truncated: bool,
               entriesScanned: nat, entriesSkipped: nat, readFailures: nat, target: nat)

  /** Why a request is turned down before anything is searched, in the order of the checks. */
  function Rejection(request: SearchRequest, inputLength: nat, outputLength: nat): (r: Status)
    ensures r == Success <==> inputLength >= 272 && outputLength >= 32 && 1 <= request.patternLength <= 256 && request.target <= 1
    ensures r == BufferTooSmall <==> inputLength >= 272 && outputLength < 32
    ensures r in {Success, BufferTooSmall, InvalidParameter}
  {
    if inputLength < SEARCH_REQUEST_SIZE then InvalidParameter
    else if outputLength < SEARCH_HEADER_SIZE then BufferTooSmall
    else if request.patternLength == 0 || request.patternLength > MAX_SEARCH_PATTERN then InvalidParameter
    else if request.target != TARGET_DIFF && request.target != TARGET_CURRENT then InvalidParameter
    else Success
  }

  /** As many results as fit, as are allowed, and as are asked for; more would break one of these limits. */
  function Capacity(request: SearchRequest, outputLength: nat): (r: nat)
    requires outputLength >= SEARCH_HEADER_SIZE
    ensures 32 + 64 * r <= outputLength && r <= 1024 && (1 <= request.maxResults <= 1024 ==> r <= request.maxResults)
    ensures 32 + 64 * (r + 1) > outputLength || r == 1024 || 1 <= r == request.maxResults
  {
    var outputCapacity := (outputLength - SEARCH_HEADER_SIZE) / SEARCH_RESULT_SIZE;
    var requested := if request.maxResults == 0 || request.maxResults > MAX_SEARCH_RESULTS
                     then MAX_SEARCH_RESULTS else request.maxResults;
    if outputCapacity < requested then outputCapacity else requested
  }

  /** The tick at which the sweep of entry `i` begins when no earlier entry ends the search. */
  ghost function ClockAt(copy: CopyOracle, clock: nat, entries: seq<Entry>, i: nat): nat
    requires i <= |entries|
    decreases i, 0
  {
    if i == 0 then clock else ClockAt(copy, clock, entries, i - 1) + SweepOf(copy, clock, entries, i - 1).ticks
  }

  ghost function SweepOf(copy: CopyOracle, clock: nat, entries: seq<Entry>, i: nat): Sweep
    requires i < |entries|
    decreases i, 1
  {
    SweepFrom(copy, ClockAt(copy, clock, entries, i), entries[i].address, entries[i].size, 0)
  }

  /** All matches in the first `n` entries, entry by entry. */
  ghost function MatchesIn(copy: CopyOracle, clock: nat, entries: seq<Entry>, p: Pattern, n: nat): seq<SearchResult>
    requires n <= |entries|
  {
    if n == 0 then []
    else MatchesIn(copy, clock, entries, p, n - 1) +
         EntryMatches(copy, ClockAt(copy, clock, entries, n - 1), entries[n - 1], p)
  }

  /** How many of the first `n` entries showed no byte at all, and how many had a failed read. */
  ghost function UnseenIn(copy: CopyOracle, clock: nat, entries: seq<Entry>, n: nat): nat
    requires n <= |entries|
  {
    if n == 0 then 0
    else UnseenIn(copy, clock, entries, n - 1) +
         (if SawAny(SweepOf(copy, clock, entries, n - 1).view, entries[n - 1].size) then 0 else 1)
  }

  ghost function FailedIn(copy: CopyOracle, clock: nat, entries: seq<Entry>, n: nat): nat
    requires n <= |entries|
  {
    if n == 0 then 0
    else FailedIn(copy, clock, entries, n - 1) + (if SweepOf(copy, clock, entries, n - 1).failed then 1 else 0)
  }

  /** Entry `i` is reached before the response is full, and cannot be searched to its end. */
  ghost predicate FailsAt(copy: CopyOracle, clock: nat, entries: seq<Entry>, p: Pattern, capacity: nat, allocOk: nat -> bool, i: nat)
    requires i < |entries|
  {
    && |MatchesIn(copy, clock, entries, p, i)| <= capacity
    && (!allocOk(i) ||
        (SweepOf(copy, clock, entries, i).overflow && |MatchesIn(copy, clock, entries, p, i + 1)| <= capacity))
  }

  /** The entry in which the search fails, and with what. */
  ghost predicate FirstFailure(copy: CopyOracle, clock: nat, entries: seq<Entry>, p: Pattern, capacity: nat,
                               allocOk: nat -> bool, i: nat) {
    && i < |entries| && FailsAt(copy, clock, entries, p, capacity, allocOk, i)
    && forall k :: 0 <= k < i ==> !FailsAt(copy, clock, entries, p, capacity, allocOk, k)
  }

  function FailureStatus(allocOk: bool): Status {
    if allocOk then IntegerOverflow else InsufficientResources
  }

  /** The response after `n` entries. */
  ghost predicate Searched(response: SearchResponse, copy: CopyOracle, clock: nat, entries: seq<Entry>, p: Pattern, n: nat)
    requires n <= |entries|
    reads response`results, response`totalMatches, response`truncated
  {
    var all := MatchesIn(copy, clock, entries, p, n);
    && response.results == Capped(all, response.capacity)
    && response.totalMatches == Min(|all|, response.capacity + 1)
    && response.truncated == (|all| > response.capacity)
  }

  /** The counters after `n` entries were searched to their end. */
  ghost predicate Tallied(response: SearchResponse, copy: CopyOracle, clock: nat, t: nat, entries: seq<Entry>, n: nat)
    requires n <= |entries|
    reads response`entriesSkipped, response`readFailures
  {
    && t == ClockAt(copy, clock, entries, n)
    && response.entriesSkipped == UnseenIn(copy, clock, entries, n)
    && response.readFailures == FailedIn(copy, clock, entries, n)
  }

  lemma MatchesGrow(copy: CopyOracle, clock: nat, entries: seq<Entry>, p: Pattern, k: nat, n: nat)
    requires k <= n <= |entries|
    ensures MatchesIn(copy, clock, entries, p, k) <= MatchesIn(copy, clock, entries, p, n)
  {
    if k == n {
    } else {
      MatchesGrow(copy, clock, entries, p, k, n - 1);
    }
  }

  /** A match is a byte that was read. */
  lemma MatchesAreSeen(copy: CopyOracle, t: nat, e: Entry, p: Pattern)
    requires EntryMatches(copy, t, e, p) != []
    ensures SawAny(SweepFrom(copy, t, e.address, e.size, 0).view, e.size)
  {
    var view := SweepFrom(copy, t, e.address, e.size, 0).view;
    var found := Occurrences(view, p);
    OccurrencesMeaning(view, p, |view|, found);
    assert found[0] in found;
    assert view[found[0] + 0] == Some(p[0]);
  }

  /** The effect of one entry, carried from SearchEntry's own terms to the list of all matches. */
  lemma EntrySearched(response: SearchResponse, copy: CopyOracle, clock: nat, entries: seq<Entry>, p: Pattern, n: nat,
                      before: seq<SearchResult>, total: nat)
    requires n < |entries|
    requires before == MatchesIn(copy, clock, entries, p, n) && total == |before| <= response.capacity
    requires Reflects(response, entries[n], Occurrences(SweepOf(copy, clock, entries, n).view, p), before, total)
    ensures Searched(response, copy, clock, entries, p, n + 1)
  {
    hide SweepFrom, OccurrencesTo;
    assert SweepOf(copy, clock, entries, n) ==
           SweepFrom(copy, ClockAt(copy, clock, entries, n), entries[n].address, entries[n].size, 0);
  }

  lemma SearchedComplete(response: SearchResponse, copy: CopyOracle, clock: nat, entries: seq<Entry>, p: Pattern, n: nat)
    requires n <= |entries| && Searched(response, copy, clock, entries, p, n) && !response.truncated
    ensures response.results == MatchesIn(copy, clock, entries, p, n)
    ensures response.totalMatches == |response.results| <= response.capacity
  {
  }

  /** What the handler reports when no entry fails. */
  ghost predicate SearchedAll(response: SearchResponse, copy: CopyOracle, clock: nat, entries: seq<Entry>, p: Pattern)
    reads response
  {
    var scanned := response.entriesScanned;
    && scanned <= |entries|
    && Searched(response, copy, clock, entries, p, |entries|)
    && (if response.truncated
        then scanned > 0 && |MatchesIn(copy, clock, entries, p, scanned - 1)| <= response.capacity
                          < |MatchesIn(copy, clock, entries, p, scanned)|
        else scanned == |entries|)
    && response.entriesSkipped == UnseenIn(copy, clock, entries, scanned)
    && response.readFailures == FailedIn(copy, clock, entries, if response.truncated then scanned - 1 else scanned)
  }

  lemma NothingSearched(response: SearchResponse, copy: CopyOracle, clock: nat, entries: seq<Entry>, p: Pattern)
    requires response.results == [] && !response.truncated
    requires response.totalMatches == response.entriesSkipped == response.readFailures == 0
    ensures Searched(response, copy, clock, entries, p, 0) && Tallied(response, copy, clock, clock, entries, 0)
  {
  }

  /** An entry that was searched to its end or filled the response did not fail; one that did not, did. */
  lemma FailsIffNotSearched(response: SearchResponse, copy: CopyOracle, clock: nat, entries: seq<Entry>, p: Pattern,
                            allocOk: nat -> bool, n: nat)
    requires n < |entries| && |MatchesIn(copy, clock, entries, p, n)| <= response.capacity
    ensures !allocOk(n) ==> FailsAt(copy, clock, entries, p, response.capacity, allocOk, n)
    ensures allocOk(n) && Searched(response, copy, clock, entries, p, n + 1) ==>
              (FailsAt(copy, clock, entries, p, response.capacity, allocOk, n) <==>
               SweepOf(copy, clock, entries, n).overflow && !response.truncated)
  {
  }

  lemma FullIsComplete(response: SearchResponse, copy: CopyOracle, clock: nat, entries: seq<Entry>, p: Pattern,
                       allocOk: nat -> bool, n: nat)
    requires n < |entries| && response.entriesScanned == n + 1 && response.truncated
    requires Searched(response, copy, clock, entries, p, n + 1)
    requires |MatchesIn(copy, clock, entries, p, n)| <= response.capacity
    requires response.entriesSkipped == UnseenIn(copy, clock, entries, n)
    requires response.readFailures == FailedIn(copy, clock, entries, n)
    ensures SearchedAll(response, copy, clock, entries, p)
    ensures forall k :: n < k < |entries| ==> !FailsAt(copy, clock, entries, p, response.capacity, allocOk, k)
  {
    hide EntryMatches, SweepFrom, OccurrencesTo;
    MatchesAreSeen(copy, ClockAt(copy, clock, entries, n), entries[n], p);
    assert SweepOf(copy, clock, entries, n) ==
           SweepFrom(copy, ClockAt(copy, clock, entries, n), entries[n].address, entries[n].size, 0);
    hide MatchesIn;
    FullStaysFull(copy, clock, entries, p, response.capacity, n + 1);
  }

  lemma FullStaysFull(copy: CopyOracle, clock: nat, entries: seq<Entry>, p: Pattern, capacity: nat, n: nat)
    requires n <= |entries| && |MatchesIn(copy, clock, entries, p, n)| > capacity
    ensures forall k :: n <= k <= |entries| ==>
              |MatchesIn(copy, clock, entries, p, k)| > capacity
              && Capped(MatchesIn(copy, clock, entries, p, k), capacity) == Capped(MatchesIn(copy, clock, entries, p, n), capacity)
  {
    hide MatchesIn;
    forall k | n <= k <= |entries|
      ensures |MatchesIn(copy, clock, entries, p, k)| > capacity
      ensures Capped(MatchesIn(copy, clock, entries, p, k), capacity) == Capped(MatchesIn(copy, clock, entries, p, n), capacity)
    {
      MatchesGrow(copy, clock, entries, p, n, k);
    }
  }

  /** SearchEntry over the entries, until the response is full or an entry fails. */
  method SearchEntries(entries: seq<Entry>, pattern: Pattern, response: SearchResponse,
                       copy: CopyOracle, clock: nat, allocOk: nat -> bool)
    returns (status: Status)
    requires |pattern| <= MAX_SEARCH_PATTERN
    requires response.results == [] && !response.truncated
    requires response.totalMatches == response.entriesScanned == response.entriesSkipped == response.readFailures == 0
    modifies response
    ensures status != Success ==>
              exists i :: FirstFailure(copy, clock, entries, pattern, response.capacity, allocOk, i) && status == FailureStatus(allocOk(i))
    ensures status == Success <==> forall i :: 0 <= i < |entries| ==> !FailsAt(copy, clock, entries, pattern, response.capacity, allocOk, i)
    ensures status == Success ==> SearchedAll(response, copy, clock, entries, pattern)
  {
    hide Reflects, EntryMatches, SweepFrom, Searched, OccurrencesTo, FailsAt, MatchesIn;
    status := Success;
    var clock', i := clock, 0;
    NothingSearched(response, copy, clock, entries, pattern);
    while i < |entries|
      invariant i == response.entriesScanned <= |entries|
      invariant Searched(response, copy, clock, entries, pattern, i) && !response.truncated
      invariant Tallied(response, copy, clock, clock', entries, i)
      invariant status == Success
      invariant forall k :: 0 <= k < i ==> !FailsAt(copy, clock, entries, pattern, response.capacity, allocOk, k)
    {
      SearchedComplete(response, copy, clock, entries, pattern, i);
      ghost var before, total := response.results, response.totalMatches;
      response.entriesScanned := response.entriesScanned + 1;
      status, clock' := SearchEntry(entries[i], pattern, response, copy, clock', allocOk(i));
      if allocOk(i) {
        EntrySearched(response, copy, clock, entries, pattern, i, before, total);
      }
      FailsIffNotSearched(response, copy, clock, entries, pattern, allocOk, i);
      if status != Success {
        assert FirstFailure(copy, clock, entries, pattern, response.capacity, allocOk, i);
        return;
      }
      if response.truncated {
        FullIsComplete(response, copy, clock, entries, pattern, allocOk, i);
        return;
      }
      i := i + 1;
    }
  }

  /** What the handler answers to a good request, given the copy of the snapshot, if there is memory for one. */
  ghost predicate Answers(reply: SearchReply, request: SearchRequest, capacity: nat, snapshot: Option<seq<Entry>>,
                          copy: CopyOracle, clock: nat, allocOk: nat -> bool)
    requires 1 <= request.patternLength <= |request.pattern|
  {
    if snapshot.None? then reply == Refused(InsufficientResources) else
      var entries, p := snapshot.value, request.pattern[..request.patternLength];
      var all := MatchesIn(copy, clock, entries, p, |entries|);
      && (reply.Refused? <==> exists i :: 0 <= i < |entries| && FailsAt(copy, clock, entries, p, capacity, allocOk, i))
      && (reply.Refused? ==>
            exists i :: FirstFailure(copy, clock, entries, p, capacity, allocOk, i) && reply.status == FailureStatus(allocOk(i)))
      && (reply.Answered? ==>
            && reply.target == request.target
            && reply.results == Capped(all, capacity)
            && reply.truncated == (|all| > capacity)
            && reply.totalMatches == |reply.results| + (if reply.truncated then 1 else 0)
            && reply.entriesScanned <= |entries|
            && (if reply.truncated
                then reply.entriesScanned > 0
                     && |MatchesIn(copy, clock, entries, p, reply.entriesScanned - 1)| <= capacity
                      < |MatchesIn(copy, clock, entries, p, reply.entriesScanned)|
                else reply.entriesScanned == |entries|)
            && reply.entriesSkipped == UnseenIn(copy, clock, entries, reply.entriesScanned)
            && var failed := FailedIn(copy, clock, entries, reply.entriesScanned);
               (if reply.truncated then failed - 1 <= reply.readFailures <= failed else reply.readFailures == failed))
  }

  method HandleSearchContent(request: SearchRequest, inputLength: nat, outputLength: nat,
                             snapshot: Option<seq<Entry>>, copy: CopyOracle, clock: nat, allocOk: nat -> bool)
    returns (reply: SearchReply)
    requires |request.pattern| == MAX_SEARCH_PATTERN
    ensures Rejection(request, inputLength, outputLength) != Success ==>
              reply == Refused(Rejection(request, inputLength, outputLength))
    ensures Rejection(request, inputLength, outputLength) == Success ==>
              Answers(reply, request, Capacity(request, outputLength), snapshot, copy, clock, allocOk)
  {
    hide MatchesIn, FailsAt, FirstFailure, UnseenIn, FailureStatus, SweepFrom;
    if inputLength < SEARCH_REQUEST_SIZE {
      return Refused(InvalidParameter);
    }
    if outputLength < SEARCH_HEADER_SIZE {
      return Refused(BufferTooSmall);
    }
    if request.patternLength == 0 || request.patternLength > MAX_SEARCH_PATTERN {
      return Refused(InvalidParameter);
    }
    if request.target != TARGET_DIFF && request.target != TARGET_CURRENT {
      return Refused(InvalidParameter);
    }
    var capacity := Capacity(request, outputLength);
    if snapshot.None? {
      return Refused(InsufficientResources);
    }
    var response := new SearchResponse(capacity);
    var status := SearchEntries(snapshot.value, request.pattern[..request.patternLength], response, copy, clock, allocOk);
    if status != Success {
      return Refused(status);
    }
    return Answered(response.results, response.totalMatches, response.truncated, response.entriesScanned,
                    response.entriesSkipped, response.readFailures, request.target);
  }
}
