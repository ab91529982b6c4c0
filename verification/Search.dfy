/** The streaming search: SearchEntry over one pool, HandleSearchContent over a snapshot. */
module Search {
  import opened Base
  import opened Memory
  import opened Pool
  import opened SearchSpec

  /** The reply: at most `capacity` results, and the counters that the handler threads through SearchEntry. */
  class SearchResponse {
    const capacity: nat
    var results: seq<SearchResult>
    var totalMatches: nat
    var entriesScanned: nat
    var entriesSkipped: nat
    var readFailures: nat
    var truncated: bool

    constructor (capacity: nat)
      ensures this.capacity == capacity && results == [] && !truncated
      ensures totalMatches == entriesScanned == entriesSkipped == readFailures == 0
    {
      this.capacity := capacity;
      results, totalMatches, truncated := [], 0, false;
      entriesScanned, entriesSkipped, readFailures := 0, 0, 0;
    }
  }

  ghost function ResultsFor(e: Entry, offsets: seq<nat>): (r: seq<SearchResult>)
    requires forall i :: 0 <= i < |offsets| ==> offsets[i] < TWO_64
    ensures |r| == |offsets| && forall i :: 0 <= i < |r| ==> r[i] == ResultFor(e, offsets[i])
  {
    seq(|offsets|, i requires 0 <= i < |offsets| => ResultFor(e, offsets[i]))
  }

  /** The occurrences a sweep of the entry beginning at tick `t` shows, as results. */
  ghost function EntryMatches(copy: CopyOracle, t: nat, e: Entry, p: Pattern): seq<SearchResult> {
    var view := SweepFrom(copy, t, e.address, e.size, 0).view;
    var found := Occurrences(view, p);
    OccurrencesBounded(view, p, |view|, found);
    ResultsFor(e, found)
  }

  method AppendSearchResult(response: SearchResponse, e: Entry, offset: u64) returns (stored: bool)
    modifies response`results
    ensures stored == (|old(response.results)| < response.capacity)
    ensures response.results ==
            if stored then old(response.results) + [ResultFor(e, offset)] else old(response.results)
  {
    if |response.results| >= response.capacity {
      return false;
    }
    response.results := response.results + [ResultFor(e, offset)];
    return true;
  }

  /** RtlCompareMemory: the number of leading bytes of the pattern that the buffer has from `start` on. */
  method CompareMemory(buffer: array<byte>, start: nat, p: Pattern) returns (same: nat)
    requires start + |p| <= buffer.Length
    ensures same <= |p|
    ensures forall j :: 0 <= j < same ==> buffer[start + j] == p[j]
    ensures same < |p| ==> buffer[start + same] != p[same]
  {
    same := 0;
    while same < |p| && buffer[start + same] == p[same]
      invariant same <= |p|
      invariant forall j :: 0 <= j < same ==> buffer[start + j] == p[j]
    {
      same := same + 1;
    }
  }

  method PatternEquals(buffer: array<byte>, start: nat, p: Pattern) returns (equal: bool)
    requires start + |p| <= buffer.Length
    ensures equal <==> forall j :: 0 <= j < |p| ==> buffer[start + j] == p[j]
  {
    var same := CompareMemory(buffer, start, p);
    equal := same == |p|;
  }

  /** RtlMoveMemory(buffer, buffer + from, length): overlapping moves are allowed. */
  method MoveToFront(buffer: array<byte>, from: nat, length: nat)
    requires from + length <= buffer.Length
    modifies buffer
    ensures buffer[..length] == old(buffer[from..from + length])
  {
    forall i | 0 <= i < length {
      buffer[i] := buffer[from + i];
    }
  }

  ghost function Capped<T>(s: seq<T>, n: nat): seq<T> {
    s[..Min(n, |s|)]
  }

  /** The response holds what was `before` plus the matches in `found`, cut at its capacity. */
  ghost predicate Reflects(response: SearchResponse, e: Entry, found: seq<nat>, before: seq<SearchResult>, total: nat)
    reads response`results, response`totalMatches, response`truncated
  {
    && (forall i :: 0 <= i < |found| ==> found[i] < TWO_64)
    && |before| <= response.capacity
    && response.results == Capped(before + ResultsFor(e, found), response.capacity)
    && response.totalMatches == total + Min(|found|, response.capacity - |before| + 1)
    && response.truncated == (|before| + |found| > response.capacity)
  }

  /** Once truncated, further matches make no difference. */
  lemma TruncatedReflectsMore(response: SearchResponse, e: Entry, found: seq<nat>, more: seq<nat>,
                              before: seq<SearchResult>, total: nat)
    requires Reflects(response, e, found, before, total) && response.truncated
    requires found <= more && forall i :: 0 <= i < |more| ==> more[i] < TWO_64
    ensures Reflects(response, e, more, before, total)
  {
    var capacity := response.capacity;
    var a, b := before + ResultsFor(e, found), before + ResultsFor(e, more);
    assert a[..capacity] == b[..capacity];
  }

  /** Counts a match and stores it if there is room; otherwise the response is truncated. */
  method RecordMatch(response: SearchResponse, e: Entry, offset: u64,
                     ghost found: seq<nat>, ghost longer: seq<nat>, ghost before: seq<SearchResult>, ghost total: nat)
    returns (stored: bool)
    requires longer == found + [offset]
    requires Reflects(response, e, found, before, total) && !response.truncated
    modifies response`results, response`totalMatches, response`truncated
    ensures Reflects(response, e, longer, before, total)
    ensures stored == !response.truncated
  {
    assert ResultsFor(e, longer) == ResultsFor(e, found) + [ResultFor(e, offset)];
    response.totalMatches := response.totalMatches + 1;
    stored := AppendSearchResult(response, e, offset);
    if !stored {
      response.truncated := true;
    }
  }

  lemma WindowDecidesMatch(view: View, start: nat, window: seq<byte>, k: nat, p: Pattern)
    requires Shows(view, start, window) && k + |p| <= |window|
    ensures window[k..k + |p|] == p <==> MatchAt(view, p, start + k)
  {
    var i, part := start + k, window[k..k + |p|];
    forall j | 0 <= j < |p| ensures view[i + j] == Some(part[j]) {
      assert view[start + (k + j)] == Some(window[k + j]);
    }
    if MatchAt(view, p, i) {
      forall j | 0 <= j < |p| ensures part[j] == p[j] {
        assert view[i + j] == Some(p[j]);
      }
    }
  }

  /**
   * The prefix carried over to position `offset`: the last bytes seen there, as many as an occurrence
   * could still need, or all there are since the start or since a gap.
   */
  ghost predicate Carried(view: View, p: Pattern, offset: nat, prefixLength: nat, prefix: seq<byte>): (r: bool)
    ensures r ==> |prefix| == prefixLength <= offset <= |view| && prefixLength < |p|
  {
    && |prefix| == prefixLength <= offset && prefixLength < |p|
    && Shows(view, offset - prefixLength, prefix)
    && (prefixLength < |p| - 1 ==> offset == prefixLength || view[offset - prefixLength - 1] == None)
  }

  /** One position of the scan: compares, and records the match if there is one. */
  method CheckPosition(e: Entry, pattern: Pattern, buffer: array<byte>, scanLength: nat, scanIndex: nat,
                       matchOffset: nat, response: SearchResponse,
                       ghost view: View, ghost before: seq<SearchResult>, ghost total: nat)
    returns (stored: bool)
    requires scanIndex <= matchOffset && scanIndex + |pattern| <= scanLength <= buffer.Length && |view| == e.size
    requires Shows(view, matchOffset - scanIndex, buffer[..scanLength])
    requires Reflects(response, e, OccurrencesTo(view, pattern, matchOffset + |pattern| - 1), before, total)
    requires !response.truncated
    modifies response`results, response`totalMatches, response`truncated
    ensures stored == !response.truncated
    ensures var end := if stored then matchOffset + |pattern| else |view|;
            Reflects(response, e, OccurrencesTo(view, pattern, end), before, total)
  {
    hide Reflects, MatchAt, Shows;
    WindowDecidesMatch(view, matchOffset - scanIndex, buffer[..scanLength], scanIndex, pattern);
    var equal := PatternEquals(buffer, scanIndex, pattern);
    ghost var part := buffer[..scanLength][scanIndex..scanIndex + |pattern|];
    assert forall j :: 0 <= j < |pattern| ==> part[j] == buffer[scanIndex + j];
    if !equal {
      return true;
    }
    ghost var end := matchOffset + |pattern|;
    ghost var found, all := OccurrencesTo(view, pattern, end), Occurrences(view, pattern);
    stored := RecordMatch(response, e, matchOffset, OccurrencesTo(view, pattern, end - 1), found, before, total);
    if !stored {
      OccurrencesGrow(view, pattern, end, |view|);
      OccurrencesBounded(view, pattern, |view|, all);
      TruncatedReflectsMore(response, e, found, all, before, total);
    }
  }

  /**
   * Looks for the pattern in buffer[..scanLength], which the view shows behind a prefix that ends at
   * `offset`. The matches that end at or before `offset` are in the response already.
   */
  method ScanWindow(e: Entry, pattern: Pattern, buffer: array<byte>, prefixLength: nat, scanLength: nat,
                    offset: nat, response: SearchResponse,
                    ghost view: View, ghost before: seq<SearchResult>, ghost total: nat)
    requires prefixLength <= scanLength <= buffer.Length && |view| == e.size
    requires Carried(view, pattern, offset, prefixLength, buffer[..prefixLength])
    requires Shows(view, offset - prefixLength, buffer[..scanLength])
    requires Reflects(response, e, OccurrencesTo(view, pattern, offset), before, total) && !response.truncated
    modifies response`results, response`totalMatches, response`truncated
    ensures var end := if response.truncated then |view| else offset - prefixLength + scanLength;
            Reflects(response, e, OccurrencesTo(view, pattern, end), before, total)
  {
    hide Reflects, MatchAt, Shows, OccurrencesTo;
    ghost var end := offset - prefixLength + Min(scanLength, |pattern| - 1);
    NothingEndsBeforeTheWindow(view, pattern, offset, prefixLength, end);
    if scanLength < |pattern| {
      return;
    }
    var scanIndex := 0;
    while scanIndex + |pattern| <= scanLength
      invariant scanIndex + |pattern| <= scanLength + 1
      invariant end == offset - prefixLength + scanIndex + |pattern| - 1
      invariant Shows(view, offset - prefixLength, buffer[..scanLength])
      invariant Reflects(response, e, OccurrencesTo(view, pattern, end), before, total)
      invariant !response.truncated
    {
      if prefixLength != 0 && scanIndex + |pattern| <= prefixLength {
        assert false;
      }
      var stored := CheckPosition(e, pattern, buffer, scanLength, scanIndex, offset - prefixLength + scanIndex,
                                  response, view, before, total);
      if !stored {
        return;
      }
      end := end + 1;
      scanIndex := scanIndex + 1;
    }
  }

  /** Reads the next chunk in behind the carried prefix. */
  method ReadChunk(copy: CopyOracle, clock: nat, e: Entry, pattern: Pattern, buffer: array<byte>,
                   prefixLength: nat, offset: u64, chunkAddress: u64,
                   ghost whole: Sweep, ghost start: nat, ghost any: bool, ghost failed: bool)
    returns (ok: bool, copied: nat)
    requires offset < e.size && chunkAddress == e.address + offset
    requires buffer.Length == CHUNK_SIZE + |pattern| - 1
    requires prefixLength <= buffer.Length
    requires Progress(copy, e, whole, start, clock, offset, any, failed)
    requires Carried(whole.view, pattern, offset, prefixLength, buffer[..prefixLength])
    modifies buffer
    ensures var r := copy(clock, chunkAddress, Min(CHUNK_SIZE, e.size - offset)); ok == r.ok && copied == |r.bytes|
    ensures prefixLength + copied <= buffer.Length
    ensures Carried(whole.view, pattern, offset, prefixLength, buffer[..prefixLength])
    ensures Shows(whole.view, offset - prefixLength, buffer[..prefixLength + copied])
    ensures copied > 0 ==> Progress(copy, e, whole, start, clock + 1, offset + copied, true, failed || !ok)
  {
    hide Progress;
    var bytesToRead := Min(CHUNK_SIZE, e.size - offset);
    ghost var prefix := buffer[..prefixLength];
    ok, copied := CopyFromVirtualAddress(copy, clock, chunkAddress, buffer, prefixLength, bytesToRead);
    assert buffer[..prefixLength] == prefix;
    if copied > 0 {
      AfterRead(copy, e, whole, start, clock, offset, any, failed);
      ghost var chunk := buffer[prefixLength..prefixLength + copied];
      assert buffer[..prefixLength + copied] == prefix + chunk;
      forall k | prefixLength <= k < prefixLength + copied
        ensures whole.view[offset - prefixLength + k] == Some((prefix + chunk)[k])
      {
        assert whole.view[offset + (k - prefixLength)] == Some(chunk[k - prefixLength]);
      }
    }
  }

  /** The tail of a window is a carried prefix for the position behind the window. */
  lemma TailIsCarried(view: View, p: Pattern, offset: nat, prefixLength: nat, window: seq<byte>, kept: nat)
    requires prefixLength <= |window| && Carried(view, p, offset, prefixLength, window[..prefixLength])
    requires Shows(view, offset - prefixLength, window)
    requires kept == Min(|p| - 1, |window|)
    ensures Carried(view, p, offset - prefixLength + |window|, kept, window[|window| - kept..])
  {
    var start, cut, tail := offset - prefixLength, |window| - kept, window[|window| - kept..];
    forall k | 0 <= k < kept ensures view[start + cut + k] == Some(tail[k]) {
      assert view[start + (cut + k)] == Some(window[cut + k]);
    }
  }

  /** Moves what the next window needs to the front of the buffer. */
  method CarryOver(buffer: array<byte>, pattern: Pattern, scanLength: nat, ghost view: View, ghost offset: nat, ghost prefixLength: nat)
    returns (kept: nat)
    requires prefixLength <= scanLength <= buffer.Length
    requires Carried(view, pattern, offset, prefixLength, buffer[..prefixLength])
    requires Shows(view, offset - prefixLength, buffer[..scanLength])
    modifies buffer
    ensures kept <= buffer.Length
    ensures Carried(view, pattern, offset - prefixLength + scanLength, kept, buffer[..kept])
  {
    hide Carried, Shows;
    ghost var window := buffer[..scanLength];
    assert window[..prefixLength] == buffer[..prefixLength];
    kept := Min(|pattern| - 1, scanLength);
    TailIsCarried(view, pattern, offset, prefixLength, window, kept);
    TailOfPrefix(buffer[..], scanLength, kept);
    if kept > 0 {
      MoveToFront(buffer, scanLength - kept, kept);
    }
  }

  lemma TailOfPrefix(s: seq<byte>, n: nat, kept: nat)
    requires kept <= n <= |s|
    ensures s[..n][n - kept..] == s[n - kept..n]
  {
  }

  /** The sweep has come to `offset` at tick `t`, having read a byte or not, having met a failure or not. */
  ghost predicate Progress(copy: CopyOracle, e: Entry, whole: Sweep, start: nat, t: nat, offset: nat, any: bool, failed: bool): (r: bool)
    ensures r ==> |whole.view| == e.size
  {
    && Ahead(copy, e.address, e.size, whole, start, t, offset, failed)
    && any == SawAny(whole.view, Min(offset, e.size))
  }

  /** The sweep is over: `found` is everything, and the counters say what happened. */
  ghost predicate Finished(e: Entry, whole: Sweep, start: nat, t: nat, any: bool, failed: bool) {
    && t == start + whole.ticks && !whole.overflow
    && any == SawAny(whole.view, e.size) && failed == whole.failed
  }

  lemma Begin(copy: CopyOracle, e: Entry, p: Pattern, start: nat, response: SearchResponse)
    requires |response.results| <= response.capacity && !response.truncated
    ensures var whole := SweepFrom(copy, start, e.address, e.size, 0);
            && Progress(copy, e, whole, start, start, 0, false, false)
            && Carried(whole.view, p, 0, 0, [])
            && Reflects(response, e, OccurrencesTo(whole.view, p, 0), response.results, response.totalMatches)
  {
    AheadAtStart(copy, e.address, e.size, start);
  }

  lemma AfterRead(copy: CopyOracle, e: Entry, whole: Sweep, start: nat, t: nat, offset: nat, any: bool, failed: bool)
    requires Progress(copy, e, whole, start, t, offset, any, failed)
    requires offset < e.size && e.address + offset < TWO_64
    requires var r := copy(t, e.address + offset, Min(CHUNK_SIZE, e.size - offset)); r.bytes != []
    ensures var r := copy(t, e.address + offset, Min(CHUNK_SIZE, e.size - offset));
            && Progress(copy, e, whole, start, t + 1, offset + |r.bytes|, true, failed || !r.ok)
            && Shows(whole.view, offset, r.bytes)
  {
    AheadAfterRead(copy, e.address, e.size, whole, start, t, offset, failed);
    var r := copy(t, e.address + offset, Min(CHUNK_SIZE, e.size - offset));
    assert whole.view[offset + 0] == Some(r.bytes[0]);
  }

  lemma AfterSkip(copy: CopyOracle, e: Entry, p: Pattern, whole: Sweep, start: nat, t: nat, offset: nat, any: bool, failed: bool)
    requires Progress(copy, e, whole, start, t, offset, any, failed)
    requires offset < e.size && e.address + offset < TWO_64
    requires var r := copy(t, e.address + offset, Min(CHUNK_SIZE, e.size - offset)); r.bytes == [] && !r.ok
    requires NextPage(e.address + offset) > e.address
    ensures var next := NextPage(e.address + offset) - e.address;
            && Progress(copy, e, whole, start, t + 1, next, any, true)
            && OccurrencesTo(whole.view, p, Min(next, e.size)) == OccurrencesTo(whole.view, p, offset)
            && (next <= e.size ==> Carried(whole.view, p, next, 0, []))
  {
    var next := NextPage(e.address + offset) - e.address;
    AheadAfterSkip(copy, e.address, e.size, whole, start, t, offset, failed);
    NothingFoundInBlank(whole.view, p, offset, Min(next, e.size));
  }

  lemma AfterStop(copy: CopyOracle, e: Entry, p: Pattern, whole: Sweep, start: nat, t: nat, offset: nat, any: bool, failed: bool)
    requires Progress(copy, e, whole, start, t, offset, any, failed)
    requires offset < e.size && e.address + offset < TWO_64
    requires var r := copy(t, e.address + offset, Min(CHUNK_SIZE, e.size - offset));
             r.bytes == [] && (r.ok || NextPage(e.address + offset) <= e.address)
    ensures Finished(e, whole, start, t + 1, any, failed || !copy(t, e.address + offset, Min(CHUNK_SIZE, e.size - offset)).ok)
    ensures OccurrencesTo(whole.view, p, e.size) == OccurrencesTo(whole.view, p, offset)
  {
    AheadStops(copy, e.address, e.size, whole, start, t, offset, failed);
    NothingFoundInBlank(whole.view, p, offset, e.size);
  }

  lemma AtEnd(copy: CopyOracle, e: Entry, whole: Sweep, start: nat, t: nat, offset: nat, any: bool, failed: bool)
    requires Progress(copy, e, whole, start, t, offset, any, failed) && offset >= e.size
    ensures Finished(e, whole, start, t, any, failed)
  {
    AheadAtEnd(copy, e.address, e.size, whole, start, t, offset, failed);
  }

  lemma AtOverflow(copy: CopyOracle, e: Entry, p: Pattern, whole: Sweep, start: nat, t: nat, offset: nat, any: bool, failed: bool)
    requires Progress(copy, e, whole, start, t, offset, any, failed)
    requires offset < e.size && e.address + offset >= TWO_64
    ensures whole.overflow && OccurrencesTo(whole.view, p, e.size) == OccurrencesTo(whole.view, p, offset)
  {
    AheadOverflows(copy, e.address, e.size, whole, start, t, offset, failed);
    NothingFoundInBlank(whole.view, p, offset, e.size);
  }

  /** The sweep of one entry, and how its matches change the response. */
  method SearchEntry(e: Entry, pattern: Pattern, response: SearchResponse, copy: CopyOracle, clock: nat, allocOk: bool)
    returns (status: Status, clock': nat)
    requires |pattern| <= 256
    requires |response.results| <= response.capacity && !response.truncated
    modifies response
    ensures response.entriesScanned == old(response.entriesScanned)
    ensures !allocOk ==> status == InsufficientResources && unchanged(response)
    ensures allocOk ==>
              var whole := SweepFrom(copy, clock, e.address, e.size, 0);
              var complete := status == Success && !response.truncated;
              && Reflects(response, e, Occurrences(whole.view, pattern), old(response.results), old(response.totalMatches))
              && status == (if whole.overflow && !response.truncated then IntegerOverflow else Success)
              && (complete ==> clock' == clock + whole.ticks)
              && response.entriesSkipped == old(response.entriesSkipped) +
                                            (if complete && !SawAny(whole.view, e.size) then 1 else 0)
              && response.readFailures == old(response.readFailures) + (if complete && whole.failed then 1 else 0)
  {
    hide Reflects, MatchAt, Shows, OccurrencesTo, Carried, Progress, SweepFrom, SawAny, AddUnsigned64, NextPage;
    if !allocOk {
      return InsufficientResources, clock;
    }
    ghost var before, total := response.results, response.totalMatches;
    ghost var whole := SweepFrom(copy, clock, e.address, e.size, 0);
    ghost var view := whole.view;

    var buffer := new byte[CHUNK_SIZE + |pattern| - 1];
    var prefixLength: nat, offset: nat, readAny, readFailure := 0, 0, false, false;
    clock' := clock;
    Begin(copy, e, pattern, clock, response);
    ghost var stopped := false;
    while offset < e.size
      invariant !stopped && Progress(copy, e, whole, clock, clock', offset, readAny, readFailure)
      invariant prefixLength <= buffer.Length
      invariant offset <= e.size ==> Carried(view, pattern, offset, prefixLength, buffer[..prefixLength])
      invariant Reflects(response, e, OccurrencesTo(view, pattern, Min(offset, e.size)), before, total)
      invariant !response.truncated && unchanged(response`entriesSkipped, response`readFailures, response`entriesScanned)
      decreases e.size - offset
    {
      var chunkAddress := AddUnsigned64(e.address, offset);
      if chunkAddress.None? {
        AtOverflow(copy, e, pattern, whole, clock, clock', offset, readAny, readFailure);
        return IntegerOverflow, clock';
      }
      var ok, bytesCopied := ReadChunk(copy, clock', e, pattern, buffer, prefixLength, offset, chunkAddress.value,
                                       whole, clock, readAny, readFailure);
      ghost var any, failed := readAny, readFailure;
      if !ok {
        readFailure := true;
      }
      if !ok && bytesCopied == 0 {
        var nextPageAddress := NextPage(chunkAddress.value);
        if nextPageAddress <= e.address {
          AfterStop(copy, e, pattern, whole, clock, clock', offset, any, failed);
          clock', stopped := clock' + 1, true;
          break;
        }
        AfterSkip(copy, e, pattern, whole, clock, clock', offset, any, failed);
        clock' := clock' + 1;
        offset := nextPageAddress - e.address;
        prefixLength := 0;
        continue;
      }
      if bytesCopied > 0 {
        readAny := true;
      }
      var scanLength := prefixLength + bytesCopied;
      ScanWindow(e, pattern, buffer, prefixLength, scanLength, offset, response, view, before, total);
      if response.truncated {
        return Success, clock';
      }
      if bytesCopied == 0 {
        AfterStop(copy, e, pattern, whole, clock, clock', offset, any, failed);
        clock', stopped := clock' + 1, true;
        break;
      }
      prefixLength := CarryOver(buffer, pattern, scanLength, view, offset, prefixLength);
      clock' := clock' + 1;
      offset := offset + bytesCopied;
    }
    if !stopped {
      AtEnd(copy, e, whole, clock, clock', offset, readAny, readFailure);
    }
    if !readAny {
      response.entriesSkipped := response.entriesSkipped + 1;
    }
    if readFailure {
      response.readFailures := response.readFailures + 1;
    }
    return Success, clock';
  }
}
