/**
 * Fetching the entries of a snapshot takes two requests: one for the count, one for as many entries.
 * The store may change in between.
 */
module EntryTransfer {
  import opened Base
  import opened Pool
  import opened SnapshotStore
  import System = SnapshotSystem
  import Size = SnapshotSize

  const ENTRIES_HEADER_SIZE: nat := 16
  const ENTRY_SIZE: nat := 56

  datatype Reply =
    | Refused(status: Status)
    | Answered(entries: seq<Entry>, totalCount: nat, information: nat)

  /** The reply has as many entries as fit behind the header. */
  ghost predicate HoldsWhatFits(reply: Reply, snapshot: seq<Entry>, outputLength: u32) {
    if outputLength < ENTRIES_HEADER_SIZE then reply == Refused(BufferTooSmall)
    else
      && reply.Answered?
      && reply.entries <= snapshot && reply.totalCount == |snapshot|
      && reply.information == ENTRIES_HEADER_SIZE + ENTRY_SIZE * |reply.entries| <= outputLength
      && (reply.entries == snapshot || reply.information + ENTRY_SIZE > outputLength)
  }

  method CompleteEntriesResponse(snapshot: seq<Entry>, outputLength: u32) returns (reply: Reply)
    ensures HoldsWhatFits(reply, snapshot, outputLength)
  {
    if outputLength < ENTRIES_HEADER_SIZE {
      return Refused(BufferTooSmall);
    }
    var capacity := (outputLength - ENTRIES_HEADER_SIZE) / ENTRY_SIZE;
    var copied := if capacity < |snapshot| then capacity else |snapshot|;
    return Answered(snapshot[..copied], |snapshot|, ENTRIES_HEADER_SIZE + ENTRY_SIZE * copied);
  }

  datatype Result =
    | Failed(status: Status)
    | Malformed
    | Fetched(entries: seq<Entry>, total: nat)

  /** The length passed to the driver: the buffer's, cut to 32 bits. */
  function OutputLength(count: u32): u32 {
    (ENTRIES_HEADER_SIZE + count * ENTRY_SIZE) % TWO_32
  }

  predicate LengthWraps(count: u32) {
    ENTRIES_HEADER_SIZE + count * ENTRY_SIZE >= TWO_32
  }

  function Capacity(count: u32): nat
    requires OutputLength(count) >= ENTRIES_HEADER_SIZE
  {
    (OutputLength(count) - ENTRIES_HEADER_SIZE) / ENTRY_SIZE
  }

  /** What a transfer gives when the driver's copy shows `snapshot`. */
  function Transferred(count: u32, snapshot: seq<Entry>): Result {
    if count == 0 then Fetched([], 0)
    else if OutputLength(count) < ENTRIES_HEADER_SIZE then Failed(BufferTooSmall)
    else Fetched(snapshot[..Min(Capacity(count), |snapshot|)], |snapshot|)
  }

  /** The capacity is never more than the count, and is the count unless the length wraps. */
  lemma CapacityIsCount(count: u32)
    requires OutputLength(count) >= ENTRIES_HEADER_SIZE
    ensures Capacity(count) <= count
    ensures Capacity(count) == count <==> !LengthWraps(count)
  {
    var length := ENTRIES_HEADER_SIZE + count * ENTRY_SIZE;
    assert length % TWO_32 <= length;
    assert LengthWraps(count) ==> length % TWO_32 <= length - TWO_32;
  }

  /** The client's checks never reject the driver's reply. `copied` is the driver's copy, if it could make one. */
  method EntriesRequest(count: u32, copied: Option<seq<Entry>>) returns (result: Result)
    ensures copied.Some? ==> result == Transferred(count, copied.value)
    ensures copied.None? ==> result == if count == 0 then Fetched([], 0) else Failed(InsufficientResources)
  {
    hide OutputLength;
    if count == 0 {
      return Fetched([], 0);
    }
    if copied.None? {
      return Failed(InsufficientResources);
    }
    var reply := CompleteEntriesResponse(copied.value, OutputLength(count));
    if reply.Refused? {
      return Failed(reply.status);
    }
    CapacityIsCount(count);
    PrefixLength(copied.value, |reply.entries|, Capacity(count), OutputLength(count));
    if reply.information < ENTRIES_HEADER_SIZE {
      return Malformed;
    }
    if reply.entries == [] {
      return Fetched([], reply.totalCount);
    }
    if |reply.entries| > count {
      return Malformed;
    }
    if reply.information < ENTRIES_HEADER_SIZE + |reply.entries| * ENTRY_SIZE {
      return Malformed;
    }
    return Fetched(reply.entries, reply.totalCount);
  }

  lemma PrefixLength(snapshot: seq<Entry>, n: nat, capacity: nat, length: nat)
    requires n <= |snapshot| && capacity == (length - ENTRIES_HEADER_SIZE) / ENTRY_SIZE
    requires ENTRIES_HEADER_SIZE + ENTRY_SIZE * n <= length
    requires n == |snapshot| || ENTRIES_HEADER_SIZE + ENTRY_SIZE * n + ENTRY_SIZE > length
    ensures n == Min(capacity, |snapshot|)
  {
  }

  /** All of the first `count` entries arrive, for every snapshot, exactly when the length does not wrap. */
  lemma AllArriveIffNoWrap(count: u32)
    requires count > 0
    ensures (forall s: seq<Entry> :: Transferred(count, s) == Fetched(s[..Min(count, |s|)], |s|)) <==> !LengthWraps(count)
  {
    if LengthWraps(count) {
      var s := Zeros(count);
      if OutputLength(count) >= ENTRIES_HEADER_SIZE {
        CapacityIsCount(count);
        assert |s[..Min(Capacity(count), |s|)]| < |s[..Min(count, |s|)]|;
      }
      assert Transferred(count, s) != Fetched(s[..Min(count, |s|)], |s|);
    } else {
      CapacityIsCount(count);
    }
  }

  /** It is refused altogether for two counts in every 2^29: those whose length is cut to 0 or to 8. */
  lemma RefusedCounts(count: u32, snapshot: seq<Entry>)
    ensures Transferred(count, snapshot).Failed? <==> count % 0x2000_0000 in {153_391_689, 306_783_378}
  {
    var q, r := count / 0x2000_0000, count % 0x2000_0000;
    assert ENTRIES_HEADER_SIZE + count * ENTRY_SIZE == (q * 7) * TWO_32 + 8 * (2 + 7 * r);
    hide OutputLength;
    DropWholeWords(q * 7, 8 * (2 + 7 * r));
    CutLength(r, 8 * (2 + 7 * r) / TWO_32, 8 * (2 + 7 * r) % TWO_32);
    assert count == 0 ==> r == 0;
    LengthOf(count);
  }

  lemma LengthOf(count: u32)
    ensures OutputLength(count) == (ENTRIES_HEADER_SIZE + count * ENTRY_SIZE) % TWO_32
  {
  }

  lemma CutLength(r: nat, words: nat, rest: nat)
    requires r < 0x2000_0000 && 8 * (2 + 7 * r) == words * TWO_32 + rest && rest < TWO_32
    ensures rest < 16 <==> r in {153_391_689, 306_783_378}
  {
    assert words < 7;
    assert r == 306_783_378 ==> words == 4;
    assert r == 153_391_689 ==> words == 2;
  }

  lemma DropWholeWords(words: nat, rest: nat)
    ensures (words * TWO_32 + rest) % TWO_32 == rest % TWO_32
  {
    DivisionIsUnique(words * TWO_32 + rest, words + rest / TWO_32, rest % TWO_32, TWO_32);
  }

  /** The least count that wraps fetches no entry at all; a larger one is refused. */
  lemma LeastWrap(snapshot: seq<Entry>)
    ensures LengthWraps(76_695_845) && !LengthWraps(76_695_844)
    ensures Transferred(76_695_845, snapshot) == Fetched([], |snapshot|)
    ensures Transferred(153_391_689, snapshot) == Failed(BufferTooSmall)
  {
  }

  /** None of these counts occurs: a count that the driver reports is far below the least that wraps. */
  lemma ReportedCountsDoNotWrap(steps: seq<System.Step>, target: System.Target)
    requires Size.AllFeasible(steps)
    ensures var count := |System.Visible(System.Run(System.START, steps).View(), target)|; count <= MAX_ULONG && !LengthWraps(count)
  {
    hide System.Run, System.Visible;
    Size.CountsDoNotWrap(steps, target);
  }

  /**
   * Across the two requests any number of steps of other requests may happen. What is fetched is a
   * prefix of one committed snapshot, all of one scan, of the length asked for or of all there is.
   */
  lemma TransferAcrossSteps(before: seq<System.Step>, between: seq<System.Step>, target: System.Target)
    requires Size.AllFeasible(before)
    ensures var seen, now := System.Run(System.START, before).View(), System.Run(System.START, before + between).View();
            var count := |match target case TargetDiff => seen.diff case TargetCurrent => seen.current|;
            var shown := match target case TargetDiff => now.diff case TargetCurrent => now.current;
            && count <= MAX_ULONG
            && var r := Transferred(count, shown);
               && r.Fetched? && r.entries <= shown
               && |r.entries| == (if count == 0 then 0 else Min(count, |shown|))
               && r.total == (if count == 0 then 0 else |shown|)
               && (between == [] ==> r.entries == shown)
               && exists id :: System.Stamped(r.entries, id)
  {
    hide System.Run, System.Owned, System.Local, Capacity, LengthWraps;
    ReportedCountsDoNotWrap(before, target);
    var count := |System.Visible(System.Run(System.START, before).View(), target)|;
    var s := System.Run(System.START, before + between);
    System.EveryRunIsSafe(before + between);
    assert System.Consistent(s.View(), s.diffMissing);
    if count > 0 {
      NoWrapKeepsHeader(count);
      CapacityIsCount(count);
    }
    if between == [] {
      assert before + between == before;
    }
    var id :| System.Stamped(s.View().current, id) && System.Stamped(s.View().diff, id);
    var r := Transferred(count, System.Visible(s.View(), target));
    assert System.Stamped(r.entries, id);
  }

  lemma NoWrapKeepsHeader(count: u32)
    requires !LengthWraps(count)
    ensures OutputLength(count) >= ENTRIES_HEADER_SIZE
  {
  }
}
