/** The scan that fills a snapshot: one entry for each non-paged big pool, annotated and hashed. */
module SnapshotScan {
  import opened Base
  import opened Memory
  import opened Pool
  import opened Sequences
  import opened Paging
  import opened PageAccounting
  import opened ContentHash
  import opened HashTheorems
  import opened HashCoverage
  import opened HashDetection
  import opened Diff
  import opened ChangeDetection

  /** SYSTEM_BIGPOOL_ENTRY: bit 0 of the address tells that the pool is non-paged. */
  datatype BigPool = BigPool(virtualAddress: u64, size: u64, tag: u32) {
    predicate NonPaged() {
      virtualAddress % 2 == 1
    }

    function Address(): (r: u64)
      ensures r % 2 == 0 && (r == virtualAddress || r + 1 == virtualAddress)
    {
      virtualAddress - virtualAddress % 2
    }
  }

  /** What the scan meets at an entry: paging and probes, then the copies of the hash and its policy. */
  datatype Moment = Moment(sight: Sight, copy: CopyOracle, policy: HashPolicy)

  function NonPagedOf(pools: seq<BigPool>): (r: seq<BigPool>)
    ensures forall p :: p in r <==> p in pools && p.virtualAddress % 2 == 1
  {
    Selected(pools, (p: BigPool) => p.NonPaged())
  }

  /** The entry as it was when hashing began. */
  function Unhashed(e: Entry): Entry {
    e.(contentHash := 0, hashedBytes := 0, flags := e.flags - {HashSampled})
  }

  /** The page counters and flags of an entry: those of its pages, or without a page table those of its first byte. */
  ghost predicate Counted(e: Entry, tables: bool, sight: Sight) {
    if tables then
      && Counts(e, sight, e.pageCount)
      && e.flags == {Flag.NonPaged} + FirstPageFlags(sight, e.address, e.pageCount) + AllPagesFlags(sight, e.address, e.pageCount)
    else
      var readable := e.size > 0 && sight.Probe(0, e.address);
      && e.accessiblePages == (if readable then 1 else 0) && e.writablePages == e.executablePages == 0
      && e.flags == {Flag.NonPaged} + When(readable, Accessible)
  }

  /** An entry tells the truth about its pool, as far as the moment showed it. */
  ghost predicate Records(e: Entry, pool: BigPool, id: u32, tables: bool, hashing: bool, m: Moment) {
    && e.address == pool.Address() && e.size == pool.size && e.tag == pool.tag && e.snapshotId == id
    && NonPaged in e.flags && HashChanged !in e.flags
    && e.pageCount == CountPagesForRange(e.address, e.size)
    && Counted(Unhashed(e), tables, m.sight)
    && FlagsBacked(e)
    && e == if hashing then Hashed(m.copy, 0, Unhashed(e), m.policy) else Unhashed(e)
  }

  lemma HashedKeepsTheRest(copy: CopyOracle, t: nat, e: Entry, policy: HashPolicy)
    requires e == Unhashed(e)
    ensures Unhashed(Hashed(copy, t, e, policy)) == e
  {
    hide Absorb, ContentReads, Mix;
  }

  lemma PageFlagsOnly(sight: Sight, a: u64, n: nat)
    ensures var s := FirstPageFlags(sight, a, n) + AllPagesFlags(sight, a, n);
            HashSampled !in s && HashChanged !in s && Flag.NonPaged !in s
  {
    hide FirstPageFlags, AllPagesFlags, SummaryFlags, sight.WritableIn, sight.ExecutableIn, sight.AccessibleIn;
    CountsDecideFlags(sight, a, n);
    SummaryMeaning(n, |sight.AccessibleIn(a, n)|, |sight.WritableIn(a, n)|, |sight.ExecutableIn(a, n)|);
    FirstPageBacked(sight, a, n);
  }

  /** What annotation leaves of a new entry, and hashing keeps. */
  ghost predicate Annotated(e: Entry, pool: BigPool, id: u32, tables: bool, sight: Sight) {
    && e.address == pool.Address() && e.size == pool.size && e.tag == pool.tag && e.snapshotId == id
    && Flag.NonPaged in e.flags && HashChanged !in e.flags
    && e.pageCount == CountPagesForRange(e.address, e.size)
    && Counted(e, tables, sight)
    && FlagsBacked(e)
    && e == Unhashed(e)
  }

  method AnnotateNew(entry: PoolEntry, pool: BigPool, id: u32, pageTable: array?<u64>, sight: Sight)
    requires pool.NonPaged() && entry.Value() == Entry(pool.Address(), pool.size, pool.tag, {Flag.NonPaged}, 0, 0, 0, 0, 0, 0, id)
    requires pageTable != null ==> pageTable.Length == TABLE_LENGTH
    modifies entry, pageTable
    ensures Annotated(entry.Value(), pool, id, pageTable != null, sight)
  {
    hide CountPagesForRange, sight.WritableIn, sight.ExecutableIn, sight.AccessibleIn, sight.Probe,
         FirstPageFlags, AllPagesFlags;
    AnnotatePoolEntryAttributes(entry, pageTable, sight);
    PageFlagsOnly(sight, entry.address, entry.pageCount);
    if pageTable != null {
      AnnotationBacksFlags(entry.Value(), sight, entry.pageCount);
    }
  }

  method ScanEntry(pool: BigPool, id: u32, pageTable: array?<u64>, hashBuffer: array?<byte>, m: Moment) returns (e: Entry)
    requires pool.NonPaged()
    requires pageTable != null ==> pageTable.Length == TABLE_LENGTH
    requires hashBuffer != null ==> hashBuffer.Length == HASH_CHUNK_SIZE
    modifies pageTable, hashBuffer
    ensures Records(e, pool, id, pageTable != null, hashBuffer != null, m)
  {
    hide CountPagesForRange, Counts, Hashed;
    var entry := new PoolEntry(pool.Address(), pool.size, pool.tag, id);
    AnnotateNew(entry, pool, id, pageTable, m.sight);
    ghost var annotated := entry.Value();
    var _ := HashPoolEntryContent(entry, hashBuffer, m.policy, m.copy, 0);
    e := entry.Value();
    HashingRecords(annotated, pool, id, pageTable != null, m);
  }

  lemma HashingRecords(e: Entry, pool: BigPool, id: u32, tables: bool, m: Moment)
    requires Annotated(e, pool, id, tables, m.sight)
    ensures Records(e, pool, id, tables, false, m)
    ensures Records(Hashed(m.copy, 0, e, m.policy), pool, id, tables, true, m)
  {
    hide CountPagesForRange, Counted, Absorb, ContentReads, Mix;
    HashedKeepsTheRest(m.copy, 0, e, m.policy);
    assert Hashed(m.copy, 0, e, m.policy).flags <= e.flags + {HashSampled};
  }

  /** The entries record the non-paged pools, in order. */
  ghost predicate Recorded(entries: seq<Entry>, pools: seq<BigPool>, id: u32, tables: bool, hashing: bool, moments: nat -> Moment) {
    |entries| == |pools| && forall k: nat :: k < |pools| ==> Records(entries[k], pools[k], id, tables, hashing, moments(k))
  }

  lemma NothingRecorded(id: u32, tables: bool, hashing: bool, moments: nat -> Moment)
    ensures Recorded([], NonPagedOf([]), id, tables, hashing, moments)
  {
  }

  lemma NonPagedStep(pools: seq<BigPool>, i: nat)
    requires i < |pools|
    ensures NonPagedOf(pools[..i + 1])
         == if pools[i].NonPaged() then NonPagedOf(pools[..i]) + [pools[i]] else NonPagedOf(pools[..i])
  {
    SelectedStep(pools, (p: BigPool) => p.NonPaged(), i);
  }

  lemma RecordedOneMore(entries: seq<Entry>, pools: seq<BigPool>, e: Entry, pool: BigPool, id: u32, tables: bool,
                        hashing: bool, moments: nat -> Moment)
    requires Recorded(entries, pools, id, tables, hashing, moments)
    requires Records(e, pool, id, tables, hashing, moments(|entries|))
    ensures Recorded(entries + [e], pools + [pool], id, tables, hashing, moments)
  {
    hide Records;
  }

  /** The snapshot holds one truthful entry for each non-paged pool, and nothing else. */
  method ScanEntries(pools: seq<BigPool>, id: u32, pageTable: array?<u64>, hashBuffer: array?<byte>, moments: nat -> Moment)
    returns (entries: seq<Entry>)
    requires pageTable != null ==> pageTable.Length == TABLE_LENGTH
    requires hashBuffer != null ==> hashBuffer.Length == HASH_CHUNK_SIZE
    modifies pageTable, hashBuffer
    ensures Recorded(entries, NonPagedOf(pools), id, pageTable != null, hashBuffer != null, moments)
  {
    NothingRecorded(id, pageTable != null, hashBuffer != null, moments);
    hide Records, Recorded, NonPagedOf;
    entries := [];
    for i := 0 to |pools|
      invariant Recorded(entries, NonPagedOf(pools[..i]), id, pageTable != null, hashBuffer != null, moments)
    {
      NonPagedStep(pools, i);
      if pools[i].NonPaged() {
        var e := ScanEntry(pools[i], id, pageTable, hashBuffer, moments(|entries|));
        RecordedOneMore(entries, NonPagedOf(pools[..i]), e, pools[i], id, pageTable != null, hashBuffer != null, moments);
        entries := entries + [e];
      }
    }
    assert pools[..|pools|] == pools;
  }

  // ----- from memory to the diff, over two whole scans

  /** The i-th entry is the first of its identity: the one that a lookup finds. */
  ghost predicate FirstAt(entries: seq<Entry>, i: nat)
    requires i < |entries|
  {
    forall k :: 0 <= k < i ==> !SameIdentity(entries[k], entries[i])
  }

  lemma FirstAtIsFound(entries: seq<Entry>, i: nat, e: Entry)
    requires i < |entries| && FirstAt(entries, i) && SameIdentity(entries[i], e)
    ensures FirstMatch(entries, e) == Some(entries[i])
  {
    FirstMatchMeaning(entries, e);
    forall k | 0 <= k < i ensures !SameIdentity(entries[k], e) {
      assert !SameIdentity(entries[k], entries[i]);
    }
  }

  /** A recorded entry is the result of a scan in the sense of change detection. */
  lemma RecordedIsScanned(e: Entry, pool: BigPool, id: u32, tables: bool, m: Moment, memory: PageMemory)
    requires Records(e, pool, id, tables, true, m) && memory.Serves(m.copy)
    ensures var scan := Scan(m.copy, memory, 0, Unhashed(e)); scan.Sound() && scan.Result(m.policy) == e
  {
    hide Hashed, Counts, FlagsBacked, CountPagesForRange, memory.Serves;
  }

  /**
   * Two whole scans with the same policy find one pool, readable at the same places, with one byte
   * changed. Rebuilding the diff puts the pool's current entry in it, as HASH_CHANGED, exactly when
   * that byte is hashed.
   */
  lemma ByteChangeReachesTheDiff(baseline: seq<Entry>, current: seq<Entry>, before: seq<BigPool>, after: seq<BigPool>,
                                 oldId: u32, newId: u32, tables: bool, past: nat -> Moment, now: nat -> Moment,
                                 i: nat, j: nat, a: PageMemory, b: PageMemory, x: nat)
    requires Recorded(baseline, NonPagedOf(before), oldId, tables, true, past) && i < |baseline| && FirstAt(baseline, i)
    requires Recorded(current, NonPagedOf(after), newId, tables, true, now) && j < |current|
    requires SameIdentity(baseline[i], current[j]) && past(i).policy == now(j).policy
    requires a.Serves(past(i).copy) && b.Serves(now(j).copy)
    requires x < baseline[i].size && AgreeExceptAt(a, b, baseline[i].address, baseline[i].size, now(j).policy, x)
    requires a.ReadableAt(baseline[i].address, x) == b.ReadableAt(baseline[i].address, x)
    requires a.content(baseline[i].address + x) != b.content(baseline[i].address + x)
    ensures var hashed := ByteIsHashed(a, baseline[i].address, baseline[i].size, now(j).policy, x);
            var changed := current[j].(flags := current[j].flags + {HashChanged});
            && Report(baseline, current[j]) == (if hashed then Some(changed) else None)
            && (hashed ==> changed in DiffOf(baseline, current))
  {
    hide Records, a.Serves, NonPagedOf, AgreeExceptAt, Covered, a.ReadableAt, ContentReads, Hashed, FirstMatch, ByteIsHashed;
    RecordedIsScanned(baseline[i], NonPagedOf(before)[i], oldId, tables, past(i), a);
    RecordedIsScanned(current[j], NonPagedOf(after)[j], newId, tables, now(j), b);
    var s := Scan(past(i).copy, a, 0, Unhashed(baseline[i]));
    var t := Scan(now(j).copy, b, 0, Unhashed(current[j]));
    FirstAtIsFound(baseline, i, current[j]);
    ContentHashes(past(i).copy, a, 0, baseline[i].address, baseline[i].size, now(j).policy, x);
    OneByteChangeIsReported(s, t, now(j).policy, x, baseline, current, j);
  }
}
