/** Two scans of the same pools: what the diff says if nothing changed, and if one byte did. */
module ScanTwice {
  import opened Base
  import opened Memory
  import opened Pool
  import opened Paging
  import opened PageAccounting
  import opened ContentHash
  import opened HashTheorems
  import opened HashCoverage
  import opened HashDetection
  import opened Diff
  import opened ChangeDetection
  import opened SnapshotScan

  /** The first position with the identity of `e`, or the length. */
  function FirstIndex(entries: seq<Entry>, e: Entry): (i: nat)
    ensures i <= |entries|
    ensures i < |entries| ==> SameIdentity(entries[i], e)
    ensures forall k :: 0 <= k < i ==> !SameIdentity(entries[k], e)
  {
    if entries == [] then 0
    else if SameIdentity(entries[0], e) then 0
    else 1 + FirstIndex(entries[1..], e)
  }

  lemma FirstIndexIsFirst(entries: seq<Entry>, e: Entry)
    requires FirstIndex(entries, e) < |entries|
    ensures FirstAt(entries, FirstIndex(entries, e))
  {
    var i := FirstIndex(entries, e);
    forall k | 0 <= k < i ensures !SameIdentity(entries[k], entries[i]) {
      assert !SameIdentity(entries[k], e);
    }
  }

  /** A current entry and the baseline's match for it were hashed under one policy, over memories that agree in the windows. */
  ghost predicate Quiet(baseline: seq<Entry>, e: Entry, past: nat -> Moment, now: Moment, m1: PageMemory, m2: PageMemory) {
    var i := FirstIndex(baseline, e);
    && i < |baseline| && past(i).policy == now.policy
    && m1.Serves(past(i).copy) && m2.Serves(now.copy)
    && forall x: nat :: InWindow(now.policy, e.size, x) ==> AgreeAt(m1, m2, e.address, x)
  }

  /** If every pool of the second scan is quiet, the diff is empty. */
  lemma QuietScansGiveEmptyDiff(baseline: seq<Entry>, current: seq<Entry>, before: seq<BigPool>, after: seq<BigPool>,
                                oldId: u32, newId: u32, tables: bool, past: nat -> Moment, now: nat -> Moment,
                                olds: nat -> PageMemory, news: nat -> PageMemory)
    requires Recorded(baseline, NonPagedOf(before), oldId, tables, true, past)
    requires Recorded(current, NonPagedOf(after), newId, tables, true, now)
    requires forall j: nat :: j < |current| ==> Quiet(baseline, current[j], past, now(j), olds(j), news(j))
    ensures DiffOf(baseline, current) == []
  {
    hide Records, NonPagedOf, Quiet, Report, ContentHashChanged;
    forall j: nat | j < |current| ensures Report(baseline, current[j]) == None {
      QuietPoolIsNotReported(baseline, current[j], NonPagedOf(before), NonPagedOf(after)[j], oldId, newId, tables,
                             past, now(j), olds(j), news(j));
    }
    NothingReported(baseline, current);
  }

  lemma NothingReported(baseline: seq<Entry>, current: seq<Entry>)
    requires forall j: nat :: j < |current| ==> Report(baseline, current[j]) == None
    ensures DiffOf(baseline, current) == []
  {
    EmptyDiff(baseline, current);
  }

  lemma QuietPoolIsNotReported(baseline: seq<Entry>, e: Entry, before: seq<BigPool>, pool: BigPool, oldId: u32, newId: u32,
                               tables: bool, past: nat -> Moment, now: Moment, m1: PageMemory, m2: PageMemory)
    requires Recorded(baseline, before, oldId, tables, true, past) && Records(e, pool, newId, tables, true, now)
    requires Quiet(baseline, e, past, now, m1, m2)
    ensures Report(baseline, e) == None
  {
    hide Records, InWindow, AgreeAt, ContentReads, Hashed, FirstMatch, Report, m1.Serves;
    var i := FirstIndex(baseline, e);
    RecordedIsScanned(baseline[i], before[i], oldId, tables, past(i), m1);
    RecordedIsScanned(e, pool, newId, tables, now, m2);
    FirstIndexIsFirst(baseline, e);
    FirstAtIsFound(baseline, i, e);
    UnchangedPoolIsNotReported(Scan(past(i).copy, m1, 0, Unhashed(baseline[i])), Scan(now.copy, m2, 0, Unhashed(e)),
                               now.policy, baseline);
  }

  /** All moments of a scan over memory at rest. */
  function AtOnce(sight: Sight, m: PageMemory, policy: HashPolicy): (r: nat -> Moment)
    ensures forall k: nat :: r(k).policy == policy && m.Serves(r(k).copy)
  {
    (k: nat) => Moment(sight, m.Oracle(), policy)
  }

  /** Scans the same pools over two memories. */
  method ScanBoth(pools: seq<BigPool>, oldId: u32, newId: u32, pageTable: array?<u64>, hashBuffer: array<byte>,
                  sight: Sight, policy: HashPolicy, first: PageMemory, second: PageMemory)
    returns (baseline: seq<Entry>, current: seq<Entry>)
    requires pageTable != null ==> pageTable.Length == TABLE_LENGTH
    requires hashBuffer.Length == HASH_CHUNK_SIZE
    modifies pageTable, hashBuffer
    ensures Recorded(baseline, NonPagedOf(pools), oldId, pageTable != null, true, AtOnce(sight, first, policy))
    ensures Recorded(current, NonPagedOf(pools), newId, pageTable != null, true, AtOnce(sight, second, policy))
  {
    hide Recorded, NonPagedOf, AtOnce;
    baseline := ScanEntries(pools, oldId, pageTable, hashBuffer, AtOnce(sight, first, policy));
    current := ScanEntries(pools, newId, pageTable, hashBuffer, AtOnce(sight, second, policy));
  }

  /** Scanning twice without a change gives an empty diff, whatever the pools, duplicates included. */
  method ScanAgain(pools: seq<BigPool>, oldId: u32, newId: u32, pageTable: array?<u64>, hashBuffer: array<byte>,
                   sight: Sight, policy: HashPolicy, m: PageMemory)
    returns (baseline: seq<Entry>, current: seq<Entry>)
    requires pageTable != null ==> pageTable.Length == TABLE_LENGTH
    requires hashBuffer.Length == HASH_CHUNK_SIZE
    modifies pageTable, hashBuffer
    ensures |current| == |NonPagedOf(pools)| && DiffOf(baseline, current) == []
  {
    hide Records, NonPagedOf, AtOnce, DiffOf, Quiet;
    baseline, current := ScanBoth(pools, oldId, newId, pageTable, hashBuffer, sight, policy, m, m);
    ghost var moments := AtOnce(sight, m, policy);
    forall j: nat | j < |current| ensures Quiet(baseline, current[j], moments, moments(j), m, m) {
      SamePoolIsQuiet(baseline, current[j], NonPagedOf(pools), j, oldId, newId, pageTable != null, moments, m, policy);
    }
    QuietScansGiveEmptyDiff(baseline, current, pools, pools, oldId, newId, pageTable != null, moments, moments,
                            (j: nat) => m, (j: nat) => m);
  }

  lemma SamePoolIsQuiet(baseline: seq<Entry>, e: Entry, pools: seq<BigPool>, j: nat, oldId: u32, newId: u32, tables: bool,
                        moments: nat -> Moment, m: PageMemory, policy: HashPolicy)
    requires Recorded(baseline, pools, oldId, tables, true, moments)
    requires j < |pools| && Records(e, pools[j], newId, tables, true, moments(j))
    requires forall k: nat :: moments(k).policy == policy && m.Serves(moments(k).copy)
    ensures Quiet(baseline, e, moments, moments(j), m, m)
  {
    hide m.Serves, Hashed, Counts, FlagsBacked, CountPagesForRange;
    assert Records(baseline[j], pools[j], oldId, tables, true, moments(j));
    assert SameIdentity(baseline[j], e);
  }

  /** The i-th pool is the first with its address, size and tag. */
  predicate FirstOfItsKind(pools: seq<BigPool>, i: nat)
    requires i < |pools|
  {
    forall k :: 0 <= k < i ==> pools[k] != pools[i]
  }

  /** Scan, write one byte of a pool, scan again: the diff reports that pool exactly when the byte is hashed. */
  method ScanWriteScan(pools: seq<BigPool>, oldId: u32, newId: u32, pageTable: array?<u64>, hashBuffer: array<byte>,
                       sight: Sight, policy: HashPolicy, m: PageMemory, i: nat, x: nat, v: byte)
    returns (baseline: seq<Entry>, current: seq<Entry>)
    requires pageTable != null ==> pageTable.Length == TABLE_LENGTH
    requires hashBuffer.Length == HASH_CHUNK_SIZE
    requires i < |NonPagedOf(pools)| && FirstOfItsKind(NonPagedOf(pools), i)
    requires var pool := NonPagedOf(pools)[i]; x < pool.size && m.content(pool.Address() + x) != v
    modifies pageTable, hashBuffer
    ensures |current| == |NonPagedOf(pools)|
    ensures var pool := NonPagedOf(pools)[i];
            var changed := current[i].(flags := current[i].flags + {HashChanged});
            var hashed := ByteIsHashed(m, pool.Address(), pool.size, policy, x);
            && Report(baseline, current[i]) == (if hashed then Some(changed) else None)
            && (hashed ==> changed in DiffOf(baseline, current))
  {
    hide Records, NonPagedOf, AtOnce, DiffOf, Report, ByteIsHashed;
    var pool := NonPagedOf(pools)[i];
    var w := m.Poke(pool.Address() + x, v);
    baseline, current := ScanBoth(pools, oldId, newId, pageTable, hashBuffer, sight, policy, m, w);
    ghost var tables, past, now := pageTable != null, AtOnce(sight, m, policy), AtOnce(sight, w, policy);
    FirstPoolIsFirstEntry(baseline, NonPagedOf(pools), i, oldId, tables, past);
    SamePoolSameIdentity(baseline[i], current[i], pool, oldId, newId, tables, past(i), now(i));
    PokeAgreesElsewhere(m, pool.Address(), pool.size, policy, x, v);
    ByteChangeReachesTheDiff(baseline, current, pools, pools, oldId, newId, tables, past, now, i, i, m, w, x);
  }

  lemma SamePoolSameIdentity(a: Entry, b: Entry, pool: BigPool, oldId: u32, newId: u32, tables: bool, past: Moment, now: Moment)
    requires Records(a, pool, oldId, tables, true, past) && Records(b, pool, newId, tables, true, now)
    ensures SameIdentity(a, b) && a.address == pool.Address() && a.size == pool.size
  {
    hide Hashed, Counts, FlagsBacked, CountPagesForRange;
  }

  lemma FirstPoolIsFirstEntry(entries: seq<Entry>, pools: seq<BigPool>, i: nat, id: u32, tables: bool, moments: nat -> Moment)
    requires Recorded(entries, pools, id, tables, true, moments) && i < |pools| && FirstOfItsKind(pools, i)
    requires forall p :: p in pools ==> p.NonPaged()
    ensures FirstAt(entries, i)
  {
    hide Hashed, Counts, FlagsBacked, CountPagesForRange;
    forall k: nat | k < i ensures !SameIdentity(entries[k], entries[i]) {
      assert Records(entries[k], pools[k], id, tables, true, moments(k));
      assert Records(entries[i], pools[i], id, tables, true, moments(i));
      assert pools[k] in pools && pools[i] in pools;
      DifferentPools(pools[k], pools[i]);
    }
  }

  lemma DifferentPools(p: BigPool, q: BigPool)
    requires p.NonPaged() && q.NonPaged() && p != q
    ensures p.Address() != q.Address() || p.size != q.size || p.tag != q.tag
  {
  }
}
