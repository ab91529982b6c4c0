/** From a byte in memory to an entry of the diff. */
module ChangeDetection {
  import opened Base
  import opened Memory
  import opened Pool
  import opened ContentHash
  import opened HashTheorems
  import opened HashCoverage
  import opened HashDetection
  import opened Diff

  lemma ReportedIsInDiff(baseline: seq<Entry>, current: seq<Entry>, i: nat)
    requires i < |current| && Report(baseline, current[i]).Some?
    ensures Report(baseline, current[i]).value in DiffOf(baseline, current)
  {
    DiffIsPicks(baseline, current);
    var picks := Picks(baseline, current);
    assert i in picks;
    var k :| 0 <= k < |picks| && picks[k] == i;
    assert DiffOf(baseline, current)[k] == Report(baseline, current[i]).value;
  }

  /**
   * Let two scans of a pool, readable at the same places, differ in one byte of it, and let the first be
   * the baseline's match. The diff then reports the pool as HASH_CHANGED exactly when that byte is
   * among those hashed.
   */
  lemma OneByteChangeIsReported(a: Scan, b: Scan, policy: HashPolicy, x: nat, baseline: seq<Entry>, current: seq<Entry>, i: nat)
    requires a.Sound() && b.Sound() && SamePool(a, b) && x < a.entry.size
    requires AgreeExceptAt(a.memory, b.memory, a.entry.address, a.entry.size, policy, x)
    requires a.memory.ReadableAt(a.entry.address, x) == b.memory.ReadableAt(a.entry.address, x)
    requires a.memory.content(a.entry.address + x) != b.memory.content(a.entry.address + x)
    requires i < |current| && current[i] == b.Result(policy) && FirstMatch(baseline, current[i]) == Some(a.Result(policy))
    ensures Report(baseline, current[i]) ==
            if Covered(a.Reads(policy), x)
            then Some(current[i].(flags := current[i].flags + {HashChanged}))
            else None
    ensures Covered(a.Reads(policy), x) ==>
              current[i].(flags := current[i].flags + {HashChanged}) in DiffOf(baseline, current)
  {
    hide a.memory.Serves, ContentReads, AgreeExceptAt, Fresh, Covered, FirstMatch, Absorb, Mix, a.Result;
    OneByteChangesHashIffHashed(a, b, policy, x);
    if Covered(a.Reads(policy), x) {
      ReportedIsInDiff(baseline, current, i);
    }
  }

  lemma PokeAgreesElsewhere(m: PageMemory, base: u64, size: u64, policy: HashPolicy, x: nat, v: byte)
    ensures AgreeExceptAt(m, m.Poke(base + x, v), base, size, policy, x)
    ensures m.Poke(base + x, v).ReadableAt(base, x) == m.ReadableAt(base, x)
  {
    hide InWindow;
  }

  /**
   * Write another value to one byte of a pool between two scans of it. Whatever the memory, the pool
   * and the policy, the diff reports the pool exactly when that byte is hashed. In a pool on the
   * 512-byte grid that is every readable byte without sampling; with sampling it is every readable byte of
   * the first window, and of the second what is reached from its start.
   */
  lemma OneWriteIsReported(m: PageMemory, e: Entry, policy: HashPolicy, x: nat, v: byte)
    requires Fresh(e) && x < e.size && m.content(e.address + x) != v
    ensures var before := Hashed(m.Oracle(), 0, e, policy);
            var after := Hashed(m.Poke(e.address + x, v).Oracle(), 0, e, policy);
            var hashed := ByteIsHashed(m, e.address, e.size, policy, x);
            var half := policy.Sample() / 2;
            && DiffOf([before], [after]) == (if hashed then [after.(flags := after.flags + {HashChanged})] else [])
            && (OnGrid(e.address) && !policy.Samples(e.size) ==> (hashed <==> m.ReadableAt(e.address, x)))
            && (OnGrid(e.address) && policy.Samples(e.size) ==>
                  (hashed <==> && m.ReadableAt(e.address, x)
                               && (x < half || (e.size - half <= x && Reached(m, e.address, e.size - half, x)))))
  {
    hide m.Serves, m.Oracle, ContentReads, Fresh, Covered, Absorb, Mix, m.ReadableAt, Hashed, AgreeExceptAt, Report,
         ByteIsHashed, Reached;
    var a := Scan(m.Oracle(), m, 0, e);
    var b := Scan(m.Poke(e.address + x, v).Oracle(), m.Poke(e.address + x, v), 0, e);
    PokeAgreesElsewhere(m, e.address, e.size, policy, x, v);
    var baseline, current := [a.Result(policy)], [b.Result(policy)];
    SameIdentityAfterHashing(a, b, policy);
    OneByteChangeIsReported(a, b, policy, x, baseline, current, 0);
    DiffOfOne(baseline, b.Result(policy));
    ContentHashes(m.Oracle(), m, 0, e.address, e.size, policy, x);
    if OnGrid(e.address) {
      AlignedPoolsHash(m, e.address, e.size, policy, x);
    }
  }

  lemma SameIdentityAfterHashing(a: Scan, b: Scan, policy: HashPolicy)
    requires a.entry == b.entry
    ensures SameIdentity(a.Result(policy), b.Result(policy))
    ensures FirstMatch([a.Result(policy)], b.Result(policy)) == Some(a.Result(policy))
  {
    hide ContentReads, Absorb, Mix;
  }

  lemma DiffOfOne(baseline: seq<Entry>, e: Entry)
    ensures DiffOf(baseline, [e]) == if Report(baseline, e).Some? then [Report(baseline, e).value] else []
  {
    hide Report;
    assert [e][..0] == [];
    assert DiffOf(baseline, []) == [];
  }

  /** A pool whose hashed bytes and readability are unchanged since the baseline's match is not reported. */
  lemma UnchangedPoolIsNotReported(a: Scan, b: Scan, policy: HashPolicy, baseline: seq<Entry>)
    requires a.Sound() && b.Sound() && SamePool(a, b)
    requires forall x: nat :: InWindow(policy, a.entry.size, x) ==> AgreeAt(a.memory, b.memory, a.entry.address, x)
    requires FirstMatch(baseline, b.Result(policy)) == Some(a.Result(policy))
    ensures Report(baseline, b.Result(policy)) == None
  {
    hide a.memory.Serves, ContentReads, InWindow, AgreeAt, Fresh, FirstMatch, Absorb, Mix, a.Result;
    HashDependsOnWindowsOnly(a, b, policy);
  }
}
