/** How many bytes a hash covers, and what the diff cannot see because it compares these numbers first. */
module HashCounting {
  import opened Base
  import opened Memory
  import opened Pool
  import opened ContentHash
  import opened HashTheorems
  import opened HashCoverage
  import opened HashDetection
  import opened Diff
  import opened ChangeDetection

  ghost function CoveredBytes(cs: seq<Chunk>, size: nat): set<nat> {
    set x | x in Interval(0, size) && Covered(cs, x)
  }

  /** The bytes of a pool that are hashed. */
  ghost function HashedBytes(m: PageMemory, base: u64, size: u64, policy: HashPolicy): set<nat> {
    set x | x in Interval(0, size) && ByteIsHashed(m, base, size, policy, x)
  }

  lemma ShorterIsInOrder(cs: seq<Chunk>, to: nat)
    requires cs != [] && InOrder(cs, 0, to)
    ensures var n, c := |cs| - 1, cs[|cs| - 1]; InOrder(cs[..n], 0, c.offset) && c.offset + |c.bytes| <= to
  {
  }

  lemma LastChunkAdds(cs: seq<Chunk>, to: nat, size: nat)
    requires cs != [] && InOrder(cs, 0, to) && to <= size
    ensures var n, c := |cs| - 1, cs[|cs| - 1];
            && CoveredBytes(cs, size) == CoveredBytes(cs[..n], size) + Interval(c.offset, c.offset + |c.bytes|)
            && CoveredBytes(cs[..n], size) !! Interval(c.offset, c.offset + |c.bytes|)
  {
    hide Covered, InOrder, Interval;
    var n, c := |cs| - 1, cs[|cs| - 1];
    ShorterIsInOrder(cs, to);
    forall x: nat
      ensures Covered(cs, x) <==> Covered(cs[..n], x) || c.offset <= x < c.offset + |c.bytes|
      ensures Covered(cs[..n], x) ==> x < c.offset
    {
      CoveredSplit(cs, x);
      NotCoveredBehind(cs[..n], 0, c.offset, x);
    }
  }

  /** Chunks in order have as many bytes as they cover. */
  lemma {:induction false} TotalIsCardinality(cs: seq<Chunk>, to: nat, size: nat)
    requires InOrder(cs, 0, to) && to <= size
    ensures Total(cs) == |CoveredBytes(cs, size)|
  {
    hide InOrder, CoveredBytes, Interval;
    if cs == [] {
      NothingCounted(size);
    } else {
      LastChunkAdds(cs, to, size);
      ShorterIsInOrder(cs, to);
      TotalIsCardinality(cs[..|cs| - 1], cs[|cs| - 1].offset, size);
    }
  }

  lemma NothingCounted(size: nat)
    ensures CoveredBytes([], size) == {}
  {
    forall x ensures x !in CoveredBytes([], size) {
    }
  }

  /** On memory at rest HashedBytes is the number of bytes that are hashed, saturated. */
  lemma HashedBytesCounted(copy: CopyOracle, m: PageMemory, t: nat, e: Entry, policy: HashPolicy)
    requires m.Serves(copy) && Fresh(e)
    ensures Hashed(copy, t, e, policy).hashedBytes == Min(|HashedBytes(m, e.address, e.size, policy)|, MAX_ULONG)
  {
    hide m.Serves, ContentReads, Absorb, Covered, ByteIsHashed, InOrder, Interval;
    var cs := ContentReads(copy, t, e.address, e.size, policy).chunks;
    ContentInOrder(copy, t, e.address, e.size, policy);
    forall x: nat ensures Covered(cs, x) <==> ByteIsHashed(m, e.address, e.size, policy, x) {
      ContentHashes(copy, m, t, e.address, e.size, policy, x);
    }
    assert CoveredBytes(cs, e.size) == HashedBytes(m, e.address, e.size, policy);
    if e.size == 0 {
      assert HashedBytes(m, e.address, e.size, policy) == {};
    } else {
      TotalIsCardinality(cs, e.size, e.size);
      AbsorbCounts(Mix(HashState(e.contentHash, e.hashedBytes), e.size), cs);
    }
  }

  /**
   * A known pool of which another number of bytes is hashed than at its match in the baseline is not
   * reported, whatever changed in it. Saturated numbers are equal.
   */
  lemma OtherCountIsNotReported(a: Scan, b: Scan, policy: HashPolicy, baseline: seq<Entry>)
    requires a.Sound() && b.Sound() && SamePool(a, b)
    requires FirstMatch(baseline, b.Result(policy)) == Some(a.Result(policy))
    requires Min(|HashedBytes(a.memory, a.entry.address, a.entry.size, policy)|, MAX_ULONG)
          != Min(|HashedBytes(b.memory, b.entry.address, b.entry.size, policy)|, MAX_ULONG)
    ensures Report(baseline, b.Result(policy)) == None
  {
    hide a.memory.Serves, Fresh, FirstMatch, HashedBytes, a.Result;
    HashedBytesCounted(a.copy, a.memory, a.tick, a.entry, policy);
    HashedBytesCounted(b.copy, b.memory, b.tick, b.entry, policy);
    ResultIsHashed(a, policy);
    ResultIsHashed(b, policy);
  }

  lemma ResultIsHashed(s: Scan, policy: HashPolicy)
    ensures s.Result(policy) == Hashed(s.copy, s.tick, s.entry, policy)
  {
  }

  /** So the contents of a pool may change at will, unseen, if the number of its hashed bytes changes too. */
  lemma RemappedPoolIsNotReported(m: PageMemory, w: PageMemory, e: Entry, policy: HashPolicy)
    requires Fresh(e)
    requires Min(|HashedBytes(m, e.address, e.size, policy)|, MAX_ULONG) != Min(|HashedBytes(w, e.address, e.size, policy)|, MAX_ULONG)
    ensures DiffOf([Hashed(m.Oracle(), 0, e, policy)], [Hashed(w.Oracle(), 0, e, policy)]) == []
  {
    hide m.Serves, m.Oracle, HashedBytes, Fresh, Hashed, Report, FirstMatch;
    var a, b := Scan(m.Oracle(), m, 0, e), Scan(w.Oracle(), w, 0, e);
    SameIdentityAfterHashing(a, b, policy);
    OtherCountIsNotReported(a, b, policy, [a.Result(policy)]);
    DiffOfOne([a.Result(policy)], b.Result(policy));
  }
}
