/** What a content hash covers, what it depends on, and what it cannot miss. */
module HashTheorems {
  import opened Base
  import opened Memory
  import opened Pool
  import opened Fnv
  import opened ContentHash

  /** Nonempty chunks, ascending and disjoint, inside [from, to). */
  ghost predicate InOrder(cs: seq<Chunk>, from: nat, to: nat) {
    && (forall k :: 0 <= k < |cs| ==> cs[k].bytes != [] && from <= cs[k].offset && cs[k].offset + |cs[k].bytes| <= to)
    && (forall j, k :: 0 <= j < k < |cs| ==> cs[j].offset + |cs[j].bytes| <= cs[k].offset)
  }

  ghost predicate Covered(cs: seq<Chunk>, x: nat) {
    exists k :: 0 <= k < |cs| && cs[k].offset <= x < cs[k].offset + |cs[k].bytes|
  }

  function Total(cs: seq<Chunk>): nat {
    if cs == [] then 0 else Total(cs[..|cs| - 1]) + |cs[|cs| - 1].bytes|
  }

  lemma InOrderConcat(a: seq<Chunk>, b: seq<Chunk>, from: nat, mid: nat, to: nat)
    requires InOrder(a, from, mid) && InOrder(b, mid, to) && from <= mid <= to
    ensures InOrder(a + b, from, to)
  {
  }

  /** Every read lies inside the range, behind the one before it; whatever memory answers. */
  lemma {:induction false} RangeInOrder(copy: CopyOracle, t: nat, base: u64, offset: u64, end: u64)
    ensures InOrder(ReadRange(copy, t, base, offset, end).chunks, offset, end)
    decreases end - offset
  {
    if offset >= end || base + offset >= TWO_64 {
    } else {
      var r := copy(t, base + offset, Min(HASH_CHUNK_SIZE, end - offset));
      var head := if r.bytes == [] then [] else [Chunk(offset, r.bytes)];
      var next := NextOffset(base, offset, r);
      assert InOrder(head, offset, offset + |r.bytes|);
      if next > offset {
        RangeInOrder(copy, t + 1, base, next, end);
        if next <= end {
          InOrderConcat(head, ReadRange(copy, t + 1, base, next, end).chunks, offset, next, end);
        }
      }
      hide InOrder;
    }
  }

  /** The bytes the policy lets into the hash. */
  ghost predicate InWindow(policy: HashPolicy, size: u64, x: nat): (r: bool)
    ensures r ==> x < size
  {
    x < size && (policy.Samples(size) ==> x < policy.Sample() / 2 || x >= size - policy.Sample() / 2)
  }

  /** The two sample windows do not overlap, and reading stays inside them. */
  lemma ContentInOrder(copy: CopyOracle, t: nat, base: u64, size: u64, policy: HashPolicy)
    ensures var cs := ContentReads(copy, t, base, size, policy).chunks;
            && InOrder(cs, 0, size)
            && (forall x :: Covered(cs, x) ==> InWindow(policy, size, x))
    ensures policy.Samples(size) ==> policy.Sample() / 2 <= size - policy.Sample() / 2
  {
    hide ReadRange;
    if policy.Samples(size) {
      var half := policy.Sample() / 2;
      var first := RangeReads(copy, t, base, size, 0, half);
      RangeInOrder(copy, t, base, 0, half);
      RangeInOrder(copy, t + first.ticks, base, size - half, size);
    } else {
      RangeInOrder(copy, t, base, 0, size);
    }
  }

  /** HashedBytes is the number of bytes that went in, saturated. */
  lemma {:induction false} AbsorbCounts(s: HashState, cs: seq<Chunk>)
    ensures Absorb(s, cs).hashed == Min(s.hashed + Total(cs), MAX_ULONG)
  {
    hide Fold;
    if cs == [] {
    } else {
      AbsorbCounts(s, cs[..|cs| - 1]);
    }
  }

  lemma CoveredSplit(cs: seq<Chunk>, x: nat)
    requires cs != []
    ensures var c := cs[|cs| - 1];
            Covered(cs, x) <==> Covered(cs[..|cs| - 1], x) || c.offset <= x < c.offset + |c.bytes|
  {
    var n := |cs| - 1;
    if Covered(cs, x) {
      var k :| 0 <= k < |cs| && cs[k].offset <= x < cs[k].offset + |cs[k].bytes|;
      assert k < n ==> cs[..n][k] == cs[k];
    }
    if Covered(cs[..n], x) {
      var k :| 0 <= k < n && cs[..n][k].offset <= x < cs[..n][k].offset + |cs[..n][k].bytes|;
      assert cs[k] == cs[..n][k];
    }
  }

  /** Chunks in order that add up to the whole range cover all of it. */
  lemma {:induction false} TotalCovers(cs: seq<Chunk>, from: nat, to: nat)
    requires from <= to && InOrder(cs, from, to)
    ensures Total(cs) <= to - from
    ensures Total(cs) == to - from <==> forall x :: from <= x < to ==> Covered(cs, x)
  {
    if cs == [] {
      assert from < to ==> !Covered(cs, from);
    } else {
      var n, c := |cs| - 1, cs[|cs| - 1];
      var shorter := cs[..n];
      TotalCovers(shorter, from, c.offset);
      hide Covered, InOrder;
      forall x: nat ensures Covered(cs, x) <==> Covered(shorter, x) || c.offset <= x < c.offset + |c.bytes| {
        CoveredSplit(cs, x);
      }
      if c.offset + |c.bytes| < to {
        NotCoveredBehind(shorter, from, c.offset, to - 1);
        assert !Covered(cs, to - 1);
      }
    }
  }

  lemma NotCoveredBehind(cs: seq<Chunk>, from: nat, to: nat, x: nat)
    requires InOrder(cs, from, to)
    ensures Covered(cs, x) ==> from <= x < to
  {
  }

  /** A fresh entry: nothing hashed, no hash flag. */
  ghost predicate Fresh(e: Entry) {
    e.contentHash == 0 && e.hashedBytes == 0 && HashSampled !in e.flags
  }

  /** HASH_SAMPLED stays clear exactly when every byte of the pool was hashed and the count did not saturate. */
  lemma SampledFlagIsExact(copy: CopyOracle, t: nat, e: Entry, policy: HashPolicy)
    requires Fresh(e) && e.size > 0
    ensures HashSampled !in Hashed(copy, t, e, policy).flags <==>
            && e.size <= MAX_ULONG && !policy.Samples(e.size)
            && forall x :: 0 <= x < e.size ==> Covered(ContentReads(copy, t, e.address, e.size, policy).chunks, x)
  {
    hide ContentReads, Fold, Absorb, Total, InOrder;
    var cs := ContentReads(copy, t, e.address, e.size, policy).chunks;
    ContentInOrder(copy, t, e.address, e.size, policy);
    TotalCovers(cs, 0, e.size);
    AbsorbCounts(Mix(HashState(0, 0), e.size), cs);
    hide Covered;
  }
}
