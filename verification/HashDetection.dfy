/** Two scans of one pool: when their hashes agree, and when they cannot. */
module HashDetection {
  import opened Base
  import opened Memory
  import opened Pool
  import opened Fnv
  import opened ContentHash
  import opened HashTheorems
  import opened HashCoverage

  ghost predicate SameShape(cs: seq<Chunk>, ds: seq<Chunk>) {
    && |cs| == |ds|
    && forall k :: 0 <= k < |cs| ==> cs[k].offset == ds[k].offset && |cs[k].bytes| == |ds[k].bytes|
  }

  /** Two memories are readable at the same places of [from, to). */
  ghost predicate SameReadability(m1: PageMemory, m2: PageMemory, base: u64, from: nat, to: nat) {
    forall x: nat :: from <= x < to ==> m1.ReadableAt(base, x) == m2.ReadableAt(base, x)
  }

  lemma SameRun(m1: PageMemory, m2: PageMemory, base: u64, from: nat, n: nat)
    requires SameReadability(m1, m2, base, from, from + n)
    ensures m1.ReadableRun(base + from, n) == m2.ReadableRun(base + from, n)
    decreases n
  {
    assert m1.ReadableAt(base, from) == m2.ReadableAt(base, from) || n == 0;
    if n == 0 {
    } else {
      SameRun(m1, m2, base, from + 1, n - 1);
    }
  }

  /** The reads of a range, and the clock, depend on its readability alone; the bytes are memory's. */
  lemma {:induction false} SameReads(copy1: CopyOracle, m1: PageMemory, t1: nat, copy2: CopyOracle, m2: PageMemory, t2: nat,
                                     base: u64, offset: u64, end: u64)
    requires m1.Serves(copy1) && m2.Serves(copy2)
    requires SameReadability(m1, m2, base, offset, end)
    ensures SameShape(ReadRange(copy1, t1, base, offset, end).chunks, ReadRange(copy2, t2, base, offset, end).chunks)
    decreases end - offset
  {
    hide m1.Serves, ReadRange, Got, Piece, PieceOf, Tells, m1.ReadableAt;
    if offset >= end || base + offset >= TWO_64 {
      ReadRangeDone(copy1, t1, base, offset, end);
      ReadRangeDone(copy2, t2, base, offset, end);
      return;
    }
    var n, nextPage := Min(HASH_CHUNK_SIZE, end - offset), NextPage(base + offset);
    SameGot(m1, m2, base, offset, end);
    var k := Got(m1, base, offset, end);
    if k == n {
      ReadFull(copy1, m1, t1, base, offset, end);
      ReadFull(copy2, m2, t2, base, offset, end);
      SameReads(copy1, m1, t1 + 1, copy2, m2, t2 + 1, base, offset + n, end);
    } else {
      GotAtMost(m1, base, offset, end);
      ReadPart(copy1, m1, t1, base, offset, end);
      ReadPart(copy2, m2, t2, base, offset, end);
      if nextPage > base && nextPage - base > offset + k {
        SameReads(copy1, m1, t1 + 1, copy2, m2, t2 + 1, base, nextPage - base, end);
      }
    }
  }

  lemma SameGot(m1: PageMemory, m2: PageMemory, base: u64, offset: u64, end: u64)
    requires offset < end && SameReadability(m1, m2, base, offset, end)
    ensures Got(m1, base, offset, end) == Got(m2, base, offset, end)
  {
    SameRun(m1, m2, base, offset, Min(HASH_CHUNK_SIZE, end - offset));
  }

  /** Two memories are readable at the same places of what the policy hashes. */
  ghost predicate SameWindows(m1: PageMemory, m2: PageMemory, base: u64, size: u64, policy: HashPolicy) {
    forall x: nat :: InWindow(policy, size, x) ==> m1.ReadableAt(base, x) == m2.ReadableAt(base, x)
  }

  lemma ConcatKeepsShape(a: seq<Chunk>, b: seq<Chunk>, c: seq<Chunk>, d: seq<Chunk>)
    requires SameShape(a, c) && SameShape(b, d)
    ensures SameShape(a + b, c + d)
  {
  }

  lemma ConcatTells(m: PageMemory, base: u64, a: seq<Chunk>, b: seq<Chunk>)
    requires Tells(m, base, a) && Tells(m, base, b)
    ensures Tells(m, base, a + b)
  {
    hide PieceOf;
  }

  lemma ContentTells(copy: CopyOracle, m: PageMemory, t: nat, base: u64, size: u64, policy: HashPolicy)
    requires m.Serves(copy)
    ensures Tells(m, base, ContentReads(copy, t, base, size, policy).chunks)
  {
    hide m.Serves, ReadRange, Tells;
    if policy.Samples(size) {
      var half := policy.Sample() / 2;
      var t2 := t + RangeReads(copy, t, base, size, 0, half).ticks;
      RangeTells(copy, m, t, base, 0, half);
      RangeTells(copy, m, t2, base, size - half, size);
      ConcatTells(m, base, ReadRange(copy, t, base, 0, half).chunks, ReadRange(copy, t2, base, size - half, size).chunks);
    } else {
      NothingTells(m, base);
      RangeTells(copy, m, t, base, 0, size);
    }
  }

  lemma NothingTells(m: PageMemory, base: u64)
    ensures Tells(m, base, [])
  {
  }

  lemma SameContentReads(copy1: CopyOracle, m1: PageMemory, t1: nat, copy2: CopyOracle, m2: PageMemory, t2: nat,
                         base: u64, size: u64, policy: HashPolicy)
    requires m1.Serves(copy1) && m2.Serves(copy2) && SameWindows(m1, m2, base, size, policy)
    ensures SameShape(ContentReads(copy1, t1, base, size, policy).chunks, ContentReads(copy2, t2, base, size, policy).chunks)
  {
    hide m1.Serves, ReadRange, m1.ReadableAt, SameShape;
    if policy.Samples(size) {
      var half := policy.Sample() / 2;
      var u1 := t1 + RangeReads(copy1, t1, base, size, 0, half).ticks;
      var u2 := t2 + RangeReads(copy2, t2, base, size, 0, half).ticks;
      SameReads(copy1, m1, t1, copy2, m2, t2, base, 0, half);
      SameReads(copy1, m1, u1, copy2, m2, u2, base, size - half, size);
      ConcatKeepsShape(ReadRange(copy1, t1, base, 0, half).chunks, ReadRange(copy1, u1, base, size - half, size).chunks,
                       ReadRange(copy2, t2, base, 0, half).chunks, ReadRange(copy2, u2, base, size - half, size).chunks);
    } else if size > 0 {
      SameReads(copy1, m1, t1, copy2, m2, t2, base, 0, size);
    } else {
      NothingHasShape();
    }
  }

  lemma NothingHasShape()
    ensures SameShape([], [])
  {
  }

  /** Chunk lists of one shape that differ in one byte of one chunk only. */
  ghost predicate DifferAt(cs: seq<Chunk>, ds: seq<Chunk>, k: nat, j: nat) {
    && SameShape(cs, ds) && k < |cs| && j < |cs[k].bytes|
    && cs[k].bytes[j] != ds[k].bytes[j]
    && (forall i :: 0 <= i < |cs| && i != k ==> cs[i] == ds[i])
    && (forall i :: 0 <= i < |cs[k].bytes| && i != j ==> cs[k].bytes[i] == ds[k].bytes[i])
  }

  /** Once states differ with something hashed, no chunk brings them together again. */
  lemma AbsorbKeepsApart(r: HashState, s: HashState, c: Chunk)
    requires r.hashed == s.hashed > 0 && r.hash != s.hash
    ensures AbsorbChunk(r, c).hash != AbsorbChunk(s, c).hash
  {
    hide Fold, LittleEndian;
    if Mix(r, c.offset).hash == Mix(s, c.offset).hash {
      FoldInjective(r.hash, s.hash, LittleEndian(c.offset, 8));
    }
    if AbsorbChunk(r, c).hash == AbsorbChunk(s, c).hash {
      FoldInjective(Mix(r, c.offset).hash, Mix(s, c.offset).hash, c.bytes);
    }
  }

  lemma {:induction false} AbsorbDetects(s: HashState, cs: seq<Chunk>, ds: seq<Chunk>, k: nat, j: nat)
    requires DifferAt(cs, ds, k, j)
    ensures Absorb(s, cs).hash != Absorb(s, ds).hash
    ensures Absorb(s, cs).hashed == Absorb(s, ds).hashed > 0
    decreases |cs|
  {
    hide Fold, LittleEndian;
    var n := |cs| - 1;
    SameTotal(cs, ds);
    AbsorbCounts(s, cs);
    AbsorbCounts(s, ds);
    TotalPositive(cs, k);
    if k == n {
      assert cs[..n] == ds[..n];
      FoldDetects(Seed(Mix(Absorb(s, cs[..n]), cs[n].offset)), cs[n].bytes, ds[n].bytes, j);
    } else {
      AbsorbDetects(s, cs[..n], ds[..n], k, j);
      AbsorbKeepsApart(Absorb(s, cs[..n]), Absorb(s, ds[..n]), cs[n]);
    }
  }

  lemma {:induction false} SameTotal(cs: seq<Chunk>, ds: seq<Chunk>)
    requires SameShape(cs, ds)
    ensures Total(cs) == Total(ds)
  {
    if cs == [] {
    } else {
      SameTotal(cs[..|cs| - 1], ds[..|ds| - 1]);
    }
  }

  lemma {:induction false} TotalPositive(cs: seq<Chunk>, k: nat)
    requires k < |cs| && cs[k].bytes != []
    ensures Total(cs) > 0
  {
    if k == |cs| - 1 {
    } else {
      TotalPositive(cs[..|cs| - 1], k);
    }
  }

  ghost predicate AgreeAt(m1: PageMemory, m2: PageMemory, base: u64, y: nat) {
    m1.At(base + y) == m2.At(base + y)
  }

  /** Chunks told by memories that agree outside one place are equal unless they hold that place. */
  lemma PiecesAgree(m1: PageMemory, m2: PageMemory, base: u64, c: Chunk, d: Chunk, x: nat)
    requires PieceOf(m1, base, c) && PieceOf(m2, base, d) && c.offset == d.offset && |c.bytes| == |d.bytes|
    requires forall y: nat :: c.offset <= y < c.offset + |c.bytes| && y != x ==> AgreeAt(m1, m2, base, y)
    ensures forall i :: 0 <= i < |c.bytes| && c.offset + i != x ==> c.bytes[i] == d.bytes[i]
    ensures c.offset <= x < c.offset + |c.bytes| ==>
              c.bytes[x - c.offset] == m1.content(base + x) && d.bytes[x - c.offset] == m2.content(base + x)
  {
    forall i | 0 <= i < |c.bytes| && c.offset + i != x ensures c.bytes[i] == d.bytes[i] {
      assert m1.ReadableAt(base, c.offset + i) && m2.ReadableAt(base, c.offset + i);
      assert AgreeAt(m1, m2, base, c.offset + i);
    }
  }

  ghost predicate AgreeExceptAt(m1: PageMemory, m2: PageMemory, base: u64, size: u64, policy: HashPolicy, x: nat) {
    forall y: nat :: InWindow(policy, size, y) && y != x ==> AgreeAt(m1, m2, base, y)
  }

  lemma ReadsAgreeExceptAt(m1: PageMemory, m2: PageMemory, base: u64, size: u64, policy: HashPolicy,
                           cs: seq<Chunk>, ds: seq<Chunk>, x: nat)
    requires SameShape(cs, ds) && Tells(m1, base, cs) && Tells(m2, base, ds) && InOrder(cs, 0, size)
    requires forall y :: Covered(cs, y) ==> InWindow(policy, size, y)
    requires AgreeExceptAt(m1, m2, base, size, policy, x)
    ensures !Covered(cs, x) ==> cs == ds
    ensures Covered(cs, x) && m1.content(base + x) != m2.content(base + x) ==> exists k, j :: DifferAt(cs, ds, k, j)
  {
    hide InWindow, PieceOf, AgreeAt;
    forall k | 0 <= k < |cs|
      ensures forall i :: 0 <= i < |cs[k].bytes| && cs[k].offset + i != x ==> cs[k].bytes[i] == ds[k].bytes[i]
      ensures cs[k].offset <= x < cs[k].offset + |cs[k].bytes| ==>
                cs[k].bytes[x - cs[k].offset] == m1.content(base + x) && ds[k].bytes[x - cs[k].offset] == m2.content(base + x)
    {
      forall y: nat | cs[k].offset <= y < cs[k].offset + |cs[k].bytes| && y != x ensures AgreeAt(m1, m2, base, y) {
        assert Covered(cs, y);
      }
      PiecesAgree(m1, m2, base, cs[k], ds[k], x);
    }
    if !Covered(cs, x) {
      forall k | 0 <= k < |cs| ensures cs[k] == ds[k] {
        assert cs[k].bytes == ds[k].bytes;
      }
    } else if m1.content(base + x) != m2.content(base + x) {
      var k :| 0 <= k < |cs| && cs[k].offset <= x < cs[k].offset + |cs[k].bytes|;
      forall i | 0 <= i < |cs| && i != k ensures cs[i] == ds[i] {
        assert cs[i].bytes == ds[i].bytes;
      }
      assert DifferAt(cs, ds, k, x - cs[k].offset);
    }
  }

  /** Two scans of one pool under one policy. */
  datatype Scan = Scan(copy: CopyOracle, memory: PageMemory, tick: nat, entry: Entry) {
    ghost predicate Sound() {
      memory.Serves(copy) && Fresh(entry)
    }

    ghost function Result(policy: HashPolicy): Entry {
      Hashed(copy, tick, entry, policy)
    }

    ghost function Reads(policy: HashPolicy): seq<Chunk> {
      ContentReads(copy, tick, entry.address, entry.size, policy).chunks
    }
  }

  ghost predicate SamePool(a: Scan, b: Scan) {
    a.entry.address == b.entry.address && a.entry.size == b.entry.size
  }

  lemma SameChunksSameHash(a: Scan, b: Scan, policy: HashPolicy)
    requires a.Sound() && b.Sound() && SamePool(a, b) && a.Reads(policy) == b.Reads(policy)
    ensures a.Result(policy).contentHash == b.Result(policy).contentHash
    ensures a.Result(policy).hashedBytes == b.Result(policy).hashedBytes
    ensures HashSampled in a.Result(policy).flags <==> HashSampled in b.Result(policy).flags
  {
    hide a.memory.Serves, ContentReads, Absorb, Mix;
  }

  /** No false alarm: what the policy does not hash cannot change the hash. */
  lemma HashDependsOnWindowsOnly(a: Scan, b: Scan, policy: HashPolicy)
    requires a.Sound() && b.Sound() && SamePool(a, b)
    requires forall x: nat :: InWindow(policy, a.entry.size, x) ==> AgreeAt(a.memory, b.memory, a.entry.address, x)
    ensures a.Result(policy).contentHash == b.Result(policy).contentHash
    ensures a.Result(policy).hashedBytes == b.Result(policy).hashedBytes
    ensures HashSampled in a.Result(policy).flags <==> HashSampled in b.Result(policy).flags
  {
    hide a.memory.Serves, ContentReads, a.Result, SameShape, Tells, InOrder, InWindow, Fresh, AgreeAt;
    var base, size := a.entry.address, a.entry.size;
    SameAtSameReadability(a.memory, b.memory, base, size, policy, size);
    SameContentReads(a.copy, a.memory, a.tick, b.copy, b.memory, b.tick, base, size, policy);
    ContentTells(a.copy, a.memory, a.tick, base, size, policy);
    ContentTells(b.copy, b.memory, b.tick, base, size, policy);
    ContentInOrder(a.copy, a.tick, base, size, policy);
    NotCoveredBehind(a.Reads(policy), 0, size, size);
    ReadsAgreeExceptAt(a.memory, b.memory, base, size, policy, a.Reads(policy), b.Reads(policy), size);
    SameChunksSameHash(a, b, policy);
  }

  lemma SameAtSameReadability(m1: PageMemory, m2: PageMemory, base: u64, size: u64, policy: HashPolicy, x: nat)
    requires AgreeExceptAt(m1, m2, base, size, policy, x)
    requires InWindow(policy, size, x) ==> m1.ReadableAt(base, x) == m2.ReadableAt(base, x)
    ensures SameWindows(m1, m2, base, size, policy)
  {
    hide InWindow;
    forall y: nat | InWindow(policy, size, y) ensures m1.ReadableAt(base, y) == m2.ReadableAt(base, y) {
      assert y != x ==> AgreeAt(m1, m2, base, y);
    }
  }

  /**
   * Change detection: let two memories be readable at the same places and differ in one byte of the
   * pool. The hashes differ exactly when that byte is among the hashed ones; everything else the
   * diff looks at is equal.
   */
  lemma OneByteChangesHashIffHashed(a: Scan, b: Scan, policy: HashPolicy, x: nat)
    requires a.Sound() && b.Sound() && SamePool(a, b) && x < a.entry.size
    requires AgreeExceptAt(a.memory, b.memory, a.entry.address, a.entry.size, policy, x)
    requires a.memory.ReadableAt(a.entry.address, x) == b.memory.ReadableAt(a.entry.address, x)
    requires a.memory.content(a.entry.address + x) != b.memory.content(a.entry.address + x)
    ensures a.Result(policy).contentHash != b.Result(policy).contentHash <==> Covered(a.Reads(policy), x)
    ensures a.Result(policy).hashedBytes == b.Result(policy).hashedBytes
    ensures Covered(a.Reads(policy), x) ==> a.Result(policy).hashedBytes > 0
    ensures HashSampled in a.Result(policy).flags <==> HashSampled in b.Result(policy).flags
  {
    hide a.memory.Serves, ContentReads, SameShape, Tells, InOrder, InWindow, AgreeExceptAt, AgreeAt, Covered, DifferAt, Absorb, Mix, Fresh, a.Result;
    var base, size := a.entry.address, a.entry.size;
    SameAtSameReadability(a.memory, b.memory, base, size, policy, x);
    SameContentReads(a.copy, a.memory, a.tick, b.copy, b.memory, b.tick, base, size, policy);
    ContentTells(a.copy, a.memory, a.tick, base, size, policy);
    ContentTells(b.copy, b.memory, b.tick, base, size, policy);
    ContentInOrder(a.copy, a.tick, base, size, policy);
    ReadsAgreeExceptAt(a.memory, b.memory, base, size, policy, a.Reads(policy), b.Reads(policy), x);
    if Covered(a.Reads(policy), x) {
      var k, j :| DifferAt(a.Reads(policy), b.Reads(policy), k, j);
      DifferentChunksDifferentHash(a, b, policy, k, j);
    } else {
      SameChunksSameHash(a, b, policy);
    }
  }

  lemma DifferentChunksDifferentHash(a: Scan, b: Scan, policy: HashPolicy, k: nat, j: nat)
    requires a.Sound() && b.Sound() && SamePool(a, b) && a.entry.size > 0
    requires DifferAt(a.Reads(policy), b.Reads(policy), k, j)
    ensures a.Result(policy).contentHash != b.Result(policy).contentHash
    ensures a.Result(policy).hashedBytes == b.Result(policy).hashedBytes > 0
    ensures HashSampled in a.Result(policy).flags <==> HashSampled in b.Result(policy).flags
  {
    hide a.memory.Serves, ContentReads, DifferAt, Absorb, Mix;
    AbsorbDetects(Mix(HashState(0, 0), a.entry.size), a.Reads(policy), b.Reads(policy), k, j);
  }
}
