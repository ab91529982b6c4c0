/** Which readable bytes of a range the hash reaches, on memory that does not change. */
module HashCoverage {
  import opened Base
  import opened Memory
  import opened ContentHash
  import opened HashTheorems

  /** Each chunk is a piece of readable memory. */
  ghost predicate Tells(m: PageMemory, base: u64, cs: seq<Chunk>) {
    forall k :: 0 <= k < |cs| ==> PieceOf(m, base, cs[k])
  }

  ghost predicate PieceOf(m: PageMemory, base: u64, c: Chunk) {
    && c.bytes == m.Bytes(base + c.offset, |c.bytes|)
    && forall x: nat :: c.offset <= x < c.offset + |c.bytes| ==> m.ReadableAt(base, x)
  }

  /** Every readable byte of [from, to) is covered. */
  ghost predicate ReachesAll(m: PageMemory, base: u64, cs: seq<Chunk>, from: nat, to: nat) {
    forall x: nat :: from <= x < to && m.ReadableAt(base, x) ==> Covered(cs, x)
  }

  /** How far the copy at an offset gets. */
  ghost function Got(m: PageMemory, base: u64, offset: u64, end: u64): nat
    requires offset < end
  {
    m.ReadableRun(base + offset, Min(HASH_CHUNK_SIZE, end - offset))
  }

  ghost function Piece(m: PageMemory, base: u64, offset: u64, k: nat): (c: Chunk)
    ensures c.offset == offset && |c.bytes| == k
  {
    Chunk(offset, m.Bytes(base + offset, k))
  }

  /** One copy of ReadRange, when all of it is readable and when not. */
  lemma ReadFull(copy: CopyOracle, m: PageMemory, t: nat, base: u64, offset: u64, end: u64)
    requires m.Serves(copy) && offset < end && base + offset < TWO_64
    requires Got(m, base, offset, end) == Min(HASH_CHUNK_SIZE, end - offset)
    ensures var n := Min(HASH_CHUNK_SIZE, end - offset);
            && PieceOf(m, base, Piece(m, base, offset, n))
            && ReadRange(copy, t, base, offset, end).chunks ==
               [Piece(m, base, offset, n)] + ReadRange(copy, t + 1, base, offset + n, end).chunks
  {
    hide m.Serves, ReadRange, PieceOf, m.ReadableRun, m.Bytes;
    var n := Min(HASH_CHUNK_SIZE, end - offset);
    m.Served(copy, t, base + offset, n);
    ReadRangeStep(copy, t, base, offset, end);
    GotIsPiece(m, base, offset, end);
  }

  lemma ReadPart(copy: CopyOracle, m: PageMemory, t: nat, base: u64, offset: u64, end: u64)
    requires m.Serves(copy) && offset < end && base + offset < TWO_64
    requires Got(m, base, offset, end) < Min(HASH_CHUNK_SIZE, end - offset)
    ensures var k := Got(m, base, offset, end);
            var head := if k == 0 then [] else [Piece(m, base, offset, k)];
            var nextPage := NextPage(base + offset);
            && Tells(m, base, head)
            && ReadRange(copy, t, base, offset, end).chunks ==
               if nextPage <= base || nextPage - base <= offset + k then head
               else if k == 0 then ReadRange(copy, t + 1, base, nextPage - base, end).chunks
               else head + ReadRange(copy, t + 1, base, nextPage - base, end).chunks
  {
    hide m.Serves, ReadRange, PieceOf, m.ReadableRun, m.Bytes;
    m.Served(copy, t, base + offset, Min(HASH_CHUNK_SIZE, end - offset));
    ReadRangeStep(copy, t, base, offset, end);
    GotIsPiece(m, base, offset, end);
  }

  lemma GotIsPiece(m: PageMemory, base: u64, offset: u64, end: u64)
    requires offset < end
    ensures PieceOf(m, base, Piece(m, base, offset, Got(m, base, offset, end)))
  {
  }

  lemma {:induction false} RangeTells(copy: CopyOracle, m: PageMemory, t: nat, base: u64, offset: u64, end: u64)
    requires m.Serves(copy)
    ensures Tells(m, base, ReadRange(copy, t, base, offset, end).chunks)
    decreases end - offset
  {
    hide PieceOf, m.Serves, ReadRange, Got, Piece;
    if offset >= end || base + offset >= TWO_64 {
      ReadRangeDone(copy, t, base, offset, end);
      return;
    }
    var n, k, nextPage := Min(HASH_CHUNK_SIZE, end - offset), Got(m, base, offset, end), NextPage(base + offset);
    if k == n {
      ReadFull(copy, m, t, base, offset, end);
      RangeTells(copy, m, t + 1, base, offset + n, end);
    } else {
      GotAtMost(m, base, offset, end);
      ReadPart(copy, m, t, base, offset, end);
      if nextPage > base && nextPage - base > offset + k {
        RangeTells(copy, m, t + 1, base, nextPage - base, end);
      }
    }
  }

  lemma GotAtMost(m: PageMemory, base: u64, offset: u64, end: u64)
    requires offset < end
    ensures Got(m, base, offset, end) <= Min(HASH_CHUNK_SIZE, end - offset)
  {
  }

  lemma CoveredInConcat(a: seq<Chunk>, b: seq<Chunk>, x: nat)
    ensures Covered(a + b, x) <==> Covered(a, x) || Covered(b, x)
  {
    if Covered(a, x) {
      var k :| 0 <= k < |a| && a[k].offset <= x < a[k].offset + |a[k].bytes|;
      assert (a + b)[k] == a[k];
    }
    if Covered(b, x) {
      var k :| 0 <= k < |b| && b[k].offset <= x < b[k].offset + |b[k].bytes|;
      assert (a + b)[|a| + k] == b[k];
    }
  }

  /** Nothing is readable at the end of the range or of the address space. */
  lemma ReachesNothingLeft(m: PageMemory, base: u64, offset: nat, end: nat)
    requires offset >= end || base + offset >= TWO_64
    ensures ReachesAll(m, base, [], offset, end)
  {
  }

  lemma ReachesBehindPiece(m: PageMemory, base: u64, c: Chunk, rest: seq<Chunk>, end: nat)
    requires ReachesAll(m, base, rest, c.offset + |c.bytes|, end)
    ensures ReachesAll(m, base, [c] + rest, c.offset, end)
  {
    forall x: nat | c.offset <= x < end && m.ReadableAt(base, x) ensures Covered([c] + rest, x) {
      CoveredInConcat([c], rest, x);
      if x < c.offset + |c.bytes| {
        assert [c][0] == c;
      }
    }
  }

  /** Behind a copy that got nothing: unreadable up to the next page, or for good. */
  lemma GapBehind(m: PageMemory, base: u64, offset: u64, end: u64, next: nat)
    requires offset < end && base + offset < TWO_64 && Got(m, base, offset, end) == 0
    requires next == if NextPage(base + offset) > base then NextPage(base + offset) - base else end
    ensures forall x: nat :: offset <= x < next ==> !m.ReadableAt(base, x)
  {
    m.RestOfPageUnreadable(base + offset);
  }

  lemma ReachesBehindGap(m: PageMemory, base: u64, cs: seq<Chunk>, offset: nat, next: nat, end: nat)
    requires forall x: nat :: offset <= x < next ==> !m.ReadableAt(base, x)
    requires ReachesAll(m, base, cs, next, end)
    ensures ReachesAll(m, base, cs, offset, end)
  {
  }

  /** A chunk that begins at a multiple of 512 lies in one page: it is read in full or not at all. */
  lemma AlignedChunk(m: PageMemory, base: u64, offset: u64, end: u64)
    requires offset < end && base + offset < TWO_64 && OnGrid(base + offset)
    ensures Got(m, base, offset, end) == 0 || Got(m, base, offset, end) == Min(HASH_CHUNK_SIZE, end - offset)
  {
    hide m.Readable;
    var a, k := base + offset, Got(m, base, offset, end);
    SameChunkSameReadability(m, a, a + k);
    assert k > 0 ==> m.Readable(a);
  }

  lemma SameChunkSameReadability(m: PageMemory, a: nat, x: nat)
    requires a % HASH_CHUNK_SIZE == 0 && a < TWO_64
    ensures a <= x < a + HASH_CHUNK_SIZE ==> m.Readable(x) == m.Readable(a)
  {
    ChunkOnOnePage(a, x);
    assert TWO_64 % HASH_CHUNK_SIZE == 0;
    assert a / HASH_CHUNK_SIZE < TWO_64 / HASH_CHUNK_SIZE;
  }

  lemma ChunkOnOnePage(a: nat, x: nat)
    requires a % HASH_CHUNK_SIZE == 0
    ensures a <= x < a + HASH_CHUNK_SIZE ==> x / PAGE_SIZE == a / PAGE_SIZE
  {
    var q, r := a / PAGE_SIZE, a % PAGE_SIZE;
    assert a % HASH_CHUNK_SIZE == r % HASH_CHUNK_SIZE;
    if a <= x < a + HASH_CHUNK_SIZE {
      DivisionIsUnique(x, q, r + x - a, PAGE_SIZE);
    }
  }

  /** Multiples of the chunk size. */
  predicate OnGrid(a: nat) {
    a % HASH_CHUNK_SIZE == 0
  }

  lemma NextOnGrid(a: nat)
    requires OnGrid(a)
    ensures OnGrid(a + HASH_CHUNK_SIZE)
  {
  }

  lemma PageStartsAreAligned(a: nat)
    requires a % PAGE_SIZE == 0
    ensures OnGrid(a)
  {
    assert a == a / PAGE_SIZE * 8 * HASH_CHUNK_SIZE;
  }

  /** From a multiple of 512 on, every readable byte is hashed. */
  lemma {:induction false} AlignedReachesAll(copy: CopyOracle, m: PageMemory, t: nat, base: u64, offset: u64, end: u64)
    requires m.Serves(copy)
    requires offset < end ==> OnGrid(base + offset)
    ensures ReachesAll(m, base, ReadRange(copy, t, base, offset, end).chunks, offset, end)
    decreases end - offset
  {
    hide ReachesAll, m.Serves, ReadRange, Got, Piece, PieceOf, Tells, m.ReadableAt, OnGrid;
    if offset >= end || base + offset >= TWO_64 {
      ReadRangeDone(copy, t, base, offset, end);
      ReachesNothingLeft(m, base, offset, end);
      return;
    }
    var n := Min(HASH_CHUNK_SIZE, end - offset);
    AlignedChunk(m, base, offset, end);
    NextOnGrid(base + offset);
    if Got(m, base, offset, end) == n {
      ReadFull(copy, m, t, base, offset, end);
      AlignedReachesAll(copy, m, t + 1, base, offset + n, end);
      ReachesBehindPiece(m, base, Piece(m, base, offset, n), ReadRange(copy, t + 1, base, offset + n, end).chunks, end);
    } else {
      UnreadableReachesAll(copy, m, t, base, offset, end);
    }
  }

  /** So is it from an unreadable byte on: the next read begins at a page. */
  lemma {:induction false} UnreadableReachesAll(copy: CopyOracle, m: PageMemory, t: nat, base: u64, offset: u64, end: u64)
    requires m.Serves(copy) && offset < end && base + offset < TWO_64 && Got(m, base, offset, end) == 0
    ensures ReachesAll(m, base, ReadRange(copy, t, base, offset, end).chunks, offset, end)
    decreases end - offset, 0
  {
    hide ReachesAll, m.Serves, ReadRange, Got, Piece, PieceOf, Tells, m.ReadableAt, OnGrid;
    var nextPage := NextPage(base + offset);
    ReadPart(copy, m, t, base, offset, end);
    GapBehind(m, base, offset, end, if nextPage > base then nextPage - base else end);
    if nextPage <= base {
      ReachesNothingLeft(m, base, end, end);
      ReachesBehindGap(m, base, [], offset, end, end);
    } else {
      PageStartsAreAligned(nextPage);
      AlignedReachesAll(copy, m, t + 1, base, nextPage - base, end);
      ReachesBehindGap(m, base, ReadRange(copy, t + 1, base, nextPage - base, end).chunks, offset, nextPage - base, end);
    }
  }

  /** The readable offsets of [from, to) form a prefix of it. */
  ghost predicate ReadablePrefix(m: PageMemory, base: u64, from: nat, to: nat) {
    forall x: nat, y: nat :: from <= x < y < to && m.ReadableAt(base, y) ==> m.ReadableAt(base, x)
  }

  // ----- from a readable start off the grid

  lemma PageBoundary(b: nat)
    requires b > 0
    ensures b % PAGE_SIZE != 0 ==> b / PAGE_SIZE == (b - 1) / PAGE_SIZE
  {
  }

  lemma NextPageIs(a: u64, b: nat)
    requires a < b <= a + HASH_CHUNK_SIZE && b % PAGE_SIZE == 0
    ensures NextPage(a) == if b < TWO_64 then b else 0
  {
    assert b / PAGE_SIZE == a / PAGE_SIZE + 1;
  }

  /** A readable run that ends within a chunk ends at a page. */
  lemma BoundaryBehindRun(m: PageMemory, a: u64, k: nat)
    requires 0 < k < HASH_CHUNK_SIZE && m.Readable(a + k - 1) && !m.Readable(a + k)
    ensures NextPage(a) == 0 || NextPage(a) == a + k
  {
    PageBoundary(a + k);
    if a + k < TWO_64 {
      NextPageIs(a, a + k);
    }
  }

  /** The copy that meets an unreadable page partway is the last one. */
  lemma StraddlingCopyIsLast(copy: CopyOracle, m: PageMemory, t: nat, base: u64, offset: u64, end: u64)
    requires m.Serves(copy) && offset < end && base + offset < TWO_64
    requires 0 < Got(m, base, offset, end) < Min(HASH_CHUNK_SIZE, end - offset)
    ensures var k := Got(m, base, offset, end);
            && !m.ReadableAt(base, offset + k)
            && ReadRange(copy, t, base, offset, end).chunks == [Piece(m, base, offset, k)]
  {
    hide m.Serves, ReadRange, Piece, PieceOf, Tells;
    var a, k := base + offset, Got(m, base, offset, end);
    ReadPart(copy, m, t, base, offset, end);
    assert m.Readable(a + k - 1) && !m.Readable(a + k);
    BoundaryBehindRun(m, a, k);
  }

  lemma NextIsOdd(a: nat)
    requires !OnGrid(a)
    ensures var b := a + HASH_CHUNK_SIZE;
            !OnGrid(b) && b / PAGE_SIZE == (b - 1) / PAGE_SIZE && b != TWO_64
  {
    var b := a + HASH_CHUNK_SIZE;
    assert b % HASH_CHUNK_SIZE == a % HASH_CHUNK_SIZE;
    if b % PAGE_SIZE == 0 {
      PageStartsAreAligned(b);
    }
    PageBoundary(b);
  }

  /** All of [from, x] is readable. */
  ghost predicate ReadableThrough(m: PageMemory, base: u64, from: nat, x: nat) {
    forall y: nat :: from <= y <= x ==> m.ReadableAt(base, y)
  }

  /** What a full copy off the grid leaves to the next one, which is off the grid too and begins readable. */
  lemma ThroughFullCopy(m: PageMemory, base: u64, offset: u64, end: u64, x: nat)
    requires offset < end && base + offset < TWO_64 && !OnGrid(base + offset)
    requires Got(m, base, offset, end) == Min(HASH_CHUNK_SIZE, end - offset)
    ensures var next := offset + Min(HASH_CHUNK_SIZE, end - offset);
            && (offset <= x < next ==> ReadableThrough(m, base, offset, x))
            && (base + next >= TWO_64 && x >= next ==> !ReadableThrough(m, base, offset, x))
            && (x >= next ==> (ReadableThrough(m, base, offset, x) <==> ReadableThrough(m, base, next, x)))
            && (next < end && base + next < TWO_64 ==> !OnGrid(base + next) && m.ReadableAt(base, next))
  {
    var next := offset + Min(HASH_CHUNK_SIZE, end - offset);
    assert m.Readable(base + next - 1);
    assert forall y: nat :: offset <= y < next ==> m.ReadableAt(base, y);
    if base + next >= TWO_64 {
      assert !m.ReadableAt(base, next);
    } else if next < end {
      var last := base + next - 1;
      NextIsOdd(base + offset);
      assert m.mapped(last / PAGE_SIZE);
    }
  }

  lemma ThroughPart(m: PageMemory, base: u64, offset: u64, end: u64, x: nat)
    requires offset < end
    requires var k := Got(m, base, offset, end); 0 < k && !m.ReadableAt(base, offset + k)
    ensures x >= offset ==> (ReadableThrough(m, base, offset, x) <==> x < offset + Got(m, base, offset, end))
  {
    var k := Got(m, base, offset, end);
    assert forall y: nat :: offset <= y < offset + k ==> m.ReadableAt(base, y);
  }

  lemma CoveredByOne(c: Chunk, x: nat)
    ensures Covered([c], x) <==> c.offset <= x < c.offset + |c.bytes|
  {
    assert [c][0] == c;
  }

  lemma NothingIsCovered(x: nat)
    ensures !Covered([], x)
  {
  }

  /** From a readable byte off the grid, exactly the bytes up to the first unreadable one are hashed. */
  lemma {:induction false} OddStartReaches(copy: CopyOracle, m: PageMemory, t: nat, base: u64, offset: u64, end: u64, x: nat)
    requires m.Serves(copy) && offset < end && base + offset < TWO_64
    requires !OnGrid(base + offset) && m.ReadableAt(base, offset)
    ensures Covered(ReadRange(copy, t, base, offset, end).chunks, x) <==>
            offset <= x < end && ReadableThrough(m, base, offset, x)
    decreases end - offset
  {
    hide m.Serves, ReadRange, Got, Piece, PieceOf, Tells, Covered, ReadableThrough, m.ReadableAt, OnGrid;
    var n, k := Min(HASH_CHUNK_SIZE, end - offset), Got(m, base, offset, end);
    GotAtMost(m, base, offset, end);
    GotAtLeastOne(m, base, offset, end);
    CoveredByOne(Piece(m, base, offset, k), x);
    if k == n {
      ReadFull(copy, m, t, base, offset, end);
      CoveredInConcat([Piece(m, base, offset, n)], ReadRange(copy, t + 1, base, offset + n, end).chunks, x);
      ThroughFullCopy(m, base, offset, end, x);
      if offset + n >= end || base + offset + n >= TWO_64 {
        ReadRangeDone(copy, t + 1, base, offset + n, end);
        NothingIsCovered(x);
      } else {
        OddStartReaches(copy, m, t + 1, base, offset + n, end, x);
      }
    } else {
      StraddlingCopyIsLast(copy, m, t, base, offset, end);
      ThroughPart(m, base, offset, end, x);
    }
  }

  lemma GotAtLeastOne(m: PageMemory, base: u64, offset: u64, end: u64)
    requires offset < end && base + offset < TWO_64
    ensures Got(m, base, offset, end) > 0 <==> m.ReadableAt(base, offset)
  {
  }

  // ----- which bytes of a range are hashed

  lemma CoveredIsReadable(m: PageMemory, base: u64, cs: seq<Chunk>, x: nat)
    requires Tells(m, base, cs) && Covered(cs, x)
    ensures m.ReadableAt(base, x)
  {
    var k :| 0 <= k < |cs| && cs[k].offset <= x < cs[k].offset + |cs[k].bytes|;
    assert PieceOf(m, base, cs[k]);
  }

  /**
   * A readable byte is reached from the start of its range, if that is on the grid, or unreadable, or
   * nothing unreadable lies between.
   */
  ghost predicate Reached(m: PageMemory, base: u64, from: nat, x: nat) {
    && m.ReadableAt(base, x)
    && (OnGrid(base + from) || !m.ReadableAt(base, from) || ReadableThrough(m, base, from, x))
  }

  /** The exact set of bytes that ReadRange hashes. */
  lemma RangeReaches(copy: CopyOracle, m: PageMemory, t: nat, base: u64, offset: u64, end: u64, x: nat)
    requires m.Serves(copy) && offset < end
    ensures Covered(ReadRange(copy, t, base, offset, end).chunks, x) <==> offset <= x < end && Reached(m, base, offset, x)
  {
    hide m.Serves, ReadRange, Got, Tells, Covered, InOrder, ReadableThrough, m.ReadableAt, OnGrid;
    var cs := ReadRange(copy, t, base, offset, end).chunks;
    RangeInOrder(copy, t, base, offset, end);
    NotCoveredBehind(cs, offset, end, x);
    RangeTells(copy, m, t, base, offset, end);
    if Covered(cs, x) {
      CoveredIsReadable(m, base, cs, x);
    }
    if OnGrid(base + offset) {
      AlignedReachesAll(copy, m, t, base, offset, end);
    } else if base + offset >= TWO_64 {
      ReadRangeDone(copy, t, base, offset, end);
      NothingIsCovered(x);
      NothingReadableBeyond(m, base, offset, x);
    } else if !m.ReadableAt(base, offset) {
      GotAtLeastOne(m, base, offset, end);
      UnreadableReachesAll(copy, m, t, base, offset, end);
    } else {
      OddStartReaches(copy, m, t, base, offset, end, x);
    }
  }

  lemma NothingReadableBeyond(m: PageMemory, base: u64, offset: nat, x: nat)
    requires base + offset >= TWO_64
    ensures x >= offset ==> !m.ReadableAt(base, x)
  {
  }

  /** When a range hashes all of its readable bytes. */
  ghost predicate Complete(m: PageMemory, base: u64, from: nat, to: nat) {
    OnGrid(base + from) || !m.ReadableAt(base, from) || ReadablePrefix(m, base, from, to)
  }

  lemma CompleteMeans(m: PageMemory, base: u64, from: nat, to: nat)
    requires from < to
    ensures Complete(m, base, from, to) <==>
            forall x: nat :: from <= x < to ==> (Reached(m, base, from, x) <==> m.ReadableAt(base, x))
  {
    hide m.ReadableAt, OnGrid;
    if !Complete(m, base, from, to) {
      var x: nat, y: nat :| from <= x < y < to && m.ReadableAt(base, y) && !m.ReadableAt(base, x);
      assert !Reached(m, base, from, y);
    }
  }

  /**
   * What HashPoolEntryRange hashes is readable memory of the range, in order and once each: the bytes
   * that are reached from its start. It is all the readable memory of the range exactly when the range
   * begins on the 512-byte grid, or begins with an unreadable byte, or has no readable byte behind an
   * unreadable one.
   */
  lemma RangeHashesTheReadable(copy: CopyOracle, m: PageMemory, t: nat, base: u64, size: u64, start: u64, length: u64)
    requires m.Serves(copy) && length > 0 && start < size
    ensures var end := RangeEnd(size, start, length);
            var cs := RangeReads(copy, t, base, size, start, length).chunks;
            && InOrder(cs, start, end) && Tells(m, base, cs)
            && (forall x: nat :: Covered(cs, x) <==> start <= x < end && Reached(m, base, start, x))
            && ((forall x: nat :: start <= x < end ==> (Covered(cs, x) <==> m.ReadableAt(base, x))) <==>
                Complete(m, base, start, end))
  {
    hide m.Serves, ReadRange, Complete, Reached, Tells, InOrder, Covered, m.ReadableAt;
    var end := RangeEnd(size, start, length);
    var cs := ReadRange(copy, t, base, start, end).chunks;
    RangeInOrder(copy, t, base, start, end);
    RangeTells(copy, m, t, base, start, end);
    CompleteMeans(m, base, start, end);
    forall x: nat ensures Covered(cs, x) <==> start <= x < end && Reached(m, base, start, x) {
      RangeReaches(copy, m, t, base, start, end, x);
    }
  }

  // ----- which bytes of a pool are hashed

  /** The exact set of bytes of a pool that are hashed: the ranges are the whole pool, or the two windows. */
  ghost predicate ByteIsHashed(m: PageMemory, base: u64, size: u64, policy: HashPolicy, x: nat) {
    if policy.Samples(size) then
      var half := policy.Sample() / 2;
      || (x < half && Reached(m, base, 0, x))
      || (size - half <= x < size && Reached(m, base, size - half, x))
    else x < size && Reached(m, base, 0, x)
  }

  lemma ContentHashes(copy: CopyOracle, m: PageMemory, t: nat, base: u64, size: u64, policy: HashPolicy, x: nat)
    requires m.Serves(copy)
    ensures Covered(ContentReads(copy, t, base, size, policy).chunks, x) <==> ByteIsHashed(m, base, size, policy, x)
  {
    hide m.Serves, ReadRange, Covered, Reached;
    if policy.Samples(size) {
      var half := policy.Sample() / 2;
      var first := RangeReads(copy, t, base, size, 0, half);
      var second := RangeReads(copy, t + first.ticks, base, size, size - half, half);
      CoveredInConcat(first.chunks, second.chunks, x);
      RangeReaches(copy, m, t, base, 0, half, x);
      RangeReaches(copy, m, t + first.ticks, base, size - half, size, x);
    } else if size > 0 {
      RangeReaches(copy, m, t, base, 0, size, x);
    } else {
      NothingIsCovered(x);
    }
  }

  /** Sampling hashes all readable bytes of both windows exactly when each window is complete for itself. */
  lemma WindowsAreComplete(copy: CopyOracle, m: PageMemory, t: nat, base: u64, size: u64, policy: HashPolicy)
    requires m.Serves(copy) && policy.Samples(size)
    ensures var half := policy.Sample() / 2;
            (forall x: nat :: InWindow(policy, size, x) ==>
               (Covered(ContentReads(copy, t, base, size, policy).chunks, x) <==> m.ReadableAt(base, x)))
            <==> Complete(m, base, 0, half) && Complete(m, base, size - half, size)
  {
    hide m.Serves, ContentReads, Covered, Reached, Complete, m.ReadableAt;
    var half := policy.Sample() / 2;
    forall x: nat ensures Covered(ContentReads(copy, t, base, size, policy).chunks, x) <==> ByteIsHashed(m, base, size, policy, x) {
      ContentHashes(copy, m, t, base, size, policy, x);
    }
    CompleteMeans(m, base, 0, half);
    CompleteMeans(m, base, size - half, size);
  }

  /**
   * For a pool on the grid, as page-aligned pools are, everything readable is hashed without sampling; with
   * sampling the first window is complete, and all hangs on the start of the second.
   */
  lemma AlignedPoolsHash(m: PageMemory, base: u64, size: u64, policy: HashPolicy, x: nat)
    requires OnGrid(base) && x < size
    ensures !policy.Samples(size) ==> (ByteIsHashed(m, base, size, policy, x) <==> m.ReadableAt(base, x))
    ensures policy.Samples(size) ==>
              var half := policy.Sample() / 2;
              ByteIsHashed(m, base, size, policy, x) <==>
              m.ReadableAt(base, x) && (x < half || (size - half <= x && Reached(m, base, size - half, x)))
  {
    hide m.ReadableAt, ReadableThrough;
  }

  const SAMPLE_64K: HashPolicy := HashPolicy(false, 0x1_0000)

  /** A page-aligned pool that loses bytes to sampling: page 0x10A is unmapped, the second window begins at 0x109100. */
  lemma SecondWindowCanLose(m: PageMemory, x: nat)
    requires (forall page: nat :: m.mapped(page) <==> page != 0x10A) && 0xB000 <= x < 0x11100
    ensures SAMPLE_64K.Samples(0x11100) && InWindow(SAMPLE_64K, 0x11100, x) && m.ReadableAt(0x100000, x)
    ensures !Covered(ContentReads(m.Oracle(), 0, 0x100000, 0x11100, SAMPLE_64K).chunks, x)
  {
    OnlyOnePageMissing(m, x);
    hide ContentReads, Covered, m.Serves, m.Oracle, m.ReadableAt, ReadableThrough, ByteIsHashed, Reached;
    ContentHashes(m.Oracle(), m, 0, 0x100000, 0x11100, SAMPLE_64K, x);
    NotReached(m, x);
  }

  lemma NotReached(m: PageMemory, x: nat)
    requires m.ReadableAt(0x100000, 0x9100) && !ReadableThrough(m, 0x100000, 0x9100, x) && x >= 0xB000
    ensures !ByteIsHashed(m, 0x100000, 0x11100, SAMPLE_64K, x)
  {
    hide m.ReadableAt, ReadableThrough;
    assert 0x109100 % 512 == 256;
  }

  lemma OnlyOnePageMissing(m: PageMemory, x: nat)
    requires (forall page: nat :: m.mapped(page) <==> page != 0x10A) && 0xB000 <= x < 0x11100
    ensures m.ReadableAt(0x100000, x) && m.ReadableAt(0x100000, 0x9100)
    ensures !ReadableThrough(m, 0x100000, 0x9100, x)
  {
    assert !m.ReadableAt(0x100000, 0xA000);
  }
}
