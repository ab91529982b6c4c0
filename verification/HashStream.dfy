/** What the content hash is the hash of: FNV-1a of one stream of bytes, seeded again where it comes to zero. */
module HashStream {
  import opened Base
  import opened Memory
  import opened Pool
  import opened Fnv
  import opened ContentHash
  import opened HashTheorems

  /** The number that bytes stand for, lowest byte first. */
  function ValueOf(bytes: seq<byte>): nat {
    if bytes == [] then 0 else bytes[0] + 256 * ValueOf(bytes[1..])
  }

  function Power256(n: nat): nat {
    if n == 0 then 1 else 256 * Power256(n - 1)
  }

  lemma {:induction false} LittleEndianValue(value: nat, n: nat)
    requires value < Power256(n)
    ensures |LittleEndian(value, n)| == n && ValueOf(LittleEndian(value, n)) == value
  {
    if n == 0 {
    } else {
      LittleEndianValue(value / 256, n - 1);
      assert LittleEndian(value, n)[1..] == LittleEndian(value / 256, n - 1);
    }
  }

  /** A size or an offset is mixed in as the eight bytes that stand for it. */
  lemma MixedBytesAreTheValue(value: u64)
    ensures |LittleEndian(value, 8)| == 8 && ValueOf(LittleEndian(value, 8)) == value
  {
    assert Power256(4) == TWO_32;
    assert Power256(8) == TWO_64;
    LittleEndianValue(value, 8);
  }

  /** The stream of a pool: for each chunk the bytes of its offset, then its own. */
  function Stream(chunks: seq<Chunk>): seq<byte> {
    if chunks == [] then [] else Stream(chunks[..|chunks| - 1]) + ChunkStream(chunks[|chunks| - 1])
  }

  function ChunkStream(c: Chunk): seq<byte> {
    LittleEndian(c.offset, 8) + c.bytes
  }

  lemma {:induction false} FoldConcat(hash: u64, a: seq<byte>, b: seq<byte>)
    ensures Fold(hash, a + b) == Fold(Fold(hash, a), b)
  {
    hide Step;
    if b == [] {
      assert a + b == a;
    } else {
      FoldConcat(hash, a, b[..|b| - 1]);
      assert (a + b)[..|a + b| - 1] == a + b[..|b| - 1];
    }
  }

  /** Once bytes are counted the hash is not seeded again. */
  lemma ChunkIsFolded(s: HashState, c: Chunk)
    requires s.hashed > 0
    ensures AbsorbChunk(s, c).hash == Fold(s.hash, ChunkStream(c)) && AbsorbChunk(s, c).hashed > 0
  {
    hide Fold, LittleEndian;
    FoldConcat(s.hash, LittleEndian(c.offset, 8), c.bytes);
    FoldNothing(Fold(s.hash, LittleEndian(c.offset, 8)));
  }

  lemma FoldNothing(hash: u64)
    ensures Fold(hash, []) == hash
  {
  }

  lemma {:induction false} ChunksAreFolded(s: HashState, chunks: seq<Chunk>)
    requires s.hashed > 0
    ensures Absorb(s, chunks).hash == Fold(s.hash, Stream(chunks)) && Absorb(s, chunks).hashed > 0
  {
    hide AbsorbChunk, ChunkStream;
    if chunks == [] {
      FoldNothing(s.hash);
    } else {
      var n := |chunks| - 1;
      ChunksAreFolded(s, chunks[..n]);
      ChunkIsFolded(Absorb(s, chunks[..n]), chunks[n]);
      FoldConcat(s.hash, Stream(chunks[..n]), ChunkStream(chunks[n]));
    }
  }

  /** The first chunk ends the time in which the hash may be seeded again. */
  lemma FirstChunk(s: HashState, c: Chunk)
    requires s.hashed == 0 && c.bytes != []
    ensures var r := AbsorbChunk(s, c);
            && r.hash == Fold(Seeded(Fold(Seeded(s.hash), LittleEndian(c.offset, 8))), c.bytes)
            && r.hashed > 0
  {
    hide Fold, LittleEndian;
  }

  function Seeded(hash: u64): u64 {
    if hash == 0 then OFFSET_BASIS else hash
  }

  /** Absorbing some chunks, the first of them told apart. */
  lemma FirstAndRest(s: HashState, chunks: seq<Chunk>)
    requires chunks != []
    ensures Absorb(s, chunks) == Absorb(AbsorbChunk(s, chunks[0]), chunks[1..])
  {
    assert chunks == [chunks[0]] + chunks[1..];
    AbsorbConcat(s, [chunks[0]], chunks[1..]);
    assert [chunks[0]][..0] == [];
    assert Absorb(s, []) == s;
  }

  lemma {:induction false} FirstOfStream(chunks: seq<Chunk>)
    requires chunks != []
    ensures Stream(chunks) == ChunkStream(chunks[0]) + Stream(chunks[1..])
  {
    hide ChunkStream;
    var n := |chunks| - 1;
    if n == 0 {
    } else {
      FirstOfStream(chunks[..n]);
      assert chunks[1..][..n - 1] == chunks[..n][1..];
    }
  }

  /** The hash of a new entry from its size and its chunks. */
  ghost function HashOf(size: u64, chunks: seq<Chunk>): u64 {
    Absorb(Mix(HashState(0, 0), size), chunks).hash
  }

  /**
   * The hash is FNV-1a of the size and the stream, each number as eight bytes, unless it comes to zero before the first
   * byte of the pool: then it is seeded again, and differs from FNV-1a but for one coincidence.
   */
  lemma HashIsFnvOfTheStream(size: u64, chunks: seq<Chunk>)
    requires forall k :: 0 <= k < |chunks| ==> chunks[k].bytes != []
    ensures chunks == [] ==> HashOf(size, chunks) == Fold(OFFSET_BASIS, LittleEndian(size, 8))
    ensures chunks != [] ==>
              var offset := LittleEndian(chunks[0].offset, 8);
              var afterSize := Fold(OFFSET_BASIS, LittleEndian(size, 8));
              var afterOffset := Fold(afterSize, offset);
              HashOf(size, chunks) == Fold(OFFSET_BASIS, LittleEndian(size, 8) + Stream(chunks)) <==>
              || (afterSize != 0 && afterOffset != 0)
              || (afterSize == 0 && afterOffset == OFFSET_BASIS && Fold(OFFSET_BASIS, offset) == 0)
  {
    hide Fold, Stream, LittleEndian, AbsorbChunk, ChunkStream;
    var s := Mix(HashState(0, 0), size);
    if chunks != [] {
      var offset := LittleEndian(chunks[0].offset, 8);
      var rest := chunks[0].bytes + Stream(chunks[1..]);
      var afterSize := Fold(OFFSET_BASIS, LittleEndian(size, 8));
      var start := Seeded(Fold(Seeded(afterSize), offset));
      FirstAndRest(s, chunks);
      FirstChunk(s, chunks[0]);
      ChunksAreFolded(AbsorbChunk(s, chunks[0]), chunks[1..]);
      FoldConcat(start, chunks[0].bytes, Stream(chunks[1..]));
      StreamBegins(size, chunks);
      assert HashOf(size, chunks) == Fold(start, rest);
      SameRest(start, Fold(afterSize, offset), rest);
      SameRest(afterSize, OFFSET_BASIS, offset);
    }
  }

  lemma SameRest(g: u64, h: u64, s: seq<byte>)
    ensures Fold(g, s) == Fold(h, s) <==> g == h
  {
    if Fold(g, s) == Fold(h, s) {
      FoldInjective(g, h, s);
    }
  }

  lemma StreamBegins(size: u64, chunks: seq<Chunk>)
    requires chunks != []
    ensures Fold(OFFSET_BASIS, LittleEndian(size, 8) + Stream(chunks))
         == Fold(Fold(Fold(OFFSET_BASIS, LittleEndian(size, 8)), LittleEndian(chunks[0].offset, 8)), chunks[0].bytes + Stream(chunks[1..]))
  {
    hide Fold, Stream, LittleEndian;
    var h := Fold(OFFSET_BASIS, LittleEndian(size, 8));
    FirstOfStream(chunks);
    FoldConcat(OFFSET_BASIS, LittleEndian(size, 8), Stream(chunks));
    assert Stream(chunks) == LittleEndian(chunks[0].offset, 8) + (chunks[0].bytes + Stream(chunks[1..]));
    FoldConcat(h, LittleEndian(chunks[0].offset, 8), chunks[0].bytes + Stream(chunks[1..]));
  }

  lemma EmptyPoolIsNotHashed(copy: CopyOracle, t: nat, e: Entry, policy: HashPolicy)
    requires e.size == 0
    ensures Hashed(copy, t, e, policy) == e
  {
  }

  /** HashOf is what the scan records, and its chunks are never empty. */
  lemma HashOfIsRecorded(copy: CopyOracle, t: nat, e: Entry, policy: HashPolicy)
    requires Fresh(e) && e.size > 0
    ensures var chunks := ContentReads(copy, t, e.address, e.size, policy).chunks;
            && Hashed(copy, t, e, policy).contentHash == HashOf(e.size, chunks)
            && forall k :: 0 <= k < |chunks| ==> chunks[k].bytes != []
  {
    hide ContentReads, Absorb;
    ContentInOrder(copy, t, e.address, e.size, policy);
  }

  /** Mixing in the lowest byte of a number: `low` is the low byte of the hash, `next` the hash after it. */
  lemma MixByte(hash: u64, value: nat, n: nat, low: byte, b: byte, x: byte, carry: nat, next: u64)
    requires n > 0 && hash % 256 == low && value % 256 == b && BitSum(low, b) == x
    requires (hash - low + x) * 1099511628211 == carry * TWO_64 + next
    ensures Fold(hash, LittleEndian(value, n)) == Fold(next, LittleEndian(value / 256, n - 1))
  {
    hide Step, BitSum, Fold;
    FoldConcat(hash, [b], LittleEndian(value / 256, n - 1));
    FoldOne(hash, b);
    StepOnNumbers(hash / 256, low, b, x, carry);
  }

  lemma AfterTwoBytes()
    ensures Fold(OFFSET_BASIS, LittleEndian(0x3608_8742_53B9_6BD5, 8)) == Fold(0xAE45507B7356DC1, LittleEndian(0x3608874253B9, 6))
  {
    hide Fold, LittleEndian;
    MixByte(0xCBF29CE484222325, 0x3608874253B96BD5, 8, 0x25, 0xD5, 0xF0, 875948729822, 0xAF64884C860310D0);
    MixByte(0xAF64884C860310D0, 0x3608874253B96B, 7, 0xD0, 0x6B, 0xBB, 753305931184, 0xAE45507B7356DC1);
  }

  lemma AfterFourBytes()
    ensures Fold(0xAE45507B7356DC1, LittleEndian(0x3608874253B9, 6)) == Fold(0x720C871B928FA3C1, LittleEndian(0x36088742, 4))
  {
    hide Fold, LittleEndian;
    MixByte(0xAE45507B7356DC1, 0x3608874253B9, 6, 0xC1, 0xB9, 0x78, 46780450761, 0xB769F41C4FC902E8);
    MixByte(0xB769F41C4FC902E8, 0x3608874253, 5, 0xE8, 0x53, 0xBB, 787756621191, 0x720C871B928FA3C1);
  }

  lemma AfterSixBytes()
    ensures Fold(0x720C871B928FA3C1, LittleEndian(0x36088742, 4)) == Fold(0x93B4F27F1E0387FA, LittleEndian(0x3608, 2))
  {
    hide Fold, LittleEndian;
    MixByte(0x720C871B928FA3C1, 0x36088742, 4, 0xC1, 0x42, 0x83, 489836452948, 0x5AED16DA0A12D799);
    MixByte(0x5AED16DA0A12D799, 0x360887, 3, 0x99, 0x87, 0x1E, 390524754596, 0x93B4F27F1E0387FA);
  }

  /** The hash does come to zero: for this size it is seeded twice. */
  lemma SizeWithZeroHash()
    ensures Fold(OFFSET_BASIS, LittleEndian(0x3608_8742_53B9_6BD5, 8)) == 0
  {
    hide Fold, LittleEndian;
    AfterTwoBytes();
    AfterFourBytes();
    AfterSixBytes();
    MixByte(0x93B4F27F1E0387FA, 0x3608, 2, 0xFA, 0x08, 0xF2, 634395983897, 0x36);
    MixByte(0x36, 0x36, 1, 0x36, 0x36, 0x00, 0, 0x0);
    ZerosKeepZero(0);
  }

  lemma {:induction false} ZerosKeepZero(n: nat)
    ensures Fold(0, LittleEndian(0, n)) == 0
  {
    hide Step, BitSum, LittleEndian;
    if n == 0 {
      NoBytes();
    } else {
      ZerosKeepZero(n - 1);
      hide Fold;
      NoBits();
      MixByte(0, 0, n, 0, 0, 0, 0, 0);
    }
  }

  lemma NoBytes()
    ensures Fold(0, LittleEndian(0, 0)) == 0
  {
  }

  lemma NoBits()
    ensures BitSum(0, 0) == 0
  {
  }

  /** A pool of this size that is readable at its start does not have the FNV-1a hash of its stream. */
  lemma SeededTwice(chunks: seq<Chunk>)
    requires chunks != [] && chunks[0].offset == 0 && forall k :: 0 <= k < |chunks| ==> chunks[k].bytes != []
    ensures HashOf(0x3608_8742_53B9_6BD5, chunks) != Fold(OFFSET_BASIS, LittleEndian(0x3608_8742_53B9_6BD5, 8) + Stream(chunks))
  {
    hide Fold, LittleEndian, Stream, HashOf;
    SizeWithZeroHash();
    ZerosKeepZero(8);
    HashIsFnvOfTheStream(0x3608_8742_53B9_6BD5, chunks);
  }
}
