/** Content hashing of one pool entry, as the scan does it. */
module ContentHash {
  import opened Base
  import opened Memory
  import opened Pool
  import opened Fnv

  const HASH_CHUNK_SIZE: nat := 512
  const HASH_SAMPLE_MIN: u64 := 0x1000
  const HASH_SAMPLE_LIMIT: u64 := 0x1000000

  datatype HashPolicy = HashPolicy(full: bool, sampleBytes: u64) {
    /** The sample size with the bounds that the driver enforces. */
    function Sample(): (r: u64)
      ensures 0x1000 <= r <= 0x100_0000 && (0x1000 <= sampleBytes <= 0x100_0000 ==> r == sampleBytes)
      ensures (sampleBytes < 0x1000 ==> r == 0x1000) && (sampleBytes > 0x100_0000 ==> r == 0x100_0000)
    {
      if sampleBytes < HASH_SAMPLE_MIN then HASH_SAMPLE_MIN
      else if sampleBytes > HASH_SAMPLE_LIMIT then HASH_SAMPLE_LIMIT
      else sampleBytes
    }

    /** Pools of one page are never sampled, those above 16 MiB always, unless the policy is to hash in full. */
    predicate Samples(size: u64): (r: bool)
      ensures r <==> !full && size > 0x1000 && (size > sampleBytes || size > 0x100_0000)
    {
      !full && size > Sample()
    }
  }

  /** One nonempty copy that went into the hash. */
  datatype Chunk = Chunk(offset: u64, bytes: seq<byte>)

  datatype HashState = HashState(hash: u64, hashed: u32)

  /** The hash to continue from; a zero hash with nothing hashed is (re)seeded. */
  function Seed(s: HashState): u64 {
    if s.hashed == 0 && s.hash == 0 then OFFSET_BASIS else s.hash
  }

  /** The low `n` bytes of a value, lowest first. */
  function LittleEndian(value: nat, n: nat): seq<byte> {
    if n == 0 then [] else [value % 256] + LittleEndian(value / 256, n - 1)
  }

  function Mix(s: HashState, value: u64): HashState {
    HashState(Fold(Seed(s), LittleEndian(value, 8)), s.hashed)
  }

  function Update(s: HashState, bytes: seq<byte>): HashState {
    if bytes == [] then s else HashState(Fold(Seed(s), bytes), Min(s.hashed + |bytes|, MAX_ULONG))
  }

  function AbsorbChunk(s: HashState, c: Chunk): HashState {
    Update(Mix(s, c.offset), c.bytes)
  }

  function Absorb(s: HashState, chunks: seq<Chunk>): HashState {
    if chunks == [] then s
    else AbsorbChunk(Absorb(s, chunks[..|chunks| - 1]), chunks[|chunks| - 1])
  }

  lemma {:induction false} AbsorbConcat(s: HashState, a: seq<Chunk>, b: seq<Chunk>)
    ensures Absorb(s, a + b) == Absorb(Absorb(s, a), b)
  {
    hide AbsorbChunk;
    if b == [] {
      assert a + b == a;
    } else {
      AbsorbConcat(s, a, b[..|b| - 1]);
      assert (a + b)[..|a + b| - 1] == a + b[..|b| - 1];
    }
  }

  /** The copies HashPoolEntryRange makes from `offset` on. */
  datatype Reading = Reading(chunks: seq<Chunk>, ticks: nat)

  ghost function ReadRange(copy: CopyOracle, t: nat, base: u64, offset: u64, end: u64): Reading
    decreases end - offset
  {
    if offset >= end || base + offset >= TWO_64 then Reading([], 0) else
      var r := copy(t, base + offset, Min(HASH_CHUNK_SIZE, end - offset));
      var head := if r.bytes == [] then [] else [Chunk(offset, r.bytes)];
      var next := NextOffset(base, offset, r);
      if next <= offset then Reading(head, 1) else
        var rest := ReadRange(copy, t + 1, base, next, end);
        Reading(head + rest.chunks, rest.ticks + 1)
  }

  /** Where the loop goes on after a copy; the offset itself when it gives up. */
  ghost function NextOffset(base: u64, offset: u64, r: CopyResult): u64
    requires base + offset < TWO_64 && offset + |r.bytes| < TWO_64
  {
    var behind := offset + |r.bytes|;
    if r.ok && r.bytes != [] then behind else
      var nextPage := NextPage(base + offset);
      if nextPage <= base || nextPage - base <= behind then offset else nextPage - base
  }

  lemma ReadRangeDone(copy: CopyOracle, t: nat, base: u64, offset: u64, end: u64)
    requires offset >= end || base + offset >= TWO_64
    ensures ReadRange(copy, t, base, offset, end) == Reading([], 0)
  {
  }

  /** ReadRange by what its first copy brings. */
  lemma ReadRangeStep(copy: CopyOracle, t: nat, base: u64, offset: u64, end: u64)
    requires offset < end && base + offset < TWO_64
    ensures var r := copy(t, base + offset, Min(HASH_CHUNK_SIZE, end - offset));
            var next := NextOffset(base, offset, r);
            var chunks := ReadRange(copy, t, base, offset, end).chunks;
            if next <= offset then chunks == (if r.bytes == [] then [] else [Chunk(offset, r.bytes)])
            else
              var rest := ReadRange(copy, t + 1, base, next, end).chunks;
              chunks == if r.bytes == [] then rest else [Chunk(offset, r.bytes)] + rest
  {
  }

  ghost function RangeEnd(size: u64, startOffset: u64, length: u64): (r: u64)
    ensures r == Min(startOffset + length, size)
  {
    if startOffset + length < TWO_64 && startOffset + length <= size then startOffset + length else size
  }

  /** What HashPoolEntryRange reads, its early returns included. */
  ghost function RangeReads(copy: CopyOracle, t: nat, base: u64, size: u64, startOffset: u64, length: u64): Reading {
    if length == 0 || startOffset >= size then Reading([], 0)
    else ReadRange(copy, t, base, startOffset, RangeEnd(size, startOffset, length))
  }

  /** What HashPoolEntryContent reads under a policy. */
  ghost function ContentReads(copy: CopyOracle, t: nat, base: u64, size: u64, policy: HashPolicy): Reading {
    if policy.Samples(size) then
      var half := policy.Sample() / 2;
      var first := RangeReads(copy, t, base, size, 0, half);
      var second := RangeReads(copy, t + first.ticks, base, size, size - half, half);
      Reading(first.chunks + second.chunks, first.ticks + second.ticks)
    else RangeReads(copy, t, base, size, 0, size)
  }

  /** The entry after its content was hashed. */
  ghost function Hashed(copy: CopyOracle, t: nat, e: Entry, policy: HashPolicy): Entry {
    if e.size == 0 then e else
      var s := Absorb(Mix(HashState(e.contentHash, e.hashedBytes), e.size),
                      ContentReads(copy, t, e.address, e.size, policy).chunks);
      var sampled := policy.Samples(e.size) || s.hashed < e.size;
      e.(contentHash := s.hash, hashedBytes := s.hashed,
         flags := if sampled then e.flags + {HashSampled} else e.flags)
  }

  method MixContentHashValue(entry: PoolEntry, value: u64)
    modifies entry
    ensures var s := Mix(HashState(old(entry.contentHash), old(entry.hashedBytes)), value);
            entry.Value() == old(entry.Value()).(contentHash := s.hash)
  {
    hide Step;
    var hash := entry.contentHash;
    if entry.hashedBytes == 0 && hash == 0 {
      hash := OFFSET_BASIS;
    }
    ghost var all, seed := LittleEndian(value, 8), hash;
    ghost var done: seq<byte> := [];
    var rest: nat := value;
    for i := 0 to 8
      invariant all == done + LittleEndian(rest, 8 - i)
      invariant hash == Fold(seed, done)
    {
      ghost var longer := done + [rest % 256];
      assert longer[..|longer| - 1] == done;
      assert all == longer + LittleEndian(rest / 256, 8 - i - 1);
      hash := Step(hash, rest % 256);
      done := longer;
      rest := rest / 256;
    }
    assert all == done;
    entry.contentHash := hash;
  }

  method UpdateContentHash(entry: PoolEntry, buffer: array<byte>, length: nat)
    requires length <= buffer.Length
    modifies entry
    ensures var s := Update(HashState(old(entry.contentHash), old(entry.hashedBytes)), buffer[..length]);
            entry.Value() == old(entry.Value()).(contentHash := s.hash, hashedBytes := s.hashed)
  {
    hide Step;
    if length == 0 {
      return;
    }
    var hash := entry.contentHash;
    if entry.hashedBytes == 0 && hash == 0 {
      hash := OFFSET_BASIS;
    }
    ghost var seed := hash;
    for i := 0 to length
      invariant hash == Fold(seed, buffer[..i])
    {
      assert buffer[..i + 1][..i] == buffer[..i];
      hash := Step(hash, buffer[i]);
    }
    entry.contentHash := hash;
    entry.hashedBytes := Min(entry.hashedBytes + length, MAX_ULONG);
  }

  /** The entry with the hash state replaced. */
  function WithState(e: Entry, s: HashState): Entry {
    e.(contentHash := s.hash, hashedBytes := s.hashed)
  }

  function StateOf(e: Entry): HashState {
    HashState(e.contentHash, e.hashedBytes)
  }

  /** The chunks of `whole` that are done, and what is left to read from `offset`. */
  ghost predicate Left(copy: CopyOracle, base: u64, end: u64, whole: Reading, done: seq<Chunk>, ticks: nat, t: nat, offset: u64) {
    var rest := ReadRange(copy, t, base, offset, end);
    whole.chunks == done + rest.chunks && whole.ticks == ticks + rest.ticks
  }

  /** After a copy the loop goes on behind it, at the next page, or not at all. */
  lemma LeftAfterCopy(copy: CopyOracle, base: u64, end: u64, whole: Reading, done: seq<Chunk>, ticks: nat, t: nat, offset: u64)
    requires Left(copy, base, end, whole, done, ticks, t, offset) && offset < end && base + offset < TWO_64
    ensures var r := copy(t, base + offset, Min(HASH_CHUNK_SIZE, end - offset));
            var done' := if r.bytes == [] then done else done + [Chunk(offset, r.bytes)];
            var behind, nextPage := offset + |r.bytes|, NextPage(base + offset);
            if r.ok && r.bytes != [] then Left(copy, base, end, whole, done', ticks + 1, t + 1, behind)
            else if nextPage <= base || nextPage - base <= behind then whole == Reading(done', ticks + 1)
            else Left(copy, base, end, whole, done', ticks + 1, t + 1, nextPage - base)
  {
    hide Left, ReadRange;
    LeftStep(copy, base, end, whole, done, ticks, t, offset);
  }

  lemma LeftStep(copy: CopyOracle, base: u64, end: u64, whole: Reading, done: seq<Chunk>, ticks: nat, t: nat, offset: u64)
    requires Left(copy, base, end, whole, done, ticks, t, offset) && offset < end && base + offset < TWO_64
    ensures var r := copy(t, base + offset, Min(HASH_CHUNK_SIZE, end - offset));
            var done' := if r.bytes == [] then done else done + [Chunk(offset, r.bytes)];
            var next := NextOffset(base, offset, r);
            if next <= offset then whole == Reading(done', ticks + 1)
            else Left(copy, base, end, whole, done', ticks + 1, t + 1, next)
  {
  }

  lemma LeftAtEnd(copy: CopyOracle, base: u64, end: u64, whole: Reading, done: seq<Chunk>, ticks: nat, t: nat, offset: u64)
    requires Left(copy, base, end, whole, done, ticks, t, offset) && (offset >= end || base + offset >= TWO_64)
    ensures whole == Reading(done, ticks)
  {
  }

  /** One copy goes into the hash: its offset first, then its bytes. */
  method HashChunk(entry: PoolEntry, buffer: array<byte>, offset: u64, copied: nat, ghost s: HashState, ghost done: seq<Chunk>)
    requires 0 < copied <= buffer.Length
    requires StateOf(entry.Value()) == Absorb(s, done)
    modifies entry
    ensures entry.Value() == WithState(old(entry.Value()), Absorb(s, done + [Chunk(offset, buffer[..copied])]))
  {
    hide Fold;
    assert (done + [Chunk(offset, buffer[..copied])])[..|done|] == done;
    MixContentHashValue(entry, offset);
    UpdateContentHash(entry, buffer, copied);
  }

  /** Copies up to `length` bytes from the entry and hashes what it got. */
  method CopyIntoHash(entry: PoolEntry, buffer: array<byte>, sourceAddress: u64, offset: u64, length: nat,
                      copy: CopyOracle, clock: nat, ghost s: HashState, ghost done: seq<Chunk>)
    returns (ok: bool, copied: nat)
    requires 0 < length <= buffer.Length && offset + length < TWO_64
    requires StateOf(entry.Value()) == Absorb(s, done)
    modifies entry, buffer
    ensures var r := copy(clock, sourceAddress, length);
            && ok == r.ok && copied == |r.bytes|
            && entry.Value() == WithState(old(entry.Value()),
                                          Absorb(s, if r.bytes == [] then done else done + [Chunk(offset, r.bytes)]))
  {
    hide Absorb;
    ok, copied := CopyFromVirtualAddress(copy, clock, sourceAddress, buffer, 0, length);
    if copied > 0 {
      assert buffer[..copied] == copy(clock, sourceAddress, length).bytes;
      HashChunk(entry, buffer, offset, copied, s, done);
    }
  }

  method HashPoolEntryRange(entry: PoolEntry, buffer: array?<byte>, startOffset: u64, length: u64, copy: CopyOracle, clock: nat)
    returns (clock': nat)
    requires buffer != null ==> buffer.Length == HASH_CHUNK_SIZE
    modifies entry, buffer
    ensures buffer == null ==> clock' == clock && entry.Value() == old(entry.Value())
    ensures buffer != null ==>
              var whole := RangeReads(copy, clock, entry.address, entry.size, startOffset, length);
              && clock' == clock + whole.ticks
              && entry.Value() == WithState(old(entry.Value()), Absorb(StateOf(old(entry.Value())), whole.chunks))
  {
    hide ReadRange, Absorb, Left, NextOffset;
    clock' := clock;
    if buffer == null || length == 0 || startOffset >= entry.size {
      AbsorbNothing(StateOf(entry.Value()));
      return;
    }
    var sum := AddUnsigned64(startOffset, length);
    var endOffset := if sum.None? || sum.value > entry.size then entry.size else sum.value;
    var offset: u64 := startOffset;
    ghost var s, whole, done := StateOf(entry.Value()), ReadRange(copy, clock, entry.address, startOffset, endOffset), [];
    assert whole == RangeReads(copy, clock, entry.address, entry.size, startOffset, length);
    hide RangeReads, RangeEnd;
    LeftAtStart(copy, entry.address, endOffset, clock, startOffset);
    AbsorbNothing(s);
    ghost var gaveUp := false;
    while offset < endOffset
      invariant !gaveUp && clock' >= clock
      invariant Left(copy, entry.address, endOffset, whole, done, clock' - clock, clock', offset)
      invariant entry.Value() == WithState(old(entry.Value()), Absorb(s, done))
    {
      var bytesToRead := Min(HASH_CHUNK_SIZE, endOffset - offset);
      var sourceAddress := AddUnsigned64(entry.address, offset);
      if sourceAddress.None? {
        break;
      }
      LeftAfterCopy(copy, entry.address, endOffset, whole, done, clock' - clock, clock', offset);
      ghost var r := copy(clock', entry.address + offset, Min(HASH_CHUNK_SIZE, endOffset - offset));
      var ok, bytesCopied := CopyIntoHash(entry, buffer, sourceAddress.value, offset, bytesToRead, copy, clock', s, done);
      clock' := clock' + 1;
      done := if r.bytes == [] then done else done + [Chunk(offset, r.bytes)];
      offset := offset + bytesCopied;
      if !ok || bytesCopied == 0 {
        var nextPageAddress := NextPage(sourceAddress.value);
        gaveUp := nextPageAddress <= entry.address || nextPageAddress - entry.address <= offset;
        if nextPageAddress <= entry.address {
          break;
        }
        var nextOffset := nextPageAddress - entry.address;
        if nextOffset <= offset {
          break;
        }
        offset := nextOffset;
      }
    }
    if !gaveUp {
      LeftAtEnd(copy, entry.address, endOffset, whole, done, clock' - clock, clock', offset);
    }
  }

  lemma AbsorbNothing(s: HashState)
    ensures Absorb(s, []) == s
  {
  }

  lemma LeftAtStart(copy: CopyOracle, base: u64, end: u64, t: nat, offset: u64)
    ensures Left(copy, base, end, ReadRange(copy, t, base, offset, end), [], 0, t, offset)
  {
  }

  method HashPoolEntryContent(entry: PoolEntry, buffer: array?<byte>, policy: HashPolicy, copy: CopyOracle, clock: nat)
    returns (clock': nat)
    requires buffer != null ==> buffer.Length == HASH_CHUNK_SIZE
    modifies entry, buffer
    ensures buffer == null ==> clock' == clock && entry.Value() == old(entry.Value())
    ensures buffer != null ==>
              && entry.Value() == Hashed(copy, clock, old(entry.Value()), policy)
              && (entry.size > 0 ==> clock' == clock + ContentReads(copy, clock, entry.address, entry.size, policy).ticks)
  {
    hide Absorb, RangeReads, Fold;
    clock' := clock;
    if buffer == null || entry.size == 0 {
      return;
    }
    MixContentHashValue(entry, entry.size);
    var sampleBytes := policy.Sample();
    if policy.full || entry.size <= sampleBytes {
      clock' := HashPoolEntryRange(entry, buffer, 0, entry.size, copy, clock);
      if entry.hashedBytes < entry.size {
        entry.flags := entry.flags + {HashSampled};
      }
      return;
    }
    entry.flags := entry.flags + {HashSampled};
    var halfSample := sampleBytes / 2;
    ghost var s := StateOf(entry.Value());
    clock' := HashPoolEntryRange(entry, buffer, 0, halfSample, copy, clock);
    ghost var first := RangeReads(copy, clock, entry.address, entry.size, 0, halfSample).chunks;
    ghost var second := RangeReads(copy, clock', entry.address, entry.size, entry.size - halfSample, halfSample).chunks;
    clock' := HashPoolEntryRange(entry, buffer, entry.size - halfSample, halfSample, copy, clock');
    AbsorbConcat(s, first, second);
  }
}
