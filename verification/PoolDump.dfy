/** Dumping a whole pool through repeated reads. */
module PoolDump {
  import opened Base
  import opened Memory
  import opened Pool
  import opened PoolAddress
  import opened ReadContent

  const MAX_POOL_DUMP_BYTES: nat := 64 * 1024 * 1024

  datatype DumpError = ZeroLength | NothingReadable | ReadFailed(failure: Failure) | TooLong

  datatype Dump = Dumped(bytes: seq<byte>, truncated: bool) | Fails(error: DumpError)

  /** The system that a dump talks to; each read finds its own state, at its own tick. */
  datatype Target = Target(opens: nat -> bool, store: nat -> Store, copy: CopyOracle)

  /** While the dump runs, the driver answers, keeps finding a pool of a given size, and memory is stable. */
  ghost predicate Steady(target: Target, memory: PageMemory, address: u64, size: u64) {
    && (forall t: nat :: target.opens(t))
    && (forall t: nat :: target.store(t).Lookup(address).Some? && target.store(t).Lookup(address).value.size == size)
    && memory.Serves(target.copy)
  }

  /** How much of the pool there is to be had. */
  ghost function Obtainable(memory: PageMemory, entry: Entry, size: u64): nat {
    memory.ReadableRun(entry.address, Min(Min(entry.size, MAX_POOL_DUMP_BYTES), size))
  }

  ghost function Expected(memory: PageMemory, entry: Entry, size: u64): Dump
    requires entry.size > 0 && Obtainable(memory, entry, size) > 0
  {
    var k := Obtainable(memory, entry, size);
    Dumped(memory.Bytes(entry.address, k), k < entry.size)
  }

  /** One read in a steady system. */
  lemma SteadyRead(target: Target, memory: PageMemory, address: u64, size: u64, tick: nat, offset: u64, length: nat)
    requires Steady(target, memory, address, size) && offset <= size
    ensures var n := Min(length, size - offset);
            var k := memory.ReadableRun(address + offset, n);
            var r := Answer(target.store(tick).Lookup(address), target.copy, tick, address, offset, length);
            if n == 0 then r == Data([])
            else if k == 0 then r.Err?
            else r == Data(memory.Bytes(address + offset, k))
  {
    hide memory.ReadableRun, memory.Bytes, Preferred;
    var n := Min(length, size - offset);
    assert target.store(tick).Lookup(address).value.size == size;
    memory.Served(target.copy, tick, address + offset, n);
    BeyondMemory(memory, address + offset, n);
  }

  lemma BeyondMemory(memory: PageMemory, a: nat, n: nat)
    ensures a >= TWO_64 ==> memory.ReadableRun(a, n) == 0
  {
  }

  /** Another readable piece behind those already there. */
  lemma Extend(memory: PageMemory, address: u64, offset: nat, n: nat)
    requires memory.AllReadable(address, 0, offset)
    ensures var k := memory.ReadableRun(address + offset, n);
            && memory.AllReadable(address, 0, offset + k)
            && memory.Bytes(address, offset) + memory.Bytes(address + offset, k) == memory.Bytes(address, offset + k)
            && (k < n ==> !memory.Readable(address + offset + k))
  {
    var k := memory.ReadableRun(address + offset, n);
    assert memory.Bytes(address, offset + k)[..offset] == memory.Bytes(address, offset);
  }

  /** The longest readable prefix is where reading stopped. */
  lemma RunEnds(memory: PageMemory, address: u64, n: nat, limit: nat)
    requires memory.AllReadable(address, 0, n) && n <= limit && (n == limit || !memory.Readable(address + n))
    ensures memory.ReadableRun(address, limit) == n
  {
    var k, next: nat := memory.ReadableRun(address, limit), address + n;
    assert n < k ==> memory.Readable(next);
  }

  /** What a dump in a steady system has so far. */
  ghost predicate SoFar(memory: PageMemory, entry: Entry, size: u64, data: seq<byte>) {
    && |data| <= size
    && memory.AllReadable(entry.address, 0, |data|)
    && data == memory.Bytes(entry.address, |data|)
  }

  lemma DumpBegins(memory: PageMemory, entry: Entry, size: u64)
    ensures SoFar(memory, entry, size, [])
  {
  }

  /** One round in a steady system: an error or an empty answer means that nothing more is to be had. */
  lemma DumpContinues(target: Target, memory: PageMemory, entry: Entry, size: u64, tick: nat, data: seq<byte>, length: nat)
    requires Steady(target, memory, entry.address, size) && SoFar(memory, entry, size, data)
    requires 0 < length && |data| + length <= Min(entry.size, MAX_POOL_DUMP_BYTES)
    ensures var r := Answer(target.store(tick).Lookup(entry.address), target.copy, tick, entry.address, |data|, length);
            && target.opens(tick)
            && (r.Err? || r.bytes == [] ==> Obtainable(memory, entry, size) == |data|)
            && (r.Data? ==> SoFar(memory, entry, size, data + r.bytes))
  {
    hide memory.ReadableRun, memory.Bytes, memory.Readable, memory.AllReadable, Answer;
    var n := Min(length, size - |data|);
    SteadyRead(target, memory, entry.address, size, tick, |data|, length);
    Extend(memory, entry.address, |data|, n);
    var k := memory.ReadableRun(entry.address + |data|, n);
    if k == 0 {
      RunEnds(memory, entry.address, |data|, Min(Min(entry.size, MAX_POOL_DUMP_BYTES), size));
    }
  }

  /** A dump that reached its length has everything. */
  lemma DumpComplete(memory: PageMemory, entry: Entry, size: u64, data: seq<byte>)
    requires SoFar(memory, entry, size, data) && |data| == Min(entry.size, MAX_POOL_DUMP_BYTES)
    ensures Obtainable(memory, entry, size) == |data|
  {
    hide memory.ReadableRun;
    RunEnds(memory, entry.address, |data|, |data|);
  }

  /** What one read brings: nothing if there is no device, or the driver refuses. */
  function Piece(target: Target, entry: Entry, tick: nat, offset: u64, length: nat): seq<byte> {
    var answer := Answer(target.store(tick).Lookup(entry.address), target.copy, tick, entry.address, offset, length);
    if target.opens(tick) && answer.Data? then answer.bytes else []
  }

  /** The pieces that the first `ticks` reads bring, each asked for behind the last. */
  function Pieces(target: Target, entry: Entry, ticks: nat): (r: seq<byte>)
    ensures |r| <= Min(entry.size, MAX_POOL_DUMP_BYTES)
  {
    if ticks == 0 then [] else
      var before := Pieces(target, entry, ticks - 1);
      var length := Min(Min(entry.size, MAX_POOL_DUMP_BYTES) - |before|, MAX_READ_LENGTH);
      before + Piece(target, entry, ticks - 1, |before|, length)
  }

  lemma PiecesBegin(target: Target, entry: Entry)
    ensures Pieces(target, entry, 0) == []
  {
  }

  lemma PiecesNext(target: Target, entry: Entry, ticks: nat)
    ensures var before := Pieces(target, entry, ticks);
            var length := Min(Min(entry.size, MAX_POOL_DUMP_BYTES) - |before|, MAX_READ_LENGTH);
            Pieces(target, entry, ticks + 1) == before + Piece(target, entry, ticks, |before|, length)
  {
  }

  method ReadPoolDump(target: Target, entry: Entry, ghost memory: PageMemory, ghost size: u64) returns (dump: Dump, ticks: nat)
    ensures dump.Dumped? ==> dump.bytes != [] && |dump.bytes| <= Min(entry.size, MAX_POOL_DUMP_BYTES)
                             && (dump.truncated <==> |dump.bytes| < entry.size)
    ensures Pieces(target, entry, ticks) == if dump.Dumped? then dump.bytes else []
    ensures entry.size == 0 ==> dump == Fails(ZeroLength)
    ensures dump.Fails? ==> dump.error != TooLong
    ensures ticks <= 1 + if dump.Dumped? then |dump.bytes| else 0
    ensures Steady(target, memory, entry.address, size) && entry.size > 0 ==>
              if Obtainable(memory, entry, size) == 0 then dump.Fails? else dump == Expected(memory, entry, size)
  {
    hide Steady, memory.AllReadable, memory.ReadableRun, memory.Bytes, memory.Readable, Answer, Obtainable, Pieces;
    PiecesBegin(target, entry);
    ticks := 0;
    var length := Min(entry.size, MAX_POOL_DUMP_BYTES);
    if length == 0 {
      return Fails(ZeroLength), ticks;
    }
    ghost var stopped := false;
    ghost var steady := Steady(target, memory, entry.address, size);
    var data: seq<byte> := [];
    DumpBegins(memory, entry, size);
    var offset: nat := 0;
    while offset < length
      invariant |data| == offset <= length && ticks <= offset
      invariant data == Pieces(target, entry, ticks)
      invariant steady ==> SoFar(memory, entry, size, data)
      decreases length - offset
    {
      PiecesNext(target, entry, ticks);
      var chunkLength := Min(length - offset, MAX_READ_LENGTH);
      var chunk := ReadContent.ReadContent(target.opens(ticks), target.store(ticks), entry.address, offset, chunkLength,
                                           target.copy, ticks);
      if steady {
        DumpContinues(target, memory, entry, size, ticks, data, chunkLength);
      }
      ticks := ticks + 1;
      if chunk.Err? {
        if |data| > 0 {
          return Dumped(data, true), ticks;
        }
        return Fails(ReadFailed(chunk.failure)), ticks;
      }
      if chunk.bytes == [] {
        stopped := true;
        break;
      }
      if |chunk.bytes| > chunkLength {
        return Fails(TooLong), ticks;
      }
      data := data + chunk.bytes;
      offset := offset + |chunk.bytes|;
    }
    if steady && !stopped {
      DumpComplete(memory, entry, size, data);
    }
    if |data| == 0 {
      return Fails(NothingReadable), ticks;
    }
    return Dumped(data, entry.size > MAX_POOL_DUMP_BYTES || |data| < entry.size), ticks;
  }
}
