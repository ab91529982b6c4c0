/** Reading a piece of a pool: the driver's handler and the client's call. */
module ReadContent {
  import opened Base
  import opened Memory
  import opened Pool
  import opened PoolAddress

  const READ_REQUEST_SIZE: nat := 24
  const READ_HEADER_SIZE: nat := 24
  const MAX_READ_LENGTH: nat := 4096

  datatype Reply =
    | Refused(status: Status)
    | Answered(address: u64, offset: u64, bytesRead: nat, information: nat)

  /** The snapshots that a request finds under the lock. */
  datatype Store = Store(diff: seq<Entry>, current: seq<Entry>) {
    function Lookup(address: u64): Option<Entry> {
      Preferred(diff, current, (e: Entry) => e.address == address)
    }
  }

  /** As many bytes as are asked for, as are allowed, as fit, and as the entry has. */
  function BytesToRead(entry: Entry, offset: u64, length: u32, capacity: nat): (r: nat)
    requires offset <= entry.size
    ensures r <= length && r <= 4096 && r <= capacity && offset + r <= entry.size
    ensures r == length || r == 4096 || r == capacity || offset + r == entry.size
  {
    Min(Min(Min(length, MAX_READ_LENGTH), capacity), entry.size - offset)
  }

  /** `data` is the response buffer behind its header. */
  method HandleReadContent(store: Store, inputLength: nat, outputLength: nat, address: u64, offset: u64, length: u32,
                           copy: CopyOracle, clock: nat, data: array<byte>)
    returns (reply: Reply)
    requires data.Length == if outputLength < READ_HEADER_SIZE then 0 else outputLength - READ_HEADER_SIZE
    modifies data
    ensures var found := store.Lookup(address);
            if inputLength < READ_REQUEST_SIZE then reply == Refused(InvalidParameter)
            else if outputLength < READ_HEADER_SIZE then reply == Refused(BufferTooSmall)
            else if found.None? then reply == Refused(NotFound)
            else if offset > found.value.size then reply == Refused(InvalidParameter)
            else
              var n := BytesToRead(found.value, offset, length, data.Length);
              if n == 0 then reply == Answered(address, offset, 0, READ_HEADER_SIZE)
              else if address + offset >= TWO_64 then reply == Refused(IntegerOverflow)
              else
                var r := copy(clock, address + offset, n);
                if !r.ok && r.bytes == [] then reply == Refused(CopyFailed)
                else
                  && reply == Answered(address, offset, |r.bytes|, READ_HEADER_SIZE + |r.bytes|)
                  && |r.bytes| <= data.Length && data[..|r.bytes|] == r.bytes
  {
    hide Preferred;
    if inputLength < READ_REQUEST_SIZE {
      return Refused(InvalidParameter);
    }
    if outputLength < READ_HEADER_SIZE {
      return Refused(BufferTooSmall);
    }
    var found := FindReadableEntryByAddress(store.diff, store.current, address);
    if found.None? {
      return Refused(NotFound);
    }
    var entry := found.value;
    if offset > entry.size {
      return Refused(InvalidParameter);
    }
    var bytesToRead: nat := length;
    if bytesToRead > MAX_READ_LENGTH {
      bytesToRead := MAX_READ_LENGTH;
    }
    if bytesToRead > data.Length {
      bytesToRead := data.Length;
    }
    var available := entry.size - offset;
    if bytesToRead > available {
      bytesToRead := available;
    }
    if bytesToRead == 0 {
      return Answered(address, offset, 0, READ_HEADER_SIZE);
    }
    var sourceAddress := AddUnsigned64(address, offset);
    if sourceAddress.None? {
      return Refused(IntegerOverflow);
    }
    var ok, copied := CopyFromVirtualAddress(copy, clock, sourceAddress.value, data, 0, bytesToRead);
    if !ok && copied == 0 {
      return Refused(CopyFailed);
    }
    return Answered(address, offset, copied, READ_HEADER_SIZE + copied);
  }

  datatype Failure = DriverFailed(status: Status) | MalformedReply | NoDevice

  datatype Result = Data(bytes: seq<byte>) | Err(failure: Failure)

  /** What the client is told, given the entry that the driver finds. */
  function Answer(found: Option<Entry>, copy: CopyOracle, clock: nat, address: u64, offset: u64, length: nat): Result {
    if found.None? then Err(DriverFailed(NotFound))
    else if offset > found.value.size then Err(DriverFailed(InvalidParameter))
    else
      var n := Min(length, found.value.size - offset);
      if n == 0 then Data([])
      else if address + offset >= TWO_64 then Err(DriverFailed(IntegerOverflow))
      else
        var r := copy(clock, address + offset, n);
        if !r.ok && r.bytes == [] then Err(DriverFailed(CopyFailed)) else Data(r.bytes)
  }

  /** When a read fails, and with what; a read of nothing does not. */
  lemma ReadFails(found: Option<Entry>, copy: CopyOracle, clock: nat, address: u64, offset: u64, length: nat, status: Status)
    ensures Answer(found, copy, clock, address, offset, length) == Err(DriverFailed(status)) <==>
            if found.None? then status == NotFound
            else if offset > found.value.size then status == InvalidParameter
            else
              && length > 0 && offset < found.value.size
              && if address + offset >= TWO_64 then status == IntegerOverflow
                 else
                   var left := found.value.size - offset;
                   var r := copy(clock, address + offset, if length < left then length else left);
                   !r.ok && r.bytes == [] && status == CopyFailed
    ensures Answer(found, copy, clock, address, offset, length).Err? ==>
              Answer(found, copy, clock, address, offset, length).failure.DriverFailed?
  {
  }

  /** The client's own checks of the reply never fail. */
  method ReadContent(opens: bool, store: Store, address: u64, offset: u64, requested: u32, copy: CopyOracle, clock: nat)
    returns (result: Result)
    ensures opens ==> result == Answer(store.Lookup(address), copy, clock, address, offset, Min(requested, MAX_READ_LENGTH))
    ensures !opens ==> result == Err(NoDevice)
    ensures result.Data? ==> |result.bytes| <= requested
  {
    hide Preferred, store.Lookup;
    if !opens {
      return Err(NoDevice);
    }
    var length := Min(requested, MAX_READ_LENGTH);
    var data := new byte[length];
    var reply := HandleReadContent(store, READ_REQUEST_SIZE, READ_HEADER_SIZE + length, address, offset, length, copy, clock, data);
    if reply.Refused? {
      return Err(DriverFailed(reply.status));
    }
    if reply.information < READ_HEADER_SIZE || reply.address != address || reply.offset != offset {
      return Err(MalformedReply);
    }
    if reply.bytesRead == 0 {
      return Data([]);
    }
    if reply.bytesRead > data.Length || reply.information < READ_HEADER_SIZE + reply.bytesRead {
      return Err(MalformedReply);
    }
    return Data(data[..reply.bytesRead]);
  }
}
