/** When an address belongs to a pool entry, for the driver and for its client. */
module PoolAddress {
  import opened Base
  import opened Pool
  import opened Sequences

  function EndAddress(entry: Entry): u64 {
    var end := AddUnsigned64(entry.address, entry.size);
    if end.Some? then end.value else TWO_64 - 1
  }

  predicate AddressInPoolEntry(entry: Entry, address: u64) {
    entry.address <= address < EndAddress(entry)
  }

  /** The client detects the overflow by itself, and lets an entry contain its own address even if it is empty. */
  predicate AddressInEntry(address: u64, entry: Entry) {
    var sum := (entry.address + entry.size) % TWO_64;
    var end := if sum < entry.address then TWO_64 - 1 else sum;
    entry.address == address || (address >= entry.address && address < end)
  }

  /** The driver finds exactly the bytes of the pool, except the very last byte of the address space. */
  lemma MembershipIsExact(entry: Entry, address: u64)
    ensures AddressInPoolEntry(entry, address) <==>
            entry.address <= address < entry.address + entry.size && address != TWO_64 - 1
  {
  }

  /** The client accepts what the driver finds; it accepts more only at the start of the entry. */
  lemma ClientAgrees(entry: Entry, address: u64)
    ensures AddressInEntry(address, entry) <==> AddressInPoolEntry(entry, address) || address == entry.address
  {
  }

  method FindEntryByAddress(entries: seq<Entry>, address: u64) returns (found: Option<Entry>)
    ensures found == FirstWith(entries, (e: Entry) => e.address == address)
    ensures found.Some? ==> found.value in entries && found.value.address == address
    ensures found.None? ==> forall e :: e in entries ==> e.address != address
  {
    var p := (e: Entry) => e.address == address;
    assert entries[0..] == entries;
    for i := 0 to |entries|
      invariant FirstWith(entries, p) == FirstWith(entries[i..], p)
      invariant forall k :: 0 <= k < i ==> entries[k].address != address
    {
      if entries[i].address == address {
        return Some(entries[i]);
      }
      assert entries[i..][1..] == entries[i + 1..];
    }
    return None;
  }

  method FindEntryContainingAddress(entries: seq<Entry>, address: u64) returns (found: Option<Entry>)
    ensures found == FirstWith(entries, (e: Entry) => AddressInPoolEntry(e, address))
    ensures found.Some? ==> found.value in entries && AddressInPoolEntry(found.value, address)
    ensures found.None? ==> forall e :: e in entries ==> !AddressInPoolEntry(e, address)
  {
    hide AddressInPoolEntry;
    var p := (e: Entry) => AddressInPoolEntry(e, address);
    assert entries[0..] == entries;
    for i := 0 to |entries|
      invariant FirstWith(entries, p) == FirstWith(entries[i..], p)
      invariant forall k :: 0 <= k < i ==> !AddressInPoolEntry(entries[k], address)
    {
      if AddressInPoolEntry(entries[i], address) {
        return Some(entries[i]);
      }
      assert entries[i..][1..] == entries[i + 1..];
    }
    return None;
  }

  /** What both lookups give: the diff's entry if the diff has one, else the current snapshot's. */
  function Preferred(diff: seq<Entry>, current: seq<Entry>, p: Entry -> bool): Option<Entry> {
    if FirstWith(diff, p).Some? then FirstWith(diff, p) else FirstWith(current, p)
  }

  /** The diff comes first: its first entry with the property, and only if it has none the current snapshot's first. */
  lemma PreferredMeaning(diff: seq<Entry>, current: seq<Entry>, p: Entry -> bool)
    ensures forall k :: 0 <= k < |diff| && p(diff[k]) && (forall j :: 0 <= j < k ==> !p(diff[j])) ==>
              Preferred(diff, current, p) == Some(diff[k])
    ensures (forall k :: 0 <= k < |diff| ==> !p(diff[k])) ==>
              forall k :: 0 <= k < |current| && p(current[k]) && (forall j :: 0 <= j < k ==> !p(current[j])) ==>
                Preferred(diff, current, p) == Some(current[k])
    ensures Preferred(diff, current, p).None? <==> forall e :: e in diff + current ==> !p(e)
  {
    FirstWithMeaning(diff, p);
    FirstWithMeaning(current, p);
  }

  method FindReadableEntryByAddress(diff: seq<Entry>, current: seq<Entry>, address: u64) returns (found: Option<Entry>)
    ensures found == Preferred(diff, current, (e: Entry) => e.address == address)
    ensures found.Some? ==> found.value in diff + current && found.value.address == address
    ensures found.None? ==> forall e :: e in diff + current ==> e.address != address
  {
    found := FindEntryByAddress(diff, address);
    if found.None? {
      found := FindEntryByAddress(current, address);
    }
  }

  method FindPteEntryByAddress(diff: seq<Entry>, current: seq<Entry>, address: u64) returns (found: Option<Entry>)
    ensures found == Preferred(diff, current, (e: Entry) => AddressInPoolEntry(e, address))
    ensures found.Some? ==> found.value in diff + current && AddressInPoolEntry(found.value, address)
    ensures found.None? ==> forall e :: e in diff + current ==> !AddressInPoolEntry(e, address)
  {
    hide AddressInPoolEntry;
    found := FindEntryContainingAddress(diff, address);
    if found.None? {
      found := FindEntryContainingAddress(current, address);
    }
  }
}
