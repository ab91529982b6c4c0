/**
 * The page-table walk. The reference is the recursive translation of 4-level and 5-level paging
 * (Intel SDM Vol. 3A, section 4.5): the path of entries from the root to the leaf, whose rights are
 * the conjunction of the rights on the path (section 4.6).
 */
module Paging {
  import opened Base

  const TABLE_LENGTH: nat := 512

  // ----- the bits of an entry

  /** Whether the bit of the given weight is set. */
  predicate Bit(entry: u64, weight: nat)
    requires weight > 0
  {
    entry / weight % 2 == 1
  }

  predicate Present(entry: u64) {
    Bit(entry, 0x1)
  }

  predicate WriteAllowed(entry: u64) {
    Bit(entry, 0x2)
  }

  predicate LargeBit(entry: u64) {
    Bit(entry, 0x80)
  }

  predicate NoExecute(entry: u64) {
    Bit(entry, 0x8000_0000_0000_0000)
  }

  /** The physical address in bits 12 to 51. */
  function Frame(entry: u64): (r: u64) {
    entry % 0x10_0000_0000_0000 / 0x1000 * 0x1000
  }

  /** Bytes mapped by one entry of a level; level 1 holds the 4 KiB leaves. */
  function Span(level: nat): (r: nat)
    ensures r > 0
  {
    match level
    case 1 => 0x1000
    case 2 => 0x20_0000
    case 3 => 0x4000_0000
    case 4 => 0x80_0000_0000
    case _ => 0x1_0000_0000_0000
  }

  function GetPageTableIndex(va: u64, level: nat): (r: nat)
    ensures r < TABLE_LENGTH
  {
    va / Span(level) % 512
  }

  // ----- physical memory

  /** A copy of a physical page: whether it succeeded, and the words that arrived. */
  datatype PageRead = PageRead(ok: bool, words: seq<u64>)

  type Physical = f: u64 -> PageRead | forall a: u64 :: |f(a).words| <= TABLE_LENGTH
    witness (a: u64) => PageRead(false, [])

  function CopyStatus(r: PageRead): Status {
    if !r.ok then CopyFailed else if |r.words| != TABLE_LENGTH then PartialCopy else Success
  }

  // ----- the reference

  datatype Translation =
    | Mapped(path: seq<u64>, leafLevel: nat)
    | Fault(status: Status)

  predicate IsLeaf(entry: u64, level: nat) {
    level == 1 || (LargeBit(entry) && (level == 3 || level == 2))
  }

  function Prefix(entry: u64, below: Translation): Translation {
    if below.Mapped? then Mapped([entry] + below.path, below.leafLevel) else below
  }

  /** Translates through the table of a level at a physical address. */
  function Translate(memory: Physical, table: u64, va: u64, level: nat): Translation
    decreases level
  {
    if level == 0 then Fault(InvalidAddress)
    else if CopyStatus(memory(Frame(table))) != Success then Fault(CopyStatus(memory(Frame(table))))
    else
      var entry := memory(Frame(table)).words[GetPageTableIndex(va, level)];
      if !Present(entry) then Fault(InvalidAddress)
      else if IsLeaf(entry, level) then Mapped([entry], level)
      else if Frame(entry) == 0 then Fault(InvalidAddress)
      else Prefix(entry, Translate(memory, Frame(entry), va, level - 1))
  }

  datatype PteAttributes = PteAttributes(
    present: bool, writable: bool, executable: bool, largePage: bool, rawEntry: u64)

  const NO_ATTRIBUTES: PteAttributes := PteAttributes(false, false, false, false, 0)

  /** A page is writable iff every entry on the path allows it, executable iff none forbids it. */
  ghost function Rights(t: Translation): (Status, PteAttributes) {
    match t
    case Fault(status) => (status, NO_ATTRIBUTES)
    case Mapped(path, leafLevel) =>
      (Success, PteAttributes(
        true,
        forall e :: e in path ==> WriteAllowed(e),
        forall e :: e in path ==> !NoExecute(e),
        leafLevel != 1,
        if path == [] then 0 else path[|path| - 1]))
  }

  /** What the driver walks with: physical memory, the root in CR3 and the paging mode. */
  datatype Machine = Machine(physical: Physical, cr3: u64, la57: bool)

  function Levels(la57: bool): nat {
    if la57 then 5 else 4
  }

  ghost function Walk(machine: Machine, va: u64): (Status, PteAttributes) {
    Rights(Translate(machine.physical, Frame(machine.cr3), va, Levels(machine.la57)))
  }

  // ----- the driver's walk

  method CopyPhysicalPage(memory: Physical, address: u64, pageTable: array<u64>) returns (status: Status)
    requires pageTable.Length == TABLE_LENGTH
    modifies pageTable
    ensures status == CopyStatus(memory(Frame(address)))
    ensures status == Success ==> pageTable[..] == memory(Frame(address)).words
  {
    var r := memory(Frame(address));
    forall i | 0 <= i < |r.words| {
      pageTable[i] := r.words[i];
    }
    status := CopyStatus(r);
  }

  /** Rights of a translation below entries whose rights are already known. */
  ghost function Below(writable: bool, executable: bool, t: Translation): (Status, PteAttributes) {
    var (status, a) := Rights(t);
    (status, a.(writable := writable && a.writable, executable := executable && a.executable))
  }

  lemma BelowEntry(entry: u64, writable: bool, executable: bool, t: Translation)
    requires t.Mapped? ==> t.path != []
    ensures Below(writable, executable, Prefix(entry, t))
         == Below(writable && WriteAllowed(entry), executable && !NoExecute(entry), t)
  {
    if t.Mapped? {
      var path := [entry] + t.path;
      assert entry in path && forall e :: e in path <==> e == entry || e in t.path;
      assert path[|path| - 1] == t.path[|t.path| - 1];
    }
  }

  lemma {:induction false} PathIsNotEmpty(memory: Physical, table: u64, va: u64, level: nat)
    ensures var t := Translate(memory, table, va, level); t.Mapped? ==> t.path != [] && 1 <= t.leafLevel <= level
    decreases level
  {
    hide GetPageTableIndex, Present, LargeBit, Frame;
    if level == 0 || CopyStatus(memory(Frame(table))) != Success {
    } else {
      var entry := memory(Frame(table)).words[GetPageTableIndex(va, level)];
      PathIsNotEmpty(memory, Frame(entry), va, level - 1);
    }
  }

  lemma {:induction false} FaultIsFailure(memory: Physical, table: u64, va: u64, level: nat)
    ensures var t := Translate(memory, table, va, level); t.Fault? ==> t.status != Success
    decreases level
  {
    hide GetPageTableIndex, Present, LargeBit, Frame;
    if level == 0 || CopyStatus(memory(Frame(table))) != Success {
    } else {
      var entry := memory(Frame(table)).words[GetPageTableIndex(va, level)];
      FaultIsFailure(memory, Frame(entry), va, level - 1);
    }
  }

  /** A walk that fails reports no attribute at all. */
  lemma FailureReportsNothing(machine: Machine, va: u64)
    ensures var (status, a) := Walk(machine, va);
            (status == Success <==> a.present) && (status != Success ==> a == NO_ATTRIBUTES)
  {
    FaultIsFailure(machine.physical, Frame(machine.cr3), va, Levels(machine.la57));
  }

  lemma FrameOfFrame(entry: u64)
    ensures Frame(Frame(entry)) == Frame(entry)
  {
  }

  lemma BelowNothing(t: Translation)
    ensures Below(true, true, t) == Rights(t)
  {
  }

  lemma WalkFault(memory: Physical, table: u64, va: u64, level: nat, writable: bool, executable: bool)
    requires level == 0 || CopyStatus(memory(Frame(table))) != Success
    ensures Below(writable, executable, Translate(memory, table, va, level))
         == (if level == 0 then InvalidAddress else CopyStatus(memory(Frame(table))), NO_ATTRIBUTES)
  {
  }

  /** What one entry decides, and what it leaves to the next table. */
  lemma WalkStep(memory: Physical, table: u64, va: u64, level: nat, writable: bool, executable: bool)
    requires level > 0 && CopyStatus(memory(Frame(table))) == Success
    ensures var entry := memory(Frame(table)).words[GetPageTableIndex(va, level)];
            var whole := Below(writable, executable, Translate(memory, table, va, level));
            var w, x := writable && WriteAllowed(entry), executable && !NoExecute(entry);
            if !Present(entry) then whole == (InvalidAddress, NO_ATTRIBUTES)
            else if IsLeaf(entry, level) then whole == (Success, PteAttributes(true, w, x, level != 1, entry))
            else if Frame(entry) == 0 then whole == (InvalidAddress, NO_ATTRIBUTES)
            else whole == Below(w, x, Translate(memory, Frame(entry), va, level - 1))
  {
    hide Present, WriteAllowed, LargeBit, NoExecute, Frame, Span, GetPageTableIndex;
    var entry := memory(Frame(table)).words[GetPageTableIndex(va, level)];
    if !IsLeaf(entry, level) {
      PathIsNotEmpty(memory, Frame(entry), va, level - 1);
      BelowEntry(entry, writable, executable, Translate(memory, Frame(entry), va, level - 1));
    }
  }

  /** One buffer serves for all tables of the walk. */
  method QueryAddressPteAttributes(machine: Machine, va: u64, pageTable: array<u64>)
    returns (status: Status, attributes: PteAttributes)
    requires pageTable.Length == TABLE_LENGTH
    modifies pageTable
    ensures (status, attributes) == Walk(machine, va)
  {
    hide Present, WriteAllowed, LargeBit, NoExecute, Frame, Span, GetPageTableIndex, Translate, Rights, Below, CopyStatus;
    attributes := NO_ATTRIBUTES;
    var table := Frame(machine.cr3);
    var writable, executable := true, true;
    var level: nat := Levels(machine.la57);
    FrameOfFrame(machine.cr3);
    BelowNothing(Translate(machine.physical, table, va, level));
    status := CopyPhysicalPage(machine.physical, table, pageTable);
    if status != Success {
      WalkFault(machine.physical, table, va, level, writable, executable);
      return;
    }
    while level > 0
      invariant level <= 5
      invariant level > 0 ==> CopyStatus(machine.physical(Frame(table))) == Success
                              && pageTable[..] == machine.physical(Frame(table)).words
      invariant Walk(machine, va) == Below(writable, executable, Translate(machine.physical, table, va, level))
    {
      WalkStep(machine.physical, table, va, level, writable, executable);
      var index := GetPageTableIndex(va, level);
      var entry := pageTable[index];
      assert entry == pageTable[..][index];
      if !Present(entry) {
        return InvalidAddress, attributes;
      }
      writable := writable && WriteAllowed(entry);
      executable := executable && !NoExecute(entry);
      if LargeBit(entry) && (level == 3 || level == 2) {
        return Success, PteAttributes(true, writable, executable, true, entry);
      }
      if level == 1 {
        return Success, attributes.(present := true, writable := writable, executable := executable, rawEntry := entry);
      }
      table := Frame(entry);
      if table == 0 {
        return InvalidAddress, attributes;
      }
      FrameOfFrame(entry);
      status := CopyPhysicalPage(machine.physical, table, pageTable);
      level := level - 1;
      if status != Success {
        WalkFault(machine.physical, table, va, level, writable, executable);
        return;
      }
    }
    WalkFault(machine.physical, table, va, 0, writable, executable);
    return InvalidAddress, attributes;
  }

  // ----- properties of the translation

  lemma SpanDivides(level: nat, va: u64)
    requires 1 <= level < 5
    ensures va / Span(level) / 512 == va / Span(level + 1)
  {
  }

  /** Addresses that agree from a level up use the same entries down to that level. */
  lemma SameIndexAbove(va: u64, wa: u64, level: nat, k: nat)
    requires 1 <= level <= k <= 5 && va / Span(level) == wa / Span(level)
    ensures va / Span(k) == wa / Span(k) && GetPageTableIndex(va, k) == GetPageTableIndex(wa, k)
    decreases k - level
  {
    hide Span;
    if level == k {
    } else {
      SpanDivides(level, va);
      SpanDivides(level, wa);
      SameIndexAbove(va, wa, level + 1, k);
    }
  }

  /** All addresses of one leaf page, of whatever size, have the same translation. */
  lemma {:induction false} OnePageOneTranslation(memory: Physical, table: u64, va: u64, wa: u64, level: nat)
    requires level <= 5
    requires var t := Translate(memory, table, va, level); t.Mapped? && va / Span(t.leafLevel) == wa / Span(t.leafLevel)
    ensures Translate(memory, table, wa, level) == Translate(memory, table, va, level)
    decreases level
  {
    hide Present, LargeBit, Frame, Span, GetPageTableIndex;
    var t := Translate(memory, table, va, level);
    PathIsNotEmpty(memory, table, va, level);
    SameIndexAbove(va, wa, t.leafLevel, level);
    var entry := memory(Frame(table)).words[GetPageTableIndex(va, level)];
    if IsLeaf(entry, level) {
    } else {
      OnePageOneTranslation(memory, Frame(entry), va, wa, level - 1);
    }
  }

  /** Faults are shared by the addresses of a 4 KiB page. */
  lemma {:induction false} OnePageOneFault(memory: Physical, table: u64, va: u64, wa: u64, level: nat)
    requires level <= 5 && va / Span(1) == wa / Span(1)
    ensures Translate(memory, table, wa, level) == Translate(memory, table, va, level)
    decreases level
  {
    hide Present, LargeBit, Frame, Span, GetPageTableIndex;
    if level == 0 {
    } else {
      SameIndexAbove(va, wa, 1, level);
      if CopyStatus(memory(Frame(table))) == Success {
        var entry := memory(Frame(table)).words[GetPageTableIndex(va, level)];
        OnePageOneFault(memory, Frame(entry), va, wa, level - 1);
      }
    }
  }

  /** The walk of a page tells the rights of every address in it. */
  lemma WalkIsPageWide(machine: Machine, va: u64, wa: u64)
    requires va / PAGE_SIZE == wa / PAGE_SIZE
    ensures Walk(machine, va) == Walk(machine, wa)
  {
    OnePageOneFault(machine.physical, Frame(machine.cr3), va, wa, Levels(machine.la57));
  }

  /** All addresses of a large page get identical attributes, rights and raw entry included. */
  lemma LargePageIsUniform(machine: Machine, va: u64, wa: u64)
    requires Walk(machine, va).1.largePage
    requires var t := Translate(machine.physical, Frame(machine.cr3), va, Levels(machine.la57));
             va / Span(t.leafLevel) == wa / Span(t.leafLevel)
    ensures Walk(machine, va) == Walk(machine, wa)
    ensures Translate(machine.physical, Frame(machine.cr3), va, Levels(machine.la57)).leafLevel in {2, 3}
  {
    hide Present, LargeBit, Frame, Span, GetPageTableIndex;
    OnePageOneTranslation(machine.physical, Frame(machine.cr3), va, wa, Levels(machine.la57));
    LeafLevelIsLegal(machine.physical, Frame(machine.cr3), va, Levels(machine.la57));
  }

  /** Large leaves occur at 1 GiB and 2 MiB only, and a large leaf has its large-page bit set. */
  lemma {:induction false} LeafLevelIsLegal(memory: Physical, table: u64, va: u64, level: nat)
    ensures var t := Translate(memory, table, va, level);
            t.Mapped? ==> t.path != [] && t.leafLevel in {1, 2, 3} && |t.path| == level + 1 - t.leafLevel
                          && (t.leafLevel != 1 ==> LargeBit(t.path[|t.path| - 1]))
                          && forall e :: e in t.path ==> Present(e)
    decreases level
  {
    hide Present, LargeBit, Frame, GetPageTableIndex;
    if level == 0 || CopyStatus(memory(Frame(table))) != Success {
    } else {
      var entry := memory(Frame(table)).words[GetPageTableIndex(va, level)];
      LeafLevelIsLegal(memory, Frame(entry), va, level - 1);
    }
  }

  /** A 5-level walk is the 4-level walk below its top entry, with that entry's rights taken away. */
  lemma FiveLevelsOverFour(memory: Physical, table: u64, va: u64)
    requires CopyStatus(memory(Frame(table))) == Success
    requires var top := memory(Frame(table)).words[GetPageTableIndex(va, 5)]; Present(top) && Frame(top) != 0
    ensures var top := memory(Frame(table)).words[GetPageTableIndex(va, 5)];
            var (status, below) := Rights(Translate(memory, Frame(top), va, 4));
            && Rights(Translate(memory, table, va, 5))
               == (status, below.(writable := below.writable && WriteAllowed(top),
                                  executable := below.executable && !NoExecute(top)))
            && (WriteAllowed(top) && !NoExecute(top) ==>
                  Rights(Translate(memory, table, va, 5)) == Rights(Translate(memory, Frame(top), va, 4)))
  {
    hide Present, LargeBit, Frame, Span, GetPageTableIndex, WriteAllowed, NoExecute;
    var top := memory(Frame(table)).words[GetPageTableIndex(va, 5)];
    PathIsNotEmpty(memory, Frame(top), va, 4);
    BelowEntry(top, true, true, Translate(memory, Frame(top), va, 4));
  }

  /** The 4-level walk ignores bits 48 to 63: it does not tell canonical addresses from others. */
  lemma {:induction false} HighBitsAreIgnored(memory: Physical, table: u64, va: u64, level: nat)
    requires level <= 4
    ensures Translate(memory, table, va, level) == Translate(memory, table, va % 0x1_0000_0000_0000, level)
    decreases level
  {
    hide Present, LargeBit, Frame, GetPageTableIndex;
    if level == 0 {
    } else {
      LowBitsDecide(va, level);
      if CopyStatus(memory(Frame(table))) == Success {
        HighBitsAreIgnored(memory, Frame(memory(Frame(table)).words[GetPageTableIndex(va, level)]), va, level - 1);
      }
    }
  }

  lemma LowBitsDecide(va: u64, level: nat)
    requires 1 <= level <= 4
    ensures GetPageTableIndex(va % 0x1_0000_0000_0000, level) == GetPageTableIndex(va, level)
  {
    match level
    case 1 => LowBits(va, 0x1000, 0x800_0000, 0x1_0000_0000_0000);
    case 2 => LowBits(va, 0x20_0000, 0x4_0000, 0x1_0000_0000_0000);
    case 3 => LowBits(va, 0x4000_0000, 0x200, 0x1_0000_0000_0000);
    case _ => LowBits(va, 0x80_0000_0000, 1, 0x1_0000_0000_0000);
  }

  lemma LowBits(va: nat, span: nat, m: nat, whole: nat)
    requires span > 0 && whole > 0 && whole == span * (512 * m)
    ensures va % whole / span % 512 == va / span % 512
  {
    assert va == va / whole * whole + va % whole;
    DropHighPart(va / whole, va % whole, span, m);
  }

  lemma DropHighPart(q: nat, r: nat, span: nat, m: nat)
    requires span > 0
    ensures (q * (span * (512 * m)) + r) / span % 512 == r / span % 512
  {
    var s, t := r / span, r % span;
    assert q * (span * (512 * m)) + r == (q * (512 * m) + s) * span + t;
    DivisionIsUnique(q * (span * (512 * m)) + r, q * (512 * m) + s, t, span);
    assert q * (512 * m) + s == (q * m + s / 512) * 512 + s % 512;
    DivisionIsUnique(q * (512 * m) + s, q * m + s / 512, s % 512, 512);
  }
}
