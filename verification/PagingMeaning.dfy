/** The walk told by the entries it passes, in the terms of the manual: bits, indices and frames. */
module PagingMeaning {
  import opened Base
  import opened Paging

  /** Bits 12 to 51 of an entry, in place. */
  ghost function FrameOf(entry: u64): u64 {
    entry / 0x1000 % 0x100_0000_0000 * 0x1000
  }

  /** The nine bits of an address that select the entry of a level: bits 12 to 20 at level 1. */
  ghost function IndexOf(va: u64, level: nat): (r: nat)
    requires 1 <= level <= 5
    ensures r < 512
  {
    var shift := [0x1000, 0x20_0000, 0x4000_0000, 0x80_0000_0000, 0x1_0000_0000_0000];
    va / shift[level - 1] % 512
  }

  /** The page of a table came over in full. */
  ghost predicate TableIsThere(memory: Physical, table: u64) {
    memory(table).ok && |memory(table).words| == 512
  }

  /** The table that is reached behind some entries. */
  ghost function TableBehind(root: u64, entries: seq<u64>): u64 {
    if entries == [] then root else FrameOf(entries[|entries| - 1])
  }

  /** The entry of a level points to a table: it is present, maps no page itself, and its frame is not zero. */
  ghost predicate PointsToTable(entry: u64, level: nat) {
    && entry % 2 == 1 && FrameOf(entry) != 0 && level >= 2
    && (level == 2 || level == 3 ==> entry / 0x80 % 2 == 0)
  }

  /** The entry of a level maps a page: it is present, and at level 1, or at level 2 or 3 with bit 7 set. */
  ghost predicate MapsPage(entry: u64, level: nat) {
    entry % 2 == 1 && (level == 1 || ((level == 2 || level == 3) && entry / 0x80 % 2 == 1))
  }

  /** At place k of a descent: the entry comes from the table behind those before it, and points to a table. */
  ghost predicate StepsDown(memory: Physical, root: u64, va: u64, top: nat, entries: seq<u64>, k: nat)
    requires k < |entries| < top <= 5
  {
    var table := TableBehind(root, entries[..k]);
    && TableIsThere(memory, table)
    && entries[k] == memory(table).words[IndexOf(va, top - k)]
    && PointsToTable(entries[k], top - k)
  }

  /** The entries lead down from the root, one level each. */
  ghost predicate Descends(memory: Physical, root: u64, va: u64, top: nat, entries: seq<u64>)
    requires top <= 5
  {
    |entries| < top && forall k: nat :: k < |entries| ==> StepsDown(memory, root, va, top, entries, k)
  }

  /** Behind a descent the walk ends: the table is not to be had, or its entry is absent, or maps a page, or points nowhere. */
  ghost predicate Ends(memory: Physical, root: u64, va: u64, top: nat, entries: seq<u64>, t: Translation)
    requires |entries| < top <= 5
  {
    var table, level := TableBehind(root, entries), top - |entries|;
    if !TableIsThere(memory, table) then t == Fault(if memory(table).ok then PartialCopy else CopyFailed)
    else
      var entry := memory(table).words[IndexOf(va, level)];
      if MapsPage(entry, level) then t == Mapped(entries + [entry], level)
      else !PointsToTable(entry, level) && t == Fault(InvalidAddress)
  }

  lemma SameFrame(entry: u64)
    ensures Frame(entry) == FrameOf(entry)
  {
    var high, low := entry / 0x10_0000_0000_0000, entry % 0x10_0000_0000_0000;
    DivisionIsUnique(entry / 0x1000, high, low / 0x1000, 0x100_0000_0000);
  }

  lemma SameIndex(va: u64, level: nat)
    requires 1 <= level <= 5
    ensures GetPageTableIndex(va, level) == IndexOf(va, level)
  {
  }

  /** The same walk, seen from the first table down. */
  lemma DescendsFurther(memory: Physical, root: u64, va: u64, top: nat, entry: u64, below: seq<u64>)
    requires 2 <= top <= 5 && TableIsThere(memory, root) && entry == memory(root).words[IndexOf(va, top)]
    requires PointsToTable(entry, top) && Descends(memory, FrameOf(entry), va, top - 1, below)
    ensures Descends(memory, root, va, top, [entry] + below)
  {
    hide PointsToTable, IndexOf, FrameOf;
    var entries := [entry] + below;
    forall k: nat | k < |entries| ensures StepsDown(memory, root, va, top, entries, k) {
      if k > 0 {
        assert StepsDown(memory, FrameOf(entry), va, top - 1, below, k - 1);
        assert entries[..k] == [entry] + below[..k - 1];
      }
    }
  }

  lemma EndsFurther(memory: Physical, root: u64, va: u64, top: nat, entry: u64, below: seq<u64>, t: Translation)
    requires |below| + 1 < top <= 5 && Ends(memory, FrameOf(entry), va, top - 1, below, t)
    ensures Ends(memory, root, va, top, [entry] + below, Prefix(entry, t))
  {
    hide PointsToTable, IndexOf, FrameOf, MapsPage;
    assert TableBehind(root, [entry] + below) == TableBehind(FrameOf(entry), below);
    if t.Mapped? {
      assert [entry] + (below + [t.path[|t.path| - 1]]) == ([entry] + below) + [t.path[|t.path| - 1]];
    }
  }

  /** Every walk is a descent and an end, and they determine what it finds. */
  lemma {:induction false} WalkIsDescent(memory: Physical, root: u64, va: u64, top: nat) returns (entries: seq<u64>)
    requires 1 <= top <= 5 && FrameOf(root) == root
    ensures Descends(memory, root, va, top, entries)
    ensures Ends(memory, root, va, top, entries, Translate(memory, root, va, top))
    decreases top
  {
    entries := [];
    SameFrame(root);
    SameIndex(va, top);
    if TableIsThere(memory, root) {
      var entry := memory(root).words[IndexOf(va, top)];
      SameFrame(entry);
      hide IndexOf, GetPageTableIndex, FrameOf, Frame;
      if PointsToTable(entry, top) {
        var below := WalkIsDescent(memory, FrameOf(entry), va, top - 1);
        DescendsFurther(memory, root, va, top, entry, below);
        EndsFurther(memory, root, va, top, entry, below, Translate(memory, FrameOf(entry), va, top - 1));
        entries := [entry] + below;
      }
    }
  }

  /** Only one descent ends. */
  lemma {:induction false} OneDescent(memory: Physical, root: u64, va: u64, top: nat, a: seq<u64>, b: seq<u64>, t: Translation, u: Translation)
    requires top <= 5 && Descends(memory, root, va, top, a) && Descends(memory, root, va, top, b)
    requires Ends(memory, root, va, top, a, t) && Ends(memory, root, va, top, b, u)
    ensures a == b && t == u
  {
    hide IndexOf, FrameOf;
    var n := CommonPart(memory, root, va, top, a, b);
    assert n < |a| ==> StepsDown(memory, root, va, top, a, n);
    assert n < |b| ==> StepsDown(memory, root, va, top, b, n);
    assert a[..|a|] == a && b[..|b|] == b;
  }

  /** As far as both go they are the same. */
  lemma CommonPart(memory: Physical, root: u64, va: u64, top: nat, a: seq<u64>, b: seq<u64>) returns (n: nat)
    requires top <= 5 && Descends(memory, root, va, top, a) && Descends(memory, root, va, top, b)
    ensures n == Min(|a|, |b|) && a[..n] == b[..n]
  {
    hide PointsToTable, IndexOf, FrameOf;
    n := 0;
    while n < |a| && n < |b|
      invariant n <= |a| && n <= |b| && a[..n] == b[..n]
    {
      assert StepsDown(memory, root, va, top, a, n) && StepsDown(memory, root, va, top, b, n);
      n := n + 1;
    }
  }

  /** What is reported: writable iff bit 1 is set all the way, executable iff bit 63 is clear all the way. */
  ghost function InBits(t: Translation): (Status, PteAttributes) {
    match t
    case Fault(status) => (status, PteAttributes(false, false, false, false, 0))
    case Mapped(path, level) =>
      (Success, PteAttributes(true, forall e :: e in path ==> e / 2 % 2 == 1, forall e :: e in path ==> e < 0x8000_0000_0000_0000,
                              level > 1, if path == [] then 0 else path[|path| - 1]))
  }

  lemma RightsInBits(t: Translation)
    requires t.Mapped? ==> t.leafLevel >= 1
    ensures Rights(t) == InBits(t)
  {
    forall e: u64 ensures (WriteAllowed(e) <==> e / 2 % 2 == 1) && (!NoExecute(e) <==> e < 0x8000_0000_0000_0000) {
    }
    hide WriteAllowed, NoExecute;
  }

  /**
   * What the walk finds, from the bits alone. There is one way down from the root in CR3, through four levels or
   * five, and its end decides what is reported.
   */
  lemma WalkMeaning(machine: Machine, va: u64) returns (entries: seq<u64>, t: Translation)
    ensures var root, top := FrameOf(machine.cr3), if machine.la57 then 5 else 4;
            && Descends(machine.physical, root, va, top, entries)
            && Ends(machine.physical, root, va, top, entries, t)
            && forall a, u :: Descends(machine.physical, root, va, top, a) && Ends(machine.physical, root, va, top, a, u) ==> a == entries && u == t
    ensures Walk(machine, va) == InBits(t)
  {
    var root, top := FrameOf(machine.cr3), if machine.la57 then 5 else 4;
    SameFrame(machine.cr3);
    FrameOfFrame(machine.cr3);
    SameFrame(root);
    entries := WalkIsDescent(machine.physical, root, va, top);
    t := Translate(machine.physical, root, va, top);
    PathIsNotEmpty(machine.physical, root, va, top);
    hide Descends, Ends, Translate, FrameOf, Frame, Rights, InBits;
    RightsInBits(t);
    forall a, u | Descends(machine.physical, root, va, top, a) && Ends(machine.physical, root, va, top, a, u)
      ensures a == entries && u == t
    {
      OneDescent(machine.physical, root, va, top, a, entries, u, t);
    }
  }
}
