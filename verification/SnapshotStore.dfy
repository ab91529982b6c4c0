/**
 * The three global snapshots and what is done to them under the snapshot lock. Buffers come from a
 * pool allocator that records which blocks are live and which were freed, and in which a block can
 * be freed or written only while it is live.
 */
module SnapshotStore {
  import opened Base
  import opened Pool
  import opened Diff

  type Handle = nat

  const ZERO_ENTRY: Entry := Entry(0, 0, 0, {}, 0, 0, 0, 0, 0, 0, 0)

  function Zeros(n: nat): (s: seq<Entry>)
    ensures |s| == n
  {
    seq(n, i => ZERO_ENTRY)
  }

  /** ExAllocatePool2 and ExFreePoolWithTag for snapshot buffers. */
  class Allocator {
    var blocks: map<Handle, seq<Entry>>
    ghost var freed: seq<Handle>
    var next: Handle

    /** Handles are never reused, and no block is freed twice. */
    ghost predicate Valid()
      reads this
    {
      && (forall h :: h in blocks ==> h < next)
      && (forall h :: h in freed ==> h < next && h !in blocks)
      && (forall i, j :: 0 <= i < j < |freed| ==> freed[i] != freed[j])
    }

    constructor ()
      ensures Valid() && blocks == map[] && freed == []
    {
      blocks, freed, next := map[], [], 0;
    }

    method Allocate(capacity: nat) returns (h: Handle)
      requires Valid()
      modifies this
      ensures Valid() && h !in old(blocks) && h !in freed
      ensures blocks == old(blocks)[h := Zeros(capacity)] && freed == old(freed)
    {
      h := next;
      blocks := blocks[h := Zeros(capacity)];
      next := next + 1;
    }

    method Free(h: Handle)
      requires Valid() && h in blocks
      modifies this
      ensures Valid() && blocks == old(blocks) - {h} && freed == old(freed) + [h]
    {
      blocks := blocks - {h};
      freed := freed + [h];
    }

    /** RtlCopyMemory to the front of a block. */
    method Fill(h: Handle, s: seq<Entry>)
      requires Valid() && h in blocks && |s| <= |blocks[h]|
      modifies this
      ensures Valid() && blocks == old(blocks)[h := s + old(blocks)[h][|s|..]] && freed == old(freed)
    {
      blocks := blocks[h := s + blocks[h][|s|..]];
    }

    method Write(h: Handle, i: nat, e: Entry)
      requires Valid() && h in blocks && i < |blocks[h]|
      modifies this
      ensures Valid() && blocks == old(blocks)[h := old(blocks)[h][i := e]] && freed == old(freed)
    {
      blocks := blocks[h := blocks[h][i := e]];
    }
  }

  /** `struct Snapshot`: a buffer, or none, and how many of its entries are in use. */
  class Snapshot {
    var entries: Option<Handle>
    var count: nat

    constructor ()
      ensures entries == None && count == 0
    {
      entries, count := None, 0;
    }

    ghost predicate In(pool: Allocator)
      reads this, pool
    {
      if entries.None? then count == 0 else entries.value in pool.blocks && count <= |pool.blocks[entries.value]|
    }

    ghost function Block(): set<Handle>
      reads this
    {
      if entries.None? then {} else {entries.value}
    }

    ghost function Contents(pool: Allocator): seq<Entry>
      requires In(pool)
      reads this, pool
    {
      if entries.None? then [] else pool.blocks[entries.value][..count]
    }
  }

  method FreeSnapshot(pool: Allocator, s: Snapshot)
    requires pool.Valid() && s.In(pool)
    modifies pool, s
    ensures pool.Valid() && s.entries == None && s.count == 0
    ensures pool.blocks == old(pool.blocks) - old(s.Block())
    ensures pool.freed == old(pool.freed) + if old(s.entries).None? then [] else [old(s.entries).value]
  {
    if s.entries.Some? {
      pool.Free(s.entries.value);
    }
    s.entries := None;
    s.count := 0;
  }

  /** Overwrites the snapshot's fields: a buffer it still had would be lost. */
  method AllocateSnapshot(pool: Allocator, s: Snapshot, capacity: nat, allocOk: bool) returns (status: Status)
    requires pool.Valid() && s.entries == None
    modifies pool, s
    ensures pool.Valid() && pool.freed == old(pool.freed) && s.In(pool) && s.count == 0
    ensures status == if capacity == 0 || allocOk then Success else InsufficientResources
    ensures s.entries.Some? <==> capacity > 0 && allocOk
    ensures s.entries.None? ==> pool.blocks == old(pool.blocks)
    ensures s.entries.Some? ==> s.entries.value !in old(pool.blocks) && s.entries.value !in pool.freed
                                && pool.blocks == old(pool.blocks)[s.entries.value := Zeros(capacity)]
  {
    s.entries, s.count := None, 0;
    if capacity == 0 {
      return Success;
    }
    if !allocOk {
      return InsufficientResources;
    }
    var h := pool.Allocate(capacity);
    s.entries := Some(h);
    return Success;
  }

  /** Moves the buffer of the source to the target, whose own buffer is freed. */
  method ReplaceSnapshot(pool: Allocator, target: Snapshot, source: Snapshot)
    requires pool.Valid() && target.In(pool) && source.In(pool)
    requires target != source && target.Block() !! source.Block()
    modifies pool, target, source
    ensures pool.Valid() && target.In(pool)
    ensures target.entries == old(source.entries) && target.count == old(source.count)
    ensures source.entries == None && source.count == 0
    ensures target.Contents(pool) == old(source.Contents(pool))
    ensures pool.blocks == old(pool.blocks) - old(target.Block())
    ensures pool.freed == old(pool.freed) + if old(target.entries).None? then [] else [old(target.entries).value]
  {
    FreeSnapshot(pool, target);
    target.entries := source.entries;
    target.count := source.count;
    source.entries := None;
    source.count := 0;
  }

  /** A buffer of its own for a copy of the source, if there is anything to copy and memory for it. */
  method CopySnapshot(pool: Allocator, source: Snapshot, copy: Snapshot, allocOk: bool) returns (status: Status)
    requires pool.Valid() && source.In(pool) && copy.entries == None && copy.count == 0 && copy != source
    modifies pool, copy
    ensures pool.Valid() && pool.freed == old(pool.freed)
    ensures status == if source.count == 0 || allocOk then Success else InsufficientResources
    ensures if status == Success && source.count > 0
            then copy.entries.Some? && copy.count == source.count
                 && copy.entries.value !in old(pool.blocks) && copy.entries.value !in pool.freed
                 && pool.blocks == old(pool.blocks)[copy.entries.value := old(source.Contents(pool))]
            else copy.entries == None && copy.count == 0 && pool.blocks == old(pool.blocks)
  {
    ghost var contents := source.Contents(pool);
    status := AllocateSnapshot(pool, copy, source.count, allocOk);
    if status == Success && source.count > 0 {
      assert contents + Zeros(source.count)[|contents|..] == contents;
      copy.count := source.count;
      pool.Fill(copy.entries.value, pool.blocks[source.entries.value][..source.count]);
    }
  }

  /** What requests can see: the contents of the three snapshots. */
  datatype Committed = Committed(baseline: seq<Entry>, current: seq<Entry>, diff: seq<Entry>)

  /** The three critical sections that change what can be seen. */
  function InstallBaseline(c: Committed, entries: seq<Entry>): Committed {
    Committed(entries, [], [])
  }

  function InstallCurrent(c: Committed, entries: seq<Entry>, diffOk: bool): Committed {
    Committed(c.baseline, entries, if diffOk then DiffOf(c.baseline, entries) else [])
  }

  const NOTHING: Committed := Committed([], [], [])

  class Store {
    const pool: Allocator
    const baseline: Snapshot
    const current: Snapshot
    const diff: Snapshot

    constructor ()
      ensures Valid() && fresh(pool) && fresh(baseline) && fresh(current) && fresh(diff)
      ensures View() == NOTHING && pool.blocks == map[] && pool.freed == []
    {
      pool := new Allocator();
      baseline := new Snapshot();
      current := new Snapshot();
      diff := new Snapshot();
    }

    /** The snapshots are sound, and no two of them share a buffer. */
    ghost predicate Valid()
      reads this, pool, baseline, current, diff
    {
      && pool.Valid() && baseline.In(pool) && current.In(pool) && diff.In(pool)
      && baseline != current && baseline != diff && current != diff
      && baseline.Block() !! current.Block() && baseline.Block() !! diff.Block() && current.Block() !! diff.Block()
    }

    ghost function View(): Committed
      requires Valid()
      reads this, pool, baseline, current, diff
    {
      Committed(baseline.Contents(pool), current.Contents(pool), diff.Contents(pool))
    }

    /** The buffers that belong to nobody here: requests in flight own them. */
    ghost function Foreign(): map<Handle, seq<Entry>>
      reads this, pool, baseline, current, diff
    {
      pool.blocks - baseline.Block() - current.Block() - diff.Block()
    }

    /** Buffers freed by dropping a snapshot. */
    ghost function Dropped(s: Snapshot): seq<Handle>
      reads s
    {
      if s.entries.None? then [] else [s.entries.value]
    }

    /** How many entries the buffer of the diff can take. */
    ghost function DiffRoom(): nat
      reads this, pool, diff
    {
      if diff.entries.Some? && diff.entries.value in pool.blocks then |pool.blocks[diff.entries.value]| else 0
    }

    /** FreeSnapshot on each of the three. */
    method DropBaseline()
      requires Valid()
      modifies pool, baseline
      ensures Valid() && Foreign() == old(Foreign()) && pool.freed == old(pool.freed) + old(Dropped(baseline))
      ensures View() == old(View()).(baseline := []) && baseline.count == 0 && baseline.entries == None
    {
      hide pool.Valid;
      FreeSnapshot(pool, baseline);
    }

    method DropCurrent()
      requires Valid()
      modifies pool, current
      ensures Valid() && Foreign() == old(Foreign()) && pool.freed == old(pool.freed) + old(Dropped(current))
      ensures View() == old(View()).(current := []) && current.count == 0 && current.entries == None
    {
      hide pool.Valid;
      FreeSnapshot(pool, current);
    }

    method DropDiff()
      requires Valid()
      modifies pool, diff
      ensures Valid() && Foreign() == old(Foreign()) && pool.freed == old(pool.freed) + old(Dropped(diff))
      ensures View() == old(View()).(diff := []) && diff.count == 0 && diff.entries == None
    {
      hide pool.Valid;
      FreeSnapshot(pool, diff);
    }

    /** Adds one entry behind those the diff holds. */
    method AppendDiff(e: Entry)
      requires Valid() && diff.count < DiffRoom()
      modifies pool, diff
      ensures Valid() && diff.entries == old(diff.entries) && pool.freed == old(pool.freed)
      ensures View() == old(View()).(diff := old(View()).diff + [e]) && Foreign() == old(Foreign())
      ensures DiffRoom() == old(DiffRoom())
      ensures diff.count == old(diff.count) + 1
    {
      hide pool.Valid;
      pool.Write(diff.entries.value, diff.count, e);
      diff.count := diff.count + 1;
    }

    /** An empty diff with room for every current entry, if there is memory for it. */
    method StartDiff(allocOk: bool) returns (status: Status)
      requires Valid()
      modifies pool, diff
      ensures Valid() && Foreign() == old(Foreign()) && pool.freed == old(pool.freed) + old(Dropped(diff))
      ensures View() == old(View()).(diff := [])
      ensures status == if current.count == 0 || allocOk then Success else InsufficientResources
      ensures diff.count == 0
      ensures status == Success ==> DiffRoom() == current.count
    {
      hide pool.Valid;
      DropDiff();
      status := AllocateSnapshot(pool, diff, current.count, allocOk);
    }

    /** Puts an entry into the diff if the baseline does not have it, or has it with another hash. */
    method Consider(e: Entry)
      requires Valid() && diff.count < DiffRoom()
      modifies pool, diff
      ensures Valid() && diff.entries == old(diff.entries) && pool.freed == old(pool.freed) && Foreign() == old(Foreign())
      ensures DiffRoom() == old(DiffRoom())
      ensures diff.count <= old(diff.count) + 1
      ensures var report := Report(old(View()).baseline, e);
              View() == if report.Some? then old(View()).(diff := old(View()).diff + [report.value]) else old(View())
    {
      var baselineEntry := FindEntryByIdentity(
        if baseline.entries.None? then [] else pool.blocks[baseline.entries.value][..baseline.count], e);
      if baselineEntry.None? {
        AppendDiff(e);
      } else if ContentHashChanged(baselineEntry.value, e) {
        AppendDiff(e.(flags := e.flags + {HashChanged}));
      }
    }

    /** An entry of the current snapshot. */
    method CurrentEntry(i: nat) returns (e: Entry)
      requires Valid() && i < |View().current|
      ensures e == View().current[i]
    {
      e := pool.blocks[current.entries.value][i];
    }

    lemma CountsAreLengths()
      requires Valid()
      ensures |View().baseline| == baseline.count && |View().current| == current.count && |View().diff| == diff.count
    {
    }

    method RebuildDiffLocked(allocOk: bool) returns (status: Status)
      requires Valid()
      modifies pool, diff
      ensures Valid()
      ensures status == if current.count == 0 || allocOk then Success else InsufficientResources
      ensures View() == InstallCurrent(old(View()), old(View()).current, status == Success)
      ensures Foreign() == old(Foreign()) && pool.freed == old(pool.freed) + old(Dropped(diff))
    {
      hide Report, FirstMatch, this.Valid, this.View, this.Foreign, this.Dropped, this.DiffRoom;
      CountsAreLengths();
      status := StartDiff(allocOk);
      if status != Success {
        return;
      }
      ghost var before := View();
      CountsAreLengths();
      assert |before.current| == current.count;
      for i := 0 to current.count
        invariant Valid() && pool.freed == old(pool.freed) + old(Dropped(diff)) && Foreign() == old(Foreign())
        invariant DiffRoom() == current.count && diff.count <= i
        invariant View() == before.(diff := DiffOf(before.baseline, before.current[..i]))
      {
        assert before.current[..i + 1][..i] == before.current[..i];
        CountsAreLengths();
        var e := CurrentEntry(i);
        Consider(e);
      }
      assert before.current[..current.count] == before.current;
    }

    /** A snapshot of a request in flight: sound, and sharing nothing with the store. */
    ghost predicate Apart(s: Snapshot)
      reads this, pool, baseline, current, diff, s
    {
      && s.In(pool) && s != baseline && s != current && s != diff
      && s.Block() !! baseline.Block() && s.Block() !! current.Block() && s.Block() !! diff.Block()
    }

    /** ReplaceSnapshot on the baseline. */
    method ReplaceBaseline(snapshot: Snapshot)
      requires Valid() && Apart(snapshot)
      modifies pool, baseline, snapshot
      ensures Valid() && snapshot.entries == None && snapshot.count == 0
      ensures View() == old(View()).(baseline := old(snapshot.Contents(pool))) && baseline.count == |View().baseline|
      ensures Foreign() == old(Foreign()) - old(snapshot.Block())
      ensures pool.freed == old(pool.freed) + old(Dropped(baseline))
    {
      hide pool.Valid;
      ReplaceSnapshot(pool, baseline, snapshot);
    }

    /** HandleCreateBaseline under the lock. */
    method CommitBaseline(snapshot: Snapshot) returns (count: nat)
      requires Valid() && Apart(snapshot)
      modifies pool, baseline, current, diff, snapshot
      ensures Valid() && snapshot.entries == None && snapshot.count == 0
      ensures View() == InstallBaseline(old(View()), old(snapshot.Contents(pool)))
      ensures count == |View().baseline|
      ensures Foreign() == old(Foreign()) - old(snapshot.Block())
      ensures pool.freed == old(pool.freed) + old(Dropped(baseline)) + old(Dropped(current)) + old(Dropped(diff))
    {
      assert baseline != current && baseline != diff && current != diff;
      hide DiffOf, this.Valid, this.View, this.Foreign;
      ReplaceBaseline(snapshot);
      DropCurrent();
      DropDiff();
      count := baseline.count;
    }

    /** HandleCreateCurrent under the lock: the new snapshot stays even if its diff finds no memory. */
    method CommitCurrent(snapshot: Snapshot, allocOk: bool) returns (status: Status, count: nat)
      requires Valid() && Apart(snapshot)
      modifies pool, current, diff, snapshot
      ensures Valid() && snapshot.entries == None && snapshot.count == 0
      ensures status == if old(snapshot.count) == 0 || allocOk then Success else InsufficientResources
      ensures View() == InstallCurrent(old(View()), old(snapshot.Contents(pool)), status == Success)
      ensures count == |View().diff|
      ensures Foreign() == old(Foreign()) - old(snapshot.Block())
      ensures pool.freed == old(pool.freed) + old(Dropped(current)) + old(Dropped(diff))
    {
      hide DiffOf, pool.Valid;
      ReplaceSnapshot(pool, current, snapshot);
      status := RebuildDiffLocked(allocOk);
      count := diff.count;
    }

    method ClearSnapshots() returns (cleared: u32)
      requires Valid()
      modifies pool, baseline, current, diff
      ensures Valid() && View() == NOTHING && Foreign() == old(Foreign())
      ensures cleared == (|old(View()).baseline| + |old(View()).current| + |old(View()).diff|) % TWO_32
      ensures pool.freed == old(pool.freed) + old(Dropped(baseline)) + old(Dropped(current)) + old(Dropped(diff))
    {
      CountsAreLengths();
      assert baseline != current && baseline != diff && current != diff;
      hide DiffOf, this.Valid, this.View, this.Foreign;
      cleared := (baseline.count + current.count + diff.count) % TWO_32;
      DropBaseline();
      DropCurrent();
      DropDiff();
    }

    /** Copies one snapshot for a reader, which owns the copy: the diff for target 0, the current snapshot for target 1. */
    method CopySnapshotByTarget(target: u32, copy: Snapshot, allocOk: bool) returns (status: Status)
      requires Valid() && Apart(copy) && copy.entries == None && copy.count == 0
      modifies pool, copy
      ensures Valid() && Apart(copy) && View() == old(View()) && pool.freed == old(pool.freed)
      ensures target > 1 ==> status == InvalidParameter && copy.entries == None && copy.count == 0
      ensures target == 0 ==> Copied(View().diff, copy, allocOk, status)
      ensures target == 1 ==> Copied(View().current, copy, allocOk, status)
      ensures Foreign() - copy.Block() == old(Foreign())
    {
      hide pool.Valid;
      if target == TARGET_CURRENT {
        status := CopyCurrentSnapshot(copy, allocOk);
      } else if target == TARGET_DIFF {
        status := CopyDiffSnapshot(copy, allocOk);
      } else {
        status := InvalidParameter;
      }
    }

    /** The copy has the contents, unless there was no memory for it. */
    ghost predicate Copied(contents: seq<Entry>, copy: Snapshot, allocOk: bool, status: Status)
      requires copy.In(pool)
      reads pool, copy
    {
      && status == (if contents == [] || allocOk then Success else InsufficientResources)
      && copy.Contents(pool) == (if status == Success then contents else [])
      && (status != Success ==> copy.entries == None)
    }

    /** `Snapshot snapshot = {}` in a handler. */
    method NewLocal() returns (local: Snapshot)
      requires Valid()
      ensures fresh(local) && Apart(local) && local.entries == None && local.count == 0
    {
      local := new Snapshot();
    }

    method ReadLocal(local: Snapshot) returns (entries: seq<Entry>)
      requires Valid() && Apart(local)
      ensures entries == local.Contents(pool)
    {
      entries := if local.entries.None? then [] else pool.blocks[local.entries.value][..local.count];
    }

    /** FreeSnapshot at the end of a handler. */
    method DropLocal(local: Snapshot)
      requires Valid() && Apart(local)
      modifies pool, local
      ensures Valid() && View() == old(View()) && Foreign() == old(Foreign()) - old(local.Block())
    {
      hide pool.Valid;
      FreeSnapshot(pool, local);
    }

    method CopyDiffSnapshot(copy: Snapshot, allocOk: bool) returns (status: Status)
      requires Valid() && Apart(copy) && copy.entries == None && copy.count == 0
      modifies pool, copy
      ensures Valid() && Apart(copy) && View() == old(View()) && pool.freed == old(pool.freed)
      ensures Copied(View().diff, copy, allocOk, status)
      ensures Foreign() - copy.Block() == old(Foreign())
    {
      hide pool.Valid;
      status := CopySnapshot(pool, diff, copy, allocOk);
    }

    method CopyCurrentSnapshot(copy: Snapshot, allocOk: bool) returns (status: Status)
      requires Valid() && Apart(copy) && copy.entries == None && copy.count == 0
      modifies pool, copy
      ensures Valid() && Apart(copy) && View() == old(View()) && pool.freed == old(pool.freed)
      ensures Copied(View().current, copy, allocOk, status)
      ensures Foreign() - copy.Block() == old(Foreign())
    {
      hide pool.Valid;
      status := CopySnapshot(pool, current, copy, allocOk);
    }
  }
}
