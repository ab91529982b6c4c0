/**
 * The ledger of test allocations. Requests check the quota under the lock, allocate outside it, and
 * check again when they insert; free-all detaches the list under the lock and frees it outside.
 * Requests interleave at every lock section, allocation and free.
 */
module TestLedger {
  import opened Base

  const MAX_TEST_ALLOCATIONS: nat := 32

  type Handle = nat

  /** A test allocation is two pool blocks: the memory and its list record. */
  datatype Allocation = Allocation(address: Handle, record: Handle) {
    function Blocks(): seq<Handle> {
      [address, record]
    }
  }

  /** What the lock guards: the counter and the list. */
  datatype Shared = Shared(count: nat, list: seq<Allocation>)

  const NONE_LISTED: Shared := Shared(0, [])

  predicate QuotaReached(shared: Shared) {
    shared.count >= MAX_TEST_ALLOCATIONS
  }

  function Inserted(shared: Shared, a: Allocation): Shared {
    Shared(shared.count + 1, shared.list + [a])
  }

  /** g_TestAllocations and g_TestAllocationCount, with the three critical sections. */
  class TestAllocations {
    var count: nat
    var list: seq<Allocation>

    /** The counter counts the list, which never exceeds the quota. */
    predicate Valid()
      reads this
    {
      count == |list| <= MAX_TEST_ALLOCATIONS
    }

    constructor ()
      ensures Valid() && Value() == NONE_LISTED
    {
      count, list := 0, [];
    }

    function Value(): Shared
      reads this
    {
      Shared(count, list)
    }

    /** The counter is enough to tell that the list has no room. */
    method TooMany() returns (full: bool)
      requires Valid()
      ensures full <==> |list| == 32
    {
      full := count >= MAX_TEST_ALLOCATIONS;
    }

    /** Reports the number of active allocations, unless the quota was reached meanwhile. */
    method Insert(a: Allocation) returns (active: Option<nat>)
      requires Valid()
      modifies this
      ensures Valid()
      ensures |old(list)| == 32 ==> active == None && list == old(list)
      ensures |old(list)| < 32 ==> active == Some(|list|) && list == old(list) + [a]
      ensures Value() == if QuotaReached(old(Value())) then old(Value()) else Inserted(old(Value()), a)
    {
      if count >= MAX_TEST_ALLOCATIONS {
        return None;
      }
      list := list + [a];
      count := count + 1;
      return Some(count);
    }

    /** Moves the allocations to a local list, head to tail. */
    method DetachAll() returns (local: seq<Allocation>, freed: nat)
      requires Valid()
      modifies this
      ensures Valid() && local == old(list) && freed == |local| && Value() == NONE_LISTED
    {
      local, freed := [], 0;
      while list != []
        invariant local + list == old(list) && freed == |local|
        decreases |list|
      {
        local := local + [list[0]];
        list := list[1..];
        freed := freed + 1;
      }
      count := 0;
    }
  }

  datatype Phase =
    | Idle
    | Checked                          // passed the first quota check
    | HasAddress(address: Handle)
    | HasBoth(allocation: Allocation)  // filled, not yet listed
    | Freeing(queue: seq<Handle>)      // rejected or detached, being freed front to back
  {
    /** The blocks that only this request can reach. */
    function Blocks(): seq<Handle> {
      match this
      case HasAddress(a) => [a]
      case HasBoth(a) => a.Blocks()
      case Freeing(q) => q
      case _ => []
    }
  }

  /** Where a block is; kept beside the driver's state to say what the invariant needs. */
  datatype Place = InFlight(tid: nat) | Listed | Freed

  datatype Ledger = Ledger(
    count: nat, list: seq<Allocation>, freed: seq<Handle>, next: Handle,
    phases: map<nat, Phase>, places: map<Handle, Place>)
  {
    function PhaseOf(tid: nat): Phase {
      if tid in phases then phases[tid] else Idle
    }

    function Enter(tid: nat, phase: Phase): Ledger {
      this.(phases := phases[tid := phase])
    }

    function Guarded(): Shared {
      Shared(count, list)
    }

    function Guard(shared: Shared): Ledger {
      this.(count := shared.count, list := shared.list)
    }

    function ListedBlocks(): seq<Handle> {
      Flatten(list)
    }
  }

  function Flatten(list: seq<Allocation>): seq<Handle> {
    if list == [] then [] else Flatten(list[..|list| - 1]) + list[|list| - 1].Blocks()
  }

  const START: Ledger := Ledger(0, [], [], 0, map[], map[])

  datatype Step =
    | Check(tid: nat)
    | AllocAddress(tid: nat, ok: bool)
    | AllocRecord(tid: nat, ok: bool)
    | Insert(tid: nat)
    | Detach(tid: nat)
    | FreeOne(tid: nat)

  function NewBlock(s: Ledger, tid: nat): Ledger {
    s.(next := s.next + 1, places := s.places[s.next := InFlight(tid)])
  }

  function Relocated(places: map<Handle, Place>, blocks: seq<Handle>, place: Place): map<Handle, Place> {
    map h | h in places :: if h in blocks then place else places[h]
  }

  /** One step; a step that is not enabled changes nothing. */
  function Apply(s: Ledger, step: Step): Ledger {
    var phase := s.PhaseOf(step.tid);
    match step
    case Check(tid) =>
      if !phase.Idle? || QuotaReached(s.Guarded()) then s else s.Enter(tid, Checked)
    case AllocAddress(tid, ok) =>
      if !phase.Checked? then s
      else if !ok then s.Enter(tid, Idle)
      else NewBlock(s, tid).Enter(tid, HasAddress(s.next))
    case AllocRecord(tid, ok) =>
      if !phase.HasAddress? then s
      else if !ok then s.Enter(tid, Freeing([phase.address]))
      else NewBlock(s, tid).Enter(tid, HasBoth(Allocation(phase.address, s.next)))
    case Insert(tid) =>
      if !phase.HasBoth? then s
      else if QuotaReached(s.Guarded()) then s.Enter(tid, Freeing(phase.allocation.Blocks()))
      else s.Guard(Inserted(s.Guarded(), phase.allocation))
            .(places := Relocated(s.places, phase.allocation.Blocks(), Listed)).Enter(tid, Idle)
    case Detach(tid) =>
      if !phase.Idle? then s
      else s.Guard(NONE_LISTED).(places := Relocated(s.places, s.ListedBlocks(), InFlight(tid)))
            .Enter(tid, Freeing(s.ListedBlocks()))
    case FreeOne(tid) =>
      if !phase.Freeing? then s
      else if phase.queue == [] then s.Enter(tid, Idle)
      else s.(freed := s.freed + [phase.queue[0]], places := s.places[phase.queue[0] := Freed])
            .Enter(tid, Freeing(phase.queue[1..]))
  }

  function Run(s: Ledger, steps: seq<Step>): Ledger {
    if steps == [] then s else Apply(Run(s, steps[..|steps| - 1]), steps[|steps| - 1])
  }

  ghost predicate Distinct(q: seq<Handle>) {
    forall i, j :: 0 <= i < j < |q| ==> q[i] != q[j]
  }

  /** The blocks of a place are exactly those of the sequence, each once. */
  ghost predicate Holds(places: map<Handle, Place>, place: Place, q: seq<Handle>) {
    Distinct(q) && forall h: Handle :: h in q <==> h in places && places[h] == place
  }

  ghost predicate Inv(s: Ledger) {
    && s.count == |s.list| <= MAX_TEST_ALLOCATIONS
    && (forall h: Handle :: h in s.places <==> h < s.next)
    && Holds(s.places, Listed, s.ListedBlocks())
    && Holds(s.places, Freed, s.freed)
    && forall tid: nat :: Holds(s.places, InFlight(tid), s.PhaseOf(tid).Blocks())
  }

  lemma StartIsSound()
    ensures Inv(START)
  {
  }

  /** Moving all blocks of one place to another, behind those that are there. */
  lemma RelocateAll(places: map<Handle, Place>, from: Place, to: Place, moved: seq<Handle>, there: seq<Handle>)
    requires from != to && Holds(places, from, moved) && Holds(places, to, there)
    ensures var r := Relocated(places, moved, to);
            && r.Keys == places.Keys && Holds(r, from, []) && Holds(r, to, there + moved)
  {
    var r := Relocated(places, moved, to);
    var q := there + moved;
    forall i, j | 0 <= i < j < |q| ensures q[i] != q[j] {
      if i < |there| <= j {
        assert q[i] in there && q[j] in moved;
      }
    }
  }

  lemma RelocateElsewhere(places: map<Handle, Place>, from: Place, to: Place, moved: seq<Handle>,
                          other: Place, q: seq<Handle>)
    requires other != from && other != to && Holds(places, from, moved) && Holds(places, other, q)
    ensures Holds(Relocated(places, moved, to), other, q)
  {
  }

  lemma PhaseHolds(s: Ledger, tid: nat)
    requires Inv(s)
    ensures Holds(s.places, InFlight(tid), s.PhaseOf(tid).Blocks())
  {
  }

  lemma InsertAppends(s: Ledger, tid: nat)
    requires s.count == |s.list| < MAX_TEST_ALLOCATIONS && s.PhaseOf(tid).HasBoth?
    ensures var a := s.PhaseOf(tid).allocation;
            var r := Apply(s, Insert(tid));
            && r.ListedBlocks() == s.ListedBlocks() + a.Blocks()
            && r.count == |r.list| == s.count + 1 && r.freed == s.freed && r.next == s.next
            && r.places == Relocated(s.places, a.Blocks(), Listed)
            && forall t: nat :: r.PhaseOf(t) == if t == tid then Idle else s.PhaseOf(t)
  {
    hide Relocated;
    var a := s.PhaseOf(tid).allocation;
    assert (s.list + [a])[..|s.list|] == s.list;
  }

  lemma InsertKeepsInv(s: Ledger, tid: nat)
    requires Inv(s) && s.PhaseOf(tid).HasBoth? && s.count < MAX_TEST_ALLOCATIONS
    ensures Inv(Apply(s, Insert(tid)))
  {
    hide Holds, Relocated, Distinct, Apply, Flatten;
    var a := s.PhaseOf(tid).allocation;
    var r := Apply(s, Insert(tid));
    PhaseHolds(s, tid);
    RelocateAll(s.places, InFlight(tid), Listed, a.Blocks(), s.ListedBlocks());
    RelocateElsewhere(s.places, InFlight(tid), Listed, a.Blocks(), Freed, s.freed);
    InsertAppends(s, tid);
    forall t: nat ensures Holds(r.places, InFlight(t), r.PhaseOf(t).Blocks()) {
      PhaseHolds(s, t);
      if t != tid {
        RelocateElsewhere(s.places, InFlight(tid), Listed, a.Blocks(), InFlight(t), s.PhaseOf(t).Blocks());
      }
    }
  }

  lemma DetachKeepsInv(s: Ledger, tid: nat)
    requires Inv(s) && s.PhaseOf(tid).Idle?
    ensures Inv(Apply(s, Detach(tid)))
  {
    hide Holds, Relocated, Distinct;
    var r := Apply(s, Detach(tid));
    PhaseHolds(s, tid);
    RelocateAll(s.places, Listed, InFlight(tid), s.ListedBlocks(), []);
    RelocateElsewhere(s.places, Listed, InFlight(tid), s.ListedBlocks(), Freed, s.freed);
    assert [] + s.ListedBlocks() == s.ListedBlocks();
    forall t: nat ensures Holds(r.places, InFlight(t), r.PhaseOf(t).Blocks()) {
      PhaseHolds(s, t);
      if t != tid {
        RelocateElsewhere(s.places, Listed, InFlight(tid), s.ListedBlocks(), InFlight(t), s.PhaseOf(t).Blocks());
      }
    }
  }

  /** Freeing the front of a queue moves one block to the freed ones. */
  lemma FreeFront(places: map<Handle, Place>, tid: nat, queue: seq<Handle>, freed: seq<Handle>)
    requires queue != [] && Holds(places, InFlight(tid), queue) && Holds(places, Freed, freed)
    ensures var r := places[queue[0] := Freed];
            && r.Keys == places.Keys
            && Holds(r, InFlight(tid), queue[1..]) && Holds(r, Freed, freed + [queue[0]])
            && forall other, q :: other != InFlight(tid) && other != Freed && Holds(places, other, q) ==> Holds(r, other, q)
  {
    var r := places[queue[0] := Freed];
    assert queue[0] in queue;
    forall h: Handle ensures h in queue[1..] <==> h in r && r[h] == InFlight(tid) {
      if h in queue && h != queue[0] {
        var i :| 0 <= i < |queue| && queue[i] == h;
        assert queue[1..][i - 1] == h;
      }
    }
  }

  lemma FreeKeepsInv(s: Ledger, tid: nat)
    requires Inv(s) && s.PhaseOf(tid).Freeing? && s.PhaseOf(tid).queue != []
    ensures Inv(Apply(s, FreeOne(tid)))
  {
    hide Holds, Distinct;
    var r := Apply(s, FreeOne(tid));
    PhaseHolds(s, tid);
    FreeFront(s.places, tid, s.PhaseOf(tid).queue, s.freed);
    forall t: nat ensures Holds(r.places, InFlight(t), r.PhaseOf(t).Blocks()) {
      PhaseHolds(s, t);
    }
  }

  /** A new block behind those a request holds. */
  lemma NewBlockHeld(s: Ledger, tid: nat, q: seq<Handle>)
    requires Inv(s) && Holds(s.places, InFlight(tid), q)
    ensures var r := NewBlock(s, tid).places;
            && Holds(r, InFlight(tid), q + [s.next])
            && forall other, p :: other != InFlight(tid) && Holds(s.places, other, p) ==> Holds(r, other, p)
  {
    assert s.next !in s.places;
  }

  lemma AllocKeepsInv(s: Ledger, tid: nat, phase: Phase)
    requires Inv(s) && phase.Blocks() == s.PhaseOf(tid).Blocks() + [s.next]
    ensures Inv(NewBlock(s, tid).Enter(tid, phase))
  {
    hide Holds, Distinct;
    var r := NewBlock(s, tid).Enter(tid, phase);
    PhaseHolds(s, tid);
    NewBlockHeld(s, tid, s.PhaseOf(tid).Blocks());
    forall t: nat ensures Holds(r.places, InFlight(t), r.PhaseOf(t).Blocks()) {
      PhaseHolds(s, t);
    }
  }

  lemma EnterKeepsInv(s: Ledger, tid: nat, phase: Phase)
    requires Inv(s) && phase.Blocks() == s.PhaseOf(tid).Blocks()
    ensures Inv(s.Enter(tid, phase))
  {
    hide Holds;
    forall t: nat ensures Holds(s.places, InFlight(t), s.Enter(tid, phase).PhaseOf(t).Blocks()) {
      PhaseHolds(s, t);
    }
  }

  lemma StepKeepsInv(s: Ledger, step: Step)
    requires Inv(s)
    ensures Inv(Apply(s, step))
  {
    hide Inv, Relocated, NewBlock;
    var tid := step.tid;
    var phase := s.PhaseOf(tid);
    match step
    case Check(_) =>
      if phase.Idle? {
        EnterKeepsInv(s, tid, Checked);
      }
    case AllocAddress(_, ok) =>
      if phase.Checked? {
        EnterKeepsInv(s, tid, Idle);
        AllocKeepsInv(s, tid, HasAddress(s.next));
      }
    case AllocRecord(_, ok) =>
      if phase.HasAddress? {
        EnterKeepsInv(s, tid, Freeing([phase.address]));
        AllocKeepsInv(s, tid, HasBoth(Allocation(phase.address, s.next)));
      }
    case Insert(_) =>
      if phase.HasBoth? {
        if s.count < MAX_TEST_ALLOCATIONS {
          InsertKeepsInv(s, tid);
        } else {
          EnterKeepsInv(s, tid, Freeing(phase.allocation.Blocks()));
        }
      }
    case Detach(_) =>
      if phase.Idle? {
        DetachKeepsInv(s, tid);
      }
    case FreeOne(_) =>
      if phase.Freeing? {
        if phase.queue == [] {
          EnterKeepsInv(s, tid, Idle);
        } else {
          FreeKeepsInv(s, tid);
        }
      }
  }

  /** Safety of every interleaving, from any sound state on. */
  lemma {:induction false} EveryRunIsSafe(s: Ledger, steps: seq<Step>)
    requires Inv(s)
    ensures Inv(Run(s, steps))
  {
    hide Inv, Apply;
    if steps == [] {
    } else {
      EveryRunIsSafe(s, steps[..|steps| - 1]);
      StepKeepsInv(Run(s, steps[..|steps| - 1]), steps[|steps| - 1]);
    }
  }

  /** What the invariant says without places: counted, bounded, and each block in exactly one spot. */
  lemma RunsAreAccountedFor(steps: seq<Step>, h: Handle, a: nat, b: nat)
    ensures var s := Run(START, steps);
            && s.count == |s.list| <= MAX_TEST_ALLOCATIONS
            && Distinct(s.freed) && Distinct(s.ListedBlocks()) && Distinct(s.PhaseOf(a).Blocks())
            && (h in s.freed ==> h !in s.ListedBlocks() && h !in s.PhaseOf(a).Blocks())
            && (h in s.ListedBlocks() ==> h !in s.PhaseOf(a).Blocks())
            && (a != b && h in s.PhaseOf(a).Blocks() ==> h !in s.PhaseOf(b).Blocks())
            && (h < s.next ==> h in s.freed || h in s.ListedBlocks() || exists t: nat :: h in s.PhaseOf(t).Blocks())
  {
    StartIsSound();
    EveryRunIsSafe(START, steps);
    var s := Run(START, steps);
    hide Run, Distinct;
    PhaseHolds(s, a);
    PhaseHolds(s, b);
    if h < s.next && s.places[h].InFlight? {
      PhaseHolds(s, s.places[h].tid);
    }
  }

  /** Both checks let a request pass exactly while fewer than 32 allocations are listed; one that fails the second frees its two blocks. */
  lemma QuotaIsThirtyTwo(s: Ledger, tid: nat)
    requires Inv(s)
    ensures s.PhaseOf(tid).Idle? ==> (Apply(s, Check(tid)).PhaseOf(tid).Checked? <==> |s.list| < 32)
    ensures s.PhaseOf(tid).HasBoth? ==>
              var a, r := s.PhaseOf(tid).allocation, Apply(s, Insert(tid));
              if |s.list| < 32 then r.list == s.list + [a] && r.PhaseOf(tid) == Idle
              else r.list == s.list && r.PhaseOf(tid) == Freeing([a.address, a.record])
  {
  }

  /** Frees what a request has queued, one by one. */
  function FreeAllOf(s: Ledger, tid: nat): Ledger
    decreases if s.PhaseOf(tid).Freeing? then 1 + |s.PhaseOf(tid).queue| else 0
  {
    if s.PhaseOf(tid).Freeing? then FreeAllOf(Apply(s, FreeOne(tid)), tid) else s
  }

  lemma {:induction false} FreeAllOfDrains(s: Ledger, tid: nat)
    requires Inv(s)
    ensures var r := FreeAllOf(s, tid);
            && Inv(r) && !r.PhaseOf(tid).Freeing? && r.list == s.list && r.next == s.next
            && (s.PhaseOf(tid).Freeing? ==> r.PhaseOf(tid).Idle?)
            && forall t: nat :: t != tid ==> r.PhaseOf(t) == s.PhaseOf(t)
    decreases if s.PhaseOf(tid).Freeing? then 1 + |s.PhaseOf(tid).queue| else 0
  {
    hide Inv;
    if !s.PhaseOf(tid).Freeing? {
    } else {
      StepKeepsInv(s, FreeOne(tid));
      FreeAllOfDrains(Apply(s, FreeOne(tid)), tid);
    }
  }

  /** When nothing is listed or in flight, every block ever allocated is freed, once. */
  lemma NothingLeft(s: Ledger)
    requires Inv(s) && s.list == [] && forall t: nat :: s.PhaseOf(t).Idle?
    ensures s.count == 0 && Distinct(s.freed) && forall h: Handle :: h in s.freed <==> h < s.next
  {
    hide Distinct;
    forall h: Handle | h < s.next ensures h in s.freed {
      if s.places[h].InFlight? {
        PhaseHolds(s, s.places[h].tid);
      }
    }
  }

  lemma DetachTakesAll(s: Ledger, tid: nat)
    requires forall t: nat :: s.PhaseOf(t).Idle?
    ensures var d := Apply(s, Detach(tid));
            d.PhaseOf(tid).Freeing? && d.list == [] && forall t: nat :: t != tid ==> d.PhaseOf(t).Idle?
  {
    var d := Apply(s, Detach(tid));
    assert s.PhaseOf(tid).Idle?;
    forall t: nat | t != tid ensures d.PhaseOf(t).Idle? {
      assert s.PhaseOf(t).Idle?;
    }
  }

  /** DriverUnload after the last request: free-all leaves every block ever allocated freed, once. */
  lemma UnloadFreesEverything(steps: seq<Step>, tid: nat)
    requires forall t: nat :: Run(START, steps).PhaseOf(t).Idle?
    ensures var r := FreeAllOf(Apply(Run(START, steps), Detach(tid)), tid);
            && r.count == 0 && r.list == []
            && Distinct(r.freed) && forall h: Handle :: h in r.freed <==> h < r.next
  {
    hide Run, Apply, Distinct, Inv, FreeAllOf;
    StartIsSound();
    EveryRunIsSafe(START, steps);
    var s := Run(START, steps);
    var d := Apply(s, Detach(tid));
    StepKeepsInv(s, Detach(tid));
    DetachTakesAll(s, tid);
    FreeAllOfDrains(d, tid);
    NothingLeft(FreeAllOf(d, tid));
  }

  /** What a filled block holds: the pattern repeated from its start, cut at the end of the block. */
  ghost predicate Tiled(block: seq<byte>, upTo: nat, fill: seq<byte>)
    requires upTo <= |block| && fill != []
  {
    forall i :: 0 <= i < upTo ==> block[i] == fill[i % |fill|]
  }

  lemma TileStep(offset: nat, i: nat, n: nat)
    requires n > 0 && offset % n == 0 && offset <= i < offset + n
    ensures i % n == i - offset
  {
    DivisionIsUnique(i, offset / n, i - offset, n);
  }

  method FillTestAllocation(destination: array<byte>, fill: seq<byte>)
    modifies destination
    ensures fill == [] ==> destination[..] == old(destination[..])
    ensures fill != [] ==> Tiled(destination[..], destination.Length, fill)
  {
    if destination.Length == 0 || fill == [] {
      return;
    }
    var offset := 0;
    while offset < destination.Length
      invariant 0 <= offset <= destination.Length
      invariant offset % |fill| == 0 || offset == destination.Length
      invariant forall i :: 0 <= i < offset ==> destination[i] == fill[i % |fill|]
    {
      var bytesToCopy := Min(|fill|, destination.Length - offset);
      ghost var before := destination[..];
      forall i | 0 <= i < bytesToCopy {
        destination[offset + i] := fill[i];
      }
      forall i | 0 <= i < offset + bytesToCopy ensures destination[i] == fill[i % |fill|] {
        if i < offset {
          assert destination[i] == before[i];
        } else {
          TileStep(offset, i, |fill|);
          assert destination[offset + (i - offset)] == fill[i - offset];
        }
      }
      NextTile(offset, |fill|);
      offset := offset + bytesToCopy;
    }
  }

  lemma NextTile(offset: nat, n: nat)
    requires n > 0 && offset % n == 0
    ensures (offset + n) % n == 0
  {
    DivisionIsUnique(offset + n, offset / n + 1, 0, n);
  }
}
