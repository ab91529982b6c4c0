/**
 * Requests against the snapshot store, interleaved at will. A scan and the use of a copy run outside
 * the lock; each critical section is one step. Every buffer pointer of the driver is a slot.
 */
module SnapshotSystem {
  import opened Base
  import opened Pool
  import opened Diff
  import opened SnapshotStore

  /** The places that hold a buffer: the three globals, and the local snapshot of each request. */
  datatype Slot = OfBaseline | OfCurrent | OfDiff | OfThread(tid: nat)

  /** The snapshots that requests can copy. */
  datatype Target = TargetDiff | TargetCurrent

  function Visible(c: Committed, target: Target): seq<Entry> {
    if target.TargetDiff? then c.diff else c.current
  }

  datatype Kind = ForBaseline | ForCurrent

  datatype Phase =
    | Idle
    | Scanning(kind: Kind, id: u32)
    | Scanned(kind: Kind, id: u32)
    | Reading(target: Target, seen: seq<Entry>)

  datatype Block = Block(handle: Handle, contents: seq<Entry>)

  datatype System = System(
    holds: map<Slot, Block>, freed: seq<Handle>, next: Handle,
    phases: map<nat, Phase>, nextId: u32, diffMissing: bool)
  {
    function PhaseOf(tid: nat): Phase {
      if tid in phases then phases[tid] else Idle
    }

    function Contents(slot: Slot): seq<Entry> {
      if slot in holds then holds[slot].contents else []
    }

    function View(): Committed {
      Committed(Contents(OfBaseline), Contents(OfCurrent), Contents(OfDiff))
    }

    function Enter(tid: nat, phase: Phase): System {
      this.(phases := phases[tid := phase])
    }

    /** ExFreePoolWithTag on the buffer of a slot, if it has one. */
    function Release(slot: Slot): System {
      if slot !in holds then this else this.(freed := freed + [holds[slot].handle], holds := holds - {slot})
    }

    /** The pointer moves; a buffer the target still had would be lost. */
    function Move(from: Slot, to: Slot): System {
      if from !in holds then this.(holds := holds - {to}) else this.(holds := (holds - {from})[to := holds[from]])
    }

    function Acquire(slot: Slot, contents: seq<Entry>): System {
      this.(next := next + 1, holds := holds[slot := Block(next, contents)])
    }
  }

  const START: System := System(map[], [], 0, map[], 0, false)

  datatype Step =
    | Begin(tid: nat, kind: Kind)
    | ScanFails(tid: nat)
    | ScanDone(tid: nat, raw: seq<Entry>, buffer: bool)
    | Commit(tid: nat, diffOk: bool)
    | Clear(tid: nat)
    | Copy(tid: nat, target: Target, allocOk: bool)
    | Finish(tid: nat)

  function Stamp(raw: seq<Entry>, id: u32): (s: seq<Entry>)
    ensures |s| == |raw|
  {
    seq(|raw|, i requires 0 <= i < |raw| => raw[i].(snapshotId := id))
  }

  ghost predicate Stamped(s: seq<Entry>, id: u32) {
    forall e :: e in s ==> e.snapshotId == id
  }

  /** HandleCreateBaseline with the lock held: replace, then free the dependent snapshots. */
  function CommitBaseline(s: System, tid: nat): System {
    s.Release(OfBaseline).Move(OfThread(tid), OfBaseline).Release(OfCurrent).Release(OfDiff)
     .Enter(tid, Idle).(diffMissing := false)
  }

  /** HandleCreateCurrent with the lock held: replace, then rebuild the diff. */
  function CommitCurrent(s: System, tid: nat, diffOk: bool): System {
    var moved := s.Release(OfCurrent).Move(OfThread(tid), OfCurrent).Release(OfDiff).Enter(tid, Idle);
    var view := moved.View();
    if view.current == [] then moved.(diffMissing := false)
    else if !diffOk then moved.(diffMissing := true)
    else moved.Acquire(OfDiff, DiffOf(view.baseline, view.current)).(diffMissing := false)
  }

  /** One step; a step that is not enabled changes nothing. */
  function Apply(s: System, step: Step): System {
    var phase := s.PhaseOf(step.tid);
    match step
    case Begin(tid, kind) =>
      if !phase.Idle? then s else
        var id := (s.nextId + 1) % TWO_32;
        s.Enter(tid, Scanning(kind, id)).(nextId := id)
    case ScanFails(tid) =>
      if !phase.Scanning? then s else s.Enter(tid, Idle)
    case ScanDone(tid, raw, buffer) =>
      if !phase.Scanning? then s else
        var scanned := s.Enter(tid, Scanned(phase.kind, phase.id));
        if raw == [] && !buffer then scanned else scanned.Acquire(OfThread(tid), Stamp(raw, phase.id))
    case Commit(tid, diffOk) =>
      if !phase.Scanned? then s
      else if phase.kind.ForBaseline? then CommitBaseline(s, tid)
      else CommitCurrent(s, tid, diffOk)
    case Clear(tid) =>
      if !phase.Idle? then s
      else s.Release(OfBaseline).Release(OfCurrent).Release(OfDiff).(diffMissing := false)
    case Copy(tid, target, allocOk) =>
      var seen := Visible(s.View(), target);
      if !phase.Idle? || (seen != [] && !allocOk) then s
      else if seen == [] then s.Enter(tid, Reading(target, seen))
      else s.Enter(tid, Reading(target, seen)).Acquire(OfThread(tid), seen)
    case Finish(tid) =>
      if !phase.Reading? then s else s.Release(OfThread(tid)).Enter(tid, Idle)
  }

  function Run(s: System, steps: seq<Step>): System {
    if steps == [] then s else Apply(Run(s, steps[..|steps| - 1]), steps[|steps| - 1])
  }

  /** Some slot points to the block. */
  ghost predicate Live(holds: map<Slot, Block>, h: Handle) {
    exists slot :: slot in holds && holds[slot].handle == h
  }

  /** Each block ever allocated is held by exactly one slot or was freed exactly once. */
  ghost predicate OneOwner(holds: map<Slot, Block>, freed: seq<Handle>, next: Handle) {
    && (forall a, b :: a in holds && b in holds && a != b ==> holds[a].handle != holds[b].handle)
    && (forall h: Handle :: Live(holds, h) ==> h !in freed)
    && (forall h: Handle :: h < next <==> Live(holds, h) || h in freed)
    && (forall i, j :: 0 <= i < j < |freed| ==> freed[i] != freed[j])
  }

  ghost predicate Owned(s: System) {
    OneOwner(s.holds, s.freed, s.next)
  }

  /** A request owns a buffer only between its scan and its commit, or while it reads its copy. */
  ghost predicate Local(s: System, tid: nat) {
    match s.PhaseOf(tid)
    case Idle => OfThread(tid) !in s.holds
    case Scanning(_, _) => OfThread(tid) !in s.holds
    case Scanned(_, id) => Stamped(s.Contents(OfThread(tid)), id)
    case Reading(_, seen) => s.Contents(OfThread(tid)) == seen
  }

  /** What is visible is consistent. */
  ghost predicate Consistent(c: Committed, diffMissing: bool) {
    && (exists id :: Stamped(c.baseline, id))
    && (exists id :: Stamped(c.current, id) && Stamped(c.diff, id))
    && c.diff == if diffMissing then [] else DiffOf(c.baseline, c.current)
  }

  ghost predicate Inv(s: System) {
    Owned(s) && (forall tid :: Local(s, tid)) && Consistent(s.View(), s.diffMissing)
  }

  // ----- the three ways a buffer changes hands

  lemma ReleaseOwned(s: System, slot: Slot)
    requires Owned(s)
    ensures Owned(s.Release(slot))
    ensures s.Release(slot).holds == s.holds - {slot} && s.Release(slot).phases == s.phases
  {
    assert slot !in s.holds ==> s.holds - {slot} == s.holds;
    var r := s.Release(slot);
    forall h: Handle ensures Live(s.holds, h) <==> Live(r.holds, h) || (slot in s.holds && s.holds[slot].handle == h) {
      if Live(s.holds, h) {
        var k :| k in s.holds && s.holds[k].handle == h;
        assert k != slot ==> k in r.holds;
      }
      if Live(r.holds, h) {
        var k :| k in r.holds && r.holds[k].handle == h;
        assert k in s.holds;
      }
    }
    if slot in s.holds {
      assert Live(s.holds, s.holds[slot].handle);
      forall h: Handle | Live(r.holds, h) ensures h != s.holds[slot].handle {
        var k :| k in r.holds && r.holds[k].handle == h;
        assert k in s.holds;
      }
    }
  }

  lemma MoveEffect(s: System, from: Slot, to: Slot)
    requires to !in s.holds && from != to
    ensures s.Move(from, to).holds == if from in s.holds then (s.holds - {from})[to := s.holds[from]] else s.holds
    ensures s.Move(from, to).phases == s.phases && s.Move(from, to).freed == s.freed && s.Move(from, to).next == s.next
  {
    assert s.holds - {to} == s.holds;
  }

  /** A block that changes its slot. */
  lemma MovedLives(holds: map<Slot, Block>, from: Slot, to: Slot, h: Handle)
    requires from in holds && to !in holds && from != to
    ensures Live(holds, h) <==> Live((holds - {from})[to := holds[from]], h)
  {
    var moved := (holds - {from})[to := holds[from]];
    if Live(holds, h) {
      var k :| k in holds && holds[k].handle == h;
      assert (if k == from then to else k) in moved;
    }
    if Live(moved, h) {
      var k :| k in moved && moved[k].handle == h;
      assert (if k == to then from else k) in holds;
    }
  }

  lemma MoveOwned(s: System, from: Slot, to: Slot)
    requires Owned(s) && to !in s.holds && from != to
    ensures Owned(s.Move(from, to))
    ensures s.Move(from, to).holds == if from in s.holds then (s.holds - {from})[to := s.holds[from]] else s.holds
    ensures s.Move(from, to).phases == s.phases
  {
    hide s.Move, Live;
    MoveEffect(s, from, to);
    if from in s.holds {
      forall h: Handle ensures Live(s.holds, h) <==> Live(s.Move(from, to).holds, h) {
        MovedLives(s.holds, from, to, h);
      }
    }
  }

  lemma AcquireOwned(s: System, slot: Slot, contents: seq<Entry>)
    requires Owned(s) && slot !in s.holds
    ensures Owned(s.Acquire(slot, contents))
  {
    var r := s.Acquire(slot, contents);
    forall h: Handle ensures Live(r.holds, h) <==> Live(s.holds, h) || h == s.next {
      if Live(s.holds, h) {
        var k :| k in s.holds && s.holds[k].handle == h;
        assert k in r.holds;
      }
      if Live(r.holds, h) && h != s.next {
        var k :| k in r.holds && r.holds[k].handle == h;
        assert k in s.holds;
      }
      assert slot in r.holds;
    }
    forall k | k in s.holds ensures s.holds[k].handle != s.next {
      assert Live(s.holds, s.holds[k].handle);
    }
  }

  // ----- every step keeps the invariant

  /** The other requests notice nothing. */
  ghost predicate Untouched(s: System, r: System, tid: nat) {
    forall t: nat :: t != tid ==> SameRequest(s, r, t)
  }

  ghost predicate SameRequest(s: System, r: System, t: nat) {
    && s.PhaseOf(t) == r.PhaseOf(t)
    && (OfThread(t) in s.holds <==> OfThread(t) in r.holds)
    && s.Contents(OfThread(t)) == r.Contents(OfThread(t))
  }

  lemma LocalFrame(s: System, r: System, tid: nat)
    requires (forall t: nat :: Local(s, t)) && Untouched(s, r, tid) && Local(r, tid)
    ensures forall t: nat :: Local(r, t)
  {
    forall t: nat ensures Local(r, t) {
      assert Local(s, t);
      assert t != tid ==> SameRequest(s, r, t);
    }
  }

  lemma StartIsSound()
    ensures Inv(START)
  {
    EmptyIsConsistent();
  }

  lemma EmptyIsConsistent()
    ensures Consistent(NOTHING, false)
  {
    assert Stamped([], 0);
  }

  lemma ClearEffect(s: System)
    requires Owned(s)
    ensures var r := s.Release(OfBaseline).Release(OfCurrent).Release(OfDiff);
            && Owned(r) && r.holds == s.holds - {OfBaseline, OfCurrent, OfDiff}
            && r.phases == s.phases && r.View() == NOTHING
  {
    hide OneOwner, s.Release, s.Move;
    var s1 := s.Release(OfBaseline);
    var s2 := s1.Release(OfCurrent);
    ReleaseOwned(s, OfBaseline);
    ReleaseOwned(s1, OfCurrent);
    ReleaseOwned(s2, OfDiff);
  }

  lemma ClearKeepsInv(s: System, tid: nat)
    requires Inv(s) && s.PhaseOf(tid).Idle?
    ensures Inv(Apply(s, Clear(tid)))
  {
    hide OneOwner, Consistent, s.Release;
    ClearEffect(s);
    EmptyIsConsistent();
    assert Local(s, tid);
    LocalFrame(s, Apply(s, Clear(tid)), tid);
  }

  lemma CommitBaselineEffect(s: System, tid: nat)
    requires Owned(s)
    ensures var r, mine := CommitBaseline(s, tid), OfThread(tid);
            var rest := s.holds - {OfBaseline, OfCurrent, OfDiff, mine};
            && Owned(r) && r.phases == s.phases[tid := Idle] && !r.diffMissing
            && r.holds == (if mine in s.holds then rest[OfBaseline := s.holds[mine]] else rest)
            && r.View() == InstallBaseline(s.View(), s.Contents(mine))
  {
    hide OneOwner, s.Release, s.Move;
    var s1 := s.Release(OfBaseline);
    var s2 := s1.Move(OfThread(tid), OfBaseline);
    var s3 := s2.Release(OfCurrent);
    ReleaseOwned(s, OfBaseline);
    MoveOwned(s1, OfThread(tid), OfBaseline);
    ReleaseOwned(s2, OfCurrent);
    ReleaseOwned(s3, OfDiff);
  }

  lemma InstalledBaselineIsConsistent(c: Committed, entries: seq<Entry>, id: u32)
    requires Stamped(entries, id)
    ensures Consistent(InstallBaseline(c, entries), false)
  {
    assert Stamped([], 0);
  }

  lemma CommitBaselineKeepsInv(s: System, tid: nat)
    requires Inv(s) && s.PhaseOf(tid).Scanned?
    ensures Inv(CommitBaseline(s, tid))
  {
    hide OneOwner, Consistent, CommitBaseline;
    assert Local(s, tid);
    CommitBaselineEffect(s, tid);
    InstalledBaselineIsConsistent(s.View(), s.Contents(OfThread(tid)), s.PhaseOf(tid).id);
    LocalFrame(s, CommitBaseline(s, tid), tid);
  }

  lemma CurrentMovedEffect(s: System, tid: nat)
    requires Owned(s)
    ensures var r, mine := s.Release(OfCurrent).Move(OfThread(tid), OfCurrent).Release(OfDiff).Enter(tid, Idle), OfThread(tid);
            var rest := s.holds - {OfCurrent, OfDiff, mine};
            && Owned(r) && r.phases == s.phases[tid := Idle]
            && r.holds == (if mine in s.holds then rest[OfCurrent := s.holds[mine]] else rest)
            && r.View() == Committed(s.View().baseline, s.Contents(mine), [])
  {
    hide OneOwner, s.Release, s.Move;
    var s1 := s.Release(OfCurrent);
    var s2 := s1.Move(OfThread(tid), OfCurrent);
    ReleaseOwned(s, OfCurrent);
    MoveOwned(s1, OfThread(tid), OfCurrent);
    ReleaseOwned(s2, OfDiff);
  }

  lemma CommitCurrentEffect(s: System, tid: nat, diffOk: bool)
    requires Owned(s)
    ensures var r, mine := CommitCurrent(s, tid, diffOk), OfThread(tid);
            && Owned(r) && r.phases == s.phases[tid := Idle] && mine !in r.holds
            && (forall t: nat :: t != tid ==> (OfThread(t) in r.holds <==> OfThread(t) in s.holds))
            && (forall t: nat :: t != tid ==> r.Contents(OfThread(t)) == s.Contents(OfThread(t)))
            && r.diffMissing == (s.Contents(mine) != [] && !diffOk)
            && r.View() == InstallCurrent(s.View(), s.Contents(mine), !r.diffMissing)
  {
    hide OneOwner, DiffOf;
    CurrentMovedEffect(s, tid);
    var moved := s.Release(OfCurrent).Move(OfThread(tid), OfCurrent).Release(OfDiff).Enter(tid, Idle);
    EmptyDiffOfNothing(moved.View().baseline);
    hide s.Release, s.Move, s.Enter;
    if moved.View().current != [] && diffOk {
      AcquireOwned(moved, OfDiff, DiffOf(moved.View().baseline, moved.View().current));
    }
  }

  lemma EmptyDiffOfNothing(baseline: seq<Entry>)
    ensures DiffOf(baseline, []) == []
  {
  }

  lemma {:induction false} DiffIsStamped(baseline: seq<Entry>, current: seq<Entry>, id: u32)
    requires Stamped(current, id)
    ensures Stamped(DiffOf(baseline, current), id)
  {
    if current == [] {
    } else {
      var n := |current| - 1;
      assert current[n] in current;
      assert forall e :: e in current[..n] ==> e in current;
      DiffIsStamped(baseline, current[..n], id);
    }
  }

  lemma InstalledCurrentIsConsistent(c: Committed, entries: seq<Entry>, id: u32, diffOk: bool, missing: bool)
    requires Consistent(c, missing) && Stamped(entries, id)
    ensures Consistent(InstallCurrent(c, entries, diffOk), !diffOk)
  {
    hide DiffOf;
    DiffIsStamped(c.baseline, entries, id);
    assert Stamped([], id);
    assert Stamped(InstallCurrent(c, entries, diffOk).diff, id);
  }

  lemma CommitCurrentKeepsInv(s: System, tid: nat, diffOk: bool)
    requires Inv(s) && s.PhaseOf(tid).Scanned?
    ensures Inv(CommitCurrent(s, tid, diffOk))
  {
    hide OneOwner, Consistent, CommitCurrent, DiffOf;
    assert Local(s, tid);
    CommitCurrentEffect(s, tid, diffOk);
    InstalledCurrentIsConsistent(s.View(), s.Contents(OfThread(tid)), s.PhaseOf(tid).id,
                                 !CommitCurrent(s, tid, diffOk).diffMissing, s.diffMissing);
    LocalFrame(s, CommitCurrent(s, tid, diffOk), tid);
  }

  /** Steps that only move the request along, or give its slot a buffer, or take it. */
  lemma EnterKeepsInv(s: System, tid: nat, phase: Phase, id: u32)
    requires Inv(s) && Local(s.Enter(tid, phase), tid)
    ensures Inv(s.Enter(tid, phase)) && Inv(s.Enter(tid, phase).(nextId := id))
  {
    hide OneOwner, Consistent, Local;
    LocalFrame(s, s.Enter(tid, phase), tid);
    SameLocals(s.Enter(tid, phase), s.Enter(tid, phase).(nextId := id));
  }

  lemma SameLocals(s: System, r: System)
    requires (forall t: nat :: Local(s, t)) && r.holds == s.holds && r.phases == s.phases
    ensures forall t: nat :: Local(r, t)
  {
    forall t: nat ensures Local(r, t) {
      assert Local(s, t);
    }
  }

  lemma AcquireKeepsInv(s: System, tid: nat, phase: Phase, contents: seq<Entry>)
    requires Inv(s) && OfThread(tid) !in s.holds
    requires Local(s.Enter(tid, phase).Acquire(OfThread(tid), contents), tid)
    ensures Inv(s.Enter(tid, phase).Acquire(OfThread(tid), contents))
  {
    hide OneOwner, Consistent, Local;
    AcquireOwned(s.Enter(tid, phase), OfThread(tid), contents);
    LocalFrame(s, s.Enter(tid, phase).Acquire(OfThread(tid), contents), tid);
  }

  lemma FinishKeepsInv(s: System, tid: nat)
    requires Inv(s)
    ensures Inv(s.Release(OfThread(tid)).Enter(tid, Idle))
  {
    hide OneOwner, Consistent, s.Release;
    var r := s.Release(OfThread(tid)).Enter(tid, Idle);
    ReleaseOwned(s, OfThread(tid));
    ReleaseFields(s, OfThread(tid));
    LocalFrame(s, r, tid);
  }

  lemma ReleaseFields(s: System, slot: Slot)
    ensures s.Release(slot).diffMissing == s.diffMissing
  {
  }

  lemma StepKeepsInv(s: System, step: Step)
    requires Inv(s)
    ensures Inv(Apply(s, step))
  {
    hide OneOwner, Consistent, CommitBaseline, CommitCurrent, DiffOf, s.Release;
    var tid := step.tid;
    assert Local(s, tid);
    match step
    case Begin(_, kind) =>
      var id := (s.nextId + 1) % TWO_32;
      if s.PhaseOf(tid).Idle? {
        EnterKeepsInv(s, tid, Scanning(kind, id), id);
      }
    case ScanFails(_) =>
      if s.PhaseOf(tid).Scanning? {
        EnterKeepsInv(s, tid, Idle, s.nextId);
      }
    case ScanDone(_, raw, buffer) =>
      if s.PhaseOf(tid).Scanning? {
        var id := s.PhaseOf(tid).id;
        var phase := Scanned(s.PhaseOf(tid).kind, id);
        if raw == [] && !buffer {
          EnterKeepsInv(s, tid, phase, s.nextId);
        } else {
          StampIsStamped(raw, id);
          AcquireKeepsInv(s, tid, phase, Stamp(raw, id));
        }
      }
    case Commit(_, diffOk) =>
      if s.PhaseOf(tid).Scanned? {
        CommitBaselineKeepsInv(s, tid);
        CommitCurrentKeepsInv(s, tid, diffOk);
      }
    case Clear(_) =>
      if s.PhaseOf(tid).Idle? {
        ClearKeepsInv(s, tid);
      }
    case Copy(_, target, allocOk) =>
      var seen := Visible(s.View(), target);
      if s.PhaseOf(tid).Idle? {
        if seen == [] {
          EnterKeepsInv(s, tid, Reading(target, seen), s.nextId);
        } else if allocOk {
          AcquireKeepsInv(s, tid, Reading(target, seen), seen);
        }
      }
    case Finish(_) =>
      if s.PhaseOf(tid).Reading? {
        FinishKeepsInv(s, tid);
      }
  }

  lemma StampIsStamped(raw: seq<Entry>, id: u32)
    ensures Stamped(Stamp(raw, id), id)
  {
    assert forall i :: 0 <= i < |raw| ==> Stamp(raw, id)[i].snapshotId == id;
  }

  /** Safety of every interleaving. */
  lemma {:induction false} EveryRunIsSafe(steps: seq<Step>)
    ensures Inv(Run(START, steps))
  {
    hide Inv, Apply;
    if steps == [] {
      StartIsSound();
    } else {
      EveryRunIsSafe(steps[..|steps| - 1]);
      StepKeepsInv(Run(START, steps[..|steps| - 1]), steps[|steps| - 1]);
    }
  }

  /** What a step does to the baseline and the current snapshot that requests see. */
  lemma StepView(s: System, step: Step)
    requires Owned(s)
    ensures var r, mine := Apply(s, step).View(), s.Contents(OfThread(step.tid));
            if step.Commit? && s.PhaseOf(step.tid).Scanned? then
              if s.PhaseOf(step.tid).kind.ForBaseline? then r.baseline == mine && r.current == []
              else r.baseline == s.View().baseline && r.current == mine
            else if step.Clear? && s.PhaseOf(step.tid).Idle? then r.baseline == [] && r.current == []
            else r.baseline == s.View().baseline && r.current == s.View().current
  {
    hide OneOwner, CommitBaseline, CommitCurrent, DiffOf, s.Release;
    match step
    case Commit(tid, diffOk) =>
      CommitBaselineEffect(s, tid);
      CommitCurrentEffect(s, tid, diffOk);
    case Clear(_) =>
      ClearEffect(s);
    case Finish(tid) =>
      ReleaseOwned(s, OfThread(tid));
    case _ =>
  }

  /** What a step does to the request that takes it, while it scans. */
  lemma StepPhase(s: System, step: Step)
    requires Owned(s)
    ensures var r, tid, phase := Apply(s, step), step.tid, s.PhaseOf(step.tid);
            match step
            case Begin(_, kind) =>
              && r.PhaseOf(tid) == (if phase.Idle? then Scanning(kind, (s.nextId + 1) % TWO_32) else phase)
              && r.nextId == (if phase.Idle? then (s.nextId + 1) % TWO_32 else s.nextId)
              && (!phase.Idle? ==> r == s)
            case ScanDone(_, raw, _) =>
              && r.nextId == s.nextId
              && (phase.Scanning? ==>
                    && r.PhaseOf(tid) == Scanned(phase.kind, phase.id)
                    && (r.Contents(OfThread(tid)) == Stamp(raw, phase.id) || (raw == [] && r.holds == s.holds)))
              && (!phase.Scanning? ==> r == s)
            case _ =>
              && r.nextId == s.nextId
              && (r.PhaseOf(tid).Scanning? || r.PhaseOf(tid).Scanned? ==> r == s)
  {
    hide OneOwner, CommitBaseline, CommitCurrent, DiffOf, s.Release, Stamp;
    match step
    case Commit(tid, diffOk) =>
      CommitBaselineEffect(s, tid);
      CommitCurrentEffect(s, tid, diffOk);
      CommitKeepsIds(s, tid, diffOk);
    case Clear(_) =>
      ClearEffect(s);
      ReleaseKeepsIds(s);
    case Finish(tid) =>
      ReleaseOwned(s, OfThread(tid));
      ReleaseKeepsIds(s);
    case _ =>
  }

  /** What a step puts into the buffer of the request that takes it. */
  lemma StepOwn(s: System, step: Step)
    requires Owned(s)
    ensures var r, mine := Apply(s, step).Contents(OfThread(step.tid)), s.Contents(OfThread(step.tid));
            || r == [] || r == mine
            || (step.ScanDone? && |r| == |step.raw|)
            || (step.Copy? && r == Visible(s.View(), step.target))
  {
    hide OneOwner, CommitBaseline, CommitCurrent, DiffOf, s.Release, Visible;
    match step
    case Commit(tid, diffOk) =>
      CommitBaselineEffect(s, tid);
      CommitCurrentEffect(s, tid, diffOk);
    case Clear(_) =>
      ClearEffect(s);
    case Finish(tid) =>
      ReleaseOwned(s, OfThread(tid));
    case _ =>
  }

  lemma ReleaseKeepsIds(s: System)
    ensures forall slot: Slot :: s.Release(slot).nextId == s.nextId
    ensures s.Release(OfBaseline).Release(OfCurrent).Release(OfDiff).nextId == s.nextId
  {
  }

  lemma CommitKeepsIds(s: System, tid: nat, diffOk: bool)
    ensures CommitBaseline(s, tid).nextId == s.nextId && CommitCurrent(s, tid, diffOk).nextId == s.nextId
  {
    hide DiffOf, s.Contents, s.Release, s.Move;
    MoveKeepsIds(s);
    ReleaseKeepsIds(s);
    var s1, s2 := s.Release(OfBaseline), s.Release(OfCurrent);
    MoveKeepsIds(s1);
    MoveKeepsIds(s2);
    ReleaseKeepsIds(s1.Move(OfThread(tid), OfBaseline));
    ReleaseKeepsIds(s1.Move(OfThread(tid), OfBaseline).Release(OfCurrent));
    ReleaseKeepsIds(s2.Move(OfThread(tid), OfCurrent));
  }

  lemma MoveKeepsIds(s: System)
    ensures forall from: Slot, to: Slot :: s.Move(from, to).nextId == s.nextId
  {
  }

  /** A step of one request leaves the phase and the buffer of every other alone. */
  lemma StepUntouched(s: System, step: Step)
    requires Owned(s)
    ensures Untouched(s, Apply(s, step), step.tid)
  {
    hide OneOwner, CommitBaseline, CommitCurrent, DiffOf, s.Release;
    match step
    case Begin(_, _) =>
    case ScanFails(_) =>
    case ScanDone(_, _, _) =>
    case Commit(tid, diffOk) =>
      CommitBaselineEffect(s, tid);
      CommitCurrentEffect(s, tid, diffOk);
    case Clear(_) =>
      ClearEffect(s);
    case Copy(_, _, _) =>
    case Finish(tid) =>
      ReleaseOwned(s, OfThread(tid));
  }

  /**
   * Every reader sees one committed snapshot: what it copied is what was visible at that moment, and
   * it stays so under any steps of other requests.
   */
  lemma {:induction false} ReaderSeesOneSnapshot(s: System, tid: nat, target: Target, allocOk: bool, others: seq<Step>)
    requires Inv(s) && s.PhaseOf(tid).Idle?
    requires forall k :: 0 <= k < |others| ==> others[k].tid != tid
    ensures var r := Run(Apply(s, Copy(tid, target, allocOk)), others);
            var shown := match target case TargetDiff => s.View().diff case TargetCurrent => s.View().current;
            && (r.PhaseOf(tid).Reading? <==> shown == [] || allocOk)
            && (r.PhaseOf(tid).Reading? ==> r.Contents(OfThread(tid)) == shown)
    ensures var r := Run(Apply(s, Copy(tid, target, allocOk)), others);
            SameRequest(Apply(s, Copy(tid, target, allocOk)), r, tid) && Inv(r)
  {
    hide Inv, Apply;
    var copied := Apply(s, Copy(tid, target, allocOk));
    if others == [] {
      CopyShowsTarget(s, tid, target, allocOk);
    } else {
      var n := |others| - 1;
      ReaderSeesOneSnapshot(s, tid, target, allocOk, others[..n]);
      StepKeepsInv(Run(copied, others[..n]), others[n]);
      StepLeavesRequest(Run(copied, others[..n]), others[n], tid);
    }
  }

  lemma CopyShowsTarget(s: System, tid: nat, target: Target, allocOk: bool)
    requires Inv(s) && s.PhaseOf(tid).Idle?
    ensures var r := Apply(s, Copy(tid, target, allocOk));
            var shown := match target case TargetDiff => s.View().diff case TargetCurrent => s.View().current;
            && Inv(r) && (r.PhaseOf(tid).Reading? <==> shown == [] || allocOk)
            && (r.PhaseOf(tid).Reading? ==> r.Contents(OfThread(tid)) == shown)
  {
    hide OneOwner, Consistent, DiffOf;
    assert Local(s, tid);
    StepKeepsInv(s, Copy(tid, target, allocOk));
  }

  lemma StepLeavesRequest(s: System, step: Step, tid: nat)
    requires Inv(s) && step.tid != tid
    ensures SameRequest(s, Apply(s, step), tid)
  {
    hide OneOwner, Apply, Local, Consistent;
    StepUntouched(s, step);
  }

  /** When all requests are done and the globals are dropped, every buffer ever allocated was freed, once. */
  lemma NothingLeaks(steps: seq<Step>, tid: nat)
    requires forall t: nat :: Run(START, steps).PhaseOf(t).Idle?
    ensures var r := Apply(Run(START, steps), Clear(tid));
            && (forall h: Handle :: h < r.next <==> h in r.freed)
            && (forall i, j :: 0 <= i < j < |r.freed| ==> r.freed[i] != r.freed[j])
  {
    var s := Run(START, steps);
    var r := Apply(s, Clear(tid));
    hide Run, Consistent, s.Release, Apply;
    EveryRunIsSafe(steps);
    StepKeepsInv(s, Clear(tid));
    ClearedHoldsNothing(s, tid);
    assert forall h: Handle :: !Live(r.holds, h);
  }

  lemma ClearedHoldsNothing(s: System, tid: nat)
    requires Inv(s) && forall t: nat :: s.PhaseOf(t).Idle?
    ensures Apply(s, Clear(tid)).holds == map[]
  {
    hide OneOwner, Consistent, s.Release;
    ClearEffect(s);
    forall t: nat ensures OfThread(t) !in s.holds {
      assert Local(s, t);
    }
    forall slot: Slot ensures slot !in Apply(s, Clear(tid)).holds {
      match slot
      case OfThread(t) =>
        assert OfThread(t) !in s.holds;
      case _ =>
    }
  }
}
