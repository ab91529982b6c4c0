/**
 * When the current snapshot is newer than the baseline. Ids grow with the requests, but a snapshot is
 * installed when its scan is done; all depends on whether a baseline may begin while a current is under way.
 */
module SnapshotOrder {
  import opened Base
  import opened Pool
  import opened SnapshotStore
  import opened SnapshotSystem

  /** A request is about to install a current snapshot with something in it. */
  ghost predicate CurrentUnderWay(s: System, t: nat) {
    match s.PhaseOf(t)
    case Scanning(kind, _) => kind.ForCurrent?
    case Scanned(kind, _) => kind.ForCurrent? && s.Contents(OfThread(t)) != []
    case _ => false
  }

  ghost predicate BaselineUnderWay(s: System, t: nat) {
    match s.PhaseOf(t)
    case Scanning(kind, _) => kind.ForBaseline?
    case Scanned(kind, _) => kind.ForBaseline?
    case _ => false
  }

  function IdOf(phase: Phase): u32 {
    match phase
    case Scanning(_, id) => id
    case Scanned(_, id) => id
    case _ => 0
  }

  ghost predicate Below(entries: seq<Entry>, id: nat) {
    forall e :: e in entries ==> e.snapshotId < id
  }

  /** Every entry of the current snapshot is newer than every entry of the baseline. */
  ghost predicate CurrentIsNewer(c: Committed) {
    forall e :: e in c.current ==> Below(c.baseline, e.snapshotId)
  }

  /** No baseline begins while a current is under way. */
  ghost predicate Disciplined(s: System, steps: seq<Step>) {
    steps == [] ||
    var n := |steps| - 1;
    && Disciplined(s, steps[..n])
    && (Begins(Run(s, steps[..n]), steps[n]) ==> forall t: nat :: !CurrentUnderWay(Run(s, steps[..n]), t))
  }

  predicate Begins(s: System, step: Step) {
    step.Begin? && step.kind.ForBaseline? && s.PhaseOf(step.tid).Idle?
  }

  /** A step that gives out an id. */
  predicate TakesId(s: System, step: Step) {
    step.Begin? && s.PhaseOf(step.tid).Idle?
  }

  /** How many ids the steps give out. */
  function IdsTaken(s: System, steps: seq<Step>): nat {
    if steps == [] then 0 else
      var n := |steps| - 1;
      IdsTaken(s, steps[..n]) + if TakesId(Run(s, steps[..n]), steps[n]) then 1 else 0
  }

  /** The ids of a request under way: given out, and those of a current above all that a baseline has or may get. */
  ghost predicate RequestInOrder(s: System, t: nat) {
    && (CurrentUnderWay(s, t) || BaselineUnderWay(s, t) ==> IdOf(s.PhaseOf(t)) <= s.nextId)
    && (CurrentUnderWay(s, t) ==>
          && Below(s.View().baseline, IdOf(s.PhaseOf(t)))
          && forall b: nat :: BaselineUnderWay(s, b) ==> IdOf(s.PhaseOf(b)) < IdOf(s.PhaseOf(t)))
  }

  ghost predicate OrderInv(s: System) {
    && (forall t: nat :: RequestInOrder(s, t))
    && Below(s.View().baseline, s.nextId + 1)
    && CurrentIsNewer(s.View())
  }

  /** How the requests under way compare before and after a step. */
  lemma StepRequests(s: System, step: Step, t: nat)
    requires Inv(s) && (TakesId(s, step) ==> s.nextId + 1 < TWO_32)
    ensures var r := Apply(s, step);
            && (t != step.tid ==> r.PhaseOf(t) == s.PhaseOf(t)
                                  && (CurrentUnderWay(r, t) <==> CurrentUnderWay(s, t))
                                  && (BaselineUnderWay(r, t) <==> BaselineUnderWay(s, t)))
            && (t == step.tid && (CurrentUnderWay(r, t) || BaselineUnderWay(r, t)) ==>
                  if step.Begin? && s.PhaseOf(t).Idle? then
                    && IdOf(r.PhaseOf(t)) == s.nextId + 1
                    && (BaselineUnderWay(r, t) <==> step.kind.ForBaseline?)
                    && (CurrentUnderWay(r, t) <==> step.kind.ForCurrent?)
                  else
                    && IdOf(r.PhaseOf(t)) == IdOf(s.PhaseOf(t))
                    && (CurrentUnderWay(r, t) ==> CurrentUnderWay(s, t))
                    && (BaselineUnderWay(r, t) ==> BaselineUnderWay(s, t)))
            && r.nextId == (if step.Begin? && s.PhaseOf(step.tid).Idle? then s.nextId + 1 else s.nextId)
  {
    hide OneOwner, Consistent, Apply, s.Release;
    StepUntouched(s, step);
    StepPhase(s, step);
    assert t != step.tid ==> SameRequest(s, Apply(s, step), t);
  }

  lemma InOrderAt(s: System, t: nat)
    requires OrderInv(s)
    ensures RequestInOrder(s, t)
  {
  }

  /** A bound above the baseline, and above the id of one that is installed, stays above the baseline. */
  lemma BaselineAfter(s: System, step: Step, bound: nat)
    requires Inv(s) && Below(s.View().baseline, bound)
    requires BaselineUnderWay(s, step.tid) ==> IdOf(s.PhaseOf(step.tid)) < bound
    ensures Below(Apply(s, step).View().baseline, bound)
  {
    hide OneOwner, Consistent, Apply;
    StepView(s, step);
    assert Local(s, step.tid);
  }

  /** A step keeps the order of the requests under way. */
  lemma StepKeepsRequests(s: System, step: Step, t: nat)
    requires Inv(s) && OrderInv(s) && (TakesId(s, step) ==> s.nextId + 1 < TWO_32)
    requires Begins(s, step) ==> forall u: nat :: !CurrentUnderWay(s, u)
    ensures RequestInOrder(Apply(s, step), t)
  {
    hide Inv, Apply, CurrentUnderWay, BaselineUnderWay, Below, IdOf;
    var r := Apply(s, step);
    StepRequests(s, step, t);
    InOrderAt(s, t);
    InOrderAt(s, step.tid);
    if CurrentUnderWay(r, t) {
      BaselineAfter(s, step, IdOf(r.PhaseOf(t)));
      forall b: nat | BaselineUnderWay(r, b) ensures IdOf(r.PhaseOf(b)) < IdOf(r.PhaseOf(t)) {
        StepRequests(s, step, b);
        InOrderAt(s, b);
      }
    }
  }

  lemma BelowMore(entries: seq<Entry>, low: nat, high: nat)
    requires Below(entries, low) && low <= high
    ensures Below(entries, high)
  {
  }

  /** A step keeps what is visible in order. */
  lemma StepKeepsView(s: System, step: Step)
    requires Inv(s) && OrderInv(s) && (TakesId(s, step) ==> s.nextId + 1 < TWO_32)
    ensures Below(Apply(s, step).View().baseline, Apply(s, step).nextId + 1)
    ensures CurrentIsNewer(Apply(s, step).View())
  {
    hide OneOwner, Consistent, Apply, Below;
    var r, tid := Apply(s, step), step.tid;
    StepRequests(s, step, tid);
    InOrderAt(s, tid);
    BaselineAfter(s, step, s.nextId + 1);
    BelowMore(r.View().baseline, s.nextId + 1, r.nextId + 1);
    StepView(s, step);
    assert Local(s, tid);
  }

  lemma StepKeepsOrder(s: System, step: Step)
    requires Inv(s) && OrderInv(s) && (TakesId(s, step) ==> s.nextId + 1 < TWO_32)
    requires Begins(s, step) ==> forall u: nat :: !CurrentUnderWay(s, u)
    ensures OrderInv(Apply(s, step))
    ensures Apply(s, step).nextId == s.nextId + if TakesId(s, step) then 1 else 0
  {
    StepKeepsView(s, step);
    StepRequests(s, step, step.tid);
    hide Inv, Apply, RequestInOrder, Below, CurrentIsNewer, CurrentUnderWay, Begins, TakesId;
    forall t: nat ensures RequestInOrder(Apply(s, step), t) {
      StepKeepsRequests(s, step, t);
    }
  }

  /** While the ids do not wrap, disciplined steps keep the current snapshot newer than the baseline. */
  lemma {:induction false} DisciplineKeepsOrder(s: System, steps: seq<Step>)
    requires Inv(s) && OrderInv(s) && s.nextId + IdsTaken(s, steps) < TWO_32 && Disciplined(s, steps)
    ensures Inv(Run(s, steps)) && OrderInv(Run(s, steps)) && Run(s, steps).nextId == s.nextId + IdsTaken(s, steps)
  {
    hide Inv, OrderInv, Apply, CurrentUnderWay;
    if steps == [] {
    } else {
      var n := |steps| - 1;
      DisciplineKeepsOrder(s, steps[..n]);
      StepKeepsInv(Run(s, steps[..n]), steps[n]);
      StepKeepsOrder(Run(s, steps[..n]), steps[n]);
    }
  }

  /** In every run in which no baseline begins while a current is under way, the current snapshot is the newer one. */
  lemma DisciplinedRunsAreOrdered(steps: seq<Step>)
    requires IdsTaken(START, steps) < TWO_32 && Disciplined(START, steps)
    ensures CurrentIsNewer(Run(START, steps).View()) && OrderInv(Run(START, steps))
  {
    StartIsSound();
    assert OrderInv(START);
    hide Inv, Run, Disciplined;
    DisciplineKeepsOrder(START, steps);
  }

  /** Once the ids are used up, discipline does not help: the next current gets the id 0. */
  lemma WrappedIdsLoseOrder(s: System, t: nat, x: Entry)
    requires Inv(s) && s.PhaseOf(t).Idle? && s.nextId == TWO_32 - 1 && s.View().baseline != []
    ensures var r := Apply(Apply(Apply(s, Begin(t, ForCurrent)), ScanDone(t, [x], true)), Commit(t, true));
            !CurrentIsNewer(r.View())
  {
    hide OneOwner, Consistent, Local, Apply, Stamp;
    var s1 := Apply(s, Begin(t, ForCurrent));
    var s2 := Apply(s1, ScanDone(t, [x], true));
    StepPhase(s, Begin(t, ForCurrent));
    StepView(s, Begin(t, ForCurrent));
    StepKeepsInv(s, Begin(t, ForCurrent));
    StepPhase(s1, ScanDone(t, [x], true));
    StepView(s1, ScanDone(t, [x], true));
    StepKeepsInv(s1, ScanDone(t, [x], true));
    StepView(s2, Commit(t, true));
    StampIsStamped([x], 0);
    var c := Apply(s2, Commit(t, true)).View();
    assert c.current[0] in c.current && c.baseline[0] in c.baseline;
  }

  /** A baseline overtakes the current that is under way. If that one is scanned already, its scan step changes nothing. */
  function Overtaking(slow: nat, fast: nat, x: Entry, y: Entry): (r: seq<Step>)
    ensures |r| == 4
  {
    [ScanDone(fast, [y], true), Commit(fast, true), ScanDone(slow, [x], true), Commit(slow, true)]
  }

  lemma RunOfFour(s: System, a: seq<Step>)
    requires |a| == 4
    ensures Run(s, a) == Apply(Apply(Apply(Apply(s, a[0]), a[1]), a[2]), a[3])
  {
    hide Apply;
    assert a[..3][..2] == a[..2] && a[..2][..1] == a[..1];
    assert Run(s, a[..1]) == Apply(s, a[0]);
    assert Run(s, a[..2]) == Apply(Run(s, a[..1]), a[1]);
    assert Run(s, a[..3]) == Apply(Run(s, a[..2]), a[2]);
  }

  lemma {:induction false} NoBaselineIsDisciplined(s: System, steps: seq<Step>)
    requires forall k :: 0 <= k < |steps| ==> !steps[k].Begin?
    ensures Disciplined(s, steps) && IdsTaken(s, steps) == 0
  {
    if steps == [] {
    } else {
      NoBaselineIsDisciplined(s, steps[..|steps| - 1]);
    }
  }

  /** The baseline is scanned and installed: it has an entry with the id it was given. */
  lemma BaselineOvertakes(s: System, slow: nat, fast: nat, y: Entry)
    requires Inv(s) && CurrentUnderWay(s, slow) && s.PhaseOf(fast).Idle? && s.nextId + 1 < TWO_32
    ensures var r := Apply(Apply(Apply(s, Begin(fast, ForBaseline)), ScanDone(fast, [y], true)), Commit(fast, true));
            && Inv(r) && CurrentUnderWay(r, slow) && r.PhaseOf(slow) == s.PhaseOf(slow)
            && r.View().baseline == Stamp([y], s.nextId + 1)
  {
    hide OneOwner, Consistent, Local, Apply, Stamp;
    var s1 := Apply(s, Begin(fast, ForBaseline));
    var s2 := Apply(s1, ScanDone(fast, [y], true));
    StepRequests(s, Begin(fast, ForBaseline), slow);
    StepPhase(s, Begin(fast, ForBaseline));
    StepKeepsInv(s, Begin(fast, ForBaseline));
    StepUntouched(s1, ScanDone(fast, [y], true));
    StepPhase(s1, ScanDone(fast, [y], true));
    StepKeepsInv(s1, ScanDone(fast, [y], true));
    assert SameRequest(s1, s2, slow);
    StepUntouched(s2, Commit(fast, true));
    StepView(s2, Commit(fast, true));
    StepKeepsInv(s2, Commit(fast, true));
    assert SameRequest(s2, Apply(s2, Commit(fast, true)), slow);
  }

  /** The current that was under way is scanned and installed: all its entries have its old id. */
  lemma CurrentFollows(s: System, slow: nat, x: Entry)
    requires Inv(s) && CurrentUnderWay(s, slow)
    ensures var r := Apply(Apply(s, ScanDone(slow, [x], true)), Commit(slow, true)).View();
            && r.baseline == s.View().baseline
            && r.current != [] && Stamped(r.current, IdOf(s.PhaseOf(slow)))
  {
    hide OneOwner, Consistent, Apply, Stamp;
    var s1 := Apply(s, ScanDone(slow, [x], true));
    StepPhase(s, ScanDone(slow, [x], true));
    StepView(s, ScanDone(slow, [x], true));
    StepKeepsInv(s, ScanDone(slow, [x], true));
    assert Local(s1, slow);
    StepView(s1, Commit(slow, true));
  }

  /** From any sound state with a current under way, a baseline that begins now may be installed first: that current is then older. */
  lemma CurrentMayBeOlderThanBaseline(s: System, slow: nat, fast: nat, x: Entry, y: Entry)
    requires Inv(s) && CurrentUnderWay(s, slow) && IdOf(s.PhaseOf(slow)) <= s.nextId
    requires s.PhaseOf(fast).Idle? && s.nextId + 1 < TWO_32
    ensures var begun := Apply(s, Begin(fast, ForBaseline));
            var c := Run(begun, Overtaking(slow, fast, x, y)).View();
            && Disciplined(begun, Overtaking(slow, fast, x, y)) && IdsTaken(begun, Overtaking(slow, fast, x, y)) == 0
            && c.current != [] && c.baseline != []
            && (forall e, f :: e in c.current && f in c.baseline ==> e.snapshotId < f.snapshotId)
  {
    hide Inv, Apply, Run, CurrentUnderWay, IdOf, Disciplined, Stamp, IdsTaken;
    var begun := Apply(s, Begin(fast, ForBaseline));
    RunOfFour(begun, Overtaking(slow, fast, x, y));
    NoBaselineIsDisciplined(begun, Overtaking(slow, fast, x, y));
    BaselineOvertakes(s, slow, fast, y);
    CurrentFollows(Apply(Apply(begun, ScanDone(fast, [y], true)), Commit(fast, true)), slow, x);
    StampIsStamped([y], s.nextId + 1);
  }

  /**
   * The condition is exact: a baseline may begin without putting any later run out of order, exactly
   * when no current is under way.
   */
  lemma BaselineMayBeginIff(s: System, fast: nat)
    requires Inv(s) && OrderInv(s) && s.PhaseOf(fast).Idle? && s.nextId + 1 < TWO_32
    ensures var begun := Apply(s, Begin(fast, ForBaseline));
            (forall more :: Disciplined(begun, more) && begun.nextId + IdsTaken(begun, more) < TWO_32 ==> CurrentIsNewer(Run(begun, more).View()))
            <==> forall t: nat :: !CurrentUnderWay(s, t)
  {
    hide Inv, RequestInOrder, Apply, Run, CurrentUnderWay, Disciplined, IdOf, IdsTaken;
    var begun := Apply(s, Begin(fast, ForBaseline));
    StepRequests(s, Begin(fast, ForBaseline), fast);
    if forall t: nat :: !CurrentUnderWay(s, t) {
      StepKeepsInv(s, Begin(fast, ForBaseline));
      StepKeepsOrder(s, Begin(fast, ForBaseline));
      forall more | Disciplined(begun, more) && begun.nextId + IdsTaken(begun, more) < TWO_32 ensures CurrentIsNewer(Run(begun, more).View()) {
        DisciplineKeepsOrder(begun, more);
      }
    } else {
      var slow: nat :| CurrentUnderWay(s, slow);
      UnderWayIsGivenOut(s, slow);
      CurrentMayBeOlderThanBaseline(s, slow, fast, ZERO_ENTRY, ZERO_ENTRY);
      OlderIsNotNewer(Run(begun, Overtaking(slow, fast, ZERO_ENTRY, ZERO_ENTRY)).View());
    }
  }

  lemma UnderWayIsGivenOut(s: System, t: nat)
    requires OrderInv(s) && CurrentUnderWay(s, t)
    ensures IdOf(s.PhaseOf(t)) <= s.nextId
  {
    InOrderAt(s, t);
  }

  lemma OlderIsNotNewer(c: Committed)
    requires c.current != [] && c.baseline != []
    requires forall e, f :: e in c.current && f in c.baseline ==> e.snapshotId < f.snapshotId
    ensures !CurrentIsNewer(c)
  {
    assert c.current[0] in c.current && c.baseline[0] in c.baseline;
  }
}
