/** How large snapshots get: no larger than what the query of the big pools can return. */
module SnapshotSize {
  import opened Base
  import opened Pool
  import opened Diff
  import opened SnapshotStore
  import opened SnapshotSystem
  import opened BigPoolQuery

  /** A scan reads its pools from an answer that fits the largest query buffer. */
  predicate Feasible(step: Step) {
    step.ScanDone? ==> |step.raw| <= PoolsIn(MAX_SIZE)
  }

  predicate AllFeasible(steps: seq<Step>) {
    forall k :: 0 <= k < |steps| ==> Feasible(steps[k])
  }

  ghost predicate Bounded(s: System) {
    && |s.View().baseline| <= MAX_POOLS && |s.View().current| <= MAX_POOLS
    && forall t: nat :: SmallOwn(s, t)
  }

  ghost predicate SmallOwn(s: System, t: nat) {
    |s.Contents(OfThread(t))| <= MAX_POOLS
  }

  lemma {:induction false} DiffIsNoLonger(baseline: seq<Entry>, current: seq<Entry>)
    ensures |DiffOf(baseline, current)| <= |current|
  {
    if current == [] {
    } else {
      DiffIsNoLonger(baseline, current[..|current| - 1]);
    }
  }

  lemma VisibleIsBounded(s: System, target: Target)
    requires Inv(s) && Bounded(s)
    ensures |Visible(s.View(), target)| <= MAX_POOLS && |s.View().diff| <= MAX_POOLS
  {
    hide Owned, Local, DiffOf;
    DiffIsNoLonger(s.View().baseline, s.View().current);
  }

  lemma StepKeepsBound(s: System, step: Step)
    requires Inv(s) && Bounded(s) && Feasible(step)
    ensures Bounded(Apply(s, step))
  {
    hide OneOwner, Consistent, Local, Apply, Visible;
    var r := Apply(s, step);
    StepView(s, step);
    StepOwn(s, step);
    StepUntouched(s, step);
    if step.Copy? {
      VisibleIsBounded(s, step.target);
    }
    assert SmallOwn(s, step.tid);
    forall t: nat ensures SmallOwn(r, t) {
      assert SmallOwn(s, t);
      assert t != step.tid ==> SameRequest(s, r, t);
    }
  }

  /** In every run each visible snapshot has at most MAX_POOLS entries. */
  lemma {:induction false} RunsAreBounded(steps: seq<Step>)
    requires AllFeasible(steps)
    ensures Inv(Run(START, steps)) && Bounded(Run(START, steps))
  {
    hide Inv, Bounded, Apply;
    if steps == [] {
      StartIsSound();
      StartIsBounded();
    } else {
      var n := |steps| - 1;
      RunsAreBounded(steps[..n]);
      StepKeepsBound(Run(START, steps[..n]), steps[n]);
      StepKeepsInv(Run(START, steps[..n]), steps[n]);
    }
  }

  lemma StartIsBounded()
    ensures Bounded(START)
  {
  }

  /** No count that a request reports wraps, the sum that clearing reports included. */
  lemma CountsDoNotWrap(steps: seq<Step>, target: Target)
    requires AllFeasible(steps)
    ensures var c := Run(START, steps).View();
            && |Visible(c, target)| <= MAX_POOLS
            && |c.baseline| + |c.current| + |c.diff| < TWO_32
  {
    hide Inv, Run, Apply, Visible;
    RunsAreBounded(steps);
    VisibleIsBounded(Run(START, steps), target);
  }
}
