/** The sweep of a search told by the reads it makes, for every way in which memory may answer them. */
module SweepMeaning {
  import opened Base
  import opened Memory
  import opened SearchSpec

  /** Where a read leads: behind what it brought, or past the page that failed, or nowhere. */
  ghost function Onward(base: u64, offset: nat, r: CopyResult): (next: Option<nat>)
    requires base + offset < TWO_64
    ensures next.Some? ==> next.value > offset
  {
    if r.bytes != [] then Some(offset + |r.bytes|)
    else if !r.ok && NextPage(base + offset) > base then Some(NextPage(base + offset) - base)
    else None
  }

  /** Inside the pool and the address space. */
  ghost predicate CanRead(base: u64, size: u64, offset: nat) {
    offset < size && base + offset < TWO_64
  }

  /** The answer to the k-th read: a page at most, of what is left. */
  ghost function AnswerAt(copy: CopyOracle, t: nat, base: u64, size: u64, at: seq<nat>, k: nat): (r: CopyResult)
    requires k < |at| && CanRead(base, size, at[k])
    ensures at[k] + |r.bytes| <= size
  {
    copy(t + k, base + at[k], if size - at[k] < 4096 then size - at[k] else 4096)
  }

  ghost predicate AllCanRead(base: u64, size: u64, at: seq<nat>) {
    forall k :: 0 <= k < |at| ==> CanRead(base, size, at[k])
  }

  /** The k-th read is made where the one before leads. */
  ghost predicate FollowsOn(copy: CopyOracle, t: nat, base: u64, size: u64, at: seq<nat>, k: nat)
    requires 0 < k < |at| && AllCanRead(base, size, at)
  {
    Onward(base, at[k - 1], AnswerAt(copy, t, base, size, at, k - 1)) == Some(at[k])
  }

  /** Where the sweep has come to when the reads are made, if the last one leads on. */
  ghost function EndOf(copy: CopyOracle, t: nat, base: u64, size: u64, from: nat, at: seq<nat>): Option<nat>
    requires AllCanRead(base, size, at)
  {
    if at == [] then Some(from) else Onward(base, at[|at| - 1], AnswerAt(copy, t, base, size, at, |at| - 1))
  }

  /** The reads of a sweep: one after the other, until one leads nowhere, or out of the pool or the address space. */
  ghost predicate AreTheReads(copy: CopyOracle, t: nat, base: u64, size: u64, from: nat, at: seq<nat>) {
    && AllCanRead(base, size, at)
    && (at != [] ==> at[0] == from)
    && (forall k :: 0 < k < |at| ==> FollowsOn(copy, t, base, size, at, k))
    && var end := EndOf(copy, t, base, size, from, at);
       end.Some? ==> !CanRead(base, size, end.value)
  }

  /** The bytes of the k-th read are in the view, where they were read. */
  ghost predicate IsShown(copy: CopyOracle, t: nat, base: u64, size: u64, from: nat, at: seq<nat>, view: View, k: nat)
    requires k < |at| && AllCanRead(base, size, at)
  {
    var r := AnswerAt(copy, t, base, size, at, k);
    && from <= at[k] && at[k] - from + |r.bytes| <= |view|
    && forall j :: 0 <= j < |r.bytes| ==> view[at[k] - from + j] == Some(r.bytes[j])
  }

  /** A byte in the view was brought by some read. */
  ghost predicate WasRead(copy: CopyOracle, t: nat, base: u64, size: u64, at: seq<nat>, x: nat)
    requires AllCanRead(base, size, at)
  {
    exists k :: 0 <= k < |at| && at[k] <= x < at[k] + |AnswerAt(copy, t, base, size, at, k).bytes|
  }

  ghost predicate AnyFailed(copy: CopyOracle, t: nat, base: u64, size: u64, at: seq<nat>)
    requires AllCanRead(base, size, at)
  {
    exists k :: 0 <= k < |at| && !AnswerAt(copy, t, base, size, at, k).ok
  }

  /** What a sweep reports of its reads. */
  ghost predicate Reports(copy: CopyOracle, t: nat, base: u64, size: u64, from: nat, at: seq<nat>, s: Sweep)
    requires AllCanRead(base, size, at)
  {
    && s.ticks == |at|
    && (forall k :: 0 <= k < |at| ==> IsShown(copy, t, base, size, from, at, s.view, k))
    && (forall i :: 0 <= i < |s.view| && s.view[i].Some? ==> WasRead(copy, t, base, size, at, from + i))
    && s.failed == AnyFailed(copy, t, base, size, at)
    && (s.overflow <==> var end := EndOf(copy, t, base, size, from, at);
                        end.Some? && end.value < size && base + end.value >= TWO_64)
  }

  lemma AllOfThem(base: u64, size: u64, from: nat, rest: seq<nat>)
    requires CanRead(base, size, from) && AllCanRead(base, size, rest)
    ensures AllCanRead(base, size, [from] + rest)
  {
  }

  lemma SameAnswer(copy: CopyOracle, t: nat, base: u64, size: u64, from: nat, rest: seq<nat>, k: nat)
    requires CanRead(base, size, from) && AllCanRead(base, size, rest) && 0 < k <= |rest|
    ensures CanRead(base, size, ([from] + rest)[k])
    ensures AnswerAt(copy, t, base, size, [from] + rest, k) == AnswerAt(copy, t + 1, base, size, rest, k - 1)
  {
  }

  /** One read in front of the others. */
  lemma OneReadMore(copy: CopyOracle, t: nat, base: u64, size: u64, from: nat, next: nat, rest: seq<nat>)
    requires CanRead(base, size, from) && AreTheReads(copy, t + 1, base, size, next, rest)
    requires CanRead(base, size, next) ==> rest != []
    requires Onward(base, from, AnswerAt(copy, t, base, size, [from], 0)) == Some(next)
    ensures AreTheReads(copy, t, base, size, from, [from] + rest)
    ensures EndOf(copy, t, base, size, from, [from] + rest) == EndOf(copy, t + 1, base, size, next, rest)
  {
    hide Onward, CanRead;
    var at := [from] + rest;
    AllOfThem(base, size, from, rest);
    assert AnswerAt(copy, t, base, size, at, 0) == AnswerAt(copy, t, base, size, [from], 0);
    forall k | 0 < k < |at| ensures FollowsOn(copy, t, base, size, at, k) {
      if k > 1 {
        assert FollowsOn(copy, t + 1, base, size, rest, k - 1);
        SameAnswer(copy, t, base, size, from, rest, k - 1);
      }
    }
    if rest != [] {
      SameAnswer(copy, t, base, size, from, rest, |rest|);
    }
  }

  /** What the first read shows: its bytes, and a gap if it failed. */
  ghost predicate IsHead(r: CopyResult, head: View) {
    |r.bytes| <= |head| && forall i :: 0 <= i < |head| ==> head[i] == if i < |r.bytes| then Some(r.bytes[i]) else None
  }

  /** The view of the later reads lies behind what the first one shows. */
  lemma ShownFurther(copy: CopyOracle, t: nat, base: u64, size: u64, from: nat, next: nat, rest: seq<nat>, view: View, head: View, k: nat)
    requires CanRead(base, size, from) && AllCanRead(base, size, rest) && from < next && k < |rest|
    requires IsShown(copy, t + 1, base, size, next, rest, view, k) && |head| == next - from
    ensures AllCanRead(base, size, [from] + rest) && IsShown(copy, t, base, size, from, [from] + rest, head + view, k + 1)
  {
    hide CanRead;
    AllOfThem(base, size, from, rest);
    SameAnswer(copy, t, base, size, from, rest, k + 1);
    var r := AnswerAt(copy, t + 1, base, size, rest, k);
    forall j | 0 <= j < |r.bytes| ensures (head + view)[rest[k] - from + j] == Some(r.bytes[j]) {
      assert view[rest[k] - next + j] == Some(r.bytes[j]);
    }
  }

  lemma ReadFurther(copy: CopyOracle, t: nat, base: u64, size: u64, from: nat, rest: seq<nat>, x: nat)
    requires CanRead(base, size, from) && AllCanRead(base, size, rest) && WasRead(copy, t + 1, base, size, rest, x)
    ensures AllCanRead(base, size, [from] + rest) && WasRead(copy, t, base, size, [from] + rest, x)
  {
    AllOfThem(base, size, from, rest);
    var k :| 0 <= k < |rest| && rest[k] <= x < rest[k] + |AnswerAt(copy, t + 1, base, size, rest, k).bytes|;
    SameAnswer(copy, t, base, size, from, rest, k + 1);
    assert ([from] + rest)[k + 1] == rest[k];
  }

  lemma ViewBehind(copy: CopyOracle, t: nat, base: u64, size: u64, from: nat, next: nat, rest: seq<nat>, later: Sweep, head: View)
    requires CanRead(base, size, from) && AllCanRead(base, size, rest) && from < next
    requires Reports(copy, t + 1, base, size, next, rest, later)
    requires |later.view| == (if next <= size then size - next else 0) && |head| == Min(next, size) - from
    requires IsHead(AnswerAt(copy, t, base, size, [from], 0), head)
    ensures var at, view := [from] + rest, head + later.view;
            && AllCanRead(base, size, at)
            && (forall k :: 0 <= k < |at| ==> IsShown(copy, t, base, size, from, at, view, k))
            && (forall i :: 0 <= i < |view| && view[i].Some? ==> WasRead(copy, t, base, size, at, from + i))
  {
    var at, view := [from] + rest, head + later.view;
    AllOfThem(base, size, from, rest);
    assert AnswerAt(copy, t, base, size, at, 0) == AnswerAt(copy, t, base, size, [from], 0);
    forall k | 0 <= k < |at| ensures IsShown(copy, t, base, size, from, at, view, k) {
      if k > 0 {
        assert IsShown(copy, t + 1, base, size, next, rest, later.view, k - 1);
        ShownFurther(copy, t, base, size, from, next, rest, later.view, head, k - 1);
      }
    }
    forall i | 0 <= i < |view| && view[i].Some? ensures WasRead(copy, t, base, size, at, from + i) {
      if i >= |head| {
        assert WasRead(copy, t + 1, base, size, rest, next + (i - |head|));
        ReadFurther(copy, t, base, size, from, rest, from + i);
      } else {
        assert at[0] <= from + i < at[0] + |AnswerAt(copy, t, base, size, at, 0).bytes|;
      }
    }
  }

  lemma FailedFurther(copy: CopyOracle, t: nat, base: u64, size: u64, from: nat, rest: seq<nat>)
    requires CanRead(base, size, from) && AllCanRead(base, size, rest)
    ensures AllCanRead(base, size, [from] + rest)
    ensures AnyFailed(copy, t, base, size, [from] + rest) ==
            (!AnswerAt(copy, t, base, size, [from], 0).ok || AnyFailed(copy, t + 1, base, size, rest))
  {
    var at := [from] + rest;
    AllOfThem(base, size, from, rest);
    assert AnswerAt(copy, t, base, size, at, 0) == AnswerAt(copy, t, base, size, [from], 0);
    if AnyFailed(copy, t + 1, base, size, rest) {
      var k: nat :| k < |rest| && !AnswerAt(copy, t + 1, base, size, rest, k).ok;
      SameAnswer(copy, t, base, size, from, rest, k + 1);
      assert !AnswerAt(copy, t, base, size, at, k + 1).ok;
    }
    if AnyFailed(copy, t, base, size, at) {
      var k: nat :| k < |at| && !AnswerAt(copy, t, base, size, at, k).ok;
      if k > 0 {
        SameAnswer(copy, t, base, size, from, rest, k);
      }
    }
  }

  /** The whole report with one read in front. */
  lemma ReportsFurther(copy: CopyOracle, t: nat, base: u64, size: u64, from: nat, next: nat, rest: seq<nat>, later: Sweep, head: View)
    requires CanRead(base, size, from) && AreTheReads(copy, t + 1, base, size, next, rest)
    requires CanRead(base, size, next) ==> rest != []
    requires Onward(base, from, AnswerAt(copy, t, base, size, [from], 0)) == Some(next)
    requires Reports(copy, t + 1, base, size, next, rest, later)
    requires |later.view| == (if next <= size then size - next else 0) && |head| == Min(next, size) - from
    requires IsHead(AnswerAt(copy, t, base, size, [from], 0), head)
    ensures AreTheReads(copy, t, base, size, from, [from] + rest)
    ensures Reports(copy, t, base, size, from, [from] + rest,
                    Sweep(head + later.view, later.ticks + 1, !AnswerAt(copy, t, base, size, [from], 0).ok || later.failed, later.overflow))
  {
    OneReadMore(copy, t, base, size, from, next, rest);
    ViewBehind(copy, t, base, size, from, next, rest, later, head);
    FailedFurther(copy, t, base, size, from, rest);
    hide IsShown, WasRead, AnswerAt, EndOf, Onward, CanRead;
  }

  lemma OnlyRead(copy: CopyOracle, t: nat, base: u64, size: u64, from: nat)
    requires CanRead(base, size, from) && Onward(base, from, AnswerAt(copy, t, base, size, [from], 0)).None?
    ensures AreTheReads(copy, t, base, size, from, [from])
    ensures Reports(copy, t, base, size, from, [from], Sweep(Nones(size - from), 1, !AnswerAt(copy, t, base, size, [from], 0).ok, false))
  {
  }

  /** What a read that leads on shows. */
  ghost function Head(r: CopyResult, from: nat, next: nat, size: u64): View
    requires from <= size && from <= next
  {
    if r.bytes != [] then Somes(r.bytes) else Nones(Min(next, size) - from)
  }

  /** One step of the sweep, by where its first read leads. */
  lemma StepByOnward(copy: CopyOracle, t: nat, base: u64, size: u64, from: nat)
    requires CanRead(base, size, from)
    ensures var r := AnswerAt(copy, t, base, size, [from], 0);
            var onward := Onward(base, from, r);
            if onward.None? then SweepFrom(copy, t, base, size, from) == Sweep(Nones(size - from), 1, !r.ok, false)
            else
              var later := SweepFrom(copy, t + 1, base, size, onward.value);
              && SweepFrom(copy, t, base, size, from)
                 == Sweep(Head(r, from, onward.value, size) + later.view, later.ticks + 1, !r.ok || later.failed, later.overflow)
              && IsHead(r, Head(r, from, onward.value, size)) && |Head(r, from, onward.value, size)| == Min(onward.value, size) - from
  {
    hide SweepFrom, NextPage, Somes, Nones;
    SweepStep(copy, t, base, size, from);
    var r := AnswerAt(copy, t, base, size, [from], 0);
    assert r == copy(t, base + from, Min(CHUNK_SIZE, size - from));
  }

  /**
   * Every sweep is some reads, one after the other. What it sees are the bytes that they brought and nothing else; it
   * counts as failed iff one of them failed, and overflows iff they lead past the end of the address space.
   */
  lemma {:induction false} SweepIsItsReads(copy: CopyOracle, t: nat, base: u64, size: u64, from: nat) returns (at: seq<nat>)
    ensures AreTheReads(copy, t, base, size, from, at) && (CanRead(base, size, from) ==> at != [])
    ensures Reports(copy, t, base, size, from, at, SweepFrom(copy, t, base, size, from))
    decreases size - from
  {
    if !CanRead(base, size, from) {
      at := [];
    } else {
      StepByOnward(copy, t, base, size, from);
      hide SweepFrom, AreTheReads, Reports, Head, Onward, IsHead;
      var r := AnswerAt(copy, t, base, size, [from], 0);
      var onward := Onward(base, from, r);
      if onward.None? {
        at := [from];
        OnlyRead(copy, t, base, size, from);
      } else {
        var rest := SweepIsItsReads(copy, t + 1, base, size, onward.value);
        ReportsFurther(copy, t, base, size, from, onward.value, rest, SweepFrom(copy, t + 1, base, size, onward.value),
                       Head(r, from, onward.value, size));
        at := [from] + rest;
      }
    }
  }
}
