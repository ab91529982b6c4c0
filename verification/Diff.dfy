/** The diff of two snapshots: what is new, and what changed its content. */
module Diff {
  import opened Base
  import opened Pool
  import opened Sequences

  predicate SameIdentity(a: Entry, b: Entry) {
    a.address == b.address && a.size == b.size && a.tag == b.tag
  }

  predicate ContentHashChanged(baseline: Entry, current: Entry) {
    && baseline.hashedBytes != 0
    && current.hashedBytes != 0
    && baseline.hashedBytes == current.hashedBytes
    && (HashSampled in baseline.flags <==> HashSampled in current.flags)
    && baseline.contentHash != current.contentHash
  }

  /** The first entry with the identity of `e`. */
  function FirstMatch(entries: seq<Entry>, e: Entry): Option<Entry> {
    FirstWith(entries, (b: Entry) => SameIdentity(b, e))
  }

  /** What the diff says of one current entry, if anything. */
  function Report(baseline: seq<Entry>, e: Entry): Option<Entry> {
    var known := FirstMatch(baseline, e);
    if known.None? then Some(e)
    else if ContentHashChanged(known.value, e) then Some(e.(flags := e.flags + {HashChanged}))
    else None
  }

  function DiffOf(baseline: seq<Entry>, current: seq<Entry>): seq<Entry> {
    if current == [] then [] else
      var shorter := DiffOf(baseline, current[..|current| - 1]);
      var last := Report(baseline, current[|current| - 1]);
      if last.Some? then shorter + [last.value] else shorter
  }

  method FindEntryByIdentity(entries: seq<Entry>, e: Entry) returns (found: Option<Entry>)
    ensures found == FirstMatch(entries, e)
    ensures found.Some? ==> found.value in entries && SameIdentity(found.value, e)
    ensures found.None? <==> forall b :: b in entries ==> !SameIdentity(b, e)
  {
    assert entries[0..] == entries;
    for i := 0 to |entries|
      invariant FirstMatch(entries, e) == FirstMatch(entries[i..], e)
      invariant forall k :: 0 <= k < i ==> !SameIdentity(entries[k], e)
    {
      if SameIdentity(entries[i], e) {
        return Some(entries[i]);
      }
      assert entries[i..][1..] == entries[i + 1..];
    }
    return None;
  }

  /** Another pool: the address, the size or the tag differs. */
  ghost predicate OtherPool(a: Entry, b: Entry) {
    a.address != b.address || a.size != b.size || a.tag != b.tag
  }

  /** The baseline has no entry of the pool. */
  ghost predicate IsNew(baseline: seq<Entry>, e: Entry) {
    forall k :: 0 <= k < |baseline| ==> OtherPool(baseline[k], e)
  }

  /** The baseline's first entry of the pool. */
  ghost predicate IsFirst(baseline: seq<Entry>, k: nat, e: Entry) {
    && k < |baseline|
    && baseline[k].address == e.address && baseline[k].size == e.size && baseline[k].tag == e.tag
    && forall j :: 0 <= j < k ==> OtherPool(baseline[j], e)
  }

  /** FirstMatch told by positions and fields. */
  lemma FirstMatchMeaning(entries: seq<Entry>, e: Entry)
    ensures FirstMatch(entries, e).None? <==> IsNew(entries, e)
    ensures forall k: nat :: IsFirst(entries, k, e) ==> FirstMatch(entries, e) == Some(entries[k])
    ensures !IsNew(entries, e) ==> exists k: nat :: IsFirst(entries, k, e)
  {
    FirstWithMeaning(entries, (b: Entry) => SameIdentity(b, e));
    if !IsNew(entries, e) {
      var _ := FirstIsThere(entries, e, |entries|);
    }
  }

  lemma {:induction false} FirstIsThere(entries: seq<Entry>, e: Entry, n: nat) returns (k: nat)
    requires n <= |entries| && exists j :: 0 <= j < n && !OtherPool(entries[j], e)
    ensures IsFirst(entries, k, e)
  {
    var j :| 0 <= j < n && !OtherPool(entries[j], e);
    if exists i :: 0 <= i < j && !OtherPool(entries[i], e) {
      k := FirstIsThere(entries, e, j);
    } else {
      k := j;
    }
  }

  /** Since the baseline's first entry of the pool as many bytes were hashed as then, but to another hash. */
  ghost predicate HasChanged(baseline: seq<Entry>, k: nat, e: Entry) {
    && IsFirst(baseline, k, e)
    && baseline[k].hashedBytes == e.hashedBytes > 0
    && (HashSampled in baseline[k].flags <==> HashSampled in e.flags)
    && baseline[k].contentHash != e.contentHash
  }

  /** The diff tells of a current entry: a new pool as it is, a changed one marked. */
  ghost predicate TellsOf(baseline: seq<Entry>, e: Entry, told: Entry) {
    || (IsNew(baseline, e) && told == e)
    || (told == e.(flags := e.flags + {HashChanged}) && exists k: nat :: HasChanged(baseline, k, e))
  }

  lemma ReportMeaning(baseline: seq<Entry>, e: Entry, told: Entry)
    ensures Report(baseline, e) == Some(told) <==> TellsOf(baseline, e, told)
  {
    hide FirstMatch, IsNew;
    FirstMatchMeaning(baseline, e);
    if !IsNew(baseline, e) {
      var k: nat :| IsFirst(baseline, k, e);
      assert FirstMatch(baseline, e) == Some(baseline[k]);
      assert Report(baseline, e).Some? ==> HasChanged(baseline, k, e);
    }
  }

  /** The positions of the current snapshot that the diff reports, in order. */
  ghost function Picks(baseline: seq<Entry>, current: seq<Entry>): seq<nat> {
    Positions(current, (e: Entry) => Report(baseline, e).Some?)
  }

  /** The diff keeps the order of the current snapshot and reports each picked entry once. */
  lemma {:induction false} DiffIsPicks(baseline: seq<Entry>, current: seq<Entry>)
    ensures var d, picks := DiffOf(baseline, current), Picks(baseline, current);
            && |d| == |picks|
            && forall i :: 0 <= i < |d| ==> Some(d[i]) == Report(baseline, current[picks[i]])
  {
    hide Report;
    if current == [] {
    } else {
      DiffIsPicks(baseline, current[..|current| - 1]);
    }
  }

  /** The diff of a snapshot with nothing new and nothing changed is empty, and only then. */
  lemma EmptyDiff(baseline: seq<Entry>, current: seq<Entry>)
    ensures DiffOf(baseline, current) == [] <==>
            forall k :: 0 <= k < |current| ==>
              FirstMatch(baseline, current[k]).Some? && !ContentHashChanged(FirstMatch(baseline, current[k]).value, current[k])
  {
    DiffIsPicks(baseline, current);
    var picks := Picks(baseline, current);
    if exists k :: 0 <= k < |current| && Report(baseline, current[k]).Some? {
      var k :| 0 <= k < |current| && Report(baseline, current[k]).Some?;
      assert k in picks;
    }
    assert picks != [] ==> picks[0] in picks;
  }

  /** What is in a diff: exactly what it has to tell of some current entry. */
  lemma DiffMeaning(baseline: seq<Entry>, current: seq<Entry>, told: Entry)
    ensures told in DiffOf(baseline, current) <==> exists i :: 0 <= i < |current| && TellsOf(baseline, current[i], told)
  {
    hide TellsOf, Report;
    var d, picks := DiffOf(baseline, current), Picks(baseline, current);
    DiffIsPicks(baseline, current);
    forall i | 0 <= i < |current| ensures Report(baseline, current[i]) == Some(told) <==> TellsOf(baseline, current[i], told) {
      ReportMeaning(baseline, current[i], told);
    }
    if told in d {
      var n :| 0 <= n < |d| && d[n] == told;
      assert TellsOf(baseline, current[picks[n]], told);
    }
    if i :| 0 <= i < |current| && TellsOf(baseline, current[i], told) {
      assert i in picks;
      var n :| 0 <= n < |picks| && picks[n] == i;
      assert d[n] == told;
    }
  }
}
