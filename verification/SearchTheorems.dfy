/** On memory that does not change, the chunked search is the naive search of readable memory. */
module SearchTheorems {
  import opened Base
  import opened Memory
  import opened Pool
  import opened SearchSpec
  import opened Search
  import opened SearchContent

  /** The naive question: is the pattern in memory, readable in full, at this offset of the pool? */
  ghost predicate InMemory(m: PageMemory, e: Entry, p: Pattern, i: int) {
    && 0 <= i && i + |p| <= e.size
    && forall j :: 0 <= j < |p| ==> m.At(e.address + i + j) == Some(p[j])
  }

  lemma TruthAfterRead(m: PageMemory, base: nat, from: nat, k: nat, to: nat)
    requires from + k <= to
    requires forall x :: base + from <= x < base + from + k ==> m.Readable(x)
    ensures m.Truth(base, from, to) == Somes(m.Bytes(base + from, k)) + m.Truth(base, from + k, to)
  {
  }

  lemma TruthAfterGap(m: PageMemory, base: nat, from: nat, next: nat, to: nat)
    requires from <= next && from <= to && m.NoneReadable(base, from, Min(next, to))
    ensures m.Truth(base, from, to) == Nones(Min(next, to) - from) + m.Truth(base, next, to)
  {
  }

  /** What the theorem below says of a sweep from `offset`. */
  ghost predicate Truthful(m: PageMemory, base: u64, size: u64, offset: nat, s: Sweep) {
    && s.view == m.Truth(base, offset, size)
    && s.overflow == (offset < size && base + size > TWO_64 && m.Readable(TWO_64 - 1))
    && (!s.overflow ==> s.failed == !m.AllReadable(base, offset, size))
  }

  lemma TruthfulAfterRead(copy: CopyOracle, m: PageMemory, t: nat, base: u64, size: u64, offset: nat, k: nat)
    requires m.Serves(copy) && offset < size && base + offset < TWO_64
    requires k == m.ReadableRun(base + offset, Min(CHUNK_SIZE, size - offset)) > 0
    requires Truthful(m, base, size, offset + k, SweepFrom(copy, t + 1, base, size, offset + k))
    ensures Truthful(m, base, size, offset, SweepFrom(copy, t, base, size, offset))
  {
    hide m.Serves, SweepFrom, m.ReadableRun, m.AllReadable, m.Readable, m.Truth, m.Bytes, Somes;
    var a, n := base + offset, Min(CHUNK_SIZE, size - offset);
    m.Served(copy, t, a, n);
    SweepStep(copy, t, base, size, offset);
    TruthAfterRead(m, base, offset, k, size);
    ReadableAfterRead(m, base, offset, k, n, size);
  }

  lemma ReadableAfterRead(m: PageMemory, base: nat, offset: nat, k: nat, n: nat, size: nat)
    requires 0 < k <= n && offset + n <= size
    requires forall x :: base + offset <= x < base + offset + k ==> m.Readable(x)
    requires k < n ==> !m.Readable(base + offset + k)
    ensures m.AllReadable(base, offset, size) == (k == n && m.AllReadable(base, offset + k, size))
    ensures m.Readable(base + offset + k - 1) && base + offset + k <= TWO_64
  {
    assert m.Readable(base + offset + k - 1);
  }

  lemma TruthfulAfterFailure(copy: CopyOracle, m: PageMemory, t: nat, base: u64, size: u64, offset: nat)
    requires m.Serves(copy) && offset < size && base + offset < TWO_64 && !m.Readable(base + offset)
    requires var next := NextPage(base + offset);
             next > base ==> Truthful(m, base, size, next - base, SweepFrom(copy, t + 1, base, size, next - base))
    ensures Truthful(m, base, size, offset, SweepFrom(copy, t, base, size, offset))
  {
    hide m.Serves, SweepFrom, m.ReadableRun, m.AllReadable, m.NoneReadable, m.Readable, m.Truth, m.Bytes, Nones;
    var a, n, next := base + offset, Min(CHUNK_SIZE, size - offset), NextPage(base + offset);
    var behind := if next > base then next - base else size;
    m.Served(copy, t, a, n);
    SweepStep(copy, t, base, size, offset);
    FailureLeavesGap(m, base, offset, size, behind);
    TruthAfterGap(m, base, offset, behind, size);
    TruthAtEnd(m, base, size);
  }

  lemma FailureLeavesGap(m: PageMemory, base: u64, offset: nat, size: u64, behind: nat)
    requires offset < size && base + offset < TWO_64 && !m.Readable(base + offset)
    requires behind == if NextPage(base + offset) > base then NextPage(base + offset) - base else size
    ensures m.ReadableRun(base + offset, Min(CHUNK_SIZE, size - offset)) == 0
    ensures !m.AllReadable(base, offset, size) && offset < behind
    ensures m.NoneReadable(base, offset, Min(behind, size))
    ensures NextPage(base + offset) <= base ==> !m.Readable(TWO_64 - 1)
  {
    m.RestOfPageUnreadable(base + offset);
  }

  lemma TruthAtEnd(m: PageMemory, base: nat, to: nat)
    ensures m.Truth(base, to, to) == []
  {
  }

  lemma TruthfulAtEnd(copy: CopyOracle, m: PageMemory, t: nat, base: u64, size: u64, offset: nat)
    requires offset >= size || base + offset >= TWO_64
    requires base + offset == TWO_64 ==> m.Readable(TWO_64 - 1)
    requires base + offset <= TWO_64
    ensures Truthful(m, base, size, offset, SweepFrom(copy, t, base, size, offset))
  {
  }

  /**
   * A sweep sees every readable byte and nothing else. It overflows exactly when the pool reaches
   * past the address space and the last page of the address space is readable; otherwise it
   * reports a failed read exactly when some byte of the pool is unreadable.
   */
  lemma {:induction false} SweepTellsTruth(copy: CopyOracle, m: PageMemory, t: nat, base: u64, size: u64, offset: nat)
    requires m.Serves(copy)
    requires base + offset <= TWO_64 && (base + offset == TWO_64 ==> m.Readable(TWO_64 - 1))
    ensures Truthful(m, base, size, offset, SweepFrom(copy, t, base, size, offset))
    decreases size - offset
  {
    hide Truthful, SweepFrom, m.Serves;
    if offset >= size || base + offset >= TWO_64 {
      TruthfulAtEnd(copy, m, t, base, size, offset);
    } else {
      var k := m.ReadableRun(base + offset, Min(CHUNK_SIZE, size - offset));
      if k == 0 {
        var next := NextPage(base + offset);
        if next > base {
          SweepTellsTruth(copy, m, t + 1, base, size, next - base);
        }
        TruthfulAfterFailure(copy, m, t, base, size, offset);
      } else {
        assert m.Readable(base + offset + k - 1);
        SweepTellsTruth(copy, m, t + 1, base, size, offset + k);
        TruthfulAfterRead(copy, m, t, base, size, offset, k);
      }
    }
  }

  /** The pool reaches past the end of an address space whose last page is readable. */
  ghost predicate RunsOffTheEnd(m: PageMemory, e: Entry) {
    e.address + e.size > TWO_64 && m.Readable(TWO_64 - 1)
  }

  /** Search soundness and completeness: the offsets found are exactly those where memory holds the pattern. */
  lemma SearchFindsWhatIsThere(copy: CopyOracle, m: PageMemory, t: nat, e: Entry, p: Pattern)
    requires m.Serves(copy)
    ensures var s := SweepFrom(copy, t, e.address, e.size, 0);
            && (forall i :: i in Occurrences(s.view, p) <==> InMemory(m, e, p, i))
            && s.overflow == RunsOffTheEnd(m, e)
            && (!s.overflow ==> s.failed == !m.AllReadable(e.address, 0, e.size))
            && SawAny(s.view, e.size) == !m.NoneReadable(e.address, 0, e.size)
  {
    hide SweepFrom, OccurrencesTo, m.Serves, m.AllReadable;
    SweepTellsTruth(copy, m, t, e.address, e.size, 0);
    var view := SweepFrom(copy, t, e.address, e.size, 0).view;
    OccurrencesMeaning(view, p, |view|, Occurrences(view, p));
    forall i ensures MatchAt(view, p, i) <==> InMemory(m, e, p, i) {
      TrueMatch(m, e, p, i);
    }
    SeenIsReadable(m, e);
  }

  lemma TrueMatch(m: PageMemory, e: Entry, p: Pattern, i: int)
    ensures MatchAt(m.Truth(e.address, 0, e.size), p, i) <==> InMemory(m, e, p, i)
  {
    var view := m.Truth(e.address, 0, e.size);
    if 0 <= i && i + |p| <= e.size {
      forall j | 0 <= j < |p| ensures view[i + j] == Some(p[j]) <==> m.At(e.address + i + j) == Some(p[j]) {
        assert view[i + j] == m.At(e.address + 0 + (i + j));
      }
    }
  }

  lemma SeenIsReadable(m: PageMemory, e: Entry)
    ensures SawAny(m.Truth(e.address, 0, e.size), e.size) == !m.NoneReadable(e.address, 0, e.size)
  {
    var view := m.Truth(e.address, 0, e.size);
    if !m.NoneReadable(e.address, 0, e.size) {
      var x :| e.address + 0 <= x < e.address + e.size && m.Readable(x);
      assert view[x - e.address] == m.At(e.address + 0 + (x - e.address));
    }
  }

  /** The naive search of one pool and of a list of pools: no ticks, no chunks, no reads. */
  ghost function NaiveMatches(m: PageMemory, e: Entry, p: Pattern): seq<SearchResult> {
    var view := m.Truth(e.address, 0, e.size);
    OccurrencesBounded(view, p, |view|, Occurrences(view, p));
    ResultsFor(e, Occurrences(view, p))
  }

  ghost function NaiveMatchesIn(m: PageMemory, entries: seq<Entry>, p: Pattern, n: nat): seq<SearchResult>
    requires n <= |entries|
  {
    if n == 0 then [] else NaiveMatchesIn(m, entries, p, n - 1) + NaiveMatches(m, entries[n - 1], p)
  }

  lemma EntryMatchesAreNaive(copy: CopyOracle, m: PageMemory, t: nat, e: Entry, p: Pattern)
    requires m.Serves(copy)
    ensures EntryMatches(copy, t, e, p) == NaiveMatches(m, e, p)
  {
    hide SweepFrom, OccurrencesTo, m.Serves, m.AllReadable, m.Truth;
    SweepTellsTruth(copy, m, t, e.address, e.size, 0);
  }

  lemma {:induction false} MatchesAreNaive(copy: CopyOracle, m: PageMemory, clock: nat, entries: seq<Entry>, p: Pattern, n: nat)
    requires m.Serves(copy) && n <= |entries|
    ensures MatchesIn(copy, clock, entries, p, n) == NaiveMatchesIn(m, entries, p, n)
  {
    hide SweepFrom, OccurrencesTo, m.Serves, EntryMatches, NaiveMatches, ClockAt;
    if n == 0 {
    } else {
      MatchesAreNaive(copy, m, clock, entries, p, n - 1);
      EntryMatchesAreNaive(copy, m, ClockAt(copy, clock, entries, n - 1), entries[n - 1], p);
    }
  }

  /** The pools among the first `n` without a readable byte, and those with an unreadable one. */
  ghost function Unreadable(m: PageMemory, entries: seq<Entry>, n: nat): set<nat>
    requires n <= |entries|
  {
    set i: nat | i < n && m.NoneReadable(entries[i].address, 0, entries[i].size)
  }

  ghost function Damaged(m: PageMemory, entries: seq<Entry>, n: nat): set<nat>
    requires n <= |entries|
  {
    set i: nat | i < n && !m.AllReadable(entries[i].address, 0, entries[i].size)
  }

  lemma OneMoreUnreadable(m: PageMemory, entries: seq<Entry>, n: nat)
    requires n < |entries|
    ensures |Unreadable(m, entries, n + 1)|
            == |Unreadable(m, entries, n)| + if m.NoneReadable(entries[n].address, 0, entries[n].size) then 1 else 0
  {
    hide m.NoneReadable;
    assert Unreadable(m, entries, n + 1)
        == Unreadable(m, entries, n) + if m.NoneReadable(entries[n].address, 0, entries[n].size) then {n} else {};
  }

  lemma OneMoreDamaged(m: PageMemory, entries: seq<Entry>, n: nat)
    requires n < |entries|
    ensures |Damaged(m, entries, n + 1)|
            == |Damaged(m, entries, n)| + if m.AllReadable(entries[n].address, 0, entries[n].size) then 0 else 1
  {
    hide m.AllReadable;
    assert Damaged(m, entries, n + 1)
        == Damaged(m, entries, n) + if m.AllReadable(entries[n].address, 0, entries[n].size) then {} else {n};
  }

  lemma NoPools(copy: CopyOracle, m: PageMemory, clock: nat, entries: seq<Entry>)
    ensures UnseenIn(copy, clock, entries, 0) == |Unreadable(m, entries, 0)| == 0
    ensures FailedIn(copy, clock, entries, 0) == |Damaged(m, entries, 0)| == 0
  {
    assert Unreadable(m, entries, 0) == {} && Damaged(m, entries, 0) == {};
  }

  /** The statistics count pools. */
  lemma {:induction false} StatisticsCountPools(copy: CopyOracle, m: PageMemory, clock: nat, entries: seq<Entry>, n: nat)
    requires m.Serves(copy) && n <= |entries|
    requires forall i :: 0 <= i < n ==> !RunsOffTheEnd(m, entries[i])
    ensures UnseenIn(copy, clock, entries, n) == |Unreadable(m, entries, n)|
    ensures FailedIn(copy, clock, entries, n) == |Damaged(m, entries, n)|
  {
    hide SweepFrom, m.Serves, Unreadable, Damaged, m.NoneReadable, m.AllReadable, OccurrencesTo, RunsOffTheEnd, SawAny,
         m.Truth, EntryMatches, NaiveMatches;
    if n == 0 {
      NoPools(copy, m, clock, entries);
    } else {
      StatisticsCountPools(copy, m, clock, entries, n - 1);
      OneMoreUnreadable(m, entries, n - 1);
      OneMoreDamaged(m, entries, n - 1);
      SearchFindsWhatIsThere(copy, m, ClockAt(copy, clock, entries, n - 1), entries[n - 1], [0]);
    }
  }

  /** With buffers to be had, a search over such memory fails only at a pool that runs off the end. */
  lemma SearchFailsOnlyOffTheEnd(copy: CopyOracle, m: PageMemory, clock: nat, entries: seq<Entry>, p: Pattern,
                                 capacity: nat, allocOk: nat -> bool, i: nat)
    requires m.Serves(copy) && i < |entries| && allocOk(i)
    ensures FailsAt(copy, clock, entries, p, capacity, allocOk, i) <==>
            RunsOffTheEnd(m, entries[i]) && |NaiveMatchesIn(m, entries, p, i + 1)| <= capacity
  {
    hide SweepFrom, OccurrencesTo, m.Serves, m.AllReadable, NaiveMatchesIn;
    MatchesAreNaive(copy, m, clock, entries, p, i);
    MatchesAreNaive(copy, m, clock, entries, p, i + 1);
    MatchesGrow(copy, clock, entries, p, i, i + 1);
    SearchFindsWhatIsThere(copy, m, ClockAt(copy, clock, entries, i), entries[i], p);
  }

  /** A pool of two pages that begins in the last page of the address space. */
  const TOP_POOL: Entry := Entry(0xFFFF_FFFF_FFFF_F000, 0x2000, 0, {}, 0, 0, 0, 0, 0, 0, 0)

  lemma TopPoolRunsOff(m: PageMemory)
    requires m.mapped(0xF_FFFF_FFFF_FFFF)
    ensures RunsOffTheEnd(m, TOP_POOL)
  {
  }

  /** Such a pool makes a search overflow, if nothing was found in it before. */
  lemma TopPoolOverflows(m: PageMemory, p: Pattern, capacity: nat)
    requires m.mapped(0xF_FFFF_FFFF_FFFF) && forall i :: !InMemory(m, TOP_POOL, p, i)
    ensures RunsOffTheEnd(m, TOP_POOL) && SweepFrom(m.Oracle(), 0, TOP_POOL.address, TOP_POOL.size, 0).overflow
    ensures FailsAt(m.Oracle(), 0, [TOP_POOL], p, capacity, (k: nat) => true, 0)
  {
    hide SweepFrom, OccurrencesTo, m.Serves, m.Oracle, RunsOffTheEnd, InMemory, FailsAt, NaiveMatchesIn;
    TopPoolRunsOff(m);
    SearchFindsWhatIsThere(m.Oracle(), m, 0, TOP_POOL, p);
    NothingInNothing(m, TOP_POOL, p);
    SearchFailsOnlyOffTheEnd(m.Oracle(), m, 0, [TOP_POOL], p, capacity, (k: nat) => true, 0);
  }

  lemma NothingInNothing(m: PageMemory, e: Entry, p: Pattern)
    requires forall i :: !InMemory(m, e, p, i)
    ensures NaiveMatchesIn(m, [e], p, 1) == []
  {
    hide InMemory;
    var view := m.Truth(e.address, 0, e.size);
    var found := Occurrences(view, p);
    OccurrencesMeaning(view, p, |view|, found);
    if found != [] {
      assert found[0] in found;
      TrueMatch(m, e, p, found[0]);
    }
    assert NaiveMatchesIn(m, [e], p, 0) == [];
  }
}
