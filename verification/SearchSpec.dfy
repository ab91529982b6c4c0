/**
 * What a content search should find, told without buffers or chunks.
 *
 * A sweep over a pool yields a view of it: Some(b) where a byte was read, None elsewhere.
 * The occurrences of a pattern are all positions at which the view shows it in full.
 */
module SearchSpec {
  import opened Base
  import opened Memory
  import opened Pool

  const CHUNK_SIZE: nat := 4096

  type Pattern = p: seq<byte> | |p| > 0 witness [0]

  ghost predicate MatchAt(view: View, p: Pattern, i: int) {
    && 0 <= i && i + |p| <= |view|
    && forall j :: 0 <= j < |p| ==> view[i + j] == Some(p[j])
  }

  /** The positions of the pattern that end at or before `end`, overlapping ones included, ascending. */
  ghost function OccurrencesTo(view: View, p: Pattern, end: nat): seq<nat> {
    if end == 0 then []
    else if MatchAt(view, p, end - |p|) then OccurrencesTo(view, p, end - 1) + [end - |p|]
    else OccurrencesTo(view, p, end - 1)
  }

  ghost function Occurrences(view: View, p: Pattern): seq<nat> {
    OccurrencesTo(view, p, |view|)
  }

  /** The list is exactly the set of matches, each once, ascending: MatchAt alone determines it. */
  lemma {:induction false} OccurrencesMeaning(view: View, p: Pattern, end: nat, r: seq<nat>)
    requires r == OccurrencesTo(view, p, end)
    ensures forall i :: i in r <==> MatchAt(view, p, i) && i + |p| <= end
    ensures forall a, b :: 0 <= a < b < |r| ==> r[a] < r[b]
  {
    if end == 0 {
    } else {
      var q := OccurrencesTo(view, p, end - 1);
      OccurrencesMeaning(view, p, end - 1, q);
      forall a | 0 <= a < |q| ensures q[a] + |p| <= end - 1 {
        assert q[a] in q;
      }
    }
  }

  lemma OccurrencesBounded(view: View, p: Pattern, end: nat, r: seq<nat>)
    requires r == OccurrencesTo(view, p, end)
    ensures forall k :: 0 <= k < |r| ==> r[k] + |p| <= |view|
  {
    OccurrencesMeaning(view, p, end, r);
    forall k | 0 <= k < |r| ensures r[k] + |p| <= |view| {
      assert r[k] in r;
    }
  }

  lemma {:induction false} OccurrencesGrow(view: View, p: Pattern, k: nat, end: nat)
    requires k <= end
    ensures OccurrencesTo(view, p, k) <= OccurrencesTo(view, p, end)
  {
    if k == end {
    } else {
      OccurrencesGrow(view, p, k, end - 1);
    }
  }

  /** Where no window ends, nothing is found. */
  lemma {:induction false} NoOccurrencesBetween(view: View, p: Pattern, k: nat, end: nat)
    requires k <= end
    requires forall i :: k < i + |p| <= end ==> !MatchAt(view, p, i)
    ensures OccurrencesTo(view, p, end) == OccurrencesTo(view, p, k)
  {
    if k == end {
    } else {
      NoOccurrencesBetween(view, p, k, end - 1);
    }
  }

  /**
   * A carried prefix shorter than |p| - 1 begins at the start of the view or behind a gap, so the
   * next |p| - 1 - prefix positions cannot complete an occurrence.
   */
  lemma NothingEndsBeforeTheWindow(view: View, p: Pattern, offset: nat, prefix: nat, end: nat)
    requires prefix <= offset <= end <= |view| && end <= offset + |p| - 1 - prefix
    requires end > offset ==> offset == prefix || view[offset - prefix - 1] == None
    ensures OccurrencesTo(view, p, end) == OccurrencesTo(view, p, offset)
  {
    forall i | offset < i + |p| <= end ensures !MatchAt(view, p, i) {
      if i >= 0 {
        var j := offset - prefix - 1 - i;
        assert view[i + j] != Some(p[j]);
      }
    }
    NoOccurrencesBetween(view, p, offset, end);
  }

  /**
   * The reads a sweep makes from `offset` on, and what it sees. A copy that transfers nothing
   * and fails sends the sweep to the next page; bytes beyond an early stop stay unseen.
   */
  datatype Sweep = Sweep(view: View, ticks: nat, failed: bool, overflow: bool)

  ghost function SweepFrom(copy: CopyOracle, t: nat, base: u64, size: u64, offset: nat): (s: Sweep)
    ensures |s.view| == if offset <= size then size - offset else 0
    decreases size - offset
  {
    if offset >= size then Sweep([], 0, false, false)
    else if AddUnsigned64(base, offset).None? then Sweep(Nones(size - offset), 0, false, true)
    else
      var r := copy(t, base + offset, Min(CHUNK_SIZE, size - offset));
      var got := |r.bytes|;
      if got == 0 && r.ok then Sweep(Nones(size - offset), 1, false, false)
      else if got == 0 then
        var next := NextPage(base + offset);
        if next <= base then Sweep(Nones(size - offset), 1, true, false)
        else
          var rest := SweepFrom(copy, t + 1, base, size, next - base);
          Sweep(Nones(Min(next - base, size) - offset) + rest.view, rest.ticks + 1, true, rest.overflow)
      else
        var rest := SweepFrom(copy, t + 1, base, size, offset + got);
        Sweep(Somes(r.bytes) + rest.view, rest.ticks + 1, !r.ok || rest.failed, rest.overflow)
  }

  /** One step of the sweep, by what the next read brings. */
  lemma SweepStep(copy: CopyOracle, t: nat, base: u64, size: u64, offset: nat)
    requires offset < size && base + offset < TWO_64
    ensures var s := SweepFrom(copy, t, base, size, offset);
            var r := copy(t, base + offset, Min(CHUNK_SIZE, size - offset));
            var next := NextPage(base + offset);
            if r.bytes != [] then
              var rest := SweepFrom(copy, t + 1, base, size, offset + |r.bytes|);
              s == Sweep(Somes(r.bytes) + rest.view, rest.ticks + 1, !r.ok || rest.failed, rest.overflow)
            else if r.ok || next <= base then s == Sweep(Nones(size - offset), 1, !r.ok, false)
            else
              var rest := SweepFrom(copy, t + 1, base, size, next - base);
              s == Sweep(Nones(Min(next - base, size) - offset) + rest.view, rest.ticks + 1, true, rest.overflow)
  {
  }

  /** With `whole` begun at tick `start`, what remains to be done at tick `t` is the sweep from `offset`. */
  ghost predicate Ahead(copy: CopyOracle, base: u64, size: u64, whole: Sweep, start: nat, t: nat, offset: nat, failed: bool): (r: bool)
    ensures r ==> |whole.view| == size
  {
    var rest := SweepFrom(copy, t, base, size, offset);
    && |whole.view| == size
    && (offset <= size ==> whole.view[offset..] == rest.view)
    && start <= t && whole.ticks == t - start + rest.ticks
    && whole.failed == (failed || rest.failed)
    && whole.overflow == rest.overflow
  }

  lemma AheadAtStart(copy: CopyOracle, base: u64, size: u64, start: nat)
    ensures Ahead(copy, base, size, SweepFrom(copy, start, base, size, 0), start, start, 0, false)
  {
    var whole := SweepFrom(copy, start, base, size, 0);
    assert whole.view[0..] == whole.view;
  }

  lemma AheadAfterRead(copy: CopyOracle, base: u64, size: u64, whole: Sweep, start: nat, t: nat, offset: nat, failed: bool)
    requires Ahead(copy, base, size, whole, start, t, offset, failed)
    requires offset < size && base + offset < TWO_64
    requires var r := copy(t, base + offset, Min(CHUNK_SIZE, size - offset)); r.bytes != []
    ensures var r := copy(t, base + offset, Min(CHUNK_SIZE, size - offset));
            && Ahead(copy, base, size, whole, start, t + 1, offset + |r.bytes|, failed || !r.ok)
            && Shows(whole.view, offset, r.bytes)
  {
    var r := copy(t, base + offset, Min(CHUNK_SIZE, size - offset));
    var rest := SweepFrom(copy, t + 1, base, size, offset + |r.bytes|);
    assert whole.view[offset..] == Somes(r.bytes) + rest.view;
    assert whole.view[offset + |r.bytes|..] == whole.view[offset..][|r.bytes|..] == rest.view;
    forall k | 0 <= k < |r.bytes| ensures whole.view[offset + k] == Some(r.bytes[k]) {
      assert whole.view[offset..][k] == Some(r.bytes[k]);
    }
  }

  lemma AheadAfterSkip(copy: CopyOracle, base: u64, size: u64, whole: Sweep, start: nat, t: nat, offset: nat, failed: bool)
    requires Ahead(copy, base, size, whole, start, t, offset, failed)
    requires offset < size && base + offset < TWO_64
    requires var r := copy(t, base + offset, Min(CHUNK_SIZE, size - offset)); r.bytes == [] && !r.ok
    requires NextPage(base + offset) > base
    ensures Ahead(copy, base, size, whole, start, t + 1, NextPage(base + offset) - base, true)
    ensures Blank(whole.view, offset, Min(NextPage(base + offset) - base, size))
  {
    var next := NextPage(base + offset) - base;
    var gap := Min(next, size) - offset;
    var rest := SweepFrom(copy, t + 1, base, size, next);
    assert whole.view[offset..] == Nones(gap) + rest.view;
    if next <= size {
      assert whole.view[next..] == whole.view[offset..][gap..];
    }
    forall k | offset <= k < offset + gap ensures whole.view[k] == None {
      assert whole.view[offset..][k - offset] == None;
    }
  }

  /** The three ways a sweep ends: the pool is done, the address overflows, or a read leads nowhere. */
  lemma AheadAtEnd(copy: CopyOracle, base: u64, size: u64, whole: Sweep, start: nat, t: nat, offset: nat, failed: bool)
    requires Ahead(copy, base, size, whole, start, t, offset, failed) && offset >= size
    ensures whole.ticks == t - start && whole.failed == failed && !whole.overflow
  {
  }

  lemma AheadOverflows(copy: CopyOracle, base: u64, size: u64, whole: Sweep, start: nat, t: nat, offset: nat, failed: bool)
    requires Ahead(copy, base, size, whole, start, t, offset, failed)
    requires offset < size && base + offset >= TWO_64
    ensures whole.overflow && Blank(whole.view, offset, size)
  {
    BlankAhead(whole.view, offset);
  }

  lemma AheadStops(copy: CopyOracle, base: u64, size: u64, whole: Sweep, start: nat, t: nat, offset: nat, failed: bool)
    requires Ahead(copy, base, size, whole, start, t, offset, failed)
    requires offset < size && base + offset < TWO_64
    requires var r := copy(t, base + offset, Min(CHUNK_SIZE, size - offset));
             r.bytes == [] && (r.ok || NextPage(base + offset) <= base)
    ensures whole.ticks == t + 1 - start && !whole.overflow
    ensures whole.failed == (failed || !copy(t, base + offset, Min(CHUNK_SIZE, size - offset)).ok)
    ensures Blank(whole.view, offset, size)
  {
    BlankAhead(whole.view, offset);
  }

  lemma BlankAhead(view: View, offset: nat)
    requires offset <= |view| && view[offset..] == Nones(|view| - offset)
    ensures Blank(view, offset, |view|)
  {
    forall k | offset <= k < |view| ensures view[k] == None {
      assert view[offset..][k - offset] == None;
    }
  }

  ghost predicate Blank(view: View, from: nat, to: nat) {
    to <= |view| && forall k :: from <= k < to ==> view[k] == None
  }

  lemma NothingFoundInBlank(view: View, p: Pattern, from: nat, to: nat)
    requires from <= to && Blank(view, from, to)
    ensures OccurrencesTo(view, p, to) == OccurrencesTo(view, p, from)
  {
    forall i | from < i + |p| <= to ensures !MatchAt(view, p, i) {
      if i >= 0 {
        assert view[i + (|p| - 1)] != Some(p[|p| - 1]);
      }
    }
    NoOccurrencesBetween(view, p, from, to);
  }

  /** The view shows the bytes of the window from `start` on. */
  ghost predicate Shows(view: View, start: int, window: seq<byte>): (r: bool)
    ensures r ==> 0 <= start && start + |window| <= |view|
  {
    && 0 <= start && start + |window| <= |view|
    && forall k :: 0 <= k < |window| ==> view[start + k] == Some(window[k])
  }

  /** Whether a byte was read before position `end`. */
  ghost predicate SawAny(view: View, end: nat) {
    exists i :: 0 <= i < |view| && i < end && view[i].Some?
  }

  function ResultFor(e: Entry, offset: u64): SearchResult {
    SearchResult(e.address, offset, e.size, e.tag, e.flags, e.pageCount, e.accessiblePages,
                 e.writablePages, e.executablePages, e.contentHash, e.hashedBytes, e.snapshotId)
  }
}
