/**
 * The retry loop around ZwQuerySystemInformation(SystemBigPoolInformation): the buffer grows until
 * the answer fits. Every query and every allocation answers for itself.
 */
module BigPoolQuery {
  import opened Base

  const INITIAL_SIZE: nat := 0x1_0000
  const MAX_SIZE: nat := 0x400_0000
  const MAX_RETRIES: nat := 16

  datatype QueryStatus = Done | TooSmall | Failed

  /** STATUS_INFO_LENGTH_MISMATCH and STATUS_BUFFER_TOO_SMALL are TooSmall; the length may be left unwritten. */
  datatype Answer = Answer(status: QueryStatus, length: Option<u32>)

  /** The answer to the k-th query, for a buffer size. */
  type Query = (nat, nat) -> Answer

  datatype Outcome = Outcome(status: Status, sizes: seq<nat>)

  function Reported(answer: Answer, before: u32): u32 {
    if answer.length.Some? then answer.length.value else before
  }

  function NextSize(size: nat, length: nat): Option<nat> {
    if length > size then
      if length > MAX_SIZE then None else Some(length)
    else if size > MAX_SIZE / 2 then None
    else if size * 2 > MAX_SIZE then None
    else Some(size * 2)
  }

  /** What happens from the k-th query on, `length` being the last length reported. */
  function Attempts(query: Query, allocOk: nat -> bool, k: nat, size: nat, length: u32): Outcome
    requires k <= MAX_RETRIES
    decreases MAX_RETRIES - k
  {
    if !allocOk(k) then Outcome(InsufficientResources, []) else
      var answer := query(k, size);
      match answer.status
      case Done => Outcome(Success, [size])
      case Failed => Outcome(CopyFailed, [size])
      case TooSmall =>
        var next := NextSize(size, Reported(answer, length));
        if k + 1 > MAX_RETRIES then Outcome(Retry, [size])
        else if next.None? then Outcome(InsufficientResources, [size])
        else
          var rest := Attempts(query, allocOk, k + 1, next.value, Reported(answer, length));
          Outcome(rest.status, [size] + rest.sizes)
  }

  function Behind(sizes: seq<nat>, rest: Outcome): Outcome {
    Outcome(rest.status, sizes + rest.sizes)
  }

  lemma BehindNothing(rest: Outcome)
    ensures Behind([], rest) == rest
  {
    assert [] + rest.sizes == rest.sizes;
  }

  lemma AttemptStep(query: Query, allocOk: nat -> bool, k: nat, size: nat, length: u32, sizes: seq<nat>)
    requires k <= MAX_RETRIES
    ensures var whole := Behind(sizes, Attempts(query, allocOk, k, size, length));
            var answer := query(k, size);
            var next := NextSize(size, Reported(answer, length));
            if !allocOk(k) then whole == Outcome(InsufficientResources, sizes)
            else if answer.status == Done then whole == Outcome(Success, sizes + [size])
            else if answer.status == Failed then whole == Outcome(CopyFailed, sizes + [size])
            else if k == MAX_RETRIES then whole == Outcome(Retry, sizes + [size])
            else if next.None? then whole == Outcome(InsufficientResources, sizes + [size])
            else whole == Behind(sizes + [size], Attempts(query, allocOk, k + 1, next.value, Reported(answer, length)))
  {
    var r := Attempts(query, allocOk, k, size, length);
    assert r.sizes != [] ==> sizes + r.sizes == sizes + [size] + r.sizes[1..];
  }

  /** Query buffers. There is room for one at a time. */
  class QueryPool {
    var live: Option<(nat, nat)>    // handle and size
    var next: nat
    ghost var freed: seq<nat>

    ghost predicate Valid()
      reads this
    {
      && (live.Some? ==> live.value.0 < next && live.value.0 !in freed)
      && (forall h :: h in freed ==> h < next)
      && (forall h: nat :: h < next ==> h in freed || (live.Some? && live.value.0 == h))
      && (forall i, j :: 0 <= i < j < |freed| ==> freed[i] != freed[j])
    }

    constructor ()
      ensures Valid() && live == None && next == 0
    {
      live, next, freed := None, 0, [];
    }

    method Allocate(size: nat)
      requires Valid() && live == None
      modifies this
      ensures Valid() && live == Some((old(next), size)) && next == old(next) + 1
    {
      live := Some((next, size));
      next := next + 1;
    }

    method Free()
      requires Valid() && live.Some?
      modifies this
      ensures Valid() && live == None && next == old(next)
    {
      freed := freed + [live.value.0];
      live := None;
    }
  }

  /** On success the caller owns the one live buffer, of the last size queried; on failure none is left. */
  method QuerySystemBigPoolInfo(pool: QueryPool, routineFound: bool, query: Query, allocOk: nat -> bool)
    returns (status: Status, ghost sizes: seq<nat>)
    requires pool.Valid() && pool.live == None
    modifies pool
    ensures pool.Valid()
    ensures !routineFound ==> status == NotFound && sizes == []
    ensures routineFound ==> Outcome(status, sizes) == Attempts(query, allocOk, 0, INITIAL_SIZE, 0)
    ensures pool.next == old(pool.next) + |sizes|
    ensures status == Success ==> sizes != [] && pool.live == Some((pool.next - 1, sizes[|sizes| - 1]))
    ensures status != Success ==> pool.live == None
  {
    hide Attempts, Behind, pool.Valid;
    sizes := [];
    if !routineFound {
      return NotFound, sizes;
    }
    var size: nat, length: u32, retries: nat := INITIAL_SIZE, 0, 0;
    ghost var whole := Attempts(query, allocOk, 0, INITIAL_SIZE, 0);
    BehindNothing(whole);
    while true
      invariant pool.Valid() && pool.next == old(pool.next) + |sizes|
      invariant retries <= MAX_RETRIES && |sizes| == retries
      invariant whole == Behind(sizes, Attempts(query, allocOk, retries, size, length))
      decreases MAX_RETRIES - retries
    {
      AttemptStep(query, allocOk, retries, size, length, sizes);
      if pool.live.Some? {
        pool.Free();
      }
      if !allocOk(retries) {
        return InsufficientResources, sizes;
      }
      pool.Allocate(size);
      var answer := query(retries, size);
      length := Reported(answer, length);
      sizes := sizes + [size];
      if answer.status != TooSmall {
        if answer.status == Done {
          return Success, sizes;
        }
        pool.Free();
        return CopyFailed, sizes;
      }
      retries := retries + 1;
      if retries > MAX_RETRIES {
        pool.Free();
        return Retry, sizes;
      }
      var nextSize := size;
      if length > size {
        nextSize := length;
      } else {
        if size > MAX_SIZE / 2 {
          pool.Free();
          return InsufficientResources, sizes;
        }
        nextSize := size * 2;
      }
      if nextSize > MAX_SIZE {
        pool.Free();
        return InsufficientResources, sizes;
      }
      size := nextSize;
    }
  }

  /** The length known after the first i of the queries from the k-th on: the last one that was written, if any was. */
  ghost function LengthKnown(query: Query, k: nat, length: u32, sizes: seq<nat>, i: nat): u32
    requires i <= |sizes|
  {
    if i == 0 then length else
      var written := query(k + i - 1, sizes[i - 1]).length;
      if written.Some? then written.value else LengthKnown(query, k, length, sizes, i - 1)
  }

  /** The next buffer: as long as was last reported, if that is more, and else twice the size. */
  ghost function NextBuffer(size: nat, known: u32): nat {
    if known > size then known else 2 * size
  }

  /** The i-th query was made, found its buffer too small, and was followed by one for the next buffer. */
  ghost predicate GoesOn(query: Query, allocOk: nat -> bool, k: nat, length: u32, sizes: seq<nat>, i: nat)
    requires i + 1 < |sizes|
  {
    && allocOk(k + i) && query(k + i, sizes[i]).status == TooSmall
    && sizes[i + 1] == NextBuffer(sizes[i], LengthKnown(query, k, length, sizes, i + 1)) <= 0x400_0000
  }

  ghost predicate AllGoOn(query: Query, allocOk: nat -> bool, k: nat, length: u32, sizes: seq<nat>) {
    forall i: nat :: i + 1 < |sizes| ==> GoesOn(query, allocOk, k, length, sizes, i)
  }

  /** Why no further query was made after the last: it was answered, or 17 were made, or there was no buffer for another. */
  ghost predicate StopsWith(query: Query, allocOk: nat -> bool, k: nat, length: u32, sizes: seq<nat>, status: Status) {
    if sizes == [] then !allocOk(k) && status == InsufficientResources else
      var n := |sizes|;
      allocOk(k + n - 1) &&
      match query(k + n - 1, sizes[n - 1]).status
      case Done => status == Success
      case Failed => status == CopyFailed
      case TooSmall =>
        if k + n == 17 then status == Retry
        else
          && status == InsufficientResources
          && (NextBuffer(sizes[n - 1], LengthKnown(query, k, length, sizes, n)) > 0x400_0000 || !allocOk(k + n))
  }

  lemma KnownFurther(query: Query, k: nat, length: u32, sizes: seq<nat>, i: nat)
    requires sizes != [] && i < |sizes|
    ensures LengthKnown(query, k, length, sizes, i + 1)
         == LengthKnown(query, k + 1, Reported(query(k, sizes[0]), length), sizes[1..], i)
  {
    if i == 0 {
    } else {
      KnownFurther(query, k, length, sizes, i - 1);
    }
  }

  lemma FirstGoesOn(query: Query, allocOk: nat -> bool, k: nat, length: u32, sizes: seq<nat>)
    requires |sizes| >= 2 && allocOk(k) && query(k, sizes[0]).status == TooSmall && sizes[0] <= 0x400_0000
    requires NextSize(sizes[0], Reported(query(k, sizes[0]), length)) == Some(sizes[1])
    ensures GoesOn(query, allocOk, k, length, sizes, 0)
  {
    assert LengthKnown(query, k, length, sizes, 1) == Reported(query(k, sizes[0]), length);
  }

  /** What is true of the queries from the next one on, seen from this one. */
  lemma RestGoesOn(query: Query, allocOk: nat -> bool, k: nat, length: u32, sizes: seq<nat>, status: Status)
    requires |sizes| >= 2 && GoesOn(query, allocOk, k, length, sizes, 0)
    requires var known := Reported(query(k, sizes[0]), length);
             && AllGoOn(query, allocOk, k + 1, known, sizes[1..])
             && StopsWith(query, allocOk, k + 1, known, sizes[1..], status)
    ensures AllGoOn(query, allocOk, k, length, sizes)
    ensures StopsWith(query, allocOk, k, length, sizes, status)
  {
    hide LengthKnown, NextBuffer;
    var known := Reported(query(k, sizes[0]), length);
    KnownFurther(query, k, length, sizes, |sizes| - 1);
    forall i: nat | i + 1 < |sizes| ensures GoesOn(query, allocOk, k, length, sizes, i) {
      KnownFurther(query, k, length, sizes, i);
      assert i > 0 ==> GoesOn(query, allocOk, k + 1, known, sizes[1..], i - 1);
    }
  }

  /** The last query, or the one for which there is no further buffer. */
  lemma LastQuery(query: Query, allocOk: nat -> bool, k: nat, size: nat, length: u32)
    requires k <= 16 && size <= 0x400_0000
    requires var next := NextSize(size, Reported(query(k, size), length));
             !allocOk(k) || query(k, size).status != TooSmall || k == 16 || next.None? || !allocOk(k + 1)
    ensures var r := Attempts(query, allocOk, k, size, length);
            r.sizes == (if allocOk(k) then [size] else []) && StopsWith(query, allocOk, k, length, r.sizes, r.status)
  {
    assert LengthKnown(query, k, length, [size], 1) == Reported(query(k, size), length);
  }

  /** What the loop does, told by its queries: how each size follows from the one before, and how it ends. */
  lemma {:induction false} QueriesMeaning(query: Query, allocOk: nat -> bool, k: nat, size: nat, length: u32)
    requires k <= 16 && size <= 0x400_0000
    ensures var r := Attempts(query, allocOk, k, size, length);
            && (r.sizes != [] ==> r.sizes[0] == size)
            && AllGoOn(query, allocOk, k, length, r.sizes)
            && StopsWith(query, allocOk, k, length, r.sizes, r.status)
    decreases 16 - k
  {
    hide GoesOn, StopsWith;
    var known := Reported(query(k, size), length);
    var next := NextSize(size, known);
    if !allocOk(k) || query(k, size).status != TooSmall || k == 16 || next.None? || !allocOk(k + 1) {
      LastQuery(query, allocOk, k, size, length);
    } else {
      var r, rest := Attempts(query, allocOk, k, size, length), Attempts(query, allocOk, k + 1, next.value, known);
      QueriesMeaning(query, allocOk, k + 1, next.value, known);
      assert rest.sizes != [];
      assert r.sizes[1..] == rest.sizes;
      FirstGoesOn(query, allocOk, k, length, r.sizes);
      RestGoesOn(query, allocOk, k, length, r.sizes, r.status);
    }
  }

  /** At most 17 queries, each for a larger buffer than the last, none above 64 MiB. */
  lemma {:induction false} SizesClimb(query: Query, allocOk: nat -> bool, k: nat, size: nat, length: u32)
    requires k <= MAX_RETRIES && 0 < size <= MAX_SIZE
    ensures var r := Attempts(query, allocOk, k, size, length);
            && |r.sizes| <= MAX_RETRIES + 1 - k
            && (r.sizes != [] ==> r.sizes[0] == size)
            && (forall i, j :: 0 <= i < j < |r.sizes| ==> r.sizes[i] < r.sizes[j])
            && (forall i :: 0 <= i < |r.sizes| ==> r.sizes[i] <= MAX_SIZE)
            && (r.status == Success ==> r.sizes != [])
    decreases MAX_RETRIES - k
  {
    if !allocOk(k) || query(k, size).status != TooSmall || k == MAX_RETRIES {
    } else {
      var reported := Reported(query(k, size), length);
      if NextSize(size, reported).Some? {
        SizesClimb(query, allocOk, k + 1, NextSize(size, reported).value, reported);
      }
    }
  }

  /** SYSTEM_BIGPOOL_INFORMATION: 24 bytes for each pool behind a header of 8. */
  function PoolsIn(size: nat): nat {
    if size < 8 then 0 else (size - 8) / 24
  }

  const MAX_POOLS: nat := 2_796_202

  /** No answer that the query accepts has room for more pools than MAX_POOLS. */
  lemma AnswersAreBounded(query: Query, allocOk: nat -> bool)
    ensures var r := Attempts(query, allocOk, 0, INITIAL_SIZE, 0);
            r.status == Success ==> r.sizes != [] && PoolsIn(r.sizes[|r.sizes| - 1]) <= MAX_POOLS
    ensures PoolsIn(MAX_SIZE) == MAX_POOLS
  {
    hide Attempts;
    SizesClimb(query, allocOk, 0, INITIAL_SIZE, 0);
  }

  /** The size of the k-th buffer when every buffer is twice the one before. */
  function Doubled(k: nat): nat {
    if k == 0 then INITIAL_SIZE else 2 * Doubled(k - 1)
  }

  lemma TenDoublingsReachTheEnd()
    ensures Doubled(10) == MAX_SIZE
  {
    assert Doubled(5) == 0x20_0000;
  }

  /** A system that never asks for more than it was given drives the sizes by doubling: the retry limit is out of reach. */
  lemma {:induction false} DoublingNeverRetries(query: Query, allocOk: nat -> bool, k: nat, length: u32)
    requires k <= 10 && length <= Doubled(k)
    requires forall i: nat, n: nat :: Reported(query(i, n), 0) <= n
    ensures var r := Attempts(query, allocOk, k, Doubled(k), length); r.status != Retry && |r.sizes| <= 11 - k
    decreases 10 - k
  {
    TenDoublingsReachTheEnd();
    var size := Doubled(k);
    if !allocOk(k) || query(k, size).status != TooSmall {
    } else {
      var reported := Reported(query(k, size), length);
      assert Reported(query(k, size), 0) <= size;
      if k < 10 && NextSize(size, reported).Some? {
        assert NextSize(size, reported).value == Doubled(k + 1);
        hide Doubled;
        DoublingNeverRetries(query, allocOk, k + 1, reported);
      }
    }
  }

  /** A system whose k-th query needs a buffer of some size, and says so. */
  ghost predicate Honest(query: Query, need: nat -> u32) {
    forall k: nat, n: nat :: query(k, n) == Answer(if n < need(k) then TooSmall else Done, Some(need(k)))
  }

  /** The needs from the k-th query on climb above the size at hand, and a buffer can follow until the last. */
  ghost predicate Outruns(need: nat -> u32, k: nat, size: nat)
    requires k <= MAX_RETRIES
  {
    && size < need(k)
    && (forall i: nat :: k <= i < MAX_RETRIES ==> need(i) < need(Next(i)))
    && (k < MAX_RETRIES ==> need(MAX_RETRIES - 1) <= MAX_SIZE)
  }

  function Next(i: nat): nat {
    i + 1
  }

  lemma {:induction false} NeedsClimb(need: nat -> u32, i: nat, j: nat)
    requires i <= j < MAX_RETRIES && forall m: nat :: i <= m < MAX_RETRIES ==> need(m) < need(Next(m))
    ensures need(i) <= need(j)
    decreases j - i
  {
    if i == j {
    } else {
      assert need(i) < need(Next(i));
      NeedsClimb(need, i + 1, j);
    }
  }

  lemma OutrunsStep(need: nat -> u32, k: nat, size: nat)
    requires k < MAX_RETRIES
    ensures Outruns(need, k, size) <==> size < need(k) <= MAX_SIZE && Outruns(need, k + 1, need(k))
  {
    assert Next(k) == k + 1;
    if Outruns(need, k, size) {
      NeedsClimb(need, k, MAX_RETRIES - 1);
    }
  }

  /** Against an honest system with memory to be had: what is left of the queries outruns the buffers, or it does not. */
  lemma {:induction false} RetryIffOutrun(query: Query, allocOk: nat -> bool, need: nat -> u32, k: nat, size: nat, length: u32)
    requires Honest(query, need) && (forall i: nat :: allocOk(i)) && k <= MAX_RETRIES
    ensures Attempts(query, allocOk, k, size, length).status == Retry <==> Outruns(need, k, size)
    decreases MAX_RETRIES - k
  {
    hide Outruns;
    assert query(k, size).length == Some(need(k));
    if k == MAX_RETRIES {
      LastOutrun(need, size);
    } else {
      OutrunsStep(need, k, size);
      RetryIffOutrun(query, allocOk, need, k + 1, need(k), need(k));
    }
  }

  lemma LastOutrun(need: nat -> u32, size: nat)
    ensures Outruns(need, MAX_RETRIES, size) <==> size < need(MAX_RETRIES)
  {
  }

  /**
   * STATUS_RETRY is returned exactly when each of the 17 queries needs more than the one before it, the
   * first more than the initial buffer, and a buffer for the 16th is still within the limit.
   */
  lemma RetryExactly(query: Query, allocOk: nat -> bool, need: nat -> u32)
    requires Honest(query, need) && forall i: nat :: allocOk(i)
    ensures Attempts(query, allocOk, 0, INITIAL_SIZE, 0).status == Retry <==>
            && INITIAL_SIZE < need(0)
            && (forall i: nat :: i < 16 ==> need(i) < need(Next(i)))
            && need(15) <= MAX_SIZE
  {
    RetryIffOutrun(query, allocOk, need, 0, INITIAL_SIZE, 0);
  }

  /** A system whose data needs a fixed size. */
  ghost predicate Steady(query: Query, need: u32) {
    Honest(query, (k: nat) => need)
  }

  /** Against a steady system one retry is enough, and it fails exactly when the data cannot fit. */
  lemma SteadySystem(query: Query, allocOk: nat -> bool, need: u32)
    requires Steady(query, need) && allocOk(0) && allocOk(1)
    ensures var r := Attempts(query, allocOk, 0, INITIAL_SIZE, 0);
            && (r.status == Success <==> need <= MAX_SIZE)
            && |r.sizes| == (if INITIAL_SIZE < need <= MAX_SIZE then 2 else 1)
            && (r.status == Success ==> r.sizes[|r.sizes| - 1] >= need)
            && (r.status != Success ==> r.status == InsufficientResources)
  {
    var needs: nat -> u32 := (k: nat) => need;
    assert needs(0) == needs(1) == need;
    assert query(0, INITIAL_SIZE).length == Some(need);
    if INITIAL_SIZE < need <= MAX_SIZE {
      assert query(1, need).status == Done;
      assert Attempts(query, allocOk, 1, need, need) == Outcome(Success, [need]);
    }
  }

  /** The retry limit is real: sizes can creep, and then 17 queries are made and STATUS_RETRY returned. */
  lemma {:induction false} CreepingSizesRetry(query: Query, allocOk: nat -> bool, k: nat, size: nat, length: u32)
    requires k <= MAX_RETRIES && size == INITIAL_SIZE + k
    requires forall i: nat :: allocOk(i)
    requires forall i: nat, n: u32 :: n < MAX_ULONG ==> query(i, n) == Answer(TooSmall, Some(n + 1))
    ensures var r := Attempts(query, allocOk, k, size, length); r.status == Retry && |r.sizes| == MAX_RETRIES + 1 - k
    decreases MAX_RETRIES - k
  {
    if k == MAX_RETRIES {
    } else {
      CreepingSizesRetry(query, allocOk, k + 1, size + 1, size + 1);
    }
  }
}
