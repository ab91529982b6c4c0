/** Machine words, pages and the small arithmetic the driver builds on. */
module Base {

  datatype Option<+T> = None | Some(value: T)

  type byte = n: int | 0 <= n < 256

  const TWO_64: nat := 0x1_0000_0000_0000_0000
  const TWO_32: nat := 0x1_0000_0000
  const MAX_ULONG: nat := 0xFFFF_FFFF
  const PAGE_SIZE: nat := 4096

  /** `unsigned __int64` and `ULONG`. */
  type u64 = n: int | 0 <= n < TWO_64
  type u32 = n: int | 0 <= n <= MAX_ULONG

  /** The NTSTATUS values the modelled code produces. */
  datatype Status =
    | Success
    | InvalidParameter
    | InvalidAddress
    | InsufficientResources
    | IntegerOverflow
    | NotFound
    | BufferTooSmall
    | PartialCopy
    | Retry
    | CopyFailed      // whatever failure a copy or a query reported

  function Min(a: nat, b: nat): nat {
    if a <= b then a else b
  }

  /** Adds modulo 2^64 and detects the carry by comparing the sum with an operand. */
  function AddUnsigned64(left: u64, right: u64): (r: Option<u64>)
    ensures r.Some? <==> left + right < TWO_64
    ensures r.Some? ==> r.value == left + right
  {
    var sum := (left + right) % TWO_64;
    if sum >= left then Some(sum) else None
  }

  /** `((a >> PAGE_SHIFT) + 1) << PAGE_SHIFT` in 64 bits: zero when `a` lies in the last page. */
  function NextPage(a: u64): (r: u64)
    ensures r == 0 <==> a >= TWO_64 - PAGE_SIZE
    ensures r != 0 ==> a < r <= a + PAGE_SIZE && r % PAGE_SIZE == 0
  {
    ((a / PAGE_SIZE + 1) * PAGE_SIZE) % TWO_64
  }

  /** Up to the next page, and up to the end of the address space if there is none, lies one page. */
  lemma SamePageUpToNext(a: u64, x: nat)
    requires a <= x < if NextPage(a) == 0 then TWO_64 else NextPage(a)
    ensures x / PAGE_SIZE == a / PAGE_SIZE
  {
  }

  function Interval(low: nat, high: nat): (s: set<nat>)
    ensures forall p: nat :: p in s <==> low <= p < high
    ensures |s| == if low <= high then high - low else 0
    decreases high
  {
    if low >= high then {} else Interval(low, high - 1) + {high - 1}
  }

  lemma Monotone(a: nat, b: nat, n: nat)
    requires a < b
    ensures (a + 1) * n <= b * n
  {
  }

  /** Division with remainder is unique. */
  lemma DivisionIsUnique(a: nat, q: nat, r: nat, n: nat)
    requires r < n && a == q * n + r
    ensures a / n == q && a % n == r
  {
    var q', r' := a / n, a % n;
    assert a == q' * n + r';
    if q' < q {
      Monotone(q', q, n);
    } else if q < q' {
      Monotone(q, q', n);
    }
  }
}
