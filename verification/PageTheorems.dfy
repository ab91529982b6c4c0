/** With paging and memory at rest, the counters of an entry count the pages of its pool. */
module PageTheorems {
  import opened Base
  import opened Memory
  import opened Paging
  import opened PageAccounting

  /** The rights that the walk reports for a page. */
  ghost function PageRights(m: Machine, page: nat): PteAttributes {
    if page * PAGE_SIZE < TWO_64 then Walk(m, page * PAGE_SIZE).1 else NO_ATTRIBUTES
  }

  ghost function WritablePages(m: Machine, pages: set<nat>): set<nat> {
    set q | q in pages && PageRights(m, q).writable
  }

  ghost function ExecutablePages(m: Machine, pages: set<nat>): set<nat> {
    set q | q in pages && PageRights(m, q).executable
  }

  ghost function AccessiblePages(m: Machine, memory: PageMemory, pages: set<nat>): set<nat> {
    set q | q in pages && PageRights(m, q).present && memory.mapped(q)
  }

  ghost predicate AtRest(sight: Sight, m: Machine, memory: PageMemory) {
    (forall k: nat :: sight.machine(k) == m) && memory.Serves(sight.copy)
  }

  function Shift(first: nat, k: nat): nat {
    first + k
  }

  /** The k-th page is in the set iff the index k is selected. */
  ghost predicate Corresponds(first: nat, n: nat, p: nat -> bool, pages: set<nat>) {
    && (forall k :: k in Interval(0, n) ==> (p(k) <==> Shift(first, k) in pages))
    && forall q :: q in pages ==> first <= q < first + n
  }

  lemma DropLast(first: nat, n: nat, p: nat -> bool, pages: set<nat>)
    requires n > 0 && Corresponds(first, n, p, pages)
    ensures Corresponds(first, n - 1, p, pages - {first + n - 1})
    ensures p(n - 1) <==> first + n - 1 in pages
  {
    hide Interval;
    assert n - 1 in Interval(0, n);
    assert Shift(first, n - 1) == first + n - 1;
    assert Interval(0, n - 1) <= Interval(0, n);
  }

  lemma {:induction false} ShiftedCount(first: nat, n: nat, p: nat -> bool, pages: set<nat>)
    requires Corresponds(first, n, p, pages)
    ensures |Select(n, p)| == |pages|
    decreases n
  {
    hide Interval, Select, Corresponds;
    if n == 0 {
      NothingSelected(first, p, pages);
    } else {
      SelectOneMore(n - 1, p);
      DropLast(first, n, p, pages);
      ShiftedCount(first, n - 1, p, pages - {first + n - 1});
    }
  }

  lemma NothingSelected(first: nat, p: nat -> bool, pages: set<nat>)
    requires Corresponds(first, 0, p, pages)
    ensures |Select(0, p)| == |pages| == 0
  {
    assert Select(0, p) == {} == pages;
  }

  lemma PageAtRest(sight: Sight, m: Machine, memory: PageMemory, address: u64, size: u64, k: nat)
    requires AtRest(sight, m, memory) && k < CountPagesForRange(address, size)
    ensures var q := FirstPage(address) + k;
            && sight.WritablePage(address, k) == PageRights(m, q).writable
            && sight.ExecutablePage(address, k) == PageRights(m, q).executable
            && sight.AccessiblePage(address, k) == (PageRights(m, q).present && memory.mapped(q))
  {
    hide Walk, CountPagesForRange;
    PageVisited(address, size, k);
    memory.Served(sight.copy, k, ProbeAddress(address, k), 1);
    assert sight.machine(k) == m;
  }

  lemma PagesAreShifted(a: u64, size: u64)
    requires |PagesOf(a, size)| <= MAX_ULONG
    ensures PagesOf(a, size) == Interval(FirstPage(a), FirstPage(a) + CountPagesForRange(a, size))
    ensures |PagesOf(a, size)| == CountPagesForRange(a, size)
  {
    CountIsCardinality(a, size);
    if size == 0 {
      assert PagesOf(a, size) == {};
    } else {
      PagesAreInterval(a, size);
    }
  }

  lemma PagesCorrespond(sight: Sight, m: Machine, memory: PageMemory, a: u64, size: u64)
    requires AtRest(sight, m, memory) && |PagesOf(a, size)| <= MAX_ULONG
    ensures var n, first, pages := CountPagesForRange(a, size), FirstPage(a), PagesOf(a, size);
            && Corresponds(first, n, (k: nat) => sight.WritablePage(a, k), WritablePages(m, pages))
            && Corresponds(first, n, (k: nat) => sight.ExecutablePage(a, k), ExecutablePages(m, pages))
            && Corresponds(first, n, (k: nat) => sight.AccessiblePage(a, k), AccessiblePages(m, memory, pages))
  {
    hide Walk, CountPagesForRange, PagesOf, PageRights, AtRest, Interval,
         sight.WritablePage, sight.ExecutablePage, sight.AccessiblePage;
    PagesAreShifted(a, size);
    forall k: nat | k < CountPagesForRange(a, size)
      ensures && sight.WritablePage(a, k) == PageRights(m, Shift(FirstPage(a), k)).writable
              && sight.ExecutablePage(a, k) == PageRights(m, Shift(FirstPage(a), k)).executable
              && sight.AccessiblePage(a, k)
                 == (PageRights(m, Shift(FirstPage(a), k)).present && memory.mapped(Shift(FirstPage(a), k)))
    {
      PageAtRest(sight, m, memory, a, size, k);
    }
  }

  /** Every page of the pool is counted once, under what it really is. */
  lemma CountersCountPages(sight: Sight, m: Machine, memory: PageMemory, a: u64, size: u64)
    requires AtRest(sight, m, memory) && |PagesOf(a, size)| <= MAX_ULONG
    ensures var n := CountPagesForRange(a, size);
            && n == |PagesOf(a, size)|
            && |sight.WritableIn(a, n)| == |WritablePages(m, PagesOf(a, size))|
            && |sight.ExecutableIn(a, n)| == |ExecutablePages(m, PagesOf(a, size))|
            && |sight.AccessibleIn(a, n)| == |AccessiblePages(m, memory, PagesOf(a, size))|
  {
    hide Walk, CountPagesForRange, PagesOf, PageRights, AtRest, Select, Corresponds,
         sight.WritablePage, sight.ExecutablePage, sight.AccessiblePage, WritablePages, ExecutablePages, AccessiblePages;
    PagesAreShifted(a, size);
    var n, first, pages := CountPagesForRange(a, size), FirstPage(a), PagesOf(a, size);
    PagesCorrespond(sight, m, memory, a, size);
    ShiftedCount(first, n, (k: nat) => sight.WritablePage(a, k), WritablePages(m, pages));
    ShiftedCount(first, n, (k: nat) => sight.ExecutablePage(a, k), ExecutablePages(m, pages));
    ShiftedCount(first, n, (k: nat) => sight.AccessiblePage(a, k), AccessiblePages(m, memory, pages));
  }

  /** The rights of a page are the rights of every address in it. */
  lemma RightsHoldThroughout(m: Machine, va: u64)
    ensures Walk(m, va).1 == PageRights(m, va / PAGE_SIZE)
  {
    WalkIsPageWide(m, va, va / PAGE_SIZE * PAGE_SIZE);
  }
}
