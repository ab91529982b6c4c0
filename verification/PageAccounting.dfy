/** How many pages a pool entry spans, and what the driver records about them. */
module PageAccounting {
  import opened Base
  import opened Memory
  import opened Pool
  import opened Paging

  /** The pages of a range, which the end of the address space cuts off. */
  ghost function PagesOf(address: u64, size: u64): set<nat> {
    set x: nat | address <= x < Min(address + size, TWO_64) :: x / PAGE_SIZE
  }

  function FirstPage(address: u64): nat {
    address / PAGE_SIZE
  }

  function LastAddress(address: u64, size: u64): u64
    requires size > 0
  {
    var last := AddUnsigned64(address, size - 1);
    if last.Some? then last.value else TWO_64 - 1
  }

  function CountPagesForRange(address: u64, size: u64): u32 {
    if size == 0 then 0 else
      var count := LastAddress(address, size) / PAGE_SIZE - FirstPage(address) + 1;
      if count > MAX_ULONG then MAX_ULONG else count
  }

  ghost function Select(n: nat, p: nat -> bool): set<nat> {
    set k | k in Interval(0, n) && p(k)
  }

  ghost predicate Every(n: nat, p: nat -> bool) {
    forall k :: k in Interval(0, n) ==> p(k)
  }

  ghost predicate Any(n: nat, p: nat -> bool) {
    exists k :: k in Interval(0, n) && p(k)
  }

  lemma SelectOneMore(n: nat, p: nat -> bool)
    ensures Select(n + 1, p) == Select(n, p) + if p(n) then {n} else {}
    ensures n !in Select(n, p) && |Select(n, p)| <= n
  {
    SubsetSize(Select(n, p), Interval(0, n));
  }

  lemma PagesAreInterval(address: u64, size: u64)
    requires size > 0
    ensures PagesOf(address, size) == Interval(FirstPage(address), LastAddress(address, size) / PAGE_SIZE + 1)
  {
    var last := LastAddress(address, size);
    forall p: nat | FirstPage(address) <= p <= last / PAGE_SIZE ensures p in PagesOf(address, size) {
      var x := if p == FirstPage(address) then address else p * PAGE_SIZE;
      assert address <= x <= last && x / PAGE_SIZE == p;
    }
  }

  /** The number of distinct pages touched, saturated at 2^32 - 1. */
  lemma CountIsCardinality(address: u64, size: u64)
    ensures CountPagesForRange(address, size) == Min(|PagesOf(address, size)|, MAX_ULONG)
  {
    if size == 0 {
      assert PagesOf(address, size) == {};
    } else {
      PagesAreInterval(address, size);
    }
  }

  // ----- the loop over the pages

  /** `(Address & ~(PAGE_SIZE - 1)) + (page << PAGE_SHIFT)`, or the overflow at which the loop would break. */
  function PageAddress(address: u64, page: nat): Option<u64> {
    AddUnsigned64(address / PAGE_SIZE * PAGE_SIZE, page * PAGE_SIZE % TWO_64)
  }

  /** The address probed for readability: the entry's own in its first page. */
  function ProbeAddress(address: u64, page: nat): u64 {
    if page == 0 || PageAddress(address, page).None? then address else PageAddress(address, page).value
  }

  /** The loop never overflows, and visits the pages of the range in order, each once. */
  lemma PageVisited(address: u64, size: u64, page: nat)
    requires page < CountPagesForRange(address, size)
    ensures PageAddress(address, page) == Some((FirstPage(address) + page) * PAGE_SIZE)
    ensures FirstPage(address) + page in PagesOf(address, size)
    ensures address <= ProbeAddress(address, page) <= LastAddress(address, size)
    ensures ProbeAddress(address, page) / PAGE_SIZE == FirstPage(address) + page
  {
    PagesAreInterval(address, size);
    PageFits(address, LastAddress(address, size), page);
  }

  lemma PageFits(address: u64, last: u64, page: nat)
    requires address <= last && page <= MAX_ULONG && FirstPage(address) + page <= last / PAGE_SIZE
    ensures PageAddress(address, page) == Some((FirstPage(address) + page) * PAGE_SIZE)
    ensures address <= ProbeAddress(address, page) <= last
    ensures ProbeAddress(address, page) / PAGE_SIZE == FirstPage(address) + page
  {
    assert (FirstPage(address) + page) * PAGE_SIZE <= last;
    assert page > 0 ==> (FirstPage(address) + page) * PAGE_SIZE >= address;
  }

  /** Unless the count is saturated, every page is visited. */
  lemma AllPagesVisited(address: u64, size: u64, p: nat)
    requires |PagesOf(address, size)| <= MAX_ULONG && p in PagesOf(address, size)
    ensures FirstPage(address) <= p && p - FirstPage(address) < CountPagesForRange(address, size)
  {
    CountIsCardinality(address, size);
    if size > 0 {
      PagesAreInterval(address, size);
    }
  }

  /**
   * The machine and the memory as the scan finds them when it looks at a page: both may change from
   * page to page. A probe is a copy of one byte, made at the tick of the page's index.
   */
  datatype Sight = Sight(machine: nat -> Machine, copy: CopyOracle) {

    function Probe(tick: nat, address: u64): bool {
      var r := copy(tick, address, 1);
      r.ok && |r.bytes| == 1
    }

    ghost function Attributes(address: u64, page: nat): (Status, PteAttributes) {
      var va := PageAddress(address, page);
      if va.None? then (InvalidAddress, NO_ATTRIBUTES) else Walk(machine(page), va.value)
    }

    ghost predicate WritablePage(address: u64, page: nat) {
      Attributes(address, page).1.writable
    }

    ghost predicate ExecutablePage(address: u64, page: nat) {
      Attributes(address, page).1.executable
    }

    ghost predicate AccessiblePage(address: u64, page: nat) {
      Attributes(address, page).1.present && Probe(page, ProbeAddress(address, page))
    }

    ghost function WritableIn(address: u64, n: nat): set<nat> {
      Select(n, (k: nat) => WritablePage(address, k))
    }

    ghost function ExecutableIn(address: u64, n: nat): set<nat> {
      Select(n, (k: nat) => ExecutablePage(address, k))
    }

    ghost function AccessibleIn(address: u64, n: nat): set<nat> {
      Select(n, (k: nat) => AccessiblePage(address, k))
    }
  }

  function When(condition: bool, flag: Flag): Flags {
    if condition then {flag} else {}
  }

  /** What the flags say, in terms of the first n pages. */
  ghost function FirstPageFlags(sight: Sight, a: u64, n: nat): Flags {
    When(n > 0 && sight.AccessiblePage(a, 0), Accessible)
    + When(n > 0 && sight.WritablePage(a, 0), Writable)
    + When(n > 0 && sight.ExecutablePage(a, 0), Executable)
  }

  ghost function AllPagesFlags(sight: Sight, a: u64, n: nat): Flags {
    var accessible := (k: nat) => sight.AccessiblePage(a, k);
    var writable := (k: nat) => sight.WritablePage(a, k);
    var executable := (k: nat) => sight.ExecutablePage(a, k);
    When(n > 0 && Every(n, accessible), AccessibleAll) + When(n > 0 && Every(n, writable), WritableAll)
    + When(Any(n, executable), ExecutableAny)
    + When(Any(n, writable) && !Every(n, writable), WritableMixed)
    + When(Any(n, executable) && !Every(n, executable), ExecutableMixed)
  }

  // ----- sets of pages and their sizes

  lemma {:induction false} SubsetSize<T>(s: set<T>, t: set<T>)
    requires s <= t
    ensures |s| <= |t| && (|s| == |t| <==> s == t)
  {
    if s == {} {
    } else {
      var x :| x in s;
      SubsetSize(s - {x}, t - {x});
      assert s == s - {x} + {x} && t == t - {x} + {x};
    }
  }

  /** A count is 0, n or between, exactly when no page, every page or only some are counted. */
  lemma SelectionMeans(n: nat, p: nat -> bool)
    ensures |Select(n, p)| <= n
    ensures |Select(n, p)| == n <==> Every(n, p)
    ensures |Select(n, p)| > 0 <==> Any(n, p)
  {
    var s := Select(n, p);
    SubsetSize(s, Interval(0, n));
    if |s| == n {
      forall k | k in Interval(0, n) ensures p(k) {
        assert k in s;
      }
    }
    if Every(n, p) {
      assert s == Interval(0, n);
    }
    if Any(n, p) {
      var k :| k in Interval(0, n) && p(k);
      assert k in s;
    }
    if s != {} {
      var k :| k in s;
      assert k in Interval(0, n);
    }
  }

  lemma OneMorePage(sight: Sight, a: u64, n: nat)
    ensures |sight.WritableIn(a, n + 1)| == |sight.WritableIn(a, n)| + if sight.WritablePage(a, n) then 1 else 0
    ensures |sight.ExecutableIn(a, n + 1)| == |sight.ExecutableIn(a, n)| + if sight.ExecutablePage(a, n) then 1 else 0
    ensures |sight.AccessibleIn(a, n + 1)| == |sight.AccessibleIn(a, n)| + if sight.AccessiblePage(a, n) then 1 else 0
    ensures |sight.WritableIn(a, n)| <= n && |sight.ExecutableIn(a, n)| <= n && |sight.AccessibleIn(a, n)| <= n
  {
    hide Interval, Select, sight.WritablePage, sight.ExecutablePage, sight.AccessiblePage;
    SelectOneMore(n, (k: nat) => sight.WritablePage(a, k));
    SelectOneMore(n, (k: nat) => sight.ExecutablePage(a, k));
    SelectOneMore(n, (k: nat) => sight.AccessiblePage(a, k));
  }

  // ----- annotation

  method IsVirtualAddressReadable(sight: Sight, tick: nat, address: u64) returns (readable: bool)
    ensures readable == sight.Probe(tick, address)
  {
    var value := new byte[1];
    var ok, copied := CopyFromVirtualAddress(sight.copy, tick, address, value, 0, 1);
    readable := ok && copied == 1;
  }

  /** The counters of an entry as annotation leaves them. */
  ghost predicate Counts(e: Entry, sight: Sight, n: nat) {
    && e.accessiblePages == |sight.AccessibleIn(e.address, n)|
    && e.writablePages == |sight.WritableIn(e.address, n)|
    && e.executablePages == |sight.ExecutableIn(e.address, n)|
  }

  /** Nothing but the page counters and the flags differs. */
  ghost predicate SameButPages(e: Entry, f: Entry) {
    e.(flags := f.flags, pageCount := f.pageCount, accessiblePages := f.accessiblePages,
       writablePages := f.writablePages, executablePages := f.executablePages) == f
  }

  lemma PageSeen(sight: Sight, address: u64, page: nat, pageAddress: u64)
    requires PageAddress(address, page) == Some(pageAddress)
    ensures var (status, a) := Walk(sight.machine(page), pageAddress);
            && (sight.WritablePage(address, page) <==> a.writable)
            && (sight.ExecutablePage(address, page) <==> a.executable)
            && (sight.AccessiblePage(address, page) <==> a.present && sight.Probe(page, if page == 0 then address else pageAddress))
            && (status == Success <==> a.present) && (!a.present ==> !a.writable && !a.executable)
  {
    hide Walk, PageAddress, sight.Probe;
    FailureReportsNothing(sight.machine(page), pageAddress);
  }

  method CountPage(entry: PoolEntry, readable: bool, attributes: PteAttributes)
    requires entry.accessiblePages < MAX_ULONG && entry.writablePages < MAX_ULONG && entry.executablePages < MAX_ULONG
    modifies entry`accessiblePages, entry`writablePages, entry`executablePages
    ensures entry.accessiblePages == old(entry.accessiblePages) + if readable then 1 else 0
    ensures entry.writablePages == old(entry.writablePages) + if attributes.writable then 1 else 0
    ensures entry.executablePages == old(entry.executablePages) + if attributes.executable then 1 else 0
  {
    if readable {
      entry.accessiblePages := entry.accessiblePages + 1;
    }
    if attributes.writable {
      entry.writablePages := entry.writablePages + 1;
    }
    if attributes.executable {
      entry.executablePages := entry.executablePages + 1;
    }
  }

  /** The flags of the first page. */
  method FlagFirstPage(entry: PoolEntry, attributes: PteAttributes)
    modifies entry`flags
    ensures entry.flags == old(entry.flags) + When(entry.accessiblePages > 0, Accessible)
                           + When(attributes.writable, Writable) + When(attributes.executable, Executable)
  {
    if entry.accessiblePages > 0 {
      entry.flags := entry.flags + {Accessible};
    }
    if attributes.writable {
      entry.flags := entry.flags + {Writable};
    }
    if attributes.executable {
      entry.flags := entry.flags + {Executable};
    }
  }

  /** The counters and flags of an entry after one page more, given what was seen of it. */
  lemma OnePageCounted(e: Entry, f: Entry, sight: Sight, page: nat, pageAddress: u64)
    requires Counts(e, sight, page) && PageAddress(e.address, page) == Some(pageAddress) && f.address == e.address
    requires var a := Walk(sight.machine(page), pageAddress).1;
             var readable := a.present && sight.Probe(page, if page == 0 then e.address else pageAddress);
             && f.accessiblePages == e.accessiblePages + (if readable then 1 else 0)
             && f.writablePages == e.writablePages + (if a.writable then 1 else 0)
             && f.executablePages == e.executablePages + (if a.executable then 1 else 0)
    ensures Counts(f, sight, page + 1)
  {
    hide Walk, Select, PageAddress, sight.WritableIn, sight.ExecutableIn, sight.AccessibleIn, sight.Probe,
         sight.WritablePage, sight.ExecutablePage, sight.AccessiblePage;
    OneMorePage(sight, e.address, page);
    PageSeen(sight, e.address, page, pageAddress);
  }

  lemma FirstPageFlagged(sight: Sight, address: u64, pageAddress: u64)
    requires PageAddress(address, 0) == Some(pageAddress)
    ensures var a := Walk(sight.machine(0), pageAddress).1;
            FirstPageFlags(sight, address, 1)
            == When(a.present && sight.Probe(0, address), Accessible) + When(a.writable, Writable) + When(a.executable, Executable)
  {
    hide Walk, PageAddress, When, sight.Probe, sight.WritablePage, sight.ExecutablePage, sight.AccessiblePage;
    PageSeen(sight, address, 0, pageAddress);
  }

  /** No counter exceeds the number of pages seen. */
  lemma CountersAreSmall(e: Entry, sight: Sight, page: nat)
    requires Counts(e, sight, page)
    ensures e.accessiblePages <= page && e.writablePages <= page && e.executablePages <= page
  {
    hide Select, sight.WritablePage, sight.ExecutablePage, sight.AccessiblePage;
    OneMorePage(sight, e.address, page);
  }

  /** One round of the loop. */
  method AnnotatePage(entry: PoolEntry, pageTable: array<u64>, sight: Sight, page: u32, pageAddress: u64)
    requires pageTable.Length == TABLE_LENGTH && PageAddress(entry.address, page) == Some(pageAddress)
    requires Counts(entry.Value(), sight, page) && page < MAX_ULONG
    modifies entry, pageTable
    ensures Counts(entry.Value(), sight, page + 1) && SameButPages(old(entry.Value()), entry.Value())
    ensures entry.pageCount == old(entry.pageCount)
    ensures entry.flags == old(entry.flags) + if page == 0 then FirstPageFlags(sight, entry.address, 1) else {}
  {
    hide Walk, Counts, PageAddress, sight.Probe, FirstPageFlags;
    CountersAreSmall(entry.Value(), sight, page);
    FailureReportsNothing(sight.machine(page), pageAddress);
    if page == 0 {
      FirstPageFlagged(sight, entry.address, pageAddress);
    }
    var status, attributes := QueryAddressPteAttributes(sight.machine(page), pageAddress, pageTable);
    if status != Success || !attributes.present {
      OnePageCounted(old(entry.Value()), entry.Value(), sight, page, pageAddress);
      return;
    }
    var readable := IsVirtualAddressReadable(sight, page, if page == 0 then entry.address else pageAddress);
    CountPage(entry, readable, attributes);
    if page == 0 {
      FlagFirstPage(entry, attributes);
    }
    OnePageCounted(old(entry.Value()), entry.Value(), sight, page, pageAddress);
  }

  /** The counts decide the flags about all pages. */
  lemma CountsDecideFlags(sight: Sight, a: u64, n: nat)
    ensures AllPagesFlags(sight, a, n)
         == SummaryFlags(n, |sight.AccessibleIn(a, n)|, |sight.WritableIn(a, n)|, |sight.ExecutableIn(a, n)|)
  {
    hide sight.WritablePage, sight.ExecutablePage, sight.AccessiblePage, Select, Every, Any;
    SelectionMeans(n, (k: nat) => sight.WritablePage(a, k));
    SelectionMeans(n, (k: nat) => sight.ExecutablePage(a, k));
    SelectionMeans(n, (k: nat) => sight.AccessiblePage(a, k));
  }

  function SummaryFlags(n: nat, accessible: nat, writable: nat, executable: nat): Flags {
    When(n != 0 && accessible == n, AccessibleAll) + When(n != 0 && writable == n, WritableAll)
    + When(executable > 0, ExecutableAny)
    + When(writable > 0 && writable < n, WritableMixed) + When(executable > 0 && executable < n, ExecutableMixed)
  }

  /** The flags that sum up the counters. */
  method SetRangeFlags(entry: PoolEntry)
    modifies entry`flags
    ensures entry.flags == old(entry.flags)
            + SummaryFlags(entry.pageCount, entry.accessiblePages, entry.writablePages, entry.executablePages)
  {
    if entry.pageCount != 0 && entry.accessiblePages == entry.pageCount {
      entry.flags := entry.flags + {AccessibleAll};
    }
    if entry.pageCount != 0 && entry.writablePages == entry.pageCount {
      entry.flags := entry.flags + {WritableAll};
    }
    if entry.executablePages > 0 {
      entry.flags := entry.flags + {ExecutableAny};
    }
    if entry.writablePages > 0 && entry.writablePages < entry.pageCount {
      entry.flags := entry.flags + {WritableMixed};
    }
    if entry.executablePages > 0 && entry.executablePages < entry.pageCount {
      entry.flags := entry.flags + {ExecutableMixed};
    }
  }

  /** The whole annotation; without a page table only the entry's first byte is probed. */
  method AnnotatePoolEntryAttributes(entry: PoolEntry, pageTable: array?<u64>, sight: Sight)
    requires entry.accessiblePages == entry.writablePages == entry.executablePages == 0
    requires pageTable != null ==> pageTable.Length == TABLE_LENGTH
    modifies entry, pageTable
    ensures SameButPages(old(entry.Value()), entry.Value())
    ensures entry.pageCount == CountPagesForRange(entry.address, entry.size)
    ensures pageTable != null ==>
              && Counts(entry.Value(), sight, entry.pageCount)
              && entry.flags == old(entry.flags) + FirstPageFlags(sight, entry.address, entry.pageCount)
                                + AllPagesFlags(sight, entry.address, entry.pageCount)
    ensures pageTable == null ==>
              var readable := entry.size > 0 && sight.Probe(0, entry.address);
              && entry.accessiblePages == (if readable then 1 else 0) && entry.writablePages == entry.executablePages == 0
              && entry.flags == old(entry.flags) + When(readable, Accessible)
  {
    hide CountPagesForRange, Select, sight.WritableIn, sight.ExecutableIn, sight.AccessibleIn, sight.Probe,
         PageAddress, FirstPageFlags, AllPagesFlags, SummaryFlags, LastAddress, PagesOf;
    entry.pageCount := CountPagesForRange(entry.address, entry.size);
    var n := entry.pageCount;
    if pageTable == null {
      if entry.size > 0 {
        var readable := IsVirtualAddressReadable(sight, 0, entry.address);
        if readable {
          entry.flags := entry.flags + {Accessible};
          entry.accessiblePages := if n > 0 then 1 else 0;
        }
      }
      NonEmptyHasPages(entry.address, entry.size);
      return;
    }
    NoPagesYet(sight, entry.address);
    var page: nat := 0;
    while page < n
      invariant page <= n && entry.pageCount == n
      invariant SameButPages(old(entry.Value()), entry.Value()) && Counts(entry.Value(), sight, page)
      invariant entry.flags == old(entry.flags) + FirstPageFlags(sight, entry.address, page)
    {
      PageVisited(entry.address, entry.size, page);
      var pageAddress := PageAddress(entry.address, page);
      if pageAddress.None? {
        break;
      }
      AnnotatePage(entry, pageTable, sight, page, pageAddress.value);
      FirstPageDecides(sight, entry.address, page);
      page := page + 1;
    }
    CountsDecideFlags(sight, entry.address, n);
    SetRangeFlags(entry);
  }

  lemma NonEmptyHasPages(address: u64, size: u64)
    ensures CountPagesForRange(address, size) > 0 <==> size > 0
  {
  }

  lemma NoPagesYet(sight: Sight, a: u64)
    ensures |sight.WritableIn(a, 0)| == |sight.ExecutableIn(a, 0)| == |sight.AccessibleIn(a, 0)| == 0
    ensures FirstPageFlags(sight, a, 0) == {}
  {
    SelectOneMore(0, (k: nat) => sight.WritablePage(a, k));
    SelectOneMore(0, (k: nat) => sight.ExecutablePage(a, k));
    SelectOneMore(0, (k: nat) => sight.AccessiblePage(a, k));
  }

  lemma FirstPageDecides(sight: Sight, a: u64, n: nat)
    ensures FirstPageFlags(sight, a, n + 1) == FirstPageFlags(sight, a, 1)
    ensures n > 0 ==> FirstPageFlags(sight, a, n) == FirstPageFlags(sight, a, 1)
  {
  }

  /** A flag is backed by its counter: what is set for the first page was counted. */
  ghost predicate FlagsBacked(e: Entry) {
    && (Accessible in e.flags || AccessibleAll in e.flags ==> e.accessiblePages > 0)
    && (Writable in e.flags || WritableAll in e.flags || WritableMixed in e.flags ==> e.writablePages > 0)
    && (Executable in e.flags || ExecutableAny in e.flags || ExecutableMixed in e.flags ==> e.executablePages > 0)
  }

  lemma FirstIsCounted(n: nat, p: nat -> bool)
    requires n > 0
    ensures p(0) ==> |Select(n, p)| > 0
  {
    assert 0 in Interval(0, n);
    SelectionMeans(n, p);
  }

  lemma FirstPageCounted(sight: Sight, a: u64, n: nat)
    requires n > 0
    ensures sight.AccessiblePage(a, 0) ==> |sight.AccessibleIn(a, n)| > 0
    ensures sight.WritablePage(a, 0) ==> |sight.WritableIn(a, n)| > 0
    ensures sight.ExecutablePage(a, 0) ==> |sight.ExecutableIn(a, n)| > 0
  {
    hide Select, sight.WritablePage, sight.ExecutablePage, sight.AccessiblePage;
    FirstIsCounted(n, (k: nat) => sight.AccessiblePage(a, k));
    FirstIsCounted(n, (k: nat) => sight.WritablePage(a, k));
    FirstIsCounted(n, (k: nat) => sight.ExecutablePage(a, k));
  }

  lemma FirstPageBacked(sight: Sight, a: u64, n: nat)
    ensures var s := FirstPageFlags(sight, a, n);
            && s <= {Accessible, Writable, Executable}
            && (Accessible in s ==> |sight.AccessibleIn(a, n)| > 0)
            && (Writable in s ==> |sight.WritableIn(a, n)| > 0)
            && (Executable in s ==> |sight.ExecutableIn(a, n)| > 0)
  {
    hide sight.WritableIn, sight.ExecutableIn, sight.AccessibleIn,
         sight.WritablePage, sight.ExecutablePage, sight.AccessiblePage;
    if n > 0 {
      FirstPageCounted(sight, a, n);
    }
  }

  lemma FirstPageFlagsMeaning(sight: Sight, a: u64, n: nat)
    ensures var s := FirstPageFlags(sight, a, n);
            && s <= {Accessible, Writable, Executable}
            && (Accessible in s <==> n > 0 && sight.Attributes(a, 0).1.present && sight.Probe(0, a))
            && (Writable in s <==> n > 0 && sight.Attributes(a, 0).1.writable)
            && (Executable in s <==> n > 0 && sight.Attributes(a, 0).1.executable)
  {
    hide sight.Attributes, sight.Probe;
  }

  lemma SummaryMeaning(n: nat, accessible: nat, writable: nat, executable: nat)
    ensures var s := SummaryFlags(n, accessible, writable, executable);
            && s <= {AccessibleAll, WritableAll, ExecutableAny, WritableMixed, ExecutableMixed}
            && (AccessibleAll in s <==> n > 0 && accessible == n)
            && (WritableAll in s <==> n > 0 && writable == n)
            && (ExecutableAny in s <==> executable > 0)
            && (WritableMixed in s <==> 0 < writable < n)
            && (ExecutableMixed in s <==> 0 < executable < n)
  {
  }

  /** What each flag of an annotated entry says about its first page, or about its counters. */
  lemma FlagsMeaning(e: Entry, sight: Sight, n: nat)
    requires Counts(e, sight, n)
    requires e.flags == {NonPaged} + FirstPageFlags(sight, e.address, n) + AllPagesFlags(sight, e.address, n)
    ensures Accessible in e.flags <==> n > 0 && sight.Attributes(e.address, 0).1.present && sight.Probe(0, e.address)
    ensures Writable in e.flags <==> n > 0 && sight.Attributes(e.address, 0).1.writable
    ensures Executable in e.flags <==> n > 0 && sight.Attributes(e.address, 0).1.executable
    ensures AccessibleAll in e.flags <==> n > 0 && e.accessiblePages == n
    ensures WritableAll in e.flags <==> n > 0 && e.writablePages == n
    ensures ExecutableAny in e.flags <==> e.executablePages > 0
    ensures WritableMixed in e.flags <==> 0 < e.writablePages < n
    ensures ExecutableMixed in e.flags <==> 0 < e.executablePages < n
  {
    hide FirstPageFlags, AllPagesFlags, SummaryFlags, sight.WritableIn, sight.ExecutableIn, sight.AccessibleIn,
         sight.Attributes, sight.Probe;
    CountsDecideFlags(sight, e.address, n);
    FirstPageFlagsMeaning(sight, e.address, n);
    SummaryMeaning(n, e.accessiblePages, e.writablePages, e.executablePages);
  }

  /** With a page table, an annotated entry that had no page flags has them backed. */
  lemma AnnotationBacksFlags(e: Entry, sight: Sight, n: nat)
    requires Counts(e, sight, n)
    requires e.flags == {NonPaged} + FirstPageFlags(sight, e.address, n) + AllPagesFlags(sight, e.address, n)
    ensures FlagsBacked(e)
  {
    hide FirstPageFlags, AllPagesFlags, SummaryFlags, sight.WritableIn, sight.ExecutableIn, sight.AccessibleIn;
    CountsDecideFlags(sight, e.address, n);
    SummaryMeaning(n, e.accessiblePages, e.writablePages, e.executablePages);
    FirstPageBacked(sight, e.address, n);
  }
}
