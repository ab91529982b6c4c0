/** The page-by-page report about one entry, and why it agrees with the counters of the scan. */
module PteDetails {
  import opened Base
  import opened Memory
  import opened Pool
  import opened PoolAddress
  import opened Paging
  import opened PageAccounting
  import opened PageTheorems

  const PTE_REQUEST_SIZE: nat := 16
  const PTE_HEADER_SIZE: nat := 32
  const PTE_PAGE_SIZE: nat := 32
  const MAX_PTE_DETAIL_PAGES: nat := 256

  /** KN_DIFF_POOL_PTE_FLAG_*. */
  datatype PteFlag = PtePresent | PteReadable | PteWritable | PteExecutable | PteLargePage

  datatype PtePage = PtePage(virtualAddress: u64, pageIndex: nat, status: Status, flags: set<PteFlag>, pteValue: u64)

  datatype PteResponse = PteResponse(
    address: u64, poolSize: u64, pageCount: u32, flags: Flags, returnedPages: nat, truncated: bool, pages: seq<PtePage>)

  datatype Reply =
    | Refused(status: Status)
    | Details(response: PteResponse, information: nat)

  function FillPtePageInfo(pageIndex: nat, pageAddress: u64, attributes: PteAttributes, status: Status, readable: bool): PtePage {
    PtePage(pageAddress, pageIndex, status,
      (if status == Success && attributes.present then {PtePresent} else {})
      + (if readable then {PteReadable} else {})
      + (if attributes.writable then {PteWritable} else {})
      + (if attributes.executable then {PteExecutable} else {})
      + (if attributes.largePage then {PteLargePage} else {}),
      attributes.rawEntry)
  }

  /** A line of the report says what was seen of its page. */
  ghost predicate LineTells(line: PtePage, sight: Sight, address: u64, k: nat) {
    var (status, attributes) := sight.Attributes(address, k);
    && Some(line.virtualAddress) == PageAddress(address, k)
    && line.pageIndex == k
    && line.status == status
    && line.pteValue == attributes.rawEntry
    && (PtePresent in line.flags <==> attributes.present)
    && (PteReadable in line.flags <==> sight.Probe(k, ProbeAddress(address, k)))
    && (PteWritable in line.flags <==> attributes.writable)
    && (PteExecutable in line.flags <==> attributes.executable)
    && (PteLargePage in line.flags <==> attributes.largePage)
  }

  ghost predicate ReportTells(lines: seq<PtePage>, sight: Sight, address: u64) {
    forall k: nat :: k < |lines| ==> LineTells(lines[k], sight, address, k)
  }

  /** How many of n pages are reached before the page address overflows. */
  function PagesReached(address: u64, n: nat): (r: nat)
    ensures r <= n
  {
    if n == 0 then 0
    else if PagesReached(address, n - 1) == n - 1 && PageAddress(address, n - 1).Some? then n
    else PagesReached(address, n - 1)
  }

  lemma {:induction false} AllReached(address: u64, size: u64, n: nat)
    requires n <= CountPagesForRange(address, size)
    ensures PagesReached(address, n) == n
  {
    hide CountPagesForRange;
    if n == 0 {
    } else {
      AllReached(address, size, n - 1);
      PageVisited(address, size, n - 1);
    }
  }

  lemma {:induction false} StoppedReach(address: u64, k: nat, n: nat)
    requires k < n && PagesReached(address, k) == k && PageAddress(address, k).None?
    ensures PagesReached(address, n) == k
  {
    if n == k + 1 {
    } else {
      StoppedReach(address, k, n - 1);
    }
  }

  method DescribePage(address: u64, sight: Sight, page: nat, pageAddress: u64, pageTable: array<u64>) returns (line: PtePage)
    requires pageTable.Length == TABLE_LENGTH && PageAddress(address, page) == Some(pageAddress)
    modifies pageTable
    ensures LineTells(line, sight, address, page)
  {
    hide Walk, sight.Probe, PageAddress;
    FailureReportsNothing(sight.machine(page), pageAddress);
    var status, attributes := QueryAddressPteAttributes(sight.machine(page), pageAddress, pageTable);
    var readable := IsVirtualAddressReadable(sight, page, if page == 0 then address else pageAddress);
    line := FillPtePageInfo(page, pageAddress, attributes, status, readable);
  }

  method DescribePages(address: u64, n: nat, sight: Sight) returns (lines: seq<PtePage>)
    ensures ReportTells(lines, sight, address) && |lines| == PagesReached(address, n)
  {
    hide LineTells, PageAddress, PagesReached;
    var pageTable := new u64[TABLE_LENGTH];
    lines := [];
    NothingReached(address);
    while |lines| < n
      invariant |lines| <= n && ReportTells(lines, sight, address) && PagesReached(address, |lines|) == |lines|
      decreases n - |lines|
    {
      var page := |lines|;
      var pageAddress := PageAddress(address, page);
      if pageAddress.None? {
        StoppedReach(address, page, n);
        break;
      }
      OneMoreReached(address, page);
      var line := DescribePage(address, sight, page, pageAddress.value, pageTable);
      lines := lines + [line];
    }
  }

  lemma NothingReached(address: u64)
    ensures PagesReached(address, 0) == 0
  {
  }

  lemma OneMoreReached(address: u64, n: nat)
    requires PagesReached(address, n) == n && PageAddress(address, n).Some?
    ensures PagesReached(address, n + 1) == n + 1
  {
  }

  function PageLimit(maxPages: u32): nat {
    if maxPages == 0 || maxPages > MAX_PTE_DETAIL_PAGES then MAX_PTE_DETAIL_PAGES else maxPages
  }

  /** As many pages as the entry has, as fit, as are allowed, and as are asked for. */
  function PagesToReturn(entry: Entry, maxPages: u32, capacity: nat): (r: nat)
    ensures r <= entry.pageCount && r <= capacity && r <= 256 && (1 <= maxPages <= 256 ==> r <= maxPages)
    ensures r == entry.pageCount || r == capacity || r == 256 || 1 <= r == maxPages
  {
    Min(Min(entry.pageCount, capacity), PageLimit(maxPages))
  }

  /** What the driver answers about an entry it found. */
  ghost predicate Describes(r: PteResponse, entry: Entry, n: nat, sight: Sight) {
    && r.address == entry.address && r.poolSize == entry.size && r.pageCount == entry.pageCount && r.flags == entry.flags
    && r.returnedPages == |r.pages| == PagesReached(entry.address, n)
    && (r.truncated <==> r.returnedPages < entry.pageCount)
    && ReportTells(r.pages, sight, entry.address)
  }

  method HandleGetPteDetails(diff: seq<Entry>, current: seq<Entry>, inputLength: nat, outputLength: nat,
                             address: u64, maxPages: u32, allocOk: bool, sight: Sight)
    returns (reply: Reply)
    ensures var found := Preferred(diff, current, (e: Entry) => AddressInPoolEntry(e, address));
            if inputLength < PTE_REQUEST_SIZE then reply == Refused(InvalidParameter)
            else if outputLength < PTE_HEADER_SIZE then reply == Refused(BufferTooSmall)
            else if found.None? then reply == Refused(NotFound)
            else
              var n := PagesToReturn(found.value, maxPages, (outputLength - PTE_HEADER_SIZE) / PTE_PAGE_SIZE);
              if n > 0 && !allocOk then reply == Refused(InsufficientResources)
              else
                && reply.Details? && Describes(reply.response, found.value, n, sight)
                && reply.information == PTE_HEADER_SIZE + PTE_PAGE_SIZE * reply.response.returnedPages
    ensures reply.Details? ==> AddressInPoolEntry(
              Entry(reply.response.address, reply.response.poolSize, 0, {}, 0, 0, 0, 0, 0, 0, 0), address)
  {
    hide ReportTells, Preferred;
    if inputLength < PTE_REQUEST_SIZE {
      return Refused(InvalidParameter);
    }
    if outputLength < PTE_HEADER_SIZE {
      return Refused(BufferTooSmall);
    }
    var found := FindPteEntryByAddress(diff, current, address);
    if found.None? {
      return Refused(NotFound);
    }
    var entry := found.value;
    var n := PagesToReturn(entry, maxPages, (outputLength - PTE_HEADER_SIZE) / PTE_PAGE_SIZE);
    if n == 0 {
      NothingReported(sight, entry.address);
      return Details(PteResponse(entry.address, entry.size, entry.pageCount, entry.flags, 0, entry.pageCount != 0, []),
                     PTE_HEADER_SIZE);
    }
    if !allocOk {
      return Refused(InsufficientResources);
    }
    var pages := DescribePages(entry.address, n, sight);
    return Details(PteResponse(entry.address, entry.size, entry.pageCount, entry.flags,
                               |pages|, |pages| < entry.pageCount, pages),
                   PTE_HEADER_SIZE + PTE_PAGE_SIZE * |pages|);
  }

  lemma NothingReported(sight: Sight, address: u64)
    ensures ReportTells([], sight, address)
  {
  }

  // ----- the client

  datatype ClientResult = Failed(status: Status) | Rejected | Accepted(response: PteResponse)

  /** The checks of the client on the reply, which for a well-behaved driver never fail. */
  method PTEDetails(diff: seq<Entry>, current: seq<Entry>, address: u64, maxPages: u32, allocOk: bool, sight: Sight)
    returns (result: ClientResult)
    ensures !result.Rejected?
    ensures var found := Preferred(diff, current, (e: Entry) => AddressInPoolEntry(e, address));
            && (found.None? ==> result == Failed(NotFound))
            && (found.Some? && allocOk ==>
                  && result.Accepted?
                  && Describes(result.response, found.value,
                               Min(found.value.pageCount, if 1 <= maxPages <= 256 then maxPages else 256), sight))
  {
    hide ReportTells, Preferred, AddressInPoolEntry, AddressInEntry;
    var limit := PageLimit(maxPages);
    var outputSize := PTE_HEADER_SIZE + limit * PTE_PAGE_SIZE;
    var reply := HandleGetPteDetails(diff, current, PTE_REQUEST_SIZE, outputSize, address, limit, allocOk, sight);
    if reply.Refused? {
      return Failed(reply.status);
    }
    var r, returned := reply.response, reply.information;
    if returned < PTE_HEADER_SIZE {
      return Rejected;
    }
    var range := Entry(r.address, r.poolSize, 0, {}, 0, 0, 0, 0, 0, 0, 0);
    ClientAgrees(range, address);
    if !AddressInEntry(address, range) {
      return Rejected;
    }
    if r.returnedPages > limit {
      return Rejected;
    }
    if returned < PTE_HEADER_SIZE + r.returnedPages * PTE_PAGE_SIZE {
      return Rejected;
    }
    return Accepted(r);
  }

  // ----- details against summary

  ghost function Flagged(lines: seq<PtePage>, flags: set<PteFlag>): set<nat> {
    set k | k in Interval(0, |lines|) && k < |lines| && flags <= lines[k].flags
  }

  /** Two looks at an entry that found the same at each page. */
  ghost predicate SameSight(a: Sight, b: Sight, address: u64, n: nat) {
    forall k :: k in Interval(0, n) ==>
      a.Attributes(address, k) == b.Attributes(address, k)
      && a.Probe(k, ProbeAddress(address, k)) == b.Probe(k, ProbeAddress(address, k))
  }

  /** With paging and memory at rest all looks find the same. */
  lemma RestGivesSameSight(a: Sight, b: Sight, m: Machine, memory: PageMemory, address: u64, n: nat)
    requires AtRest(a, m, memory) && AtRest(b, m, memory)
    ensures SameSight(a, b, address, n)
  {
    hide Walk, PageAddress, Interval;
    forall k: nat ensures a.Attributes(address, k) == b.Attributes(address, k)
                          && a.Probe(k, ProbeAddress(address, k)) == b.Probe(k, ProbeAddress(address, k)) {
      assert a.machine(k) == b.machine(k) == m;
      memory.Served(a.copy, k, ProbeAddress(address, k), 1);
      memory.Served(b.copy, k, ProbeAddress(address, k), 1);
    }
  }

  lemma FlaggedIsCounted(lines: seq<PtePage>, report: Sight, scan: Sight, address: u64)
    requires ReportTells(lines, report, address) && SameSight(report, scan, address, |lines|)
    ensures Flagged(lines, {PteWritable}) == scan.WritableIn(address, |lines|)
    ensures Flagged(lines, {PteExecutable}) == scan.ExecutableIn(address, |lines|)
    ensures Flagged(lines, {PtePresent, PteReadable}) == scan.AccessibleIn(address, |lines|)
  {
    hide Walk, PageAddress, ProbeAddress, Interval, scan.Attributes, report.Attributes;
    forall k | k in Interval(0, |lines|)
      ensures {PteWritable} <= lines[k].flags <==> scan.WritablePage(address, k)
      ensures {PteExecutable} <= lines[k].flags <==> scan.ExecutablePage(address, k)
      ensures {PtePresent, PteReadable} <= lines[k].flags <==> scan.AccessiblePage(address, k)
    {
      assert LineTells(lines[k], report, address, k);
    }
  }

  /** The report has as many pages of each kind as the entry counts. */
  ghost predicate Agrees(lines: seq<PtePage>, e: Entry) {
    && |Flagged(lines, {PteWritable})| == e.writablePages
    && |Flagged(lines, {PteExecutable})| == e.executablePages
    && |Flagged(lines, {PtePresent, PteReadable})| == e.accessiblePages
  }

  /** An untruncated report has a line for each page, and they are flagged as the sight at the report says. */
  lemma ReportIsCounted(r: PteResponse, e: Entry, n: nat, report: Sight)
    requires Describes(r, e, n, report) && !r.truncated && n <= e.pageCount
    ensures |r.pages| == e.pageCount
    ensures Agrees(r.pages, e) <==> Counts(e, report, e.pageCount)
  {
    hide ReportTells, SameSight, Flagged, PagesReached, report.WritableIn, report.ExecutableIn, report.AccessibleIn;
    SameSightAsItself(report, e.address, |r.pages|);
    FlaggedIsCounted(r.pages, report, report, e.address);
  }

  lemma SameSightAsItself(sight: Sight, address: u64, n: nat)
    ensures SameSight(sight, sight, address, n)
  {
  }

  lemma SameSightSameCounts(a: Sight, b: Sight, e: Entry, n: nat)
    requires SameSight(a, b, e.address, n)
    ensures Counts(e, a, n) <==> Counts(e, b, n)
  {
    hide Walk, PageAddress, ProbeAddress, a.Attributes, b.Attributes, a.Probe, b.Probe, Interval;
    assert a.WritableIn(e.address, n) == b.WritableIn(e.address, n);
    assert a.ExecutableIn(e.address, n) == b.ExecutableIn(e.address, n);
    assert a.AccessibleIn(e.address, n) == b.AccessibleIn(e.address, n);
  }

  /** An untruncated report agrees with an entry that was counted under the same paging state. */
  lemma DetailsAgreeWithSummary(r: PteResponse, e: Entry, n: nat, report: Sight, scan: Sight)
    requires Describes(r, e, n, report) && !r.truncated && n <= e.pageCount
    requires Counts(e, scan, e.pageCount) && SameSight(report, scan, e.address, e.pageCount)
    ensures |r.pages| == e.pageCount && Agrees(r.pages, e)
  {
    hide ReportTells, SameSight, Agrees, Counts, PagesReached;
    ReportIsCounted(r, e, n, report);
    SameSightSameCounts(report, scan, e, e.pageCount);
  }

  /** What the fallback without a page table records: whether the first byte can be read, and nothing else. */
  ghost predicate CountsFirstByte(e: Entry, readable: bool) {
    e.accessiblePages == (if readable then 1 else 0) && e.writablePages == e.executablePages == 0
  }

  /**
   * A report agrees with an entry counted without a page table exactly when it finds no page writable and none
   * executable, and as many accessible ones as first bytes could be read: one or none.
   */
  lemma DetailsAgreeWithFallbackIff(r: PteResponse, e: Entry, n: nat, report: Sight, readable: bool)
    requires Describes(r, e, n, report) && !r.truncated && n <= e.pageCount && CountsFirstByte(e, readable)
    ensures Agrees(r.pages, e) <==>
            && report.WritableIn(e.address, e.pageCount) == {}
            && report.ExecutableIn(e.address, e.pageCount) == {}
            && |report.AccessibleIn(e.address, e.pageCount)| == (if readable then 1 else 0)
  {
    hide ReportTells, Agrees, PagesReached, report.WritableIn, report.ExecutableIn, report.AccessibleIn;
    ReportIsCounted(r, e, n, report);
  }

  /** A report is truncated exactly when the limits of the request cut it. */
  lemma TruncatedIffCut(r: PteResponse, e: Entry, n: nat, sight: Sight)
    requires Describes(r, e, n, sight) && e.pageCount == CountPagesForRange(e.address, e.size) && n <= e.pageCount
    ensures r.returnedPages == n && (r.truncated <==> n < e.pageCount)
  {
    AllReached(e.address, e.size, n);
  }

  /** The one entry of a snapshot is found by each of its addresses. */
  lemma OnlyEntryIsFound(e: Entry, address: u64)
    requires AddressInPoolEntry(e, address)
    ensures Preferred([], [e], (f: Entry) => AddressInPoolEntry(f, address)) == Some(e)
  {
  }

  /** Annotating an entry and asking for its pages, with paging and memory at rest: the report agrees if it is complete. */
  method AnnotateThenDescribe(entry: PoolEntry, pageTable: array?<u64>, scan: Sight, report: Sight, address: u64,
                              outputLength: nat, ghost machine: Machine, ghost memory: PageMemory)
    returns (reply: Reply)
    requires entry.accessiblePages == entry.writablePages == entry.executablePages == 0
    requires pageTable != null ==> pageTable.Length == TABLE_LENGTH
    requires AtRest(scan, machine, memory) && AtRest(report, machine, memory)
    requires AddressInPoolEntry(entry.Value(), address) && outputLength >= PTE_HEADER_SIZE
    modifies entry, pageTable
    ensures reply.Details?
    ensures !reply.response.truncated && pageTable != null ==> Agrees(reply.response.pages, entry.Value())
    ensures !reply.response.truncated && pageTable == null ==>
              (Agrees(reply.response.pages, entry.Value()) <==>
                 && report.WritableIn(entry.address, entry.pageCount) == {}
                 && report.ExecutableIn(entry.address, entry.pageCount) == {}
                 && |report.AccessibleIn(entry.address, entry.pageCount)| == if scan.Probe(0, entry.address) then 1 else 0)
  {
    hide AtRest, Counts, Agrees, FirstPageFlags, AllPagesFlags, Preferred, AddressInPoolEntry, CountPagesForRange,
         ReportTells, PagesReached, SameSight, scan.Probe, report.WritableIn, report.ExecutableIn, report.AccessibleIn;
    OwnsItsAddress(entry.Value(), address);
    AnnotatePoolEntryAttributes(entry, pageTable, scan);
    var e := entry.Value();
    SameRange(e, old(entry.Value()), address);
    OnlyEntryIsFound(e, address);
    reply := HandleGetPteDetails([], [e], PTE_REQUEST_SIZE, outputLength, address, 0, true, report);
    if !reply.response.truncated {
      ghost var n := PagesToReturn(e, 0, (outputLength - PTE_HEADER_SIZE) / PTE_PAGE_SIZE);
      if pageTable != null {
        RestGivesSameSight(report, scan, machine, memory, e.address, e.pageCount);
        DetailsAgreeWithSummary(reply.response, e, n, report, scan);
      } else {
        DetailsAgreeWithFallbackIff(reply.response, e, n, report, scan.Probe(0, e.address));
      }
    }
  }

  lemma OwnsItsAddress(e: Entry, address: u64)
    requires AddressInPoolEntry(e, address)
    ensures e.size > 0
  {
  }

  lemma SameRange(e: Entry, f: Entry, address: u64)
    requires e.address == f.address && e.size == f.size && AddressInPoolEntry(f, address)
    ensures AddressInPoolEntry(e, address)
  {
  }
}
