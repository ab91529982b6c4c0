/** The lists the user sees: entries and search results, filtered and sorted. */
module FilterSort {
  import opened Base
  import opened Pool
  import opened Sequences
  import opened StableSort
  import opened PageAccounting
  import SearchSpec
  import Diff

  datatype TriState = Any | Yes | No

  datatype SortMode = ByAddress | ByPagesDescending

  datatype Filter = Filter(tag: string, accessible: TriState, writable: TriState, executable: TriState)

  // ----- tags

  function TagByte(tag: u32, i: nat): byte
    requires i < 4
  {
    match i
    case 0 => tag % 0x100
    case 1 => tag / 0x100 % 0x100
    case 2 => tag / 0x1_0000 % 0x100
    case _ => tag / 0x100_0000 % 0x100
  }

  function TagString(tag: u32): (s: string)
    ensures |s| == 4
  {
    seq(4, i requires 0 <= i < 4 =>
      var b := TagByte(tag, i);
      if b < 0x20 || b > 0x7e then '.' else b as char)
  }

  /**
   * Upper case as far as a tag can tell. A tag holds printable ASCII only; beyond ASCII just the dotless i and the
   * long s have an upper case in it, so whatever else a filter holds is not found in any tag.
   */
  function ToUpper(s: string): (r: string)
    ensures |r| == |s|
  {
    seq(|s|, i requires 0 <= i < |s| => UpperCase(s[i]))
  }

  function UpperCase(c: char): char {
    if 'a' <= c <= 'z' then c - 'a' + 'A'
    else if c == '\U{131}' then 'I'
    else if c == '\U{17F}' then 'S'
    else c
  }

  predicate Contains(s: string, part: string) {
    exists i :: 0 <= i <= |s| && part <= s[i..]
  }

  // ----- filters

  predicate MatchTriState(state: TriState, value: bool) {
    match state
    case Yes => value
    case No => !value
    case Any => true
  }

  predicate MatchesTag(filter: Filter, tag: u32) {
    filter.tag == "" || Contains(ToUpper(TagString(tag)), ToUpper(filter.tag))
  }

  /** The letters of a tag are the bytes of the number, lowest first; a dot stands for a byte that cannot be shown. */
  lemma TagStringMeaning(tag: u32) returns (a: byte, b: byte, c: byte, d: byte)
    ensures tag == Number(a, b, c, d)
    ensures TagString(tag) == [Letter(a), Letter(b), Letter(c), Letter(d)]
  {
    a, b, c, d := TagByte(tag, 0), TagByte(tag, 1), TagByte(tag, 2), TagByte(tag, 3);
    TagBytes(tag);
    hide TagByte;
    assert forall i :: 0 <= i < 4 ==> TagString(tag)[i] == Letter(TagByte(tag, i));
  }

  ghost function Number(a: nat, b: nat, c: nat, d: nat): nat {
    a + b * 0x100 + c * 0x1_0000 + d * 0x100_0000
  }

  lemma TagBytes(tag: u32)
    ensures tag == Number(TagByte(tag, 0), TagByte(tag, 1), TagByte(tag, 2), TagByte(tag, 3))
  {
    var q := tag / 0x100;
    assert tag / 0x1_0000 == q / 0x100;
    assert tag / 0x100_0000 == q / 0x100 / 0x100;
  }

  ghost function Letter(b: nat): char {
    if 0x20 <= b <= 0x7E then b as char else '.'
  }

  /** A letter of a tag and one of a filter agree: they are equal, or differ in case, the two odd letters included. */
  ghost predicate SameLetter(c: char, d: char) {
    || c == d
    || ('A' <= c <= 'Z' && d as int == c as int + 32)
    || ('a' <= c <= 'z' && d as int == c as int - 32)
    || ((c == 'i' || c == 'I') && d == '\U{131}')
    || ((c == 's' || c == 'S') && d == '\U{17F}')
  }

  ghost predicate PartAt(s: string, part: string, i: nat) {
    i + |part| <= |s| && forall j :: 0 <= j < |part| ==> SameLetter(s[i + j], part[j])
  }

  lemma SameUpperCase(c: char, d: char)
    requires c <= '~'
    ensures UpperCase(c) == UpperCase(d) <==> SameLetter(c, d)
  {
  }

  /** A tag passes the filter iff the filter is empty or stands somewhere in the tag, upper and lower case alike. */
  lemma MatchesTagMeaning(filter: Filter, tag: u32)
    ensures MatchesTag(filter, tag) <==> filter.tag == "" || exists i: nat :: PartAt(TagString(tag), filter.tag, i)
  {
    hide UpperCase, SameLetter;
    var s, part := ToUpper(TagString(tag)), ToUpper(filter.tag);
    forall i: nat | i <= |s| ensures part <= s[i..] <==> PartAt(TagString(tag), filter.tag, i) {
      PartIsFound(TagString(tag), filter.tag, i);
    }
    if i: nat :| PartAt(TagString(tag), filter.tag, i) {
      assert part <= s[i..];
    }
  }

  lemma PartIsFound(s: string, part: string, i: nat)
    requires i <= |s| && forall c :: c in s ==> c <= '~'
    ensures ToUpper(part) <= ToUpper(s)[i..] <==> PartAt(s, part, i)
  {
    hide UpperCase, SameLetter;
    var t, q := ToUpper(s)[i..], ToUpper(part);
    if i + |part| <= |s| {
      forall j | 0 <= j < |part| ensures t[j] == q[j] <==> SameLetter(s[i + j], part[j]) {
        assert s[i + j] in s;
        SameUpperCase(s[i + j], part[j]);
      }
      assert q <= t <==> forall j :: 0 <= j < |part| ==> t[j] == q[j];
    }
  }

  predicate IsForeign(c: char) {
    c > '~' && c != '\U{131}' && c != '\U{17F}'
  }

  /** A filter with a letter that has no ASCII upper case matches no tag: its own upper case does not matter. */
  lemma ForeignLettersMatchNothing(filter: Filter, tag: u32, k: nat)
    requires k < |filter.tag| && IsForeign(filter.tag[k])
    ensures !MatchesTag(filter, tag)
  {
    var s, part := ToUpper(TagString(tag)), ToUpper(filter.tag);
    assert part[k] == filter.tag[k];
    assert forall c :: c in s ==> c <= '~';
    forall i: nat | i <= |s| ensures !(part <= s[i..]) {
      PartsAreInside(s, part, i, k);
    }
  }

  lemma PartsAreInside(s: string, part: string, i: nat, k: nat)
    requires i <= |s| && k < |part|
    ensures part <= s[i..] ==> part[k] in s
  {
    if part <= s[i..] {
      assert part[k] == s[i + k];
    }
  }

  predicate MatchesFilters(filter: Filter, e: Entry) {
    && MatchesTag(filter, e.tag)
    && MatchTriState(filter.accessible, e.accessiblePages > 0 || Accessible in e.flags)
    && MatchTriState(filter.writable, e.writablePages > 0 || Writable in e.flags)
    && MatchTriState(filter.executable, e.executablePages > 0 || ExecutableAny in e.flags || Executable in e.flags)
  }

  /** On an entry whose flags are backed by its counters the filters ask for pages with a right, or for none. */
  lemma FiltersReadCounters(filter: Filter, e: Entry)
    requires FlagsBacked(e)
    ensures MatchesFilters(filter, e) <==>
            && MatchesTag(filter, e.tag)
            && (filter.accessible == Yes ==> e.accessiblePages > 0) && (filter.accessible == No ==> e.accessiblePages == 0)
            && (filter.writable == Yes ==> e.writablePages > 0) && (filter.writable == No ==> e.writablePages == 0)
            && (filter.executable == Yes ==> e.executablePages > 0) && (filter.executable == No ==> e.executablePages == 0)
  {
  }

  function SearchResultEntry(r: SearchResult): Entry {
    Entry(r.address, r.poolSize, r.tag, r.flags, r.pageCount, r.accessiblePages, r.writablePages, r.executablePages,
          r.contentHash, r.hashedBytes, r.snapshotId)
  }

  /** What the client makes of a search result is the entry that the driver found it in. */
  lemma ResultsAreTheirEntries(e: Entry, offset: u64)
    ensures SearchResultEntry(SearchSpec.ResultFor(e, offset)) == e
    ensures var r := SearchSpec.ResultFor(e, offset);
            && r.address == e.address && r.poolSize == e.size && r.offset == offset && r.tag == e.tag && r.flags == e.flags
            && r.pageCount == e.pageCount && r.accessiblePages == e.accessiblePages && r.writablePages == e.writablePages
            && r.executablePages == e.executablePages && r.contentHash == e.contentHash
  {
  }

  /** Flags of the current snapshot are still backed where the diff reports them. */
  lemma {:induction false} DiffKeepsBacking(baseline: seq<Entry>, current: seq<Entry>)
    requires forall e :: e in current ==> FlagsBacked(e)
    ensures forall e :: e in Diff.DiffOf(baseline, current) ==> FlagsBacked(e)
  {
    if current == [] {
    } else {
      var n := |current| - 1;
      DiffKeepsBacking(baseline, current[..n]);
      assert current[n] in current;
    }
  }

  // ----- order

  predicate EntryLess(left: Entry, right: Entry, mode: SortMode) {
    if mode == ByPagesDescending && left.pageCount != right.pageCount then left.pageCount > right.pageCount
    else if mode == ByPagesDescending && left.size != right.size then left.size > right.size
    else if left.address != right.address then left.address < right.address
    else if left.size != right.size then left.size < right.size
    else left.tag < right.tag
  }

  predicate SearchResultLess(left: SearchResult, right: SearchResult, mode: SortMode) {
    if mode == ByPagesDescending && left.pageCount != right.pageCount then left.pageCount > right.pageCount
    else if mode == ByPagesDescending && left.poolSize != right.poolSize then left.poolSize > right.poolSize
    else if left.address != right.address then left.address < right.address
    else if left.offset != right.offset then left.offset < right.offset
    else left.tag < right.tag
  }

  function EntryOrder(mode: SortMode): Less<Entry> {
    (a, b) => EntryLess(a, b, mode)
  }

  function SearchOrder(mode: SortMode): Less<SearchResult> {
    (a, b) => SearchResultLess(a, b, mode)
  }

  lemma EntryOrderIsStrictWeak(mode: SortMode)
    ensures StrictWeakOrder(EntryOrder(mode))
  {
    var less := EntryOrder(mode);
    forall a, b, c | less(a, b) && less(b, c) ensures less(a, c) {
    }
    forall a, b, c | Equivalent(less, a, b) && Equivalent(less, b, c) ensures Equivalent(less, a, c) {
    }
  }

  lemma SearchOrderIsStrictWeak(mode: SortMode)
    ensures StrictWeakOrder(SearchOrder(mode))
  {
    var less := SearchOrder(mode);
    forall a, b, c | less(a, b) && less(b, c) ensures less(a, c) {
    }
    forall a, b, c | Equivalent(less, a, b) && Equivalent(less, b, c) ensures Equivalent(less, a, c) {
    }
  }

  /** Two entries tie only if they agree in address, size and tag, and by pages also in the page count. */
  lemma TiesAgree(a: Entry, b: Entry, mode: SortMode)
    ensures Equivalent(EntryOrder(mode), a, b) <==>
            a.address == b.address && a.size == b.size && a.tag == b.tag && (mode == ByPagesDescending ==> a.pageCount == b.pageCount)
  {
  }

  // ----- the visible lists

  function Matching(filter: Filter): Entry -> bool {
    e => MatchesFilters(filter, e)
  }

  function MatchingResults(filter: Filter): SearchResult -> bool {
    r => MatchesFilters(filter, SearchResultEntry(r))
  }

  function VisibleEntries(filter: Filter, mode: SortMode, source: seq<Entry>): seq<Entry> {
    Sort(EntryOrder(mode), Selected(source, Matching(filter)))
  }

  function VisibleSearch(filter: Filter, mode: SortMode, source: seq<SearchResult>): seq<SearchResult> {
    Sort(SearchOrder(mode), Selected(source, MatchingResults(filter)))
  }

  method ComputeVisibleEntries(filter: Filter, mode: SortMode, source: seq<Entry>) returns (entries: seq<Entry>)
    ensures entries == VisibleEntries(filter, mode, source)
  {
    hide MatchesFilters, Sort;
    entries := [];
    for i := 0 to |source|
      invariant entries == Selected(source[..i], Matching(filter))
    {
      SelectedStep(source, Matching(filter), i);
      if MatchesFilters(filter, source[i]) {
        entries := entries + [source[i]];
      }
    }
    assert source[..|source|] == source;
    entries := Sort(EntryOrder(mode), entries);
  }

  method ComputeVisibleSearch(filter: Filter, mode: SortMode, source: seq<SearchResult>) returns (results: seq<SearchResult>)
    ensures results == VisibleSearch(filter, mode, source)
  {
    hide MatchesFilters, Sort;
    results := [];
    for i := 0 to |source|
      invariant results == Selected(source[..i], MatchingResults(filter))
    {
      SelectedStep(source, MatchingResults(filter), i);
      if MatchesFilters(filter, SearchResultEntry(source[i])) {
        results := results + [source[i]];
      }
    }
    assert source[..|source|] == source;
    results := Sort(SearchOrder(mode), results);
  }

  /** Entry `a` may stand before `b`: by address, size and tag ascending; or by pages and size descending, then address and tag. */
  ghost predicate MayPrecede(a: Entry, b: Entry, mode: SortMode) {
    if mode == ByAddress then
      a.address < b.address || (a.address == b.address && (a.size < b.size || (a.size == b.size && a.tag <= b.tag)))
    else
      || a.pageCount > b.pageCount
      || (a.pageCount == b.pageCount &&
           (a.size > b.size || (a.size == b.size && (a.address < b.address || (a.address == b.address && a.tag <= b.tag)))))
  }

  ghost predicate ResultMayPrecede(a: SearchResult, b: SearchResult, mode: SortMode) {
    if mode == ByAddress then
      a.address < b.address || (a.address == b.address && (a.offset < b.offset || (a.offset == b.offset && a.tag <= b.tag)))
    else
      || a.pageCount > b.pageCount
      || (a.pageCount == b.pageCount &&
           (a.poolSize > b.poolSize ||
             (a.poolSize == b.poolSize &&
               (a.address < b.address || (a.address == b.address && (a.offset < b.offset || (a.offset == b.offset && a.tag <= b.tag)))))))
  }

  lemma PrecedesIsNotLess(a: Entry, b: Entry, mode: SortMode)
    ensures !EntryLess(b, a, mode) <==> MayPrecede(a, b, mode)
  {
  }

  lemma ResultPrecedesIsNotLess(a: SearchResult, b: SearchResult, mode: SortMode)
    ensures !SearchResultLess(b, a, mode) <==> ResultMayPrecede(a, b, mode)
  {
  }

  /** The visible entries: exactly the matching ones, in the order of their fields, ties in source order. */
  lemma VisibleEntriesMeaning(filter: Filter, mode: SortMode, source: seq<Entry>, e: Entry)
    ensures var v := VisibleEntries(filter, mode, source);
            && multiset(v)[e] == (if MatchesFilters(filter, e) then multiset(source)[e] else 0)
            && (forall i, j :: 0 <= i < j < |v| ==> MayPrecede(v[i], v[j], mode))
            && ClassOf(EntryOrder(mode), v, e) == ClassOf(EntryOrder(mode), Selected(source, Matching(filter)), e)
  {
    hide MatchesFilters, StrictWeakOrder, EntryLess, MayPrecede, Selected, Sort;
    EntryOrderIsStrictWeak(mode);
    SelectedCounts(source, Matching(filter), e);
    SortOrders(EntryOrder(mode), Selected(source, Matching(filter)));
    SortKeepsClass(EntryOrder(mode), Selected(source, Matching(filter)), e);
    var v := VisibleEntries(filter, mode, source);
    forall i, j | 0 <= i < j < |v| ensures MayPrecede(v[i], v[j], mode) {
      PrecedesIsNotLess(v[i], v[j], mode);
      assert !EntryOrder(mode)(v[j], v[i]);
    }
  }

  lemma VisibleSearchMeaning(filter: Filter, mode: SortMode, source: seq<SearchResult>, r: SearchResult)
    ensures var v := VisibleSearch(filter, mode, source);
            && multiset(v)[r] == (if MatchesFilters(filter, SearchResultEntry(r)) then multiset(source)[r] else 0)
            && (forall i, j :: 0 <= i < j < |v| ==> ResultMayPrecede(v[i], v[j], mode))
            && ClassOf(SearchOrder(mode), v, r) == ClassOf(SearchOrder(mode), Selected(source, MatchingResults(filter)), r)
  {
    hide MatchesFilters, StrictWeakOrder, SearchResultLess, ResultMayPrecede, Selected, Sort;
    SearchOrderIsStrictWeak(mode);
    SelectedCounts(source, MatchingResults(filter), r);
    SortOrders(SearchOrder(mode), Selected(source, MatchingResults(filter)));
    SortKeepsClass(SearchOrder(mode), Selected(source, MatchingResults(filter)), r);
    var v := VisibleSearch(filter, mode, source);
    forall i, j | 0 <= i < j < |v| ensures ResultMayPrecede(v[i], v[j], mode) {
      ResultPrecedesIsNotLess(v[i], v[j], mode);
      assert !SearchOrder(mode)(v[j], v[i]);
    }
  }

  /** Whatever `sort.SliceStable` does, as long as it keeps its promise, the visible entries are these. */
  lemma AnyStableSortShowsTheSame(filter: Filter, mode: SortMode, source: seq<Entry>, shown: seq<Entry>)
    requires Ordered(EntryOrder(mode), shown) && SameClasses(EntryOrder(mode), shown, Selected(source, Matching(filter)))
    ensures shown == VisibleEntries(filter, mode, source)
  {
    EntryOrderIsStrictWeak(mode);
    hide EntryOrder, StrictWeakOrder, Ordered, SameClasses;
    PromiseDeterminesResult(EntryOrder(mode), Selected(source, Matching(filter)), shown);
  }
}
