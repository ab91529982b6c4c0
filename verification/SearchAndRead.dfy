/** From a search to the bytes on the screen: what a search reports can be read back. */
module SearchAndRead {
  import opened Base
  import opened Memory
  import opened Pool
  import opened Sequences
  import opened SearchSpec
  import opened SearchTheorems
  import opened ReadContent
  import FilterSort
  import opened Tui

  /** The result reports an occurrence of the pattern in memory, in this entry. */
  ghost predicate Reports(r: SearchResult, m: PageMemory, e: Entry, p: Pattern) {
    FilterSort.SearchResultEntry(r) == e && InMemory(m, e, p, r.offset)
  }

  lemma MatchesAreReports(m: PageMemory, e: Entry, p: Pattern, r: SearchResult)
    ensures r in NaiveMatches(m, e, p) <==> Reports(r, m, e, p)
  {
    var view := m.Truth(e.address, 0, e.size);
    var found := Occurrences(view, p);
    OccurrencesMeaning(view, p, |view|, found);
    OccurrencesBounded(view, p, |view|, found);
    TrueMatch(m, e, p, r.offset);
    hide OccurrencesTo, MatchAt, InMemory, m.Truth;
    if r in NaiveMatches(m, e, p) {
      var k :| 0 <= k < |found| && NaiveMatches(m, e, p)[k] == r;
      assert found[k] in found;
    }
    if Reports(r, m, e, p) {
      var k :| 0 <= k < |found| && found[k] == r.offset;
      assert NaiveMatches(m, e, p)[k] == r;
    }
  }

  /** A search over several entries reports the occurrences in each of them, and nothing else. */
  lemma {:induction false} ResultsAreReports(m: PageMemory, entries: seq<Entry>, p: Pattern, n: nat, r: SearchResult)
    requires n <= |entries|
    ensures r in NaiveMatchesIn(m, entries, p, n) <==> exists k :: 0 <= k < n && Reports(r, m, entries[k], p)
  {
    hide NaiveMatches, Reports;
    if n == 0 {
    } else {
      ResultsAreReports(m, entries, p, n - 1, r);
      MatchesAreReports(m, entries[n - 1], p, r);
    }
  }

  /** As long as memory stays, reading at a reported offset shows the pattern. */
  lemma ReportedIsReadBack(copy: CopyOracle, m: PageMemory, tick: nat, e: Entry, p: Pattern, r: SearchResult,
                           found: Option<Entry>, length: nat)
    requires m.Serves(copy) && Reports(r, m, e, p) && |p| <= length
    requires found.Some? && found.value.size == e.size
    ensures var answer := Answer(found, copy, tick, r.address, r.offset, length); answer.Data? && p <= answer.bytes
  {
    hide m.Serves, m.ReadableRun, m.Bytes, m.Readable, m.At;
    var n := Min(length, e.size - r.offset);
    m.Served(copy, tick, e.address + r.offset, n);
    PatternByte(m, e, p, r.offset, 0);
    assert e.address + r.offset < TWO_64 by { BelowTheEnd(m, e.address + r.offset + 0); }
    RunHoldsPattern(m, e, p, r.offset, n);
  }

  lemma BelowTheEnd(m: PageMemory, a: nat)
    requires m.Readable(a)
    ensures a < TWO_64
  {
  }

  lemma RunHoldsPattern(m: PageMemory, e: Entry, p: Pattern, i: nat, n: nat)
    requires InMemory(m, e, p, i) && |p| <= n
    ensures var k := m.ReadableRun(e.address + i, n); |p| <= k && p <= m.Bytes(e.address + i, k)
  {
    hide m.Readable, InMemory, m.At;
    var k := m.ReadableRun(e.address + i, n);
    if k < |p| {
      PatternByte(m, e, p, i, k);
    }
    var bytes := m.Bytes(e.address + i, k);
    forall j: nat | j < |p| && j < k ensures bytes[j] == p[j] {
      PatternByte(m, e, p, i, j);
    }
  }

  lemma PatternByte(m: PageMemory, e: Entry, p: Pattern, i: nat, j: nat)
    requires InMemory(m, e, p, i) && j < |p|
    ensures m.Readable(e.address + i + j) && m.content(e.address + i + j) == p[j]
  {
    assert m.At(e.address + i + j) == Some(p[j]);
  }

  /** The jump of the user interface asks for a dump that begins with the searched pattern. */
  lemma JumpShowsThePattern(model: Model, copy: CopyOracle, m: PageMemory, tick: nat, entries: seq<Entry>, p: Pattern, store: Store)
    requires model.browser.Safe() && model.HasDiffSnapshot() && model.browser.Found() != []
    requires forall r :: r in model.browser.search ==> r in NaiveMatchesIn(m, entries, p, |entries|)
    requires m.Serves(copy) && |p| <= DUMP_PAGE_SIZE
    requires forall e :: e in entries ==> store.Lookup(e.address).Some? && store.Lookup(e.address).value.size == e.size
    ensures var command := UpdateKey(model, Jump).1;
            && command.Dump?
            && var answer := Answer(store.Lookup(command.entry.address), copy, tick, command.entry.address, command.offset, DUMP_PAGE_SIZE);
               answer.Data? && p <= answer.bytes
  {
    hide NaiveMatchesIn, m.Serves, Answer, store.Lookup, UpdateKey, Reports, FilterSort.VisibleSearch, FilterSort.VisibleEntries;
    JumpMarksTheHit(model);
    var b := model.browser;
    var r := b.Found()[b.searchIndex];
    FoundIsSearched(b, r);
    ResultsAreReports(m, entries, p, |entries|, r);
    var k :| 0 <= k < |entries| && Reports(r, m, entries[k], p);
    SameAddress(r, m, entries[k], p);
    ReportedIsReadBack(copy, m, tick, entries[k], p, r, store.Lookup(r.address), DUMP_PAGE_SIZE);
  }

  lemma SameAddress(r: SearchResult, m: PageMemory, e: Entry, p: Pattern)
    requires Reports(r, m, e, p)
    ensures r.address == e.address
  {
  }

  lemma FoundIsSearched(b: Browser, r: SearchResult)
    requires r in b.Found()
    ensures r in b.search
  {
    assert r in multiset(b.Found());
    assert r in multiset(Selected(b.search, FilterSort.MatchingResults(b.filter)));
  }
}
