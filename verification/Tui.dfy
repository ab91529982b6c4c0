/**
 * The state machine of the user interface: selection, search cursor, filters and snapshots. The
 * model is a value that each message replaces, as it is in the source; its fields are grouped.
 */
module Tui {
  import opened Base
  import opened Pool
  import opened Sequences
  import opened FilterSort
  import opened PoolAddress
  import StableSort

  const DUMP_PAGE_SIZE: nat := 256
  const NO_ENTRY: Entry := Entry(0, 0, 0, {}, 0, 0, 0, 0, 0, 0, 0)

  predicate Within(index: int, length: nat) {
    0 <= index && (length > 0 ==> index < length)
  }

  function ClampSelection(selected: int, length: nat): (r: int)
    ensures Within(r, length)
    ensures 0 <= selected < length ==> r == selected
    ensures 0 < length <= selected ==> r == length - 1
    ensures length == 0 || selected < 0 ==> r == 0
  {
    if length == 0 then 0 else if selected >= length then length - 1 else if selected < 0 then 0 else selected
  }

  datatype TableView = DiffTable | CurrentTable

  /** The loaded lists, how they are shown, and the two cursors into what is shown. */
  datatype Browser = Browser(
    diff: seq<Entry>, currentEntries: seq<Entry>, tableView: TableView, selected: int,
    search: seq<SearchResult>, searchIndex: int, filter: Filter, sortMode: SortMode)
  {
    function Source(): seq<Entry> {
      if tableView == CurrentTable then currentEntries else diff
    }

    function VisibleTable(): seq<Entry> {
      VisibleEntries(filter, sortMode, Source())
    }

    function Found(): seq<SearchResult> {
      VisibleSearch(filter, sortMode, search)
    }

    function ClampTable(): Browser {
      this.(selected := ClampSelection(selected, |VisibleTable()|))
    }

    function ClampBoth(): Browser {
      ClampTable().(searchIndex := ClampSelection(searchIndex, |Found()|))
    }

    function DropSearch(): Browser {
      this.(search := [], searchIndex := 0)
    }

    /** Both cursors are never negative, and point into their lists unless these are empty. */
    ghost predicate Safe() {
      && Within(selected, |VisibleTable()|)
      && Within(searchIndex, |Found()|)
    }

    lemma ClampIsSafe()
      ensures ClampBoth().Safe()
      ensures Within(searchIndex, |Found()|) ==> ClampTable().Safe()
    {
      hide VisibleEntries, VisibleSearch;
    }

    lemma DropIsSafe()
      requires Within(selected, |VisibleTable()|)
      ensures DropSearch().Safe()
    {
      hide VisibleEntries, StableSort.Sort;
      assert DropSearch().Found() == StableSort.Sort(SearchOrder(sortMode), []);
      assert DropSearch().VisibleTable() == VisibleTable();
    }
  }

  /** What is known about the driver; unloading is the busy state in which keys are ignored. */
  datatype Session = Session(connected: bool, running: bool, elevated: bool, unloading: bool)

  datatype Snapshots = Snapshots(
    baseline: u32, baselineReady: bool, currentTotal: u32, currentReady: bool, diffTotal: u32, diffReady: bool)

  datatype Panels = Panels(dumpEntry: Entry, dumpOffset: u64, dumpData: seq<byte>, ptePages: nat, searchText: string)

  datatype SearchKind = Ascii | Hex | Utf16

  datatype InputMode = NoInput | SearchInput(kind: SearchKind) | TagInput

  datatype Model = Model(session: Session, snapshots: Snapshots, browser: Browser, panels: Panels,
                         inputMode: InputMode, searchTarget: u32)
  {
    predicate HasDriverStarted() {
      session.connected || session.running
    }

    predicate HasBaselineSnapshot() {
      snapshots.baselineReady || snapshots.baseline > 0
    }

    predicate HasDiffSnapshot() {
      snapshots.diffReady || snapshots.diffTotal > 0 || browser.diff != []
    }

    function NotBusy(): Model {
      this.(session := session.(unloading := false))
    }

    function ClearAnalysisState(): Model {
      this.(browser := browser.DropSearch(), panels := NO_PANELS)
    }

    function ClearSnapshotState(): Model {
      this.(snapshots := NO_SNAPSHOTS, browser := browser.(diff := [], currentEntries := [], selected := 0))
          .ClearAnalysisState()
    }

    /** The innermost open panel closes. */
    function CloseDetailPanel(): Model {
      if panels.dumpData != [] then this.(panels := panels.(dumpEntry := NO_ENTRY, dumpOffset := 0, dumpData := []))
      else if panels.ptePages > 0 then this.(panels := panels.(ptePages := 0))
      else if panels.searchText != "" then this.(browser := browser.DropSearch(), panels := panels.(searchText := ""))
      else this
    }
  }

  const NO_PANELS: Panels := Panels(NO_ENTRY, 0, [], 0, "")
  const NO_SNAPSHOTS: Snapshots := Snapshots(0, false, 0, false, 0, false)

  /** The first entry that contains the address, or the first of all. */
  function FindEntryIndex(entries: seq<Entry>, address: u64): (r: nat)
    ensures Within(r, |entries|)
    ensures (exists e :: e in entries && AddressInEntry(address, e)) ==>
              && AddressInEntry(address, entries[r])
              && forall i :: 0 <= i < r ==> !AddressInEntry(address, entries[i])
    ensures (forall e :: e in entries ==> !AddressInEntry(address, e)) ==> r == 0
  {
    FindFrom(entries, address, 0)
  }

  function FindFrom(entries: seq<Entry>, address: u64, from: nat): (r: nat)
    requires from <= |entries| && forall i :: 0 <= i < from ==> !AddressInEntry(address, entries[i])
    ensures Within(r, |entries|)
    ensures (exists e :: e in entries && AddressInEntry(address, e)) ==>
              && AddressInEntry(address, entries[r])
              && forall i :: 0 <= i < r ==> !AddressInEntry(address, entries[i])
    ensures (forall e :: e in entries ==> !AddressInEntry(address, e)) ==> r == 0
    decreases |entries| - from
  {
    if from == |entries| then ClampSelection(0, |entries|)
    else if AddressInEntry(address, entries[from]) then from
    else FindFrom(entries, address, from + 1)
  }

  function NextTriState(state: TriState): TriState {
    match state
    case Any => Yes
    case Yes => No
    case No => Any
  }

  function NextSortMode(mode: SortMode): SortMode {
    if mode == ByAddress then ByPagesDescending else ByAddress
  }

  datatype Key =
    | CtrlQuit | Quit | Escape
    | Enter(value: string)                         // with the content of the text input, trimmed for a tag
    | Up | Down | NextResult
    | Start(pathExists: bool) | Stop | Baseline | Current | LoadDiff
    | DumpSelected | Jump | NextPage | PreviousPage
    | OpenSearch(kind: SearchKind) | OpenTag | ToggleTarget | ToggleTable | ShowPte
    | FilterWritable | FilterExecutable | FilterAccessible | ToggleSort
    | Export | SaveDump | SavePool | Scroll

  datatype Message =
    | Press(key: Key)
    | StatusMsg(ok: bool, running: bool)
    | EnvironmentMsg(elevated: bool)
    | ActionFailed
    | ActionDone(stopped: bool, resetSeen: bool)   // whether the reset after `stop` is seen by the returned copy
    | PingMsg(ok: bool)
    | CommandFailed                                // any other answer with an error
    | BaselineMsg(count: u32)
    | CurrentMsg(total: u32, entries: seq<Entry>, currentTotal: u32, currentEntries: seq<Entry>)
    | DiffMsg(total: u32, entries: seq<Entry>)
    | CurrentEntriesMsg(entries: seq<Entry>, total: u32)
    | DumpMsg(entry: Entry, offset: u64, data: seq<byte>)
    | SearchMsg(text: string, results: seq<SearchResult>)
    | PteMsg(pages: nat)
    | OtherDone                                    // exports and saves
    | ShutdownMsg(failed: bool)
    | WindowSizeMsg

  /** What the update asks the runtime to do next. */
  datatype Command =
    | Nothing
    | Exit
    | Shutdown
    | Manage                                       // start or stop the service, query it
    | CaptureBaseline
    | CaptureCurrent
    | FetchDiff
    | FetchCurrent
    | Dump(entry: Entry, offset: u64)
    | QueryPte(entry: Entry)
    | SaveWholePool(entry: Entry)
    | Search(kind: SearchKind, text: string, target: u32)
    | Write                                        // export or save files

  function BeginShutdown(m: Model): (Model, Command) {
    if m.session.unloading then (m, Nothing)
    else
      var quiet := m.(inputMode := NoInput);
      if !m.session.elevated then (quiet, Exit)
      else (quiet.(session := m.session.(unloading := true)), Shutdown)
  }

  /** Keys while the text input is open. */
  function UpdateInput(m: Model, key: Key): (Model, Command)
    requires m.inputMode != NoInput
  {
    match key
    case CtrlQuit => BeginShutdown(m)
    case Escape => (m.(inputMode := NoInput), Nothing)
    case Enter(value) =>
      var closed := m.(inputMode := NoInput);
      if m.inputMode == TagInput then
        (closed.(browser := m.browser.(filter := m.browser.filter.(tag := value)).ClampBoth()), Nothing)
      else (closed.NotBusy(), Search(m.inputMode.kind, value, m.searchTarget))
    case _ => (m, Nothing)
  }

  /** The keys that move, filter, sort and switch the lists. */
  function UpdateBrowser(b: Browser, key: Key): Browser {
    match key
    case Up => if b.selected > 0 then b.(selected := b.selected - 1) else b
    case Down => if b.selected + 1 < |b.VisibleTable()| then b.(selected := b.selected + 1) else b
    case NextResult => if b.Found() != [] then b.(searchIndex := (b.searchIndex + 1) % |b.Found()|) else b
    case ToggleTable => b.(tableView := if b.tableView == DiffTable then CurrentTable else DiffTable).ClampTable()
    case FilterWritable => b.(filter := b.filter.(writable := NextTriState(b.filter.writable))).ClampBoth()
    case FilterExecutable => b.(filter := b.filter.(executable := NextTriState(b.filter.executable))).ClampBoth()
    case FilterAccessible => b.(filter := b.filter.(accessible := NextTriState(b.filter.accessible))).ClampBoth()
    case ToggleSort => b.(sortMode := NextSortMode(b.sortMode)).ClampBoth()
    case _ => b
  }

  /** A command on the marked entry. */
  function OnSelected(m: Model, command: Entry -> Command): (Model, Command)
    requires m.browser.Safe()
  {
    if !m.HasDiffSnapshot() || m.browser.VisibleTable() == [] then (m, Nothing)
    else (m, command(m.browser.VisibleTable()[m.browser.selected]))
  }

  function When(m: Model, condition: bool, command: Command): (Model, Command) {
    if condition then (m, command) else (m, Nothing)
  }

  /** Keys while no text input is open and the driver is not being unloaded; other busy states do not matter. */
  function UpdateKey(m: Model, key: Key): (Model, Command)
    requires m.browser.Safe()
  {
    match key
    case CtrlQuit => BeginShutdown(m)
    case Quit => BeginShutdown(m)
    case Escape => (m.CloseDetailPanel(), Nothing)
    case Up => (m.(browser := UpdateBrowser(m.browser, key)), Nothing)
    case Down => (m.(browser := UpdateBrowser(m.browser, key)), Nothing)
    case NextResult => (m.(browser := UpdateBrowser(m.browser, key)), Nothing)
    case Start(pathExists) => When(m, !m.HasDriverStarted() && m.session.elevated && pathExists, Manage)
    case Stop => When(m, m.session.elevated, Manage)
    case Baseline => When(m, m.HasDriverStarted(), CaptureBaseline)
    case Current => When(m, m.HasDriverStarted() && m.HasBaselineSnapshot(), CaptureCurrent)
    case LoadDiff => When(m, m.HasDiffSnapshot(), FetchDiff)
    case Enter(_) => OnSelected(m, e => Dump(e, 0))
    case DumpSelected => OnSelected(m, e => Dump(e, 0))
    case ShowPte => OnSelected(m, e => QueryPte(e))
    case SavePool => OnSelected(m, e => SaveWholePool(e))
    case Jump =>
      if !m.HasDiffSnapshot() || m.browser.Found() == [] then (m, Nothing)
      else
        var hit := m.browser.Found()[m.browser.searchIndex];
        (m.(browser := m.browser.(selected := FindEntryIndex(m.browser.VisibleTable(), hit.address))),
         Dump(SearchResultEntry(hit), hit.offset))
    case NextPage =>
      var next := (m.panels.dumpOffset + DUMP_PAGE_SIZE) % TWO_64;
      When(m, m.panels.dumpData != [] && next >= m.panels.dumpOffset && next < m.panels.dumpEntry.size,
           Dump(m.panels.dumpEntry, next))
    case PreviousPage =>
      When(m, m.panels.dumpData != [],
           Dump(m.panels.dumpEntry, if m.panels.dumpOffset > DUMP_PAGE_SIZE then m.panels.dumpOffset - DUMP_PAGE_SIZE else 0))
    case OpenSearch(kind) => if !m.HasDiffSnapshot() then (m, Nothing) else (m.(inputMode := SearchInput(kind)), Nothing)
    case OpenTag => if !m.HasDiffSnapshot() then (m, Nothing) else (m.(inputMode := TagInput), Nothing)
    case ToggleTarget =>
      if !m.HasDiffSnapshot() then (m, Nothing) else (m.(searchTarget := if m.searchTarget == 0 then 1 else 0), Nothing)
    case Export => When(m, m.HasDiffSnapshot(), Write)
    case SaveDump => When(m, m.panels.dumpData != [], Write)
    case Scroll => (m, Nothing)
    case _ =>    // the switches and filters
      if !m.HasDiffSnapshot() then (m, Nothing)
      else
        var b := UpdateBrowser(m.browser, key);
        When(m.(browser := b), key.ToggleTable? && b.tableView == CurrentTable && b.currentEntries == [], FetchCurrent)
  }

  /** The lists that arrive replace the loaded ones. */
  function Load(b: Browser, message: Message): Browser {
    match message
    case BaselineMsg(_) => b.(diff := [], currentEntries := [], selected := 0, tableView := DiffTable).DropSearch()
    case CurrentMsg(_, entries, _, currentEntries) =>
      b.(diff := entries, currentEntries := currentEntries).ClampTable().DropSearch()
    case DiffMsg(_, entries) => b.(diff := entries).ClampTable().DropSearch()
    case CurrentEntriesMsg(entries, _) => b.(currentEntries := entries).ClampTable()
    case SearchMsg(_, results) => b.(search := results, searchIndex := 0)
    case _ => b
  }

  function Record(s: Snapshots, message: Message): Snapshots {
    match message
    case BaselineMsg(count) => Snapshots(count, true, 0, false, 0, false)
    case CurrentMsg(total, _, currentTotal, _) =>
      s.(diffTotal := total, diffReady := true, currentTotal := currentTotal, currentReady := true)
    case DiffMsg(total, _) => s.(diffTotal := total, diffReady := true, currentReady := true)
    case CurrentEntriesMsg(_, total) => s.(currentTotal := total, currentReady := true)
    case _ => s
  }

  function Show(p: Panels, message: Message): Panels {
    match message
    case BaselineMsg(_) => NO_PANELS
    case CurrentMsg(_, _, _, _) => NO_PANELS
    case DiffMsg(_, _) => NO_PANELS
    case DumpMsg(entry, offset, data) => p.(dumpEntry := entry, dumpOffset := offset, dumpData := data)
    case SearchMsg(text, _) => p.(searchText := text)
    case PteMsg(pages) => p.(ptePages := pages)
    case _ => p
  }

  function UpdateMessage(m: Model, message: Message): (Model, Command)
    requires !message.Press?
  {
    match message
    case EnvironmentMsg(elevated) => (m.(session := m.session.(elevated := elevated)), Nothing)
    case WindowSizeMsg => (m, Nothing)
    case StatusMsg(ok, running) => (m.(session := m.session.(running := ok && running, unloading := false)), Nothing)
    case PingMsg(ok) => (m.(session := m.session.(connected := ok, unloading := false)), Nothing)
    case ActionFailed => (m.NotBusy(), Manage)
    case ActionDone(stopped, resetSeen) =>
      if stopped && resetSeen
      then (m.(session := m.session.(connected := false, unloading := false)).ClearSnapshotState(), Manage)
      else (m.NotBusy(), Manage)
    case ShutdownMsg(failed) => (m.NotBusy(), if failed then Nothing else Exit)
    case _ =>
      (m.NotBusy().(snapshots := Record(m.snapshots, message), browser := Load(m.browser, message),
                    panels := Show(m.panels, message)), Nothing)
  }

  function Update(m: Model, message: Message): (r: (Model, Command))
    requires m.browser.Safe()
  {
    if !message.Press? then UpdateMessage(m, message)
    else if m.inputMode != NoInput then UpdateInput(m, message.key)
    else if m.session.unloading then (m, Nothing)
    else UpdateKey(m, message.key)
  }

  // ----- safety

  lemma BrowserKeyKeepsSafe(b: Browser, key: Key)
    requires b.Safe()
    ensures UpdateBrowser(b, key).Safe()
  {
    hide VisibleEntries, VisibleSearch;
    match key
    case ToggleTable => b.(tableView := if b.tableView == DiffTable then CurrentTable else DiffTable).ClampIsSafe();
    case FilterWritable => b.(filter := b.filter.(writable := NextTriState(b.filter.writable))).ClampIsSafe();
    case FilterExecutable => b.(filter := b.filter.(executable := NextTriState(b.filter.executable))).ClampIsSafe();
    case FilterAccessible => b.(filter := b.filter.(accessible := NextTriState(b.filter.accessible))).ClampIsSafe();
    case ToggleSort => b.(sortMode := NextSortMode(b.sortMode)).ClampIsSafe();
    case _ =>
  }

  lemma LoadKeepsSafe(b: Browser, message: Message)
    requires b.Safe()
    ensures Load(b, message).Safe()
  {
    hide VisibleEntries, VisibleSearch;
    match message
    case BaselineMsg(_) => b.(diff := [], currentEntries := [], selected := 0, tableView := DiffTable).DropIsSafe();
    case CurrentMsg(_, entries, _, currentEntries) =>
      b.(diff := entries, currentEntries := currentEntries).ClampTable().DropIsSafe();
    case DiffMsg(_, entries) => b.(diff := entries).ClampTable().DropIsSafe();
    case CurrentEntriesMsg(entries, _) => b.(currentEntries := entries).ClampIsSafe();
    case _ =>
  }

  lemma UpdateKeepsSafe(m: Model, message: Message)
    requires m.browser.Safe()
    ensures Update(m, message).0.browser.Safe()
  {
    hide VisibleEntries, VisibleSearch, UpdateBrowser, Load;
    m.browser.DropIsSafe();
    if !message.Press? {
      LoadKeepsSafe(m.browser, message);
      m.browser.(diff := [], currentEntries := [], selected := 0).DropIsSafe();
    } else if m.inputMode != NoInput {
      if message.key.Enter? {
        m.browser.(filter := m.browser.filter.(tag := message.key.value)).ClampIsSafe();
      }
    } else {
      BrowserKeyKeepsSafe(m.browser, message.key);
    }
  }

  /** A new session shows nothing; filters, order, table and search target come from the configuration. */
  ghost predicate Initial(m: Model) {
    && m.browser == Browser([], [], m.browser.tableView, 0, [], 0, m.browser.filter, m.browser.sortMode)
    && m.snapshots == NO_SNAPSHOTS && m.panels == NO_PANELS && m.inputMode == NoInput && !m.session.unloading
  }

  /** A run exists only as long as every cursor access in it is defined. */
  ghost predicate Reaches(m: Model, messages: seq<Message>, r: Model)
    decreases |messages|
  {
    if messages == [] then r == m
    else
      var n := |messages| - 1;
      exists before :: Reaches(m, messages[..n], before) && before.browser.Safe() && Update(before, messages[n]).0 == r
  }

  /** For every sequence of keys and answers, in any order, the run goes through, to one safe state. */
  lemma {:induction false} EveryRunIsSafe(m: Model, messages: seq<Message>) returns (r: Model)
    requires Initial(m)
    ensures Reaches(m, messages, r) && r.browser.Safe()
    ensures forall other :: Reaches(m, messages, other) ==> other == r
    decreases |messages|
  {
    hide VisibleEntries, VisibleSearch, Update;
    if messages == [] {
      r := m;
    } else {
      var n := |messages| - 1;
      var before := EveryRunIsSafe(m, messages[..n]);
      UpdateKeepsSafe(before, messages[n]);
      r := Update(before, messages[n]).0;
    }
  }

  // ----- what commands act on

  lemma VisibleComesFromSource(filter: Filter, mode: SortMode, source: seq<Entry>, e: Entry)
    requires e in VisibleEntries(filter, mode, source)
    ensures e in source && MatchesFilters(filter, e)
  {
    assert e in multiset(VisibleEntries(filter, mode, source));
    assert e in multiset(Selected(source, Matching(filter)));
  }

  /** Dump, page and save commands act on the marked entry: one that is loaded and passes the filters. */
  lemma CommandsActOnTheMarkedEntry(m: Model, key: Key)
    requires m.browser.Safe() && key in {DumpSelected, ShowPte, SavePool}
    ensures var (r, command) := UpdateKey(m, key);
            if !m.HasDiffSnapshot() || m.browser.VisibleTable() == [] then command == Nothing
            else
              var e := m.browser.VisibleTable()[m.browser.selected];
              && e in m.browser.Source() && MatchesFilters(m.browser.filter, e)
              && command == (match key case DumpSelected => Dump(e, 0) case ShowPte => QueryPte(e) case _ => SaveWholePool(e))
  {
    hide VisibleEntries, VisibleSearch, MatchesFilters;
    var b := m.browser;
    if b.VisibleTable() != [] {
      VisibleComesFromSource(b.filter, b.sortMode, b.Source(), b.VisibleTable()[b.selected]);
    }
  }

  /** A jump dumps the search hit, and marks the first visible entry that contains the hit's pool address, if any does. */
  lemma JumpMarksTheHit(m: Model)
    requires m.browser.Safe() && m.HasDiffSnapshot() && m.browser.Found() != []
    ensures UpdateKey(m, Jump).0.browser.Safe()
    ensures var hit := m.browser.Found()[m.browser.searchIndex];
            var (r, command) := UpdateKey(m, Jump);
            && command == Dump(SearchResultEntry(hit), hit.offset)
            && r.browser.VisibleTable() == m.browser.VisibleTable()
            && ((exists e :: e in m.browser.VisibleTable() && AddressInEntry(hit.address, e)) ==>
                  && AddressInEntry(hit.address, r.browser.VisibleTable()[r.browser.selected])
                  && forall k :: 0 <= k < r.browser.selected ==> !AddressInEntry(hit.address, r.browser.VisibleTable()[k]))
  {
    hide VisibleEntries, VisibleSearch, AddressInEntry;
  }

  function Repeat(b: Browser, key: Key, k: nat): Browser {
    if k == 0 then b else UpdateBrowser(Repeat(b, key, k - 1), key)
  }

  /** Up and down reach every row, one row a key, and stop at the ends. */
  lemma {:induction false} CursorMoves(b: Browser, k: nat)
    requires b.Safe() && b.VisibleTable() != []
    ensures Repeat(b, Down, k) == b.(selected := Min(b.selected + k, |b.VisibleTable()| - 1))
    ensures Repeat(b, Up, k) == b.(selected := if k <= b.selected then b.selected - k else 0)
  {
    hide VisibleEntries, VisibleSearch;
    if k == 0 {
    } else {
      CursorMoves(b, k - 1);
    }
  }

  /** Stepping through the results is cyclic: k steps lead k further, and as many as there are lead back. */
  lemma {:induction false} ResultsCycle(b: Browser, k: nat)
    requires b.Safe() && b.Found() != []
    ensures Repeat(b, NextResult, k) == b.(searchIndex := (b.searchIndex + k) % |b.Found()|)
  {
    hide VisibleEntries, VisibleSearch;
    var n := |b.Found()|;
    if k > 0 {
      ResultsCycle(b, k - 1);
      ModStep(b.searchIndex + k - 1, n);
    } else {
      DivisionIsUnique(b.searchIndex, 0, b.searchIndex, n);
    }
  }

  lemma ModStep(a: nat, n: nat)
    requires n > 0
    ensures (a % n + 1) % n == (a + 1) % n
  {
    var q, r := a / n, a % n;
    if r + 1 < n {
      DivisionIsUnique(a + 1, q, r + 1, n);
      DivisionIsUnique(r + 1, 0, r + 1, n);
    } else {
      DivisionIsUnique(a + 1, q + 1, 0, n);
      DivisionIsUnique(r + 1, 1, 0, n);
    }
  }
}
