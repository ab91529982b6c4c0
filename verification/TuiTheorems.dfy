/** What the user interface asks for, when, and what the answers change. */
module TuiTheorems {
  import opened Base
  import opened Pool
  import opened FilterSort
  import opened Tui

  /** A key that reaches the main screen: no text input is open, and the driver is not being unloaded. */
  ghost predicate Pressed(m: Model, message: Message, key: Key) {
    message == Press(key) && m.inputMode == NoInput && !m.session.unloading
  }

  ghost predicate DriverStarted(m: Model) {
    m.session.connected || m.session.running
  }

  ghost predicate DiffLoaded(m: Model) {
    m.snapshots.diffReady || m.snapshots.diffTotal > 0 || |m.browser.diff| > 0
  }

  /** The entry under the cursor of the table that is shown. */
  ghost predicate Marked(m: Model, e: Entry)
    requires m.browser.Safe()
  {
    var b := m.browser;
    var table := VisibleEntries(b.filter, b.sortMode, match b.tableView case DiffTable => b.diff case CurrentTable => b.currentEntries);
    DiffLoaded(m) && table != [] && e == table[b.selected]
  }

  lemma MarkedIsSelected(m: Model)
    requires m.browser.Safe()
    ensures forall e :: Marked(m, e) <==> m.HasDiffSnapshot() && m.browser.VisibleTable() != [] && e == m.browser.VisibleTable()[m.browser.selected]
  {
    hide VisibleEntries;
  }

  /** Snapshots are captured by one key each: the baseline with a driver, the current one behind a baseline. */
  lemma CapturesAskedFor(m: Model, message: Message)
    requires m.browser.Safe()
    ensures Update(m, message).1 == CaptureBaseline <==> Pressed(m, message, Baseline) && DriverStarted(m)
    ensures Update(m, message).1 == CaptureCurrent <==>
            Pressed(m, message, Current) && DriverStarted(m) && (m.snapshots.baselineReady || m.snapshots.baseline > 0)
  {
    hide VisibleEntries, VisibleSearch, FindEntryIndex, UpdateBrowser, Load, Record, Show;
  }

  /** Entries are fetched again by a key, or when the current table is turned to and none are loaded. */
  lemma EntriesAskedFor(m: Model, message: Message)
    requires m.browser.Safe()
    ensures Update(m, message).1 == FetchDiff <==> Pressed(m, message, LoadDiff) && DiffLoaded(m)
    ensures Update(m, message).1 == FetchCurrent <==>
            Pressed(m, message, ToggleTable) && DiffLoaded(m) && m.browser.tableView == DiffTable && m.browser.currentEntries == []
  {
    hide VisibleEntries, VisibleSearch, FindEntryIndex;
  }

  /** A search is asked for by closing the text input it was typed into. */
  lemma SearchesAskedFor(m: Model, message: Message, kind: SearchKind, text: string, target: u32)
    requires m.browser.Safe()
    ensures Update(m, message).1 == Search(kind, text, target) <==>
            m.inputMode == SearchInput(kind) && message == Press(Enter(text)) && target == m.searchTarget
  {
    hide VisibleEntries, VisibleSearch, FindEntryIndex;
  }

  /** Page details and saving are asked for on the marked entry. */
  lemma MarkedEntryAskedFor(m: Model, message: Message, e: Entry)
    requires m.browser.Safe()
    ensures Update(m, message).1 == QueryPte(e) <==> Pressed(m, message, ShowPte) && Marked(m, e)
    ensures Update(m, message).1 == SaveWholePool(e) <==> Pressed(m, message, SavePool) && Marked(m, e)
  {
    hide VisibleEntries, VisibleSearch, FindEntryIndex, Marked, UpdateBrowser, Load, Record, Show;
    MarkedIsSelected(m);
  }

  /** Why a dump is asked for: the marked entry, a search hit, or the page behind or before the one on the screen. */
  ghost predicate DumpReason(m: Model, key: Key, e: Entry, offset: u64)
    requires m.browser.Safe()
  {
    || ((key == DumpSelected || key.Enter?) && Marked(m, e) && offset == 0)
    || (key == Jump && DiffLoaded(m) && m.browser.Found() != [] &&
         var hit := m.browser.Found()[m.browser.searchIndex]; e == SearchResultEntry(hit) && offset == hit.offset)
    || (key == NextPage && m.panels.dumpData != [] && e == m.panels.dumpEntry
        && offset == m.panels.dumpOffset + 256 && offset < e.size)
    || (key == PreviousPage && m.panels.dumpData != [] && e == m.panels.dumpEntry
        && offset == if m.panels.dumpOffset >= 256 then m.panels.dumpOffset - 256 else 0)
  }

  lemma KeyAsksForDump(m: Model, key: Key, e: Entry, offset: u64)
    requires m.browser.Safe()
    ensures UpdateKey(m, key).1 == Dump(e, offset) <==> DumpReason(m, key, e, offset)
  {
    hide VisibleEntries, VisibleSearch, FindEntryIndex, Marked, UpdateBrowser, Load, Record, Show;
    MarkedIsSelected(m);
  }

  lemma DumpsAskedFor(m: Model, message: Message, e: Entry, offset: u64)
    requires m.browser.Safe()
    ensures Update(m, message).1 == Dump(e, offset) <==>
            message.Press? && Pressed(m, message, message.key) && DumpReason(m, message.key, e, offset)
  {
    hide UpdateKey, DumpReason, VisibleEntries, VisibleSearch, Load, Record, Show;
    if message.Press? {
      KeyAsksForDump(m, message.key, e, offset);
    }
  }

  /** Turning a page and back: the page before the next page is the page. */
  lemma NextAndBack(m: Model, data: seq<byte>)
    requires m.browser.Safe() && m.inputMode == NoInput && !m.session.unloading && data != []
    requires Update(m, Press(NextPage)).1.Dump?
    ensures var next := Update(m, Press(NextPage)).1;
            var there := Update(m, DumpMsg(next.entry, next.offset, data)).0;
            && there.browser.Safe()
            && Update(there, Press(PreviousPage)).1 == Dump(m.panels.dumpEntry, m.panels.dumpOffset)
  {
    hide VisibleEntries, VisibleSearch, FindEntryIndex;
    var next := Update(m, Press(NextPage)).1;
    assert next.offset == m.panels.dumpOffset + 256;
    UpdateKeepsSafe(m, DumpMsg(next.entry, next.offset, data));
  }

  /** Leaving unloads the driver first if that is permitted, and the program ends when it is unloaded. */
  lemma ExitsAskedFor(m: Model, message: Message)
    requires m.browser.Safe()
    ensures var quits := !m.session.unloading && (message == Press(CtrlQuit) || Pressed(m, message, Quit));
            && (Update(m, message).1 == Shutdown <==> quits && m.session.elevated)
            && (Update(m, message).1 == Exit <==> (quits && !m.session.elevated) || message == ShutdownMsg(false))
            && (quits ==> Update(m, message).0.session.unloading == m.session.elevated)
  {
    hide VisibleEntries, VisibleSearch, FindEntryIndex;
  }

  /** While the driver is being unloaded no key does anything. */
  lemma UnloadingIgnoresKeys(m: Model, key: Key)
    requires m.browser.Safe() && m.session.unloading && m.inputMode == NoInput
    ensures Update(m, Press(key)) == (m, Nothing)
  {
  }

  /** The service is managed with the rights for it; files are written from what is loaded. */
  lemma ServiceAndFilesAskedFor(m: Model, message: Message)
    requires m.browser.Safe()
    ensures Update(m, message).1 == Manage <==>
            || (Pressed(m, message, Start(true)) && !DriverStarted(m) && m.session.elevated)
            || (Pressed(m, message, Stop) && m.session.elevated)
            || message.ActionFailed? || message.ActionDone?
    ensures Update(m, message).1 == Write <==>
            (Pressed(m, message, Export) && DiffLoaded(m)) || (Pressed(m, message, SaveDump) && m.panels.dumpData != [])
  {
    hide VisibleEntries, VisibleSearch, FindEntryIndex, UpdateBrowser, Load, Record, Show;
  }

  /** What is known of the driver is what the last answers said of it. */
  lemma DriverIsKnownFromAnswers(m: Model, message: Message)
    requires m.browser.Safe()
    ensures var s, t := m.session, Update(m, message).0.session;
            && t.connected == (match message case PingMsg(ok) => ok case ActionDone(stopped, seen) => s.connected && !(stopped && seen) case _ => s.connected)
            && t.running == (match message case StatusMsg(ok, running) => ok && running case _ => s.running)
            && t.elevated == (match message case EnvironmentMsg(elevated) => elevated case _ => s.elevated)
  {
    hide VisibleEntries, VisibleSearch, FindEntryIndex, UpdateBrowser, Load, Record, Show;
  }

  lemma KeyOpensInput(m: Model, key: Key)
    requires m.browser.Safe() && m.inputMode == NoInput
    ensures UpdateKey(m, key).0.inputMode == match key
              case OpenSearch(kind) => if DiffLoaded(m) then SearchInput(kind) else NoInput
              case OpenTag => if DiffLoaded(m) then TagInput else NoInput
              case _ => NoInput
  {
    hide VisibleEntries, VisibleSearch, FindEntryIndex, UpdateBrowser, Load, Record, Show;
  }

  /** A text input opens by its key, and closes by enter, escape or leaving. */
  lemma InputOpensAndCloses(m: Model, message: Message)
    requires m.browser.Safe()
    ensures var r := Update(m, message).0;
            if m.inputMode == NoInput then
              && (forall kind :: r.inputMode == SearchInput(kind) <==> Pressed(m, message, OpenSearch(kind)) && DiffLoaded(m))
              && (r.inputMode == TagInput <==> Pressed(m, message, OpenTag) && DiffLoaded(m))
            else
              r.inputMode == if message.Press? && (message.key == Escape || message.key.Enter? || (message.key == CtrlQuit && !m.session.unloading))
                             then NoInput else m.inputMode
  {
    hide VisibleEntries, VisibleSearch, UpdateKey;
    if message.Press? && m.inputMode == NoInput {
      KeyOpensInput(m, message.key);
    }
  }

  /** The search target, diff or current, changes by its key alone. */
  lemma TargetIsToggled(m: Model, message: Message)
    requires m.browser.Safe() && m.searchTarget <= 1
    ensures Update(m, message).0.searchTarget
            == if Pressed(m, message, ToggleTarget) && DiffLoaded(m) then 1 - m.searchTarget else m.searchTarget
  {
    hide VisibleEntries, VisibleSearch, FindEntryIndex, UpdateBrowser, Load, Record, Show;
  }

  /** A dump and a page report that arrive are shown, beside what was shown before. */
  lemma PanelsShowAnswers(m: Model, entry: Entry, offset: u64, data: seq<byte>, pages: nat)
    requires m.browser.Safe()
    ensures var r := Update(m, DumpMsg(entry, offset, data)).0;
            && r.panels.dumpEntry == entry && r.panels.dumpOffset == offset && r.panels.dumpData == data
            && r.panels.ptePages == m.panels.ptePages && r.panels.searchText == m.panels.searchText && r.browser == m.browser
    ensures var r := Update(m, PteMsg(pages)).0;
            && r.panels.ptePages == pages && r.browser == m.browser
            && r.panels.dumpData == m.panels.dumpData && r.panels.searchText == m.panels.searchText
  {
    hide VisibleEntries, VisibleSearch;
  }

  // ----- the loaded lists

  /** No dump, no page report and no search is on the screen. */
  ghost predicate NothingShown(p: Panels) {
    p.dumpData == [] && p.ptePages == 0 && p.searchText == ""
  }

  /** What the answers bring is what is shown: the lists, filtered and sorted, of the table that is selected. */
  lemma AnswersAreShown(m: Model, total: u32, entries: seq<Entry>, currentTotal: u32, currentEntries: seq<Entry>)
    requires m.browser.Safe()
    ensures var r := Update(m, CurrentMsg(total, entries, currentTotal, currentEntries)).0;
            && r.browser.diff == entries && r.browser.currentEntries == currentEntries && r.browser.search == []
            && r.snapshots == Snapshots(m.snapshots.baseline, m.snapshots.baselineReady, currentTotal, true, total, true)
            && NothingShown(r.panels)
            && r.browser.VisibleTable() == VisibleEntries(m.browser.filter, m.browser.sortMode,
                 match m.browser.tableView case DiffTable => entries case CurrentTable => currentEntries)
    ensures var r := Update(m, DiffMsg(total, entries)).0;
            && r.browser.diff == entries && r.browser.currentEntries == m.browser.currentEntries && r.browser.search == []
            && r.snapshots == m.snapshots.(diffTotal := total, diffReady := true, currentReady := true)
            && NothingShown(r.panels)
    ensures var r := Update(m, CurrentEntriesMsg(currentEntries, currentTotal)).0;
            && r.browser.currentEntries == currentEntries && r.browser.diff == m.browser.diff && r.browser.search == m.browser.search
            && r.snapshots == m.snapshots.(currentTotal := currentTotal, currentReady := true) && r.panels == m.panels
  {
    hide VisibleEntries, VisibleSearch;
  }

  /** A new baseline makes all that was loaded void, what was searched in it and what was dumped included. */
  lemma BaselineStartsAnew(m: Model, count: u32)
    requires m.browser.Safe()
    ensures var r := Update(m, BaselineMsg(count)).0;
            && r.browser.diff == [] && r.browser.currentEntries == [] && r.browser.search == []
            && r.browser.tableView == DiffTable && !DiffLoaded(r)
            && r.snapshots == Snapshots(count, true, 0, false, 0, false) && NothingShown(r.panels)
  {
    hide VisibleEntries, VisibleSearch;
  }

  lemma ResultsAreShown(m: Model, text: string, results: seq<SearchResult>)
    requires m.browser.Safe()
    ensures var r := Update(m, SearchMsg(text, results)).0;
            && r.browser == m.browser.(search := results, searchIndex := 0) && r.panels.searchText == text
            && r.browser.Found() == VisibleSearch(m.browser.filter, m.browser.sortMode, results)
  {
    hide VisibleEntries, VisibleSearch;
  }

  /** The entries loaded, and how many there are said to be. */
  ghost predicate SameEntries(m: Model, r: Model) {
    r.browser.diff == m.browser.diff && r.browser.currentEntries == m.browser.currentEntries && r.snapshots == m.snapshots
  }

  lemma SwitchesKeepEntries(b: Browser, key: Key)
    ensures UpdateBrowser(b, key).diff == b.diff && UpdateBrowser(b, key).currentEntries == b.currentEntries
  {
    hide VisibleEntries, VisibleSearch;
  }

  lemma KeysKeepEntries(m: Model, key: Key)
    requires m.browser.Safe()
    ensures SameEntries(m, UpdateKey(m, key).0)
  {
    hide VisibleEntries, VisibleSearch, FindEntryIndex, UpdateBrowser, Load, Record, Show;
    SwitchesKeepEntries(m.browser, key);
  }

  /** Nothing else changes the loaded entries: no key does, and no other answer but that of a stop whose reset is seen. */
  lemma OnlyAnswersChangeEntries(m: Model, message: Message)
    requires m.browser.Safe()
    requires !message.BaselineMsg? && !message.CurrentMsg? && !message.DiffMsg? && !message.CurrentEntriesMsg?
    ensures var r := Update(m, message).0;
            if message == ActionDone(true, true)
            then r.browser.diff == [] && r.browser.currentEntries == [] && r.browser.search == []
                 && r.snapshots == Snapshots(0, false, 0, false, 0, false) && NothingShown(r.panels)
            else SameEntries(m, r)
  {
    hide VisibleEntries, VisibleSearch, UpdateKey;
    if message.Press? {
      KeysKeepEntries(m, message.key);
    }
  }

  // ----- filters, order and panels

  /** A filter key goes from any to yes to no and back. */
  function Turned(state: TriState): TriState {
    match state case Any => Yes case Yes => No case No => Any
  }

  lemma SwitchTurns(b: Browser, key: Key)
    ensures var r := UpdateBrowser(b, key);
            match key
            case FilterWritable => r.filter == b.filter.(writable := Turned(b.filter.writable))
            case FilterExecutable => r.filter == b.filter.(executable := Turned(b.filter.executable))
            case FilterAccessible => r.filter == b.filter.(accessible := Turned(b.filter.accessible))
            case ToggleSort => r.sortMode != b.sortMode
            case ToggleTable => r.tableView != b.tableView
            case _ => r.filter == b.filter && r.sortMode == b.sortMode && r.tableView == b.tableView
  {
    hide VisibleEntries, VisibleSearch, ClampSelection;
  }

  /** Pressed three times a filter key restores the filter; pressed twice the others restore the order and the table. */
  lemma SwitchesTurnRound(b: Browser, key: Key)
    ensures key in {FilterWritable, FilterExecutable, FilterAccessible} ==> Repeat(b, key, 3).filter == b.filter
    ensures key == ToggleSort ==> Repeat(b, key, 2).sortMode == b.sortMode
    ensures key == ToggleTable ==> Repeat(b, key, 2).tableView == b.tableView
  {
    hide UpdateBrowser, Repeat;
    ThreeAndTwo(b, key);
    var c := UpdateBrowser(b, key);
    SwitchTurns(b, key);
    SwitchTurns(c, key);
    SwitchTurns(UpdateBrowser(c, key), key);
  }

  lemma ThreeAndTwo(b: Browser, key: Key)
    ensures Repeat(b, key, 2) == UpdateBrowser(UpdateBrowser(b, key), key)
    ensures Repeat(b, key, 3) == UpdateBrowser(UpdateBrowser(UpdateBrowser(b, key), key), key)
  {
    hide UpdateBrowser;
    assert Repeat(b, key, 1) == UpdateBrowser(b, key);
  }

  /** A cursor stays where it is as long as its list reaches so far, and otherwise goes to the last row. */
  ghost predicate Stays(before: int, after: int, length: nat) {
    after == if length == 0 then 0 else if before < length then before else length - 1
  }

  /** After a filter or the order changed both cursors stay if they can; turning to the other table concerns its cursor only. */
  lemma CursorsStay(b: Browser, key: Key)
    requires b.Safe() && key in {FilterWritable, FilterExecutable, FilterAccessible, ToggleSort, ToggleTable}
    ensures var r := UpdateBrowser(b, key);
            && Stays(b.selected, r.selected, |r.VisibleTable()|)
            && (if key == ToggleTable then r.searchIndex == b.searchIndex else Stays(b.searchIndex, r.searchIndex, |r.Found()|))
  {
    hide VisibleEntries, VisibleSearch;
  }

  /** So does the cursor of the table when entries arrive. */
  lemma CursorStaysInNewEntries(m: Model, entries: seq<Entry>, total: u32, more: seq<Entry>, currentTotal: u32)
    requires m.browser.Safe()
    ensures var r := Update(m, DiffMsg(total, entries)).0.browser; Stays(m.browser.selected, r.selected, |r.VisibleTable()|)
    ensures var r := Update(m, CurrentEntriesMsg(entries, total)).0.browser; Stays(m.browser.selected, r.selected, |r.VisibleTable()|)
    ensures var r := Update(m, CurrentMsg(total, entries, currentTotal, more)).0.browser; Stays(m.browser.selected, r.selected, |r.VisibleTable()|)
  {
    hide VisibleEntries, VisibleSearch;
  }

  /** Escape closes one panel at a time, the dump before the page report before the search. */
  lemma EscapeClosesInnermost(m: Model)
    requires m.browser.Safe() && m.inputMode == NoInput && !m.session.unloading
    ensures var p, q := m.panels, Update(m, Press(Escape)).0.panels;
            if p.dumpData != [] then q.dumpData == [] && q.ptePages == p.ptePages && q.searchText == p.searchText
            else if p.ptePages > 0 then q.dumpData == [] && q.ptePages == 0 && q.searchText == p.searchText
            else q.dumpData == [] && q.ptePages == 0 && q.searchText == ""
    ensures Update(m, Press(Escape)).0.browser == if m.panels.dumpData == [] && m.panels.ptePages == 0 && m.panels.searchText != ""
              then m.browser.(search := [], searchIndex := 0) else m.browser
  {
    hide VisibleEntries, VisibleSearch;
  }

  /** What is typed becomes the tag filter, or nothing if the input is left with escape. */
  lemma TagIsTyped(m: Model, value: string)
    requires m.browser.Safe() && m.inputMode == TagInput
    ensures var r := Update(m, Press(Enter(value))).0; r.inputMode == NoInput && r.browser.filter == m.browser.filter.(tag := value)
    ensures Update(m, Press(Escape)) == (m.(inputMode := NoInput), Nothing)
  {
    hide VisibleEntries, VisibleSearch;
  }
}
