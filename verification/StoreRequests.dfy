/**
 * The requests that work on a copy of a snapshot: copy under the lock, serve, free the copy. The store is as before,
 * and no buffer is left behind.
 */
module StoreRequests {
  import opened Base
  import opened Memory
  import opened Pool
  import opened Search
  import opened SearchContent
  import opened SearchTheorems
  import opened SnapshotStore
  import EntryTransfer

  /** A search over the snapshot that its target names; with memory at rest it finds what is there, in its pools. */
  method SearchStore(store: Store, request: SearchRequest, inputLength: nat, outputLength: nat, copyOk: bool,
                     copy: CopyOracle, clock: nat, allocOk: nat -> bool, ghost memory: PageMemory)
    returns (reply: SearchReply)
    requires store.Valid() && |request.pattern| == MAX_SEARCH_PATTERN
    modifies store.pool
    ensures store.Valid() && store.View() == old(store.View()) && store.Foreign() == old(store.Foreign())
    ensures Rejection(request, inputLength, outputLength) != Success ==>
              reply == Refused(Rejection(request, inputLength, outputLength))
    ensures Rejection(request, inputLength, outputLength) == Success ==>
              var shown := if request.target == 0 then old(store.View()).diff else old(store.View()).current;
              var capacity := Capacity(request, outputLength);
              && Answers(reply, request, capacity, if shown == [] || copyOk then Some(shown) else None, copy, clock, allocOk)
              && (memory.Serves(copy) && reply.Answered? ==>
                    reply.results == Capped(NaiveMatchesIn(memory, shown, request.pattern[..request.patternLength], |shown|), capacity))
  {
    hide Answers, store.Valid, store.View, store.Foreign, store.Apart, Capped, MatchesIn, NaiveMatchesIn, memory.Serves;
    if Rejection(request, inputLength, outputLength) != Success {
      reply := HandleSearchContent(request, inputLength, outputLength, None, copy, clock, allocOk);
      return;
    }
    var local := store.NewLocal();
    var status := store.CopySnapshotByTarget(request.target, local, copyOk);
    var entries := store.ReadLocal(local);
    var snapshot := if status == Success then Some(entries) else None;
    reply := HandleSearchContent(request, inputLength, outputLength, snapshot, copy, clock, allocOk);
    store.DropLocal(local);
    if memory.Serves(copy) && reply.Answered? {
      AnswersAreNaive(reply, request, Capacity(request, outputLength), snapshot, copy, clock, allocOk, memory);
    }
  }

  lemma AnswersAreNaive(reply: SearchReply, request: SearchRequest, capacity: nat, snapshot: Option<seq<Entry>>,
                        copy: CopyOracle, clock: nat, allocOk: nat -> bool, memory: PageMemory)
    requires 1 <= request.patternLength <= |request.pattern| && memory.Serves(copy)
    requires reply.Answered? && Answers(reply, request, capacity, snapshot, copy, clock, allocOk)
    ensures snapshot.Some?
    ensures reply.results == Capped(NaiveMatchesIn(memory, snapshot.value, request.pattern[..request.patternLength], |snapshot.value|), capacity)
  {
    hide MatchesIn, NaiveMatchesIn, FailsAt, FirstFailure, UnseenIn, FailedIn, Capped, memory.Serves;
    MatchesAreNaive(copy, memory, clock, snapshot.value, request.pattern[..request.patternLength], |snapshot.value|);
  }

  /** The entries of the diff, from a copy of their own. */
  method HandleGetDiffEntries(store: Store, outputLength: u32, copyOk: bool) returns (reply: EntryTransfer.Reply)
    requires store.Valid()
    modifies store.pool
    ensures store.Valid() && store.View() == old(store.View()) && store.Foreign() == old(store.Foreign())
    ensures var shown := old(store.View()).diff;
            if shown != [] && !copyOk then reply == EntryTransfer.Refused(InsufficientResources)
            else EntryTransfer.HoldsWhatFits(reply, shown, outputLength)
  {
    hide EntryTransfer.HoldsWhatFits, store.Valid, store.View, store.Foreign, store.Apart;
    var local := store.NewLocal();
    var status := store.CopyDiffSnapshot(local, copyOk);
    if status != Success {
      return EntryTransfer.Refused(status);
    }
    var entries := store.ReadLocal(local);
    reply := EntryTransfer.CompleteEntriesResponse(entries, outputLength);
    store.DropLocal(local);
  }

  method HandleGetCurrentEntries(store: Store, outputLength: u32, copyOk: bool) returns (reply: EntryTransfer.Reply)
    requires store.Valid()
    modifies store.pool
    ensures store.Valid() && store.View() == old(store.View()) && store.Foreign() == old(store.Foreign())
    ensures var shown := old(store.View()).current;
            if shown != [] && !copyOk then reply == EntryTransfer.Refused(InsufficientResources)
            else EntryTransfer.HoldsWhatFits(reply, shown, outputLength)
  {
    hide EntryTransfer.HoldsWhatFits, store.Valid, store.View, store.Foreign, store.Apart;
    var local := store.NewLocal();
    var status := store.CopyCurrentSnapshot(local, copyOk);
    if status != Success {
      return EntryTransfer.Refused(status);
    }
    var entries := store.ReadLocal(local);
    reply := EntryTransfer.CompleteEntriesResponse(entries, outputLength);
    store.DropLocal(local);
  }
}
