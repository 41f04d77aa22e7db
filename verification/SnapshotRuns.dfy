/** Every interleaving of the manager's operations, and a snapshot's way through the whole pipeline. */
module SnapshotRuns {
  import opened Basics
  import opened Sequences
  import opened SnapshotKeys
  import opened SnapshotChunks
  import opened SnapshotData
  import opened SnapshotStore
  import opened SnapshotTidy
  import opened SnapshotManager

  /** The manager, and which callers of Create and Prune are between their begin and their end. */
  datatype World = World(state: State, holders: map<nat, Operation>)

  datatype Event =
    | Begins(caller: nat, op: Operation)
    | Ends(caller: nat)
    | Restores(snapshot: Snapshot)
    | Feeds(chunk: Bytes, early: Option<Done>, final: Done)

  predicate Enabled(w: World, e: Event) {
    match e
    case Begins(caller, op) => caller !in w.holders && (op == Snapshotting || op == Pruning)
    case Ends(caller) => caller in w.holders
    case _ => true
  }

  /** The channel that would be closed or sent to is there and open, and the counter is in range. */
  predicate CannotPanic(s: State) {
    && (s.chRestore.Some? ==> s.chRestore.value < |s.channels| && s.channels[s.chRestore.value].closes == 0)
    && (s.operation == Restoring ==> s.chRestore.Some? && s.index < |s.hashes|)
  }

  /** One call, or one end of a call; None when it panics. */
  function After(sha256: Bytes -> Bytes, w: World, e: Event): Option<World> {
    if !CannotPanic(w.state) then None
    else
      match e
      case Begins(caller, op) =>
        if w.state.operation != NoOperation then Some(w)
        else Some(World(w.state.(operation := op), w.holders[caller := op]))
      case Ends(caller) => Some(World(SnapshotManager.Ended(w.state), w.holders - {caller}))
      case Restores(snapshot) =>
        if Restorable(snapshot) && w.state.operation == NoOperation then
          Some(World(Restored(w.state, snapshot), w.holders))
        else Some(w)
      case Feeds(chunk, early, final) => Some(World(ChunkState(sha256, w.state, chunk, early), w.holders))
  }

  /** How many operations are under way. */
  function Active(w: World): nat {
    |w.holders| + if w.state.operation == Restoring then 1 else 0
  }

  ghost predicate WorldInv(sha256: Bytes -> Bytes, w: World) {
    && Inv(sha256, w.state)
    && Active(w) <= 1 && (Active(w) == 0 <==> w.state.operation == NoOperation)
    && forall caller :: caller in w.holders ==> w.holders[caller] == w.state.operation
  }

  lemma InvCannotPanic(sha256: Bytes -> Bytes, s: State)
    requires Inv(sha256, s)
    ensures CannotPanic(s)
  {
  }

  lemma BeginsKeeps(sha256: Bytes -> Bytes, w: World, caller: nat, op: Operation)
    requires WorldInv(sha256, w) && Enabled(w, Begins(caller, op))
    ensures CannotPanic(w.state) && WorldInv(sha256, After(sha256, w, Begins(caller, op)).value)
  {
    InvCannotPanic(sha256, w.state);
    if w.state.operation == NoOperation {
      assert |w.holders| == 0;
      assert w.holders[caller := op].Keys == {caller};
    }
  }

  lemma EndsKeeps(sha256: Bytes -> Bytes, w: World, caller: nat)
    requires WorldInv(sha256, w) && caller in w.holders
    ensures CannotPanic(w.state) && WorldInv(sha256, After(sha256, w, Ends(caller)).value)
  {
    InvCannotPanic(sha256, w.state);
    EndedOk(sha256, w.state);
    assert w.holders.Keys == (w.holders - {caller}).Keys + {caller};
  }

  lemma FeedsKeeps(sha256: Bytes -> Bytes, w: World, chunk: Bytes, early: Option<Done>, final: Done)
    requires WorldInv(sha256, w)
    ensures CannotPanic(w.state) && WorldInv(sha256, After(sha256, w, Feeds(chunk, early, final)).value)
  {
    InvCannotPanic(sha256, w.state);
    if w.state.operation == Restoring {
      assert |w.holders| == 0;
      assert w.holders == map[];
      EndedOk(sha256, w.state);
      if sha256(chunk) == w.state.hashes[w.state.index] {
        ForwardedOk(sha256, w.state, chunk);
      }
    }
  }

  /** No call panics, and every call keeps the invariant. */
  lemma StepKeeps(sha256: Bytes -> Bytes, w: World, e: Event)
    requires WorldInv(sha256, w) && Enabled(w, e)
    ensures After(sha256, w, e).Some? && WorldInv(sha256, After(sha256, w, e).value)
  {
    match e
    case Begins(caller, op) => BeginsKeeps(sha256, w, caller, op);
    case Ends(caller) => EndsKeeps(sha256, w, caller);
    case Restores(snapshot) =>
      InvCannotPanic(sha256, w.state);
      if Restorable(snapshot) && w.state.operation == NoOperation {
        RestoredOk(sha256, w.state, snapshot);
      }
    case Feeds(chunk, early, final) => FeedsKeeps(sha256, w, chunk, early, final);
  }

  // ----- runs -----

  /** A run from the idle manager; a run ends where a call panics. */
  predicate IsRun(sha256: Bytes -> Bytes, worlds: seq<World>, events: seq<Event>) {
    && |worlds| == |events| + 1 && worlds[0] == World(Idle, map[])
    && forall i :: 0 <= i < |events| ==> Enabled(worlds[i], events[i])
                                         && After(sha256, worlds[i], events[i]) == Some(worlds[i + 1])
  }

  lemma {:induction false} RunKeeps(sha256: Bytes -> Bytes, worlds: seq<World>, events: seq<Event>, i: nat)
    requires IsRun(sha256, worlds, events) && i < |worlds|
    ensures WorldInv(sha256, worlds[i])
  {
    if i > 0 {
      RunKeeps(sha256, worlds, events, i - 1);
      StepKeeps(sha256, worlds[i - 1], events[i - 1]);
    }
  }

  /** The forwarded chunks are a prefix of what the metadata asks for. */
  ghost predicate ForwardedPrefix(sha256: Bytes -> Bytes, ch: Channel) {
    |ch.sent| <= |ch.hashes| && forall i :: 0 <= i < |ch.sent| ==> sha256(ch.sent[i]) == ch.hashes[i]
  }

  /**
   At every point of every run: at most one operation is under way, the next call cannot panic, no channel is closed
   twice, every channel but that of a restore under way is closed, and what went over each channel matches its
   hashes in the order of a counter of 32 bits, which is a prefix of them if there are fewer than 2^32.
   */
  lemma RunsAreSafe(sha256: Bytes -> Bytes, worlds: seq<World>, events: seq<Event>, i: nat)
    requires IsRun(sha256, worlds, events) && i < |worlds|
    ensures Active(worlds[i]) <= 1 && CannotPanic(worlds[i].state)
    ensures forall e :: Enabled(worlds[i], e) ==> After(sha256, worlds[i], e).Some?
    ensures forall c :: 0 <= c < |worlds[i].state.channels| ==> ChannelSafe(sha256, worlds[i].state, c)
  {
    RunKeeps(sha256, worlds, events, i);
    InvCannotPanic(sha256, worlds[i].state);
    forall c | 0 <= c < |worlds[i].state.channels| ensures ChannelSafe(sha256, worlds[i].state, c) {
      ChannelIsSafe(sha256, worlds[i].state, c);
    }
  }

  /** Closed at most once, open only while its restore is under way, and filled in the order of its hashes, which the
      counter starts over when there are more than it can count. */
  ghost predicate ChannelSafe(sha256: Bytes -> Bytes, s: State, c: nat)
    requires c < |s.channels|
  {
    var ch := s.channels[c];
    && ch.closes <= 1
    && (ch.closes == 0 <==> s.chRestore == Some(c))
    && (ch.closes == 0 ==> s.operation == Restoring)
    && InOrder(sha256, ch)
    && (|ch.hashes| < TWO32 ==> ForwardedPrefix(sha256, ch))
  }

  lemma ChannelIsSafe(sha256: Bytes -> Bytes, s: State, c: nat)
    requires Inv(sha256, s) && c < |s.channels|
    ensures ChannelSafe(sha256, s, c)
  {
    var ch := s.channels[c];
    assert InOrder(sha256, ch);
    if |ch.hashes| < TWO32 {
      forall j | 0 <= j < |ch.sent| ensures sha256(ch.sent[j]) == ch.hashes[j] {
        assert j % TWO32 == j;
      }
    }
  }

  /** A channel keeps its hashes and only gets longer; once closed it stays as it is. */
  ghost predicate Grows(a: Channel, b: Channel) {
    a.hashes == b.hashes && a.sent <= b.sent && (a.closes > 0 ==> a == b)
  }

  lemma StepGrows(sha256: Bytes -> Bytes, w: World, e: Event, c: nat)
    requires WorldInv(sha256, w) && Enabled(w, e) && After(sha256, w, e).Some? && c < |w.state.channels|
    ensures c < |After(sha256, w, e).value.state.channels|
    ensures Grows(w.state.channels[c], After(sha256, w, e).value.state.channels[c])
  {
  }

  lemma RunStepGrows(sha256: Bytes -> Bytes, worlds: seq<World>, events: seq<Event>, j: nat, c: nat)
    requires IsRun(sha256, worlds, events) && j < |events| && c < |worlds[j].state.channels|
    ensures c < |worlds[j + 1].state.channels| && Grows(worlds[j].state.channels[c], worlds[j + 1].state.channels[c])
  {
    RunKeeps(sha256, worlds, events, j);
    StepGrows(sha256, worlds[j], events[j], c);
  }

  lemma {:induction false} RunGrows(
    sha256: Bytes -> Bytes, worlds: seq<World>, events: seq<Event>, i: nat, j: nat, c: nat)
    requires IsRun(sha256, worlds, events) && i <= j < |worlds| && c < |worlds[i].state.channels|
    ensures c < |worlds[j].state.channels| && Grows(worlds[i].state.channels[c], worlds[j].state.channels[c])
    decreases j
  {
    if i < j {
      RunGrows(sha256, worlds, events, i, j - 1, c);
      RunStepGrows(sha256, worlds, events, j - 1, c);
      GrowsOn(worlds[i].state.channels[c], worlds[j - 1].state.channels[c], worlds[j].state.channels[c]);
    }
  }

  lemma GrowsOn(a: Channel, b: Channel, c: Channel)
    requires Grows(a, b) && Grows(b, c)
    ensures Grows(a, c)
  {
  }

  // ----- a snapshot's way from one node to another -----

  /** Feeding all chunks in order, with a goroutine that completes, ends with true and all chunks handed over. */
  method RestoreAll(m: Manager, snapshot: Snapshot, chunks: seq<Bytes>) returns (done: bool)
    requires m.Valid() && m.operation == NoOperation && Restorable(snapshot)
    requires snapshot.chunkHashes == Hashes(m.sha256, chunks) && |chunks| < TWO32
    modifies m
    ensures m.Valid() && done && m.operation == NoOperation
    ensures |m.channels| == old(|m.channels|) + 1 && m.channels[|m.channels| - 1].sent == chunks
  {
    var ok := m.Restore(snapshot);
    ghost var count := |m.channels|;
    done := false;
    var n := 0;
    while n < |chunks|
      invariant n <= |chunks| && m.Valid() && done == (n == |chunks|)
      invariant HandedOver(m.View(), snapshot.chunkHashes, chunks[..n], count, done)
    {
      done := RestoreNext(m, snapshot.chunkHashes, chunks, n, count);
      n := n + 1;
    }
    assert chunks[..|chunks|] == chunks;
  }

  /** One turn of the loop. */
  method RestoreNext(m: Manager, ghost hashes: seq<Bytes>, chunks: seq<Bytes>, n: nat, ghost count: nat)
    returns (done: bool)
    requires m.Valid() && hashes == Hashes(m.sha256, chunks) && n < |chunks| < TWO32
    requires HandedOver(m.View(), hashes, chunks[..n], count, false)
    modifies m
    ensures m.Valid() && done == (n + 1 == |chunks|) && HandedOver(m.View(), hashes, chunks[..n + 1], count, done)
  {
    HandsOver(m.sha256, m.View(), hashes, chunks, n, count);
    var r := m.RestoreChunk(chunks[n], None, Done(true, None));
    done := r.value;
  }

  /** The last channel has what was sent, and the restore is over or goes on. */
  ghost predicate HandedOver(s: State, hashes: seq<Bytes>, sent: seq<Bytes>, count: nat, done: bool) {
    && |s.channels| == count > 0 && s.channels[count - 1].sent == sent
    && if done then s.operation == NoOperation else s.operation == Restoring && s.hashes == hashes
  }

  lemma HandsOver(sha256: Bytes -> Bytes, s: State, hashes: seq<Bytes>, chunks: seq<Bytes>, n: nat, count: nat)
    requires Inv(sha256, s) && hashes == Hashes(sha256, chunks) && n < |chunks| < TWO32
    requires HandedOver(s, hashes, chunks[..n], count, false)
    ensures ChunkResult(sha256, s, chunks[n], None, Done(true, None)) == Ok(n + 1 == |chunks|)
    ensures HandedOver(ChunkState(sha256, s, chunks[n], None), hashes, chunks[..n + 1], count, n + 1 == |chunks|)
  {
    Feeding(sha256, s, chunks[n], n);
    OneMore(chunks, n);
  }

  /** After n chunks the chunk with hash number n is forwarded, and it is the last exactly if the hashes end there. */
  lemma Feeding(sha256: Bytes -> Bytes, s: State, chunk: Bytes, n: nat)
    requires Inv(sha256, s) && s.operation == Restoring && n < |s.hashes| < TWO32
    requires |s.channels[|s.channels| - 1].sent| == n && sha256(chunk) == s.hashes[n]
    ensures ChunkResult(sha256, s, chunk, None, Done(true, None)) == Ok(n + 1 == |s.hashes|)
    ensures var s1 := ChunkState(sha256, s, chunk, None);
            && |s1.channels| == |s.channels|
            && s1.channels[|s.channels| - 1].sent == s.channels[|s.channels| - 1].sent + [chunk]
            && (n + 1 < |s.hashes| ==> s1.operation == Restoring && s1.hashes == s.hashes)
            && (n + 1 == |s.hashes| ==> s1.operation == NoOperation)
  {
    Counts(n, s.index);
  }

  lemma Counts(n: nat, index: Uint32)
    requires n + 1 < TWO32 && index == n % TWO32
    ensures index == n && (index + 1) % TWO32 == n + 1
  {
  }

  function Present(chunks: seq<Bytes>): (r: seq<Option<Bytes>>)
    ensures |r| == |chunks| && forall i :: 0 <= i < |chunks| ==> r[i] == Some(chunks[i])
  {
    seq(|chunks|, i requires 0 <= i < |chunks| => Some(chunks[i]))
  }

  function AsChannel(chunks: seq<Bytes>): (r: seq<Chunk>)
    ensures Datas(r) == chunks && AllClosed(None, r)
  {
    seq(|chunks|, i requires 0 <= i < |chunks| => Chunk(chunks[i], Closed))
  }

  /**
   What one node writes is what the other reads: the stream is cut into chunks, saved, loaded, fed to the restoring
   manager of the other node, and put together again.
   */
  method Pipeline(store: Store, m: Manager, height: Uint64, writes: seq<Bytes>, chunkSize: nat,
                  length: nat, choices: nat -> nat) returns (done: bool, restored: Bytes)
    requires store.Valid() && m.Valid() && m.operation == NoOperation && store.sha256 == m.sha256
    requires 0 < height <= MAX_INT64 && height !in store.saving && EncodeKey(height, CURRENT_FORMAT) !in store.db
    requires Concat(writes) != [] && |Cut(Concat(writes), chunkSize)| < TWO32 && length > 0
    modifies store, m
    ensures done && restored == Concat(writes) && m.operation == NoOperation
  {
    var channel := WriteAll(writes, chunkSize);
    ConcatCut(Concat(writes), chunkSize);
    var snapshot, chunks := SaveAndLoad(store, height, CURRENT_FORMAT, Datas(channel));
    done := RestoreAll(m, snapshot, chunks);
    restored := ReadAll(AsChannel(m.channels[|m.channels| - 1].sent), length, choices);
  }

  /** Loading what was saved gives the same chunks, and the metadata holds their hashes. */
  method SaveAndLoad(store: Store, height: Uint64, format: Uint32, chunks: seq<Bytes>)
    returns (snapshot: Snapshot, loaded: seq<Bytes>)
    requires store.Valid() && height != 0 && height !in store.saving
    requires EncodeKey(height, format) !in store.db && |chunks| < TWO32
    modifies store
    ensures store.Valid() && loaded == chunks
    ensures snapshot == SnapshotOf(store.sha256, height, format, chunks)
  {
    var present := Present(chunks);
    ValuesAre(present, chunks);
    var saved := store.Save(height, format, present);
    snapshot := saved.value;
    loaded := Values(store.Load(height, format).value.chunks);
    LoadsSaved(old(store.files), height, format, chunks, store.files, snapshot);
  }

  lemma LoadsSaved(before: Files, height: Uint64, format: Uint32, chunks: seq<Bytes>, files: Files, snapshot: Snapshot)
    requires |chunks| < TWO32 && files == Filed(before, Place(height, format), chunks)
    requires snapshot.chunks == |chunks| % TWO32
    ensures Values(ChunksOf(FilesIn(files, Place(height, format)), snapshot.chunks)) == chunks
  {
    assert snapshot.chunks == |chunks|;
    SavedIsLoaded(before, Place(height, format), chunks);
  }

  // ----- Create and Prune as whole calls -----

  /** What Create asks for, besides that no other operation is in progress. */
  ghost predicate CanCreate(db: Database, saving: set<Uint64>, height: Uint64, chunks: seq<Option<Bytes>>) {
    && height != 0 && height !in saving && AllRead(chunks)
    && EncodeKey(height, CURRENT_FORMAT) !in db
    && forall key :: key in Listed(db) ==> db[key].height < height
  }

  /**
   Create: succeeds exactly when no other operation is in progress, the height is above every listed snapshot and
   all chunks can be read.
   */
  method Create(store: Store, m: Manager, height: Uint64, chunks: seq<Option<Bytes>>) returns (r: Result<Snapshot>)
    requires store.Valid() && m.Valid()
    modifies store, m
    ensures store.Valid() && m.Valid() && m.View() == old(m.View())
    ensures r.Ok? <==> old(m.operation == NoOperation && CanCreate(store.db, store.saving, height, chunks))
    ensures old(m.operation) != NoOperation ==> store.db == old(store.db) && store.files == old(store.files)
    ensures r.Ok? ==> store.db == old(store.db)[EncodeKey(height, CURRENT_FORMAT) := r.value]
    ensures r.Ok? ==> store.files == Filed(old(store.files), Place(height, CURRENT_FORMAT), Values(chunks))
    ensures r.Ok? ==> r.value == SnapshotOf(store.sha256, height, CURRENT_FORMAT, Values(chunks))
    ensures r.Err? ==> store.db == old(store.db)
    ensures old(store.IsTidy() && NoLast(store.db)) && (r.Err? || chunks != []) ==> store.IsTidy()
  {
    var ok := m.Begin(Snapshotting);
    if !ok {
      return Err("an operation is in progress");
    }
    var latest := store.GetLatest();
    if latest.Some? && latest.value.height >= height {
      m.End();
      return Err("a more recent snapshot already exists");
    }
    if NoLast(store.db) {
      NewHeight(store.db, height);
    }
    r := store.Save(height, CURRENT_FORMAT, chunks);
    m.End();
  }

  /** The greatest key, which no iterator reaches, is not there. */
  ghost predicate NoLast(db: Database) {
    forall key :: key in db ==> !IsLast(key)
  }

  lemma NewHeight(db: Database, height: Uint64)
    requires AllDecode(db) && NoLast(db) && forall key :: key in Listed(db) ==> db[key].height < height
    ensures NoSnapshotAt(db, height)
  {
    forall key | key in db ensures HeightOf(key) != height {
      assert key in Listed(db);
    }
  }

  /** Prune: succeeds exactly when no other operation is in progress, nothing to delete is being saved, and the
      directory of every pruned height can be removed. */
  method Prune(store: Store, m: Manager, retain: Uint32) returns (r: Result<nat>)
    requires store.Valid() && m.Valid()
    modifies store, m
    ensures store.Valid() && m.Valid() && m.View() == old(m.View()) && (old(store.IsTidy()) ==> store.IsTidy())
    ensures old(m.operation) != NoOperation ==> r.Err? && store.db == old(store.db) && store.files == old(store.files)
    ensures old(m.operation == NoOperation && !store.PruneConflicts(retain)) ==>
            var dropped := Dropped(old(store.db), retain, Listed(old(store.db)));
            && store.db == old(store.db) - dropped && store.files == old(store.files) - PlacesOf(dropped)
            && (r.Ok? <==> Removable(store.files, old(store.dirs), HeightsIn(dropped)))
            && (old(store.IsTidy()) ==> (r.Ok? <==> !Stuck(old(store.db), retain)))
            && (r.Ok? ==> r.value == |dropped|)
    ensures r.Ok? ==> !old(store.PruneConflicts(retain))
  {
    var ok := m.Begin(Pruning);
    if !ok {
      return Err("an operation is in progress");
    }
    r := store.Prune(retain);
    m.End();
  }
}
