/**
 The snapshot manager: one operation at a time, and a restore that hands chunks to a goroutine over a channel.
 Everything done under the mutex is one step; what the goroutine reports is up to the environment.
 */
module SnapshotManager {
  import opened Basics
  import opened SnapshotKeys
  import opened SnapshotData

  datatype Operation = NoOperation | Snapshotting | Pruning | Restoring

  /** What the restoring goroutine reports at its end. */
  datatype Done = Done(complete: bool, error: Option<string>)

  /** The channel of one restore: what it is for, what was sent over it, and how often it was closed. */
  datatype Channel = Channel(hashes: seq<Bytes>, sent: seq<Bytes>, closes: nat)

  /** The fields of the manager, with every channel it ever made; a channel is named by its place in that list. */
  datatype State = State(operation: Operation, chRestore: Option<nat>, chRestoreDone: Option<nat>,
                         hashes: seq<Bytes>, index: Uint32, channels: seq<Channel>)

  const Idle := State(NoOperation, None, None, [], 0, [])

  const CURRENT_FORMAT: Uint32 := 1
  const MAX_INT64: int := 0x7fff_ffff_ffff_ffff
  const TWO32 := 0x1_0000_0000

  // ----- what must always hold -----

  /** The hashes of what was sent are the expected ones in order; the counter of 32 bits starts over when it wraps. */
  ghost predicate InOrder(sha256: Bytes -> Bytes, ch: Channel) {
    && (forall i :: 0 <= i < |ch.sent| ==> i % TWO32 < |ch.hashes| && sha256(ch.sent[i]) == ch.hashes[i % TWO32])
    && (|ch.hashes| < TWO32 ==> |ch.sent| <= |ch.hashes|)
  }

  ghost predicate OpenChannel(s: State) {
    && |s.channels| > 0
    && s.chRestore == Some(|s.channels| - 1) && s.chRestoreDone == s.chRestore
    && s.channels[|s.channels| - 1].closes == 0
    && s.channels[|s.channels| - 1].hashes == s.hashes
    && s.index == |s.channels[|s.channels| - 1].sent| % TWO32
    && s.index < |s.hashes|
  }

  ghost predicate AtRest(s: State) {
    s.chRestore == None && s.chRestoreDone == None && s.hashes == [] && s.index == 0
  }

  /** A restore has the last channel open; otherwise all are closed.  No channel is ever closed twice. */
  ghost predicate Inv(sha256: Bytes -> Bytes, s: State) {
    && (if s.operation == Restoring then OpenChannel(s) else AtRest(s))
    && (forall i :: 0 <= i < |s.channels| && Some(i) != s.chRestore ==> s.channels[i].closes == 1)
    && (forall i :: 0 <= i < |s.channels| ==> InOrder(sha256, s.channels[i]))
  }

  // ----- the steps -----

  function Close(channels: seq<Channel>, i: nat): seq<Channel>
    requires i < |channels| && channels[i].closes == 0
  {
    channels[i := channels[i].(closes := 1)]
  }

  function Send(channels: seq<Channel>, i: nat, chunk: Bytes): seq<Channel>
    requires i < |channels| && channels[i].closes == 0
  {
    channels[i := channels[i].(sent := channels[i].sent + [chunk])]
  }

  /** endLocked. */
  function Ended(s: State): State
    requires s.chRestore.Some? ==> s.chRestore.value < |s.channels| && s.channels[s.chRestore.value].closes == 0
  {
    State(NoOperation, None, None, [], 0,
          if s.chRestore.Some? then Close(s.channels, s.chRestore.value) else s.channels)
  }

  predicate Restorable(snapshot: Snapshot) {
    && snapshot.chunks != 0 && |snapshot.chunkHashes| % TWO32 == snapshot.chunks
    && snapshot.format == CURRENT_FORMAT && 0 < snapshot.height <= MAX_INT64
  }

  function Restored(s: State, snapshot: Snapshot): State {
    State(Restoring, Some(|s.channels|), Some(|s.channels|), snapshot.chunkHashes, 0,
          s.channels + [Channel(snapshot.chunkHashes, [], 0)])
  }

  /** The state after a chunk is sent and the counter moved on. */
  function Forwarded(s: State, chunk: Bytes): State
    requires s.chRestore.Some? && s.chRestore.value < |s.channels| && s.channels[s.chRestore.value].closes == 0
  {
    s.(channels := Send(s.channels, s.chRestore.value, chunk), index := (s.index + 1) % TWO32)
  }

  // ----- each step keeps the invariant -----

  lemma EndedOk(sha256: Bytes -> Bytes, s: State)
    requires Inv(sha256, s)
    ensures Inv(sha256, Ended(s)) && Ended(s).operation == NoOperation
  {
    forall i | 0 <= i < |s.channels| ensures InOrder(sha256, Ended(s).channels[i]) && Ended(s).channels[i].closes == 1 {
      assert InOrder(sha256, s.channels[i]);
    }
  }

  lemma RestoredOk(sha256: Bytes -> Bytes, s: State, snapshot: Snapshot)
    requires Inv(sha256, s) && s.operation == NoOperation && Restorable(snapshot)
    ensures Inv(sha256, Restored(s, snapshot))
  {
    var s1 := Restored(s, snapshot);
    forall i | 0 <= i < |s1.channels| ensures InOrder(sha256, s1.channels[i]) {
      if i < |s.channels| {
        assert InOrder(sha256, s.channels[i]);
      }
    }
  }

  /** One more chunk with the expected hash keeps the order. */
  lemma InOrderMore(sha256: Bytes -> Bytes, ch: Channel, chunk: Bytes)
    requires InOrder(sha256, ch)
    requires |ch.sent| % TWO32 < |ch.hashes| && sha256(chunk) == ch.hashes[|ch.sent| % TWO32]
    requires |ch.hashes| < TWO32 ==> |ch.sent| < |ch.hashes|
    ensures InOrder(sha256, ch.(sent := ch.sent + [chunk]))
  {
    var more := ch.sent + [chunk];
    forall i | 0 <= i < |more| ensures i % TWO32 < |ch.hashes| && sha256(more[i]) == ch.hashes[i % TWO32] {
      if i < |ch.sent| {
        assert more[i] == ch.sent[i];
      }
    }
  }

  lemma SmallIndex(ch: Channel, index: int)
    requires |ch.hashes| < TWO32 && |ch.sent| <= |ch.hashes| && index == |ch.sent| % TWO32 && index < |ch.hashes|
    ensures index == |ch.sent|
  {
  }

  /** Sending a chunk with the expected hash keeps everything but that the counter may have reached the end. */
  lemma ForwardedOk(sha256: Bytes -> Bytes, s: State, chunk: Bytes)
    requires Inv(sha256, s) && s.operation == Restoring && sha256(chunk) == s.hashes[s.index]
    ensures var s1 := Forwarded(s, chunk);
            if s1.index >= |s1.hashes| then Inv(sha256, Ended(s1)) else Inv(sha256, s1)
    ensures |s.hashes| < TWO32 ==>
            (Forwarded(s, chunk).index >= |s.hashes| <==> |s.channels[|s.channels| - 1].sent| + 1 == |s.hashes|)
  {
    var s1, last := Forwarded(s, chunk), |s.channels| - 1;
    var ch := s.channels[last];
    assert InOrder(sha256, ch);
    if |ch.hashes| < TWO32 {
      SmallIndex(ch, s.index);
    }
    InOrderMore(sha256, ch, chunk);
    ForwardedIndex(s, ch);
    forall i | 0 <= i < |s1.channels| ensures InOrder(sha256, s1.channels[i]) {
      if i != last {
        assert s1.channels[i] == s.channels[i];
        assert InOrder(sha256, s.channels[i]);
      }
    }
    if s1.index >= |s1.hashes| {
      forall i | 0 <= i < |s1.channels|
        ensures InOrder(sha256, Ended(s1).channels[i]) && Ended(s1).channels[i].closes == 1
      {
        assert InOrder(sha256, s1.channels[i]);
      }
    }
  }

  lemma ForwardedIndex(s: State, ch: Channel)
    requires s.index == |ch.sent| % TWO32
    ensures (s.index + 1) % TWO32 == (|ch.sent| + 1) % TWO32
  {
  }

  // ----- the manager -----

  class Manager {
    const sha256: Bytes -> Bytes
    var operation: Operation
    var chRestore: Option<nat>
    var chRestoreDone: Option<nat>
    var restoreChunkHashes: seq<Bytes>
    var restoreChunkIndex: Uint32
    var channels: seq<Channel>

    function View(): State
      reads this
    {
      State(operation, chRestore, chRestoreDone, restoreChunkHashes, restoreChunkIndex, channels)
    }

    ghost predicate Valid()
      reads this
    {
      Inv(sha256, View())
    }

    constructor (sha256: Bytes -> Bytes)
      ensures Valid() && View() == Idle && this.sha256 == sha256
    {
      this.sha256 := sha256;
      operation, chRestore, chRestoreDone := NoOperation, None, None;
      restoreChunkHashes, restoreChunkIndex, channels := [], 0, [];
    }

    /** beginLocked for an operation other than a restore: it begins exactly when none is in progress. */
    method Begin(op: Operation) returns (ok: bool)
      requires Valid() && op != Restoring
      modifies this
      ensures Valid() && ok == (op != NoOperation && old(operation) == NoOperation)
      ensures View() == if ok then old(View()).(operation := op) else old(View())
    {
      if op == NoOperation || operation != NoOperation {
        return false;
      }
      operation := op;
      return true;
    }

    /** endLocked: an open channel is closed; to close it twice would panic. */
    method End()
      requires chRestore.Some? ==> chRestore.value < |channels| && channels[chRestore.value].closes == 0
      modifies this
      ensures (old(Valid()) ==> Valid()) && View() == Ended(old(View()))
      ensures operation == NoOperation && chRestore == None && chRestoreDone == None
      ensures restoreChunkHashes == [] && restoreChunkIndex == 0
      ensures channels == if old(chRestore).None? then old(channels)
                          else old(channels)[old(chRestore).value := old(channels)[old(chRestore).value].(closes := 1)]
    {
      if Valid() {
        EndedOk(sha256, View());
      }
      operation := NoOperation;
      if chRestore.Some? {
        channels := Close(channels, chRestore.value);
        chRestore := None;
      }
      chRestoreDone, restoreChunkHashes, restoreChunkIndex := None, [], 0;
    }

    /** Restore begins only when the metadata is consistent and nothing else is in progress. */
    method Restore(snapshot: Snapshot) returns (ok: bool)
      requires Valid()
      modifies this
      ensures Valid() && ok == (Restorable(snapshot) && old(operation) == NoOperation)
      ensures View() == if ok then Restored(old(View()), snapshot) else old(View())
      ensures ok <==>
              && old(operation) == NoOperation
              && snapshot.chunks != 0 && |snapshot.chunkHashes| % 0x1_0000_0000 == snapshot.chunks
              && snapshot.format == 1 && 0 < snapshot.height < 0x8000_0000_0000_0000
      ensures ok ==>
              && operation == Restoring && restoreChunkHashes == snapshot.chunkHashes && restoreChunkIndex == 0
              && channels == old(channels) + [Channel(snapshot.chunkHashes, [], 0)]
              && chRestore == chRestoreDone == Some(old(|channels|))
    {
      if snapshot.chunks == 0 || |snapshot.chunkHashes| % TWO32 != snapshot.chunks {
        return false;
      }
      if snapshot.format != CURRENT_FORMAT || snapshot.height == 0 || snapshot.height > MAX_INT64 {
        return false;
      }
      if operation != NoOperation {
        return false;
      }
      RestoredOk(sha256, View(), snapshot);
      operation := Restoring;
      chRestore, chRestoreDone := Some(|channels|), Some(|channels|);
      channels := channels + [Channel(snapshot.chunkHashes, [], 0)];
      restoreChunkHashes, restoreChunkIndex := snapshot.chunkHashes, 0;
      return true;
    }

    /**
     RestoreChunk.  `early` is what the goroutine has reported already, `final` what it reports when waited for.
     A chunk with another hash than the expected one changes nothing.  The result is true exactly when the last
     chunk was handed over and the goroutine reports that it completed.  There is no case for a chunk too many: the
     counter is always below the number of hashes.
     */
    method RestoreChunk(chunk: Bytes, early: Option<Done>, final: Done) returns (r: Result<bool>)
      requires Valid()
      modifies this
      ensures Valid()
      ensures r == ChunkResult(sha256, old(View()), chunk, early, final)
      ensures View() == ChunkState(sha256, old(View()), chunk, early)
      ensures r == Ok(true) <==>
              early.None? && Expected(sha256, old(View()), chunk) && LastOne(old(View())) && final == Done(true, None)
      ensures r == Ok(false) <==> early.None? && Expected(sha256, old(View()), chunk) && !LastOne(old(View()))
      ensures old(operation) != Restoring || (early.None? && !Expected(sha256, old(View()), chunk)) ==>
              r.Err? && View() == old(View())
      ensures old(operation) == Restoring && early.Some? ==>
              && r.Err? && (early.value.error.Some? ==> r == Err(early.value.error.value))
              && Stopped(old(View()), View(), [])
      ensures early.None? && Expected(sha256, old(View()), chunk) && LastOne(old(View())) ==>
              (final.error.Some? ==> r == Err(final.error.value)) && Stopped(old(View()), View(), [chunk])
      ensures early.None? && Expected(sha256, old(View()), chunk) && !LastOne(old(View())) ==>
              Continued(old(View()), View(), chunk)
    {
      ChunkMeans(sha256, View(), chunk, early, final);
      if operation != Restoring {
        return Err("no restore operation in progress");
      }
      if early.Some? {
        End();
        return Err(if early.value.error.Some? then early.value.error.value else "restore ended unexpectedly");
      }
      if sha256(chunk) != restoreChunkHashes[restoreChunkIndex] {
        return Err("chunk hash mismatch");
      }
      var last := Forward(chunk);
      if last {
        if final.error.Some? {
          return Err(final.error.value);
        }
        return if final.complete then Ok(true) else Err("restore ended prematurely");
      }
      return Ok(false);
    }

    /** Sends the chunk; after the last one the channel is closed and the operation ended. */
    method Forward(chunk: Bytes) returns (last: bool)
      requires Valid() && operation == Restoring && sha256(chunk) == restoreChunkHashes[restoreChunkIndex]
      modifies this
      ensures Valid() && last == (Forwarded(old(View()), chunk).index >= |old(restoreChunkHashes)|)
      ensures View() == if last then Ended(Forwarded(old(View()), chunk)) else Forwarded(old(View()), chunk)
    {
      ForwardedOk(sha256, View(), chunk);
      channels := Send(channels, chRestore.value, chunk);
      restoreChunkIndex := (restoreChunkIndex + 1) % TWO32;
      last := restoreChunkIndex >= |restoreChunkHashes|;
      if last {
        End();
      }
    }
  }

  /** The state after RestoreChunk. */
  function ChunkState(sha256: Bytes -> Bytes, s: State, chunk: Bytes, early: Option<Done>): State
    requires s.operation == Restoring ==>
             && s.chRestore.Some? && s.chRestore.value < |s.channels| && s.channels[s.chRestore.value].closes == 0
             && s.index < |s.hashes|
  {
    if s.operation != Restoring then s
    else if early.Some? then Ended(s)
    else if sha256(chunk) != s.hashes[s.index] then s
    else if Forwarded(s, chunk).index >= |s.hashes| then Ended(Forwarded(s, chunk))
    else Forwarded(s, chunk)
  }

  /** What RestoreChunk returns. */
  function ChunkResult(sha256: Bytes -> Bytes, s: State, chunk: Bytes, early: Option<Done>, final: Done): Result<bool>
    requires s.operation == Restoring ==> s.index < |s.hashes|
  {
    if s.operation != Restoring then Err("no restore operation in progress")
    else if early.Some? then
      Err(if early.value.error.Some? then early.value.error.value else "restore ended unexpectedly")
    else if sha256(chunk) != s.hashes[s.index] then Err("chunk hash mismatch")
    else if (s.index + 1) % TWO32 < |s.hashes| then Ok(false)
    else if final.error.Some? then Err(final.error.value)
    else if final.complete then Ok(true)
    else Err("restore ended prematurely")
  }

  // ----- what becomes of a chunk, without the counter -----

  /** A restore is under way and the chunk has the hash that is expected next. */
  predicate Expected(sha256: Bytes -> Bytes, s: State, chunk: Bytes) {
    s.operation == Restoring && s.index < |s.hashes| && sha256(chunk) == s.hashes[s.index]
  }

  /** One chunk is missing. */
  predicate LastOne(s: State) {
    |s.channels| > 0 && |s.channels[|s.channels| - 1].sent| + 1 == |s.hashes| < TWO32
  }

  /** No operation is in progress any more; the channel of the restore got these chunks and was closed. */
  predicate Stopped(s: State, s1: State, sent: seq<Bytes>) {
    && s1.operation == NoOperation && s1.chRestore == None && s1.chRestoreDone == None
    && |s1.channels| == |s.channels| > 0
    && var last := |s.channels| - 1;
       && s1.channels[last] == Channel(s.hashes, s.channels[last].sent + sent, 1)
       && forall i :: 0 <= i < last ==> s1.channels[i] == s.channels[i]
  }

  /** The restore goes on, with one chunk more. */
  predicate Continued(s: State, s1: State, chunk: Bytes) {
    && s1.operation == Restoring && s1.chRestore == s.chRestore && s1.chRestoreDone == s.chRestoreDone
    && s1.hashes == s.hashes && |s1.channels| == |s.channels| > 0
    && var last := |s.channels| - 1;
       && s1.channels[last] == Channel(s.hashes, s.channels[last].sent + [chunk], 0)
       && forall i :: 0 <= i < last ==> s1.channels[i] == s.channels[i]
  }

  /** The counter runs out exactly at the last chunk. */
  lemma LastIsCounted(sha256: Bytes -> Bytes, s: State)
    requires Inv(sha256, s) && s.operation == Restoring
    ensures (s.index + 1) % TWO32 >= |s.hashes| <==> LastOne(s)
  {
    var ch := s.channels[|s.channels| - 1];
    assert InOrder(sha256, ch);
    if |s.hashes| < TWO32 {
      SmallIndex(ch, s.index);
      NextFits(s.index, |s.hashes|);
    }
  }

  lemma NextFits(index: nat, n: nat)
    requires index < n < TWO32
    ensures (index + 1) % TWO32 == index + 1
  {
  }

  lemma ChunkMeans(sha256: Bytes -> Bytes, s: State, chunk: Bytes, early: Option<Done>, final: Done)
    requires Inv(sha256, s)
    ensures var r, s1 := ChunkResult(sha256, s, chunk, early, final), ChunkState(sha256, s, chunk, early);
            && (r == Ok(true) <==> early.None? && Expected(sha256, s, chunk) && LastOne(s) && final == Done(true, None))
            && (r == Ok(false) <==> early.None? && Expected(sha256, s, chunk) && !LastOne(s))
            && (s.operation != Restoring || (early.None? && !Expected(sha256, s, chunk)) ==> r.Err? && s1 == s)
            && (s.operation == Restoring && early.Some? ==>
                  r.Err? && (early.value.error.Some? ==> r == Err(early.value.error.value)) && Stopped(s, s1, []))
            && (early.None? && Expected(sha256, s, chunk) && LastOne(s) ==>
                  (final.error.Some? ==> r == Err(final.error.value)) && Stopped(s, s1, [chunk]))
            && (early.None? && Expected(sha256, s, chunk) && !LastOne(s) ==> Continued(s, s1, chunk))
  {
    if s.operation == Restoring {
      LastIsCounted(sha256, s);
      assert s.channels[|s.channels| - 1].sent + [] == s.channels[|s.channels| - 1].sent;
    }
  }

  lemma LastForwarded(s: State, chunk: Bytes)
    requires OpenChannel(s)
    ensures Ended(Forwarded(s, chunk)).channels[|s.channels| - 1]
         == Channel(s.hashes, s.channels[|s.channels| - 1].sent + [chunk], 1)
  {
  }

  /** True means that the manager is idle and that all chunks were sent, each with its hash, over a closed channel. */
  lemma TrueMeansComplete(sha256: Bytes -> Bytes, s: State, chunk: Bytes, early: Option<Done>, final: Done)
    requires Inv(sha256, s) && ChunkResult(sha256, s, chunk, early, final) == Ok(true)
    ensures var s1 := ChunkState(sha256, s, chunk, early);
            && s1.operation == NoOperation && |s1.channels| == |s.channels| > 0
            && var ch := s1.channels[|s1.channels| - 1];
               && ch.hashes == s.hashes && ch.closes == 1 && |ch.sent| == |ch.hashes| < TWO32
               && ch.sent == s.channels[|s.channels| - 1].sent + [chunk]
               && forall i :: 0 <= i < |ch.sent| ==> sha256(ch.sent[i]) == ch.hashes[i]
  {
    var s1, s2, last := Forwarded(s, chunk), Ended(Forwarded(s, chunk)), |s.channels| - 1;
    ForwardedOk(sha256, s, chunk);
    LastForwarded(s, chunk);
    assert InOrder(sha256, s2.channels[last]);
    SmallEnough(sha256, s2.channels[last], s.index);
  }

  /** A counter that reaches the number of hashes has not wrapped. */
  lemma SmallEnough(sha256: Bytes -> Bytes, ch: Channel, index: Uint32)
    requires InOrder(sha256, ch) && |ch.sent| > 0 && index == (|ch.sent| - 1) % TWO32
    requires (index + 1) % TWO32 >= |ch.hashes| > index
    ensures |ch.sent| == |ch.hashes| < TWO32
    ensures forall i :: 0 <= i < |ch.sent| ==> sha256(ch.sent[i]) == ch.hashes[i]
  {
    NoWrap(index, |ch.hashes|);
    forall i | 0 <= i < |ch.sent| ensures sha256(ch.sent[i]) == ch.hashes[i] {
      assert i % TWO32 == i;
    }
  }

  lemma NoWrap(index: Uint32, n: nat)
    requires (index + 1) % TWO32 >= n > index
    ensures n == index + 1 < TWO32
  {
  }
}
