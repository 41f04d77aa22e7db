/**
 Restores with more hashes than the counter of 32 bits can tell apart.  Restore compares the number of hashes with the
 number of chunks modulo 2^32, so it accepts them; the counter then starts over and the restore never completes.
 */
module SnapshotWrap {
  import opened Basics
  import opened SnapshotData
  import opened SnapshotManager
  import opened SnapshotRuns

  ghost predicate HashesOf(sha256: Bytes -> Bytes, chunks: seq<Bytes>, hashes: seq<Bytes>) {
    |chunks| == |hashes| && forall i :: 0 <= i < |hashes| ==> sha256(chunks[i]) == hashes[i]
  }

  /** The last world of a run. */
  ghost predicate Reaches(sha256: Bytes -> Bytes, w: World) {
    exists worlds, events :: IsRun(sha256, worlds, events) && worlds[|events|] == w
  }

  /** Whatever is reached, what was sent for these hashes is a prefix of them. */
  ghost predicate SendsPrefixes(sha256: Bytes -> Bytes, hashes: seq<Bytes>) {
    forall w, c :: Reaches(sha256, w) && 0 <= c < |w.state.channels| && w.state.channels[c].hashes == hashes ==>
                   ForwardedPrefix(sha256, w.state.channels[c])
  }

  /** In the world a call of RestoreChunk can return true. */
  ghost predicate CanComplete(sha256: Bytes -> Bytes, s: State) {
    && s.operation == Restoring && s.index < |s.hashes|
    && exists chunk, early, final :: ChunkResult(sha256, s, chunk, early, final) == Ok(true)
  }

  /** Some run completes a restore with these hashes. */
  ghost predicate Completable(sha256: Bytes -> Bytes, hashes: seq<Bytes>) {
    exists w :: Reaches(sha256, w) && w.state.hashes == hashes && CanComplete(sha256, w.state)
  }

  // ----- a run that feeds the chunks -----

  /** The chunks can be fed n times: all but the last, or on and on if the counter wraps. */
  predicate Feedable(chunks: seq<Bytes>, n: nat) {
    n < |chunks| || |chunks| >= TWO32
  }

  /** What is sent then. */
  function Cycle(chunks: seq<Bytes>, n: nat): (r: seq<Bytes>)
    requires chunks != [] && Feedable(chunks, n)
    ensures |r| == n
  {
    if n == 0 then [] else Cycle(chunks, n - 1) + [chunks[(n - 1) % TWO32]]
  }

  function Fed(hashes: seq<Bytes>, chunks: seq<Bytes>, n: nat): World
    requires chunks != [] && Feedable(chunks, n)
  {
    World(State(Restoring, Some(0), Some(0), hashes, n % TWO32, [Channel(hashes, Cycle(chunks, n), 0)]), map[])
  }

  lemma FeedStep(sha256: Bytes -> Bytes, hashes: seq<Bytes>, chunks: seq<Bytes>, n: nat)
    requires chunks != [] && HashesOf(sha256, chunks, hashes) && Feedable(chunks, n + 1)
    ensures After(sha256, Fed(hashes, chunks, n), Feeds(chunks[n % TWO32], None, Done(true, None))) ==
            Some(Fed(hashes, chunks, n + 1))
  {
    NextCount(n);
    assert (n + 1) % TWO32 < |hashes|;
    var s, chunk := Fed(hashes, chunks, n).state, chunks[n % TWO32];
    assert Send(s.channels, 0, chunk) == [Channel(hashes, Cycle(chunks, n + 1), 0)];
  }

  lemma StartFed(snapshot: Snapshot, chunks: seq<Bytes>)
    requires chunks != []
    ensures World(Restored(Idle, snapshot), map[]) == Fed(snapshot.chunkHashes, chunks, 0)
  {
    assert Idle.channels + [Channel(snapshot.chunkHashes, [], 0)] == [Channel(snapshot.chunkHashes, [], 0)];
  }

  lemma NextCount(n: nat)
    ensures (n % TWO32 + 1) % TWO32 == (n + 1) % TWO32
  {
  }

  lemma ReachesNext(sha256: Bytes -> Bytes, w: World, e: Event, w1: World)
    requires Reaches(sha256, w) && Enabled(w, e) && After(sha256, w, e) == Some(w1)
    ensures Reaches(sha256, w1)
  {
    var worlds, events :| IsRun(sha256, worlds, events) && worlds[|events|] == w;
    assert IsRun(sha256, worlds + [w1], events + [e]);
  }

  lemma {:induction false} ReachesFed(sha256: Bytes -> Bytes, snapshot: Snapshot, chunks: seq<Bytes>, n: nat)
    requires Restorable(snapshot) && HashesOf(sha256, chunks, snapshot.chunkHashes)
    requires chunks != [] && Feedable(chunks, n)
    ensures Reaches(sha256, Fed(snapshot.chunkHashes, chunks, n))
  {
    if n == 0 {
      var start := World(Idle, map[]);
      assert IsRun(sha256, [start], []);
      StartFed(snapshot, chunks);
      ReachesNext(sha256, start, Restores(snapshot), Fed(snapshot.chunkHashes, chunks, 0));
    } else {
      ReachesFed(sha256, snapshot, chunks, n - 1);
      FeedStep(sha256, snapshot.chunkHashes, chunks, n - 1);
      ReachesNext(sha256, Fed(snapshot.chunkHashes, chunks, n - 1),
                  Feeds(chunks[(n - 1) % TWO32], None, Done(true, None)), Fed(snapshot.chunkHashes, chunks, n));
    }
  }

  // ----- exactly when a restore works -----

  lemma ReachedIsSafe(sha256: Bytes -> Bytes, w: World)
    requires Reaches(sha256, w)
    ensures WorldInv(sha256, w)
    ensures forall c :: 0 <= c < |w.state.channels| ==> ChannelSafe(sha256, w.state, c)
  {
    var worlds, events :| IsRun(sha256, worlds, events) && worlds[|events|] == w;
    RunKeeps(sha256, worlds, events, |events|);
    RunsAreSafe(sha256, worlds, events, |events|);
  }

  /** With 2^32 hashes or more no call of RestoreChunk returns true. */
  lemma NeverTrue(sha256: Bytes -> Bytes, s: State)
    requires |s.hashes| >= TWO32
    ensures !CanComplete(sha256, s)
  {
  }

  /** More chunks than there are hashes can be sent. */
  lemma SendsTooMany(sha256: Bytes -> Bytes, snapshot: Snapshot, chunks: seq<Bytes>)
    requires Restorable(snapshot) && HashesOf(sha256, chunks, snapshot.chunkHashes) && |chunks| >= TWO32
    ensures Reaches(sha256, Fed(snapshot.chunkHashes, chunks, |chunks| + 1))
    ensures !ForwardedPrefix(sha256, Fed(snapshot.chunkHashes, chunks, |chunks| + 1).state.channels[0])
  {
    ReachesFed(sha256, snapshot, chunks, |chunks| + 1);
  }

  lemma LastChunkCompletes(sha256: Bytes -> Bytes, snapshot: Snapshot, chunks: seq<Bytes>)
    requires Restorable(snapshot) && HashesOf(sha256, chunks, snapshot.chunkHashes) && 0 < |chunks| < TWO32
    ensures Completable(sha256, snapshot.chunkHashes)
  {
    var n := |chunks| - 1;
    ReachesFed(sha256, snapshot, chunks, n);
    var w := Fed(snapshot.chunkHashes, chunks, n);
    assert ChunkResult(sha256, w.state, chunks[n], None, Done(true, None)) == Ok(true);
    assert CanComplete(sha256, w.state);
  }

  /**
   For every snapshot that Restore accepts and of which all chunks are at hand: what is sent is always a prefix of
   the hashes, and the restore can complete, if and only if there are fewer than 2^32 hashes.
   */
  lemma RestoresExactly(sha256: Bytes -> Bytes, snapshot: Snapshot, chunks: seq<Bytes>)
    requires Restorable(snapshot) && HashesOf(sha256, chunks, snapshot.chunkHashes)
    ensures SendsPrefixes(sha256, snapshot.chunkHashes) <==> |snapshot.chunkHashes| < TWO32
    ensures Completable(sha256, snapshot.chunkHashes) <==> |snapshot.chunkHashes| < TWO32
  {
    var hashes := snapshot.chunkHashes;
    if |hashes| < TWO32 {
      LastChunkCompletes(sha256, snapshot, chunks);
      forall w, c | Reaches(sha256, w) && 0 <= c < |w.state.channels| && w.state.channels[c].hashes == hashes
        ensures ForwardedPrefix(sha256, w.state.channels[c])
      {
        ReachedIsSafe(sha256, w);
        assert ChannelSafe(sha256, w.state, c);
      }
    } else {
      SendsTooMany(sha256, snapshot, chunks);
      forall w | Reaches(sha256, w) && w.state.hashes == hashes ensures !CanComplete(sha256, w.state) {
        NeverTrue(sha256, w.state);
      }
    }
  }

  /** Such snapshots are accepted: with 2^32 and r more hashes and r chunks. */
  lemma LongSnapshotIsAccepted(hashes: seq<Bytes>, hash: Bytes)
    requires TWO32 < |hashes| < 2 * TWO32
    ensures Restorable(Snapshot(1, CURRENT_FORMAT, |hashes| - TWO32, hash, hashes))
  {
  }

  /** There the chunk number 2^32 is checked against the first hash. */
  lemma CounterStartsOver(sha256: Bytes -> Bytes, snapshot: Snapshot, chunks: seq<Bytes>)
    requires Restorable(snapshot) && HashesOf(sha256, chunks, snapshot.chunkHashes) && |chunks| >= TWO32
    ensures var w := Fed(snapshot.chunkHashes, chunks, TWO32 + 1);
            && Reaches(sha256, w) && |w.state.channels[0].sent| == TWO32 + 1
            && sha256(w.state.channels[0].sent[TWO32]) == snapshot.chunkHashes[0]
  {
    ReachesFed(sha256, snapshot, chunks, TWO32 + 1);
    assert Cycle(chunks, TWO32 + 1) == Cycle(chunks, TWO32) + [chunks[0]];
  }
}
