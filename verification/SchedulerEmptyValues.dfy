/**
 Why no key may be both absent and empty.  A recorded nil and an empty value compare as equal, so a task that read
 "absent" stays valid when an earlier task writes the empty value.
 */
module SchedulerEmptyValues {
  import opened Basics
  import opened Transactions
  import opened MultiVersion
  import opened SchedulerSteps
  import opened SchedulerSafety
  import opened Scheduling
  import opened SchedulerRuns

  /** What each key may hold; None is absence. */
  type Domain = (Key, Option<Bytes>) -> bool

  ghost predicate StoreIn(store: KvStore, d: Domain) {
    forall k :: d(k, Lookup(store, k))
  }

  ghost predicate WritesIn(tx: Tx, d: Domain) {
    forall h :: NextAction(tx, h).Set? ==> d(NextAction(tx, h).key, NextAction(tx, h).value)
  }

  /** The parent store and every write of a transaction are in the domain. */
  ghost predicate InDomain(c: Config, d: Domain) {
    StoreIn(c.parent, d) && forall i :: 0 <= i < |c.txs| ==> WritesIn(c.txs[i], d)
  }

  // ----- the failing batch -----

  /** Writes the empty value. */
  function Writer(k: Key): Tx {
    Tx((h: seq<Option<Bytes>>) => if h == [] then Set(k, Some([])) else Finish([]), 2, [])
  }

  /** Answers 0 if the key is absent and 1 if it is present. */
  function Reader(k: Key): Tx {
    Tx((h: seq<Option<Bytes>>) => if h == [] then Get(k) else if h[0].None? then Finish([0]) else Finish([1]), 2, [])
  }

  function Batch(k: Key, parent: KvStore): Config {
    Config([Writer(k), Reader(k)], parent)
  }

  const Fresh0 := Task(Pending, {}, 0, None, None, Idle)
  const Wrote0 := Task(Executed, {}, 0, Some([]), Some(map[]), Idle)

  function Read0(k: Key): Task {
    Task(Executed, {}, 0, Some([0]), Some(map[k := None]), Idle)
  }

  function Empty0(k: Key): Entries {
    map[k := Value([])]
  }

  /** A moment before the scheduler goes synchronous. */
  function At(w: World): Moment {
    Moment(w, false)
  }

  lemma Rebuild(w: World)
    requires |w.tasks| == 2 && |w.entries| == 2
    ensures w == World([w.tasks[0], w.tasks[1]], [w.entries[0], w.entries[1]])
  {
    assert w.tasks == [w.tasks[0], w.tasks[1]] && w.entries == [w.entries[0], w.entries[1]];
  }

  /** The reader runs to its end before the writer begins. */
  lemma ReaderRuns(k: Key, parent: KvStore) returns (run: seq<Moment>)
    requires k !in parent
    ensures IsRun(Batch(k, parent), run)
    ensures run[|run| - 1] == At(World([Fresh0.(thread := Queued), Read0(k)], [map[], map[]]))
  {
    var c := Batch(k, parent);
    var w0 := Initial(c);
    var w1 := Dispatch(c, w0, PendingTasks(w0.tasks), Queued);
    assert BeginsExecution(c, w0, false, w1);
    var w2 := Start(c, w1, 1, false);
    assert Turn(c, At(w1), 1, w2);
    var w3 := Advance(c, w2, 1);
    assert Turn(c, At(w2), 1, w3);
    assert w3.tasks[1].thread == Running(Local([None], map[k := None], map[]));
    var w4 := Advance(c, w3, 1);
    assert Turn(c, At(w3), 1, w4);
    assert Items(map[]) == map[];
    assert w4.tasks[1].thread == Publishing({}, map[], Done(map[k := None], [0]));
    var w5 := EndExecute(c, w4, 1);
    assert Turn(c, At(w4), 1, w5);
    Rebuild(w5);
    run := [At(w0), At(w1), At(w2), At(w3), At(w4), At(w5)];
  }

  /** Then the writer runs and publishes the empty value. */
  lemma WriterRuns(k: Key, parent: KvStore) returns (run: seq<Moment>)
    requires k !in parent
    ensures IsRun(Batch(k, parent), run)
    ensures run[|run| - 1] == At(World([Wrote0, Read0(k)], [Empty0(k), map[]]))
  {
    var c := Batch(k, parent);
    run := ReaderRuns(k, parent);
    var w1 := run[|run| - 1].world;
    var w2 := Start(c, w1, 0, false);
    assert Turn(c, At(w1), 0, w2);
    var w3 := Advance(c, w2, 0);
    assert Turn(c, At(w2), 0, w3);
    assert w3.tasks[0].thread == Running(Local([None], map[], map[k := Some([])]));
    var w4 := Advance(c, w3, 0);
    assert Turn(c, At(w3), 0, w4);
    assert Items(map[k := Some([])]) == Empty0(k);
    assert w4.tasks[0].thread == Publishing({k}, Empty0(k), Done(map[], []));
    var w5 := Publish(c, w4, 0, k);
    assert Turn(c, At(w4), 0, w5);
    assert w5.tasks[0].thread.todo == {};
    var w6 := EndExecute(c, w5, 0);
    assert Turn(c, At(w5), 0, w6);
    Rebuild(w6);
    run := run + [At(w2), At(w3), At(w4), At(w5), At(w6)];
  }

  /** Both validate. */
  lemma BothValidate(k: Key, parent: KvStore) returns (run: seq<Moment>)
    requires k !in parent
    ensures IsRun(Batch(k, parent), run)
    ensures EndsValidated(Batch(k, parent), run)
    ensures run[|run| - 1].world.tasks[1].response == Some([0])
  {
    var c := Batch(k, parent);
    run := WriterRuns(k, parent);
    var w1 := run[|run| - 1].world;
    var w2 := Dispatch(c, w1, Range(0, 2), Unchecked);
    assert BeginsValidation(c, w1, w2);
    var w3 := Visit(c, w2, 0);
    assert Turn(c, At(w2), 0, w3);
    var w4 := EndCheck(c, w3, 0);
    assert Turn(c, At(w3), 0, w4);
    var w5 := Visit(c, w4, 1);
    assert Turn(c, At(w4), 1, w5);
    assert w5.tasks[1].thread.keys == {k};
    assert w5.entries == [Empty0(k), map[]];
    var w6 := CheckKey(c, w5, 1, k);
    assert Turn(c, At(w5), 1, w6);
    assert w6.tasks[1].thread == Checking({}, true, {});
    var w7 := EndCheck(c, w6, 1);
    assert Turn(c, At(w6), 1, w7);
    run := run + [At(w2), At(w3), At(w4), At(w5), At(w6), At(w7)];
  }

  lemma ReaderAnswersOne(k: Key, parent: KvStore)
    ensures SequentialResponse(Batch(k, parent).txs, parent, 1) == [1]
  {
    var after := parent[k := []];
    assert Deliver(Writer(k), [], parent) == Deliver(Writer(k), [None], after) == Outcome(after, []);
    assert SequentialStore(Batch(k, parent).txs, parent, 0) == parent;
    assert SequentialStore(Batch(k, parent).txs, parent, 1) == after;
    assert Deliver(Reader(k), [], after) == Deliver(Reader(k), [Some([])], after) == Outcome(after, [1]);
  }

  /** On any store without the key, both validate, although running them one by one makes the reader answer 1: with
      empty values the scheduler is not serializable. */
  lemma EmptyValueBreaksSerializability(k: Key, parent: KvStore) returns (run: seq<Moment>)
    requires k !in parent
    ensures IsRun(Batch(k, parent), run) && EndsValidated(Batch(k, parent), run)
    ensures run[|run| - 1].world.tasks[1].response == Some([0])
    ensures SequentialResponse(Batch(k, parent).txs, parent, 1) == [1]
    ensures !Serializable(Batch(k, parent))
  {
    run := BothValidate(k, parent);
    ReaderAnswersOne(k, parent);
    assert !SequentialResult(Batch(k, parent), run[|run| - 1].world);
  }

  // ----- exactly when every batch is serializable -----

  /** No key may be both absent and empty. */
  ghost predicate Tells(d: Domain) {
    forall k :: !(d(k, None) && d(k, Some([])))
  }

  lemma HeldInDomain(c: Config, d: Domain, k: Key, v: Option<Bytes>)
    requires InDomain(c, d) && MayHold(c, k, v)
    ensures d(k, v)
  {
    if v != Lookup(c.parent, k) {
      var i, h :| 0 <= i < |c.txs| && NextAction(c.txs[i], h) == Set(k, v);
      assert WritesIn(c.txs[i], d);
    }
  }

  lemma TellingIsUnambiguous(c: Config, d: Domain)
    requires InDomain(c, d) && Tells(d)
    ensures Unambiguous(c)
  {
    forall k ensures !(MayHold(c, k, None) && MayHold(c, k, Some([]))) {
      if MayHold(c, k, None) && MayHold(c, k, Some([])) {
        HeldInDomain(c, d, k, None);
        HeldInDomain(c, d, k, Some([]));
      }
    }
  }

  lemma BatchInDomain(k: Key, parent: KvStore, d: Domain)
    requires StoreIn(parent, d) && d(k, None) && d(k, Some([]))
    ensures InDomain(Batch(k, parent - {k}), d)
  {
    forall j ensures d(j, Lookup(parent - {k}, j)) {
      assert d(j, Lookup(parent, j));
    }
    assert WritesIn(Writer(k), d) && WritesIn(Reader(k), d);
  }

  /**
   Say for each key what it may hold, so that at least one store qualifies.  Then every batch that keeps to this is
   serializable under every interleaving if and only if no key may be both absent and empty.
   */
  lemma SerializableExactly(d: Domain, store: KvStore)
    requires StoreIn(store, d)
    ensures (forall c :: InDomain(c, d) ==> Serializable(c)) <==> Tells(d)
  {
    if Tells(d) {
      forall c | InDomain(c, d) ensures Serializable(c) {
        TellingIsUnambiguous(c, d);
        RunsAreSerializable(c);
      }
    } else {
      var k :| d(k, None) && d(k, Some([]));
      BatchInDomain(k, store, d);
      var run := EmptyValueBreaksSerializability(k, store - {k});
    }
  }

  /** Every key may be absent or hold one of the values. */
  ghost function Anywhere(values: Bytes -> bool): Domain {
    (k: Key, v: Option<Bytes>) => v.None? || values(v.value)
  }

  /** Where every key may be absent, what matters is whether the empty value is among those stored and written. */
  lemma SerializableByValues(values: Bytes -> bool)
    ensures (forall c :: InDomain(c, Anywhere(values)) ==> Serializable(c)) <==> !values([])
  {
    var d := Anywhere(values);
    SerializableExactly(d, map[]);
    if values([]) {
      assert d([], None) && d([], Some([]));
    }
  }
}
