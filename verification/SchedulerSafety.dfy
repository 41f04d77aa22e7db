/**
 What every step of the scheduler keeps.  A task that finished is certified: on any store that
 agrees with its recorded reads, running its transaction alone gives the entries and the response
 it published.  Nothing is assumed about the values it was given while it ran.
 */
module SchedulerSafety {
  import opened Basics
  import opened Transactions
  import opened MultiVersion
  import opened SchedulerSteps

  ghost predicate Agrees(store: KvStore, rs: ReadSet) {
    forall k :: k in rs ==> Lookup(store, k) == rs[k]
  }

  /** Continuing from l is the same as starting over, on any store that agrees with l's reads. */
  ghost predicate Faithful(tx: Tx, l: Local) {
    forall store :: Agrees(store, l.readset) ==>
                    Deliver(tx, [], store) == Deliver(tx, l.history, Overlay(store, Items(l.writeset)))
  }

  ghost predicate Certified(tx: Tx, rs: ReadSet, e: Entries, r: Response) {
    && Clean(e)
    && forall store :: Agrees(store, rs) ==> Deliver(tx, [], store) == Outcome(Overlay(store, e), r)
  }

  // ----- what a key can hold -----

  /** Some transaction of the batch can write v to k; None is a deletion. */
  ghost predicate MayWrite(c: Config, k: Key, v: Option<Bytes>) {
    exists i, h :: 0 <= i < |c.txs| && NextAction(c.txs[i], h) == Set(k, v)
  }

  /** At some point k may hold v: it does from the start, or it is written. */
  ghost predicate MayHold(c: Config, k: Key, v: Option<Bytes>) {
    v == Lookup(c.parent, k) || MayWrite(c, k, v)
  }

  ghost predicate PossibleReads(c: Config, rs: ReadSet) {
    forall k :: k in rs ==> MayHold(c, k, rs[k])
  }

  function Held(item: Item): Option<Bytes>
    requires !item.Estimate?
  {
    if item.Deleted? then None else Some(item.bytes)
  }

  ghost predicate PossibleItems(c: Config, e: Entries) {
    forall k :: k in e && !e[k].Estimate? ==> MayHold(c, k, Held(e[k]))
  }

  /** No key can be absent at one point and hold the empty value at another. */
  ghost predicate Unambiguous(c: Config) {
    forall k :: !(MayHold(c, k, None) && MayHold(c, k, Some([])))
  }

  // ----- the invariant of one task -----

  /** The first keys of a publication are written, the others are still as they were. */
  ghost predicate Published(e: Entries, items: Entries, todo: set<Key>) {
    forall k :: k !in todo ==> (k in e <==> k in items) && (k in e ==> e[k] == items[k])
  }

  ghost predicate Recorded(c: Config, w: World, i: nat)
    requires Sized(c, w) && i < |c.txs|
  {
    var t := w.tasks[i];
    && t.readset.Some? && t.response.Some?
    && PossibleReads(c, t.readset.value)
    && Certified(c.txs[i], t.readset.value, w.entries[i], t.response.value)
  }

  ghost predicate TaskOk(c: Config, w: World, i: nat)
    requires Sized(c, w) && i < |c.txs|
  {
    var t := w.tasks[i];
    && (forall d :: d in t.deps ==> d < i)
    && PossibleItems(c, w.entries[i])
    && match t.thread
       case Running(l) =>
         && t.status.Pending? && |l.history| <= c.txs[i].gas && Faithful(c.txs[i], l)
         && PossibleReads(c, l.readset) && PossibleItems(c, Items(l.writeset))
       case Publishing(todo, items, ending) =>
         && t.status.Pending? && Published(w.entries[i], items, todo) && PossibleItems(c, items)
         && (match ending
             case Done(rs, r) => PossibleReads(c, rs) && Certified(c.txs[i], rs, items, r)
             case Abort(j) => j < i)
       case Checking(keys, valid, conflicts) =>
         && Recorded(c, w, i) && keys <= t.readset.value.Keys && (forall d :: d in conflicts ==> d < i)
         && (t.status.Executed? || t.status.Validated?)
       case Invalidating(stale, found) =>
         && (forall d :: d in found ==> d < i)
         && (t.status.Executed? || t.status.Validated?)
       case Awaiting(pending) => pending <= t.deps
       case _ => (t.status.Executed? || t.status.Validated?) ==> Recorded(c, w, i)
  }

  ghost predicate WorldOk(c: Config, w: World) {
    && Sized(c, w)
    && forall i :: 0 <= i < |c.txs| ==> TaskOk(c, w, i)
  }

  /** w1 differs from w0 at most in task i and its entries. */
  ghost predicate OnlyAt(c: Config, w0: World, w1: World, i: nat)
    requires Sized(c, w0)
  {
    && Sized(c, w1)
    && forall j :: 0 <= j < |c.txs| && j != i ==> w1.tasks[j] == w0.tasks[j] && w1.entries[j] == w0.entries[j]
  }

  lemma Framed(c: Config, w0: World, w1: World, i: nat)
    requires WorldOk(c, w0) && OnlyAt(c, w0, w1, i)
    requires i < |c.txs| ==> TaskOk(c, w1, i)
    ensures WorldOk(c, w1)
  {
    forall j | 0 <= j < |c.txs| && j != i ensures TaskOk(c, w1, j) { assert TaskOk(c, w0, j); }
  }

  // ----- steps of an execution -----

  lemma FaithfulFresh(tx: Tx)
    ensures Faithful(tx, Fresh)
  {
    forall store ensures Overlay(store, Items(map[])) == store {
      assert Items(map[]) == map[];
      OverlayNothing(store);
    }
  }

  lemma FaithfulSet(tx: Tx, l: Local, k: Key, v: Option<Bytes>)
    requires Faithful(tx, l) && NextAction(tx, l.history) == Set(k, v)
    ensures Faithful(tx, l.(history := l.history + [None], writeset := l.writeset[k := v]))
  {
    forall store { OverlayWrite(store, l.writeset, k, v); }
  }

  lemma FaithfulGet(tx: Tx, l: Local, k: Key, v: Option<Bytes>)
    requires Faithful(tx, l) && NextAction(tx, l.history) == Get(k)
    requires k in l.writeset ==> v == l.writeset[k]
    requires k in l.readset && k !in l.writeset ==> v == l.readset[k]
    ensures k in l.writeset || k in l.readset ==> Faithful(tx, l.(history := l.history + [v]))
    ensures k !in l.writeset && k !in l.readset ==>
              Faithful(tx, l.(history := l.history + [v], readset := l.readset[k := v]))
  {
    var rs := if k in l.writeset || k in l.readset then l.readset else l.readset[k := v];
    forall store | Agrees(store, rs)
      ensures Agrees(store, l.readset)
      ensures Lookup(Overlay(store, Items(l.writeset)), k) == v
    {
      forall j | j in l.readset ensures Lookup(store, j) == l.readset[j] {
        assert Lookup(store, j) == rs[j];
      }
      assert k !in l.writeset ==> Lookup(store, k) == rs[k];
    }
  }

  lemma FaithfulFinish(tx: Tx, l: Local, r: Response)
    requires Faithful(tx, l) && NextAction(tx, l.history) == Finish(r)
    ensures Certified(tx, l.readset, Items(l.writeset), r)
  {
  }

  /** A read returns something the key may hold. */
  lemma ReadIsPossible(c: Config, w: World, i: nat, k: Key)
    requires WorldOk(c, w) && i < |c.txs|
    ensures Read(c.parent, w.entries, i, k).Got? ==> MayHold(c, k, Read(c.parent, w.entries, i, k).value)
    ensures Read(c.parent, w.entries, i, k).Blocked? ==> Read(c.parent, w.entries, i, k).writer < i
  {
    var j := Latest(w.entries, i, k);
    if j.Some? {
      assert TaskOk(c, w, j.value);
    }
  }

  /** A write goes to what its key may hold. */
  lemma WriteIsPossible(c: Config, i: nat, h: seq<Option<Bytes>>, ws: WriteSet, k: Key, v: Option<Bytes>)
    requires i < |c.txs| && NextAction(c.txs[i], h) == Set(k, v) && PossibleItems(c, Items(ws))
    ensures PossibleItems(c, Items(ws[k := v]))
  {
    var more := Items(ws[k := v]);
    forall j | j in more && !more[j].Estimate? ensures MayHold(c, j, Held(more[j])) {
      if j == k {
        assert MayWrite(c, k, v);
      } else {
        assert more[j] == Items(ws)[j];
      }
    }
  }

  lemma StartOk(c: Config, w: World, i: nat, synchronous: bool)
    requires WorldOk(c, w) && i < |c.txs| && w.tasks[i].thread.Queued?
    requires synchronous || w.tasks[i].status.Pending?
    ensures WorldOk(c, Start(c, w, i, synchronous))
    ensures OnlyAt(c, w, Start(c, w, i, synchronous), i)
  {
    FaithfulFresh(c.txs[i]);
    var w1 := Start(c, w, i, synchronous);
    assert TaskOk(c, w, i);
    assert TaskOk(c, w1, i);
    Framed(c, w, w1, i);
  }

  lemma AdvanceOk(c: Config, w: World, i: nat)
    requires WorldOk(c, w) && i < |c.txs| && w.tasks[i].thread.Running?
    ensures WorldOk(c, Advance(c, w, i))
    ensures OnlyAt(c, w, Advance(c, w, i), i) && Advance(c, w, i).entries == w.entries
  {
    var w1 := Advance(c, w, i);
    assert TaskOk(c, w, i);
    var tx, l := c.txs[i], w.tasks[i].thread.local;
    match NextAction(tx, l.history) {
      case Finish(r) =>
        FaithfulFinish(tx, l, r);
        assert TaskOk(c, w1, i);
      case Set(k, v) =>
        FaithfulSet(tx, l, k, v);
        WriteIsPossible(c, i, l.history, l.writeset, k, v);
        assert TaskOk(c, w1, i);
      case Get(k) =>
        AdvanceGetOk(c, w, i, k);
    }
    Framed(c, w, w1, i);
  }

  lemma AdvanceGetOk(c: Config, w: World, i: nat, k: Key)
    requires WorldOk(c, w) && i < |c.txs| && w.tasks[i].thread.Running?
    requires NextAction(c.txs[i], w.tasks[i].thread.local.history) == Get(k)
    ensures TaskOk(c, Advance(c, w, i), i)
  {
    assert TaskOk(c, w, i);
    ReadIsPossible(c, w, i, k);
    var tx, l := c.txs[i], w.tasks[i].thread.local;
    if k in l.writeset {
      FaithfulGet(tx, l, k, l.writeset[k]);
    } else if k in l.readset {
      FaithfulGet(tx, l, k, l.readset[k]);
    } else if Read(c.parent, w.entries, i, k).Got? {
      FaithfulGet(tx, l, k, Read(c.parent, w.entries, i, k).value);
    }
  }

  lemma PublishOk(c: Config, w: World, i: nat, k: Key)
    requires WorldOk(c, w) && i < |c.txs| && w.tasks[i].thread.Publishing? && k in w.tasks[i].thread.todo
    ensures WorldOk(c, Publish(c, w, i, k))
    ensures OnlyAt(c, w, Publish(c, w, i, k), i)
  {
    var w1 := Publish(c, w, i, k);
    assert TaskOk(c, w, i);
    assert TaskOk(c, w1, i);
    Framed(c, w, w1, i);
  }

  lemma EndExecuteOk(c: Config, w: World, i: nat)
    requires WorldOk(c, w) && i < |c.txs| && w.tasks[i].thread.Publishing? && w.tasks[i].thread.todo == {}
    ensures WorldOk(c, EndExecute(c, w, i))
    ensures OnlyAt(c, w, EndExecute(c, w, i), i) && EndExecute(c, w, i).entries == w.entries
  {
    var w1 := EndExecute(c, w, i);
    assert TaskOk(c, w, i);
    assert w.entries[i] == w.tasks[i].thread.items;
    assert TaskOk(c, w1, i);
    Framed(c, w, w1, i);
  }

  // ----- steps of a validation -----

  lemma VisitOk(c: Config, w: World, i: nat)
    requires WorldOk(c, w) && i < |c.txs| && w.tasks[i].thread.Unchecked?
    ensures WorldOk(c, Visit(c, w, i))
    ensures OnlyAt(c, w, Visit(c, w, i), i) && Visit(c, w, i).entries == w.entries
  {
    var w1 := Visit(c, w, i);
    assert TaskOk(c, w, i);
    assert TaskOk(c, w1, i);
    Framed(c, w, w1, i);
  }

  lemma CheckKeyOk(c: Config, w: World, i: nat, k: Key)
    requires WorldOk(c, w) && i < |c.txs| && w.tasks[i].thread.Checking? && k in w.tasks[i].thread.keys
    ensures w.tasks[i].readset.Some? && k in w.tasks[i].readset.value
    ensures WorldOk(c, CheckKey(c, w, i, k))
    ensures OnlyAt(c, w, CheckKey(c, w, i, k), i) && CheckKey(c, w, i, k).entries == w.entries
  {
    assert TaskOk(c, w, i);
    var w1 := CheckKey(c, w, i, k);
    assert TaskOk(c, w1, i);
    Framed(c, w, w1, i);
  }

  lemma EndCheckOk(c: Config, w: World, i: nat)
    requires WorldOk(c, w) && i < |c.txs| && w.tasks[i].thread.Checking? && w.tasks[i].thread.keys == {}
    ensures WorldOk(c, EndCheck(c, w, i))
    ensures OnlyAt(c, w, EndCheck(c, w, i), i) && EndCheck(c, w, i).entries == w.entries
  {
    var w1 := EndCheck(c, w, i);
    assert TaskOk(c, w, i);
    assert TaskOk(c, w1, i);
    Framed(c, w, w1, i);
  }

  lemma InvalidateKeyOk(c: Config, w: World, i: nat, k: Key)
    requires WorldOk(c, w) && i < |c.txs| && w.tasks[i].thread.Invalidating? && k in w.tasks[i].thread.stale
    ensures WorldOk(c, InvalidateKey(c, w, i, k))
    ensures OnlyAt(c, w, InvalidateKey(c, w, i, k), i)
  {
    var w1 := InvalidateKey(c, w, i, k);
    assert TaskOk(c, w, i);
    assert TaskOk(c, w1, i);
    Framed(c, w, w1, i);
  }

  lemma EndInvalidateOk(c: Config, w: World, i: nat)
    requires WorldOk(c, w) && i < |c.txs| && w.tasks[i].thread.Invalidating? && w.tasks[i].thread.stale == {}
    ensures WorldOk(c, EndInvalidate(c, w, i))
    ensures OnlyAt(c, w, EndInvalidate(c, w, i), i) && EndInvalidate(c, w, i).entries == w.entries
  {
    var w1 := EndInvalidate(c, w, i);
    assert TaskOk(c, w, i);
    assert TaskOk(c, w1, i);
    Framed(c, w, w1, i);
  }

  lemma AwaitDepOk(c: Config, w: World, i: nat, d: nat)
    requires WorldOk(c, w) && i < |c.txs| && w.tasks[i].thread.Awaiting? && d in w.tasks[i].thread.pending
    ensures d < i
    ensures WorldOk(c, AwaitDep(c, w, i, d))
    ensures OnlyAt(c, w, AwaitDep(c, w, i, d), i) && AwaitDep(c, w, i, d).entries == w.entries
  {
    assert TaskOk(c, w, i);
    var w1 := AwaitDep(c, w, i, d);
    assert TaskOk(c, w1, i);
    Framed(c, w, w1, i);
  }

  lemma EndAwaitOk(c: Config, w: World, i: nat)
    requires WorldOk(c, w) && i < |c.txs| && w.tasks[i].thread.Awaiting? && w.tasks[i].thread.pending == {}
    ensures WorldOk(c, EndAwait(c, w, i))
    ensures OnlyAt(c, w, EndAwait(c, w, i), i) && EndAwait(c, w, i).entries == w.entries
  {
    var w1 := EndAwait(c, w, i);
    assert TaskOk(c, w, i);
    assert TaskOk(c, w1, i);
    Framed(c, w, w1, i);
  }
}
