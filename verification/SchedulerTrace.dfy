/**
 An execution that is not interrupted: what executeTask leaves, from the transaction and the memory below alone.  The
 results a transaction saw are described without the read and write sets the worker keeps.
 */
module SchedulerTrace {
  import opened Basics
  import opened Transactions
  import opened MultiVersion
  import opened SchedulerSteps
  import opened SchedulerSafety
  import opened SchedulerPasses

  /** What the transaction last wrote to k in the course of the results h; Some(None) is a deletion. */
  function LastWrite(tx: Tx, h: seq<Option<Bytes>>, k: Key): Option<Option<Bytes>> {
    if h == [] then None else
      match NextAction(tx, h[..|h| - 1])
      case Set(m, v) => if m == k then Some(v) else LastWrite(tx, h[..|h| - 1], k)
      case _ => LastWrite(tx, h[..|h| - 1], k)
  }

  /** After the results h the transaction asks for a key it has not written itself. */
  predicate AsksFor(tx: Tx, h: seq<Option<Bytes>>, k: Key) {
    NextAction(tx, h) == Get(k) && LastWrite(tx, h, k).None?
  }

  /** k was read from below in the course of the results h. */
  ghost predicate Asked(tx: Tx, h: seq<Option<Bytes>>, k: Key) {
    exists n :: 0 <= n < |h| && AsksFor(tx, h[..n], k)
  }

  /** x is what the transaction gets after h: its own last write, or else what task i sees of the memory. */
  ghost predicate Answer(c: Config, w: World, i: nat, h: seq<Option<Bytes>>, x: Option<Bytes>)
    requires Sized(c, w) && i < |c.txs|
  {
    match NextAction(c.txs[i], h)
    case Set(_, _) => x == None
    case Get(k) =>
      (match LastWrite(c.txs[i], h, k)
       case Some(v) => x == v
       case None => Read(c.parent, w.entries, i, k) == Got(x))
    case Finish(_) => false
  }

  /** The results h are those of a run over the memory of w. */
  ghost predicate Sees(c: Config, w: World, i: nat, h: seq<Option<Bytes>>)
    requires Sized(c, w) && i < |c.txs|
  {
    forall n :: 0 <= n < |h| ==> Answer(c, w, i, h[..n], h[n])
  }

  ghost predicate WrittenAt(tx: Tx, h: seq<Option<Bytes>>, ws: WriteSet, k: Key) {
    LastWrite(tx, h, k) == if k in ws then Some(ws[k]) else None
  }

  ghost predicate IsWriteset(tx: Tx, h: seq<Option<Bytes>>, ws: WriteSet) {
    forall k :: WrittenAt(tx, h, ws, k)
  }

  ghost predicate ReadAt(c: Config, w: World, i: nat, h: seq<Option<Bytes>>, rs: ReadSet, k: Key)
    requires Sized(c, w) && i < |c.txs|
  {
    (k in rs <==> Asked(c.txs[i], h, k)) && (k in rs ==> Read(c.parent, w.entries, i, k) == Got(rs[k]))
  }

  ghost predicate IsReadset(c: Config, w: World, i: nat, h: seq<Option<Bytes>>, rs: ReadSet)
    requires Sized(c, w) && i < |c.txs|
  {
    forall k :: ReadAt(c, w, i, h, rs, k)
  }

  ghost predicate IsLocal(c: Config, w: World, i: nat, l: Local)
    requires Sized(c, w) && i < |c.txs|
  {
    && Sees(c, w, i, l.history) && IsWriteset(c.txs[i], l.history, l.writeset)
    && IsReadset(c, w, i, l.history, l.readset)
  }

  /** The entries are the last writes. */
  ghost predicate AreItems(tx: Tx, h: seq<Option<Bytes>>, e: Entries) {
    forall k :: (k in e <==> LastWrite(tx, h, k).Some?)
                && (k in e ==> e[k] == match LastWrite(tx, h, k).value
                                       case Some(b) => Value(b)
                                       case None => Deleted)
  }

  /** The entries are estimates for the keys written. */
  ghost predicate AreEstimates(tx: Tx, h: seq<Option<Bytes>>, e: Entries) {
    forall k :: (k in e <==> LastWrite(tx, h, k).Some?) && (k in e ==> e[k] == Estimate)
  }

  /** The transaction runs to its end: executed, with its response, the reads it made and its last writes. */
  ghost predicate Completes(c: Config, w0: World, i: nat, h: seq<Option<Bytes>>, items: Entries, rs: ReadSet,
                            r: Response)
    requires Sized(c, w0) && i < |c.txs|
  {
    && Sees(c, w0, i, h) && NextAction(c.txs[i], h) == Finish(r) && AreItems(c.txs[i], h, items)
    && IsReadset(c, w0, i, h, rs)
  }

  /** The transaction asks for a key under an estimate of task j: aborted, with estimates for what it wrote. */
  ghost predicate RunsInto(c: Config, w0: World, i: nat, h: seq<Option<Bytes>>, items: Entries, j: nat)
    requires Sized(c, w0) && i < |c.txs|
  {
    && Sees(c, w0, i, h) && AreEstimates(c.txs[i], h, items)
    && exists k :: AsksFor(c.txs[i], h, k) && Read(c.parent, w0.entries, i, k) == Blocked(j)
  }

  /** What executeTask leaves of a pending task. */
  ghost predicate Ran(c: Config, w0: World, w: World, i: nat)
    requires Sized(c, w0) && Sized(c, w) && i < |c.txs|
  {
    var t0, t := w0.tasks[i], w.tasks[i];
    || (exists h, rs, r :: Completes(c, w0, i, h, w.entries[i], rs, r)
                           && t == t0.(status := Executed, response := Some(r), readset := Some(rs), thread := Idle))
    || (exists h, j :: RunsInto(c, w0, i, h, w.entries[i], j)
                       && t == t0.(status := Aborted, deps := t0.deps + {j}, thread := Idle))
  }

  ghost predicate Ends(c: Config, w0: World, i: nat, items: Entries, ending: Ending)
    requires Sized(c, w0) && i < |c.txs|
  {
    match ending
    case Done(rs, r) => exists h :: Completes(c, w0, i, h, items, rs, r)
    case Abort(j) => exists h :: RunsInto(c, w0, i, h, items, j)
  }

  ghost predicate Underway(c: Config, w0: World, w: World, i: nat) {
    && Sized(c, w0) && i < |c.txs| && OnlyAt(c, w0, w, i)
    && var t0, t := w0.tasks[i], w.tasks[i];
       match t.thread
       case Queued => w == w0
       case Running(l) => t == t0.(thread := t.thread) && IsLocal(c, w0, i, l)
       case Publishing(todo, items, ending) =>
         t == t0.(thread := t.thread) && Published(w.entries[i], items, todo) && Ends(c, w0, i, items, ending)
       case Idle => Ran(c, w0, w, i)
       case _ => false
  }

  // ----- one step -----

  lemma SeesMore(c: Config, w: World, i: nat, h: seq<Option<Bytes>>, x: Option<Bytes>)
    requires Sized(c, w) && i < |c.txs| && Sees(c, w, i, h) && Answer(c, w, i, h, x)
    ensures Sees(c, w, i, h + [x])
  {
    var g := h + [x];
    forall n | 0 <= n < |g| ensures Answer(c, w, i, g[..n], g[n]) {
      assert g[..n] == h[..n];
    }
  }

  lemma AskedMore(tx: Tx, h: seq<Option<Bytes>>, x: Option<Bytes>, k: Key)
    ensures Asked(tx, h + [x], k) <==> Asked(tx, h, k) || AsksFor(tx, h, k)
  {
    var g := h + [x];
    assert forall n :: 0 <= n <= |h| ==> g[..n] == h[..n];
    assert g[..|h|] == h;
    if AsksFor(tx, h, k) {
      assert AsksFor(tx, g[..|h|], k);
    }
    if Asked(tx, h, k) {
      var n :| 0 <= n < |h| && AsksFor(tx, h[..n], k);
      assert AsksFor(tx, g[..n], k);
    }
  }

  lemma WroteMore(tx: Tx, h: seq<Option<Bytes>>, x: Option<Bytes>, k: Key)
    ensures LastWrite(tx, h + [x], k) == match NextAction(tx, h)
                                         case Set(m, v) => if m == k then Some(v) else LastWrite(tx, h, k)
                                         case _ => LastWrite(tx, h, k)
  {
    assert (h + [x])[..|h|] == h;
  }

  lemma LocalSets(c: Config, w: World, i: nat, l: Local, k: Key, v: Option<Bytes>)
    requires Sized(c, w) && i < |c.txs| && IsLocal(c, w, i, l) && NextAction(c.txs[i], l.history) == Set(k, v)
    ensures IsLocal(c, w, i, l.(history := l.history + [None], writeset := l.writeset[k := v]))
  {
    SeesMore(c, w, i, l.history, None);
    var l1 := l.(history := l.history + [None], writeset := l.writeset[k := v]);
    forall m
      ensures WrittenAt(c.txs[i], l1.history, l1.writeset, m) && ReadAt(c, w, i, l1.history, l1.readset, m)
    {
      assert WrittenAt(c.txs[i], l.history, l.writeset, m) && ReadAt(c, w, i, l.history, l.readset, m);
      AskedMore(c.txs[i], l.history, None, m);
      WroteMore(c.txs[i], l.history, None, m);
    }
  }

  lemma LocalGets(c: Config, w: World, i: nat, l: Local, k: Key, x: Option<Bytes>)
    requires Sized(c, w) && i < |c.txs| && IsLocal(c, w, i, l) && NextAction(c.txs[i], l.history) == Get(k)
    requires if k in l.writeset then x == l.writeset[k] else Read(c.parent, w.entries, i, k) == Got(x)
    ensures IsLocal(c, w, i, l.(history := l.history + [x],
                                readset := if k in l.writeset then l.readset else l.readset[k := x]))
  {
    assert WrittenAt(c.txs[i], l.history, l.writeset, k);
    SeesMore(c, w, i, l.history, x);
    var l1 := l.(history := l.history + [x], readset := if k in l.writeset then l.readset else l.readset[k := x]);
    forall m
      ensures WrittenAt(c.txs[i], l1.history, l1.writeset, m) && ReadAt(c, w, i, l1.history, l1.readset, m)
    {
      assert WrittenAt(c.txs[i], l.history, l.writeset, m) && ReadAt(c, w, i, l.history, l.readset, m);
      AskedMore(c.txs[i], l.history, x, m);
      WroteMore(c.txs[i], l.history, x, m);
    }
  }

  lemma LocalFinishes(c: Config, w: World, i: nat, l: Local, r: Response)
    requires Sized(c, w) && i < |c.txs| && IsLocal(c, w, i, l) && NextAction(c.txs[i], l.history) == Finish(r)
    ensures Ends(c, w, i, Items(l.writeset), Done(l.readset, r))
  {
    forall k ensures LastWrite(c.txs[i], l.history, k) == if k in l.writeset then Some(l.writeset[k]) else None {
      assert WrittenAt(c.txs[i], l.history, l.writeset, k);
    }
    assert Completes(c, w, i, l.history, Items(l.writeset), l.readset, r);
  }

  lemma LocalBlocked(c: Config, w: World, i: nat, l: Local, k: Key, j: nat)
    requires Sized(c, w) && i < |c.txs| && IsLocal(c, w, i, l) && NextAction(c.txs[i], l.history) == Get(k)
    requires k !in l.writeset && Read(c.parent, w.entries, i, k) == Blocked(j)
    ensures Ends(c, w, i, Estimates(l.writeset), Abort(j))
  {
    forall m ensures LastWrite(c.txs[i], l.history, m) == if m in l.writeset then Some(l.writeset[m]) else None {
      assert WrittenAt(c.txs[i], l.history, l.writeset, m);
    }
    assert AsksFor(c.txs[i], l.history, k);
    assert RunsInto(c, w, i, l.history, Estimates(l.writeset), j);
  }

  lemma AdvanceRuns(c: Config, w0: World, w: World, i: nat)
    requires Underway(c, w0, w, i) && w.tasks[i].thread.Running?
    ensures Underway(c, w0, Advance(c, w, i), i)
  {
    var l := w.tasks[i].thread.local;
    match NextAction(c.txs[i], l.history)
    case Finish(r) => LocalFinishes(c, w0, i, l, r);
    case Set(k, v) => LocalSets(c, w0, i, l, k, v);
    case Get(k) =>
      assert w.entries[..i] == w0.entries[..i];
      ReadPrefix(c, w.entries, w0.entries, i, k);
      if k in l.writeset {
        LocalGets(c, w0, i, l, k, l.writeset[k]);
      } else {
        match Read(c.parent, w0.entries, i, k)
        case Got(x) =>
          LocalGets(c, w0, i, l, k, x);
          assert ReadAt(c, w0, i, l.history, l.readset, k);
          assert k in l.readset ==> l.readset[k := x] == l.readset;
        case Blocked(j) =>
          assert ReadAt(c, w0, i, l.history, l.readset, k);
          LocalBlocked(c, w0, i, l, k, j);
      }
  }

  lemma EndRuns(c: Config, w0: World, w: World, i: nat)
    requires Underway(c, w0, w, i) && w.tasks[i].thread.Publishing? && w.tasks[i].thread.todo == {}
    ensures Underway(c, w0, EndExecute(c, w, i), i)
  {
    var th := w.tasks[i].thread;
    assert w.entries[i] == th.items;
    match th.ending
    case Done(rs, r) => var h :| Completes(c, w0, i, h, th.items, rs, r);
    case Abort(j) => var h :| RunsInto(c, w0, i, h, th.items, j);
  }

  lemma StartRuns(c: Config, w0: World, i: nat)
    requires Sized(c, w0) && i < |c.txs| && w0.tasks[i].thread.Queued?
    ensures Underway(c, w0, Start(c, w0, i, false), i)
  {
    assert IsLocal(c, w0, i, Fresh);
  }

  lemma StepRuns(c: Config, w0: World, w: World, i: nat, w1: World)
    requires Underway(c, w0, w, i) && Executes(c, w, i, false, w1)
    ensures Underway(c, w0, w1, i)
  {
    match w.tasks[i].thread
    case Queued => StartRuns(c, w0, i);
    case Running(_) => AdvanceRuns(c, w0, w, i);
    case Publishing(todo, _, _) =>
      if todo == {} {
        EndRuns(c, w0, w, i);
      } else {
        var k :| k in todo && w1 == Publish(c, w, i, k);
      }
  }

  // ----- a whole execution -----

  /** A run of the executor of one task, with no other worker in between. */
  ghost predicate ExecutesAlone(c: Config, run: seq<World>, i: nat) {
    && |run| > 0
    && (forall n :: 0 <= n < |run| ==> Sized(c, run[n]))
    && forall n :: 0 <= n < |run| - 1 ==> Executes(c, run[n], i, false, run[n + 1])
  }

  lemma {:induction false} RunKeeps(c: Config, run: seq<World>, i: nat, n: nat)
    requires ExecutesAlone(c, run, i) && n < |run| && i < |c.txs| && run[0].tasks[i].thread.Queued?
    ensures Underway(c, run[0], run[n], i)
  {
    if n > 0 {
      RunKeeps(c, run, i, n - 1);
      StepRuns(c, run[0], run[n - 1], i, run[n]);
    }
  }

  /** executeTask in full, when nobody interferes. */
  lemma RunsAlone(c: Config, run: seq<World>, i: nat)
    requires ExecutesAlone(c, run, i) && i < |c.txs|
    requires run[0].tasks[i].thread.Queued? && run[|run| - 1].tasks[i].thread.Idle?
    ensures Ran(c, run[0], run[|run| - 1], i) && OnlyAt(c, run[0], run[|run| - 1], i)
  {
    RunKeeps(c, run, i, |run| - 1);
  }
}
