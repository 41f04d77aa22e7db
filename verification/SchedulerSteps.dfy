/**
 The optimistic scheduler as a machine of atomic steps.  A step is one access to shared memory (one
 multi-version entry, one task status) by one worker, so a run of the machine is an interleaving of
 the workers.  Tasks are numbered by their position in the batch.
 */
module SchedulerSteps {
  import opened Basics
  import opened Transactions
  import opened MultiVersion

  datatype Status = Pending | Executed | Aborted | Validated | Waiting

  /** A transaction in flight: the results it saw, what it read from outside and what it wrote. */
  datatype Local = Local(history: seq<Option<Bytes>>, readset: ReadSet, writeset: WriteSet)

  datatype Ending = Done(readset: ReadSet, response: Response) | Abort(on: nat)

  /** Where the worker that holds a task is. */
  datatype Thread =
    | Idle
    | Queued                                                            // handed to executeAll
    | Running(local: Local)                                             // inside deliverTx
    | Publishing(todo: set<Key>, items: Entries, ending: Ending)        // writing its entries
    | Unchecked                                                         // handed to validateAll
    | Checking(keys: set<Key>, valid: bool, conflicts: set<nat>)        // ValidateTransactionState
    | Invalidating(stale: set<Key>, found: set<nat>)                    // invalidateTask
    | Awaiting(pending: set<nat>)                                       // dependenciesValidated

  datatype Task = Task(status: Status, deps: set<nat>, incarnation: nat,
                       response: Option<Response>, readset: Option<ReadSet>, thread: Thread)

  /** All tasks and, for each, the entries it has in the multi-version memory. */
  datatype World = World(tasks: seq<Task>, entries: seq<Entries>)

  datatype Config = Config(txs: seq<Tx>, parent: KvStore)

  predicate Sized(c: Config, w: World) {
    |w.tasks| == |c.txs| && |w.entries| == |c.txs|
  }

  function SetThread(w: World, i: nat, t: Thread): World
    requires i < |w.tasks|
  {
    w.(tasks := w.tasks[i := w.tasks[i].(thread := t)])
  }

  const Fresh := Local([], map[], map[])

  /** deliverTxTask.Reset and Increment. */
  function Reset(t: Task): Task {
    t.(status := Pending, response := None, incarnation := t.incarnation + 1, thread := Idle)
  }

  // ----- executeTask -----

  /** The head of executeTask.  In synchronous mode nothing else runs, so it is one step. */
  function Start(c: Config, w: World, i: nat, synchronous: bool): World
    requires Sized(c, w) && i < |c.txs| && w.tasks[i].thread.Queued?
  {
    var t := w.tasks[i];
    var t1 := if synchronous && t.status.Validated? then t.(readset := None) else t;
    var e1 := if synchronous && t.status.Validated?
              then (map k | k in w.entries[i] :: Estimate) else w.entries[i];
    var t2 := if synchronous && !t.status.Pending? then Reset(t1) else t1;
    World(w.tasks[i := t2.(thread := Running(Fresh))], w.entries[i := e1])
  }

  /** One action of the transaction against its version-indexed view of the memory. */
  function Advance(c: Config, w: World, i: nat): World
    requires Sized(c, w) && i < |c.txs| && w.tasks[i].thread.Running?
  {
    var l := w.tasks[i].thread.local;
    match NextAction(c.txs[i], l.history)
    case Finish(r) =>
      SetThread(w, i, Publishing(w.entries[i].Keys + l.writeset.Keys, Items(l.writeset), Done(l.readset, r)))
    case Set(k, v) =>
      SetThread(w, i, Running(l.(history := l.history + [None], writeset := l.writeset[k := v])))
    case Get(k) =>
      if k in l.writeset then
        SetThread(w, i, Running(l.(history := l.history + [l.writeset[k]])))
      else if k in l.readset then
        SetThread(w, i, Running(l.(history := l.history + [l.readset[k]])))
      else
        match Read(c.parent, w.entries, i, k)
        case Got(v) =>
          SetThread(w, i, Running(l.(history := l.history + [v], readset := l.readset[k := v])))
        case Blocked(j) =>
          SetThread(w, i, Publishing(w.entries[i].Keys + l.writeset.Keys, Estimates(l.writeset), Abort(j)))
  }

  /** One key of SetWriteset or SetEstimatedWriteset: an old key goes, or a new item comes. */
  function Publish(c: Config, w: World, i: nat, k: Key): World
    requires Sized(c, w) && i < |c.txs| && w.tasks[i].thread.Publishing? && k in w.tasks[i].thread.todo
  {
    var th := w.tasks[i].thread;
    var e := w.entries[i];
    World(w.tasks[i := w.tasks[i].(thread := th.(todo := th.todo - {k}))],
          w.entries[i := if k in th.items then e[k := th.items[k]] else e - {k}])
  }

  /** The task leaves executeTask, executed or aborted. */
  function EndExecute(c: Config, w: World, i: nat): World
    requires Sized(c, w) && i < |c.txs| && w.tasks[i].thread.Publishing? && w.tasks[i].thread.todo == {}
  {
    var t := w.tasks[i];
    match t.thread.ending
    case Done(rs, r) =>
      w.(tasks := w.tasks[i := t.(status := Executed, response := Some(r), readset := Some(rs), thread := Idle)])
    case Abort(j) =>
      w.(tasks := w.tasks[i := t.(status := Aborted, deps := t.deps + {j}, thread := Idle)])
  }

  // ----- validateTask and shouldRerun -----

  function Visit(c: Config, w: World, i: nat): World
    requires Sized(c, w) && i < |c.txs| && w.tasks[i].thread.Unchecked?
  {
    var t := w.tasks[i];
    match t.status
    case Pending => w.(tasks := w.tasks[i := Reset(t)])
    case Aborted => w.(tasks := w.tasks[i := Reset(t)])
    case Waiting => SetThread(w, i, Awaiting(t.deps))
    case Executed => SetThread(w, i, Checking(if t.readset.Some? then t.readset.value.Keys else {}, true, {}))
    case Validated => SetThread(w, i, Checking(if t.readset.Some? then t.readset.value.Keys else {}, true, {}))
  }

  /** One recorded read of the task is compared with the memory. */
  function CheckKey(c: Config, w: World, i: nat, k: Key): World
    requires Sized(c, w) && i < |c.txs| && w.tasks[i].thread.Checking? && k in w.tasks[i].thread.keys
    requires w.tasks[i].readset.Some? && k in w.tasks[i].readset.value
  {
    var th := w.tasks[i].thread;
    var v := CheckRead(c.parent, w.entries, i, k, w.tasks[i].readset.value[k]);
    SetThread(w, i, Checking(th.keys - {k}, th.valid && v.valid,
                             th.conflicts + if v.conflict.Some? then {v.conflict.value} else {}))
  }

  function EndCheck(c: Config, w: World, i: nat): World
    requires Sized(c, w) && i < |c.txs| && w.tasks[i].thread.Checking? && w.tasks[i].thread.keys == {}
  {
    var th := w.tasks[i].thread;
    if !th.valid then SetThread(w, i, Invalidating(w.entries[i].Keys, th.conflicts))
    else if th.conflicts == {} then
      w.(tasks := w.tasks[i := w.tasks[i].(status := Validated, thread := Idle)])
    else SetThread(w, i, Idle)
  }

  /** One entry of an invalid task becomes an estimate. */
  function InvalidateKey(c: Config, w: World, i: nat, k: Key): World
    requires Sized(c, w) && i < |c.txs| && w.tasks[i].thread.Invalidating? && k in w.tasks[i].thread.stale
  {
    var th := w.tasks[i].thread;
    World(w.tasks[i := w.tasks[i].(thread := th.(stale := th.stale - {k}))],
          w.entries[i := w.entries[i][k := Estimate]])
  }

  function EndInvalidate(c: Config, w: World, i: nat): World
    requires Sized(c, w) && i < |c.txs| && w.tasks[i].thread.Invalidating? && w.tasks[i].thread.stale == {}
  {
    var t := w.tasks[i];
    var deps := t.deps + t.thread.found;
    w.(tasks := w.tasks[i := t.(readset := None, deps := deps, thread := Awaiting(deps))])
  }

  /** One dependency is looked at: unless it is validated the task waits. */
  function AwaitDep(c: Config, w: World, i: nat, d: nat): World
    requires Sized(c, w) && i < |c.txs| && w.tasks[i].thread.Awaiting? && d in w.tasks[i].thread.pending
    requires d < |c.txs|
  {
    if w.tasks[d].status.Validated? then SetThread(w, i, Awaiting(w.tasks[i].thread.pending - {d}))
    else w.(tasks := w.tasks[i := w.tasks[i].(status := Waiting, thread := Idle)])
  }

  function EndAwait(c: Config, w: World, i: nat): World
    requires Sized(c, w) && i < |c.txs| && w.tasks[i].thread.Awaiting? && w.tasks[i].thread.pending == {}
  {
    w.(tasks := w.tasks[i := Reset(w.tasks[i])])
  }

  // ----- between the passes -----

  /** A fresh batch: every task pending, nothing in the memory. */
  function Initial(c: Config): (w: World)
    ensures Sized(c, w)
    ensures forall i :: 0 <= i < |c.txs| ==>
                        w.tasks[i] == Task(Pending, {}, 0, None, None, Idle) && w.entries[i] == map[]
  {
    World(seq(|c.txs|, i => Task(Pending, {}, 0, None, None, Idle)), seq(|c.txs|, i => map[]))
  }

  /** The given tasks are handed to the workers, at thread state `th`. */
  function Dispatch(c: Config, w: World, chosen: set<nat>, th: Thread): (r: World)
    requires Sized(c, w)
    ensures Sized(c, r) && r.entries == w.entries
    ensures forall i :: 0 <= i < |c.txs| ==>
                        r.tasks[i] == if i in chosen then w.tasks[i].(thread := th) else w.tasks[i]
  {
    World(seq(|c.txs|, i requires 0 <= i < |c.txs| =>
                if i in chosen then w.tasks[i].(thread := th) else w.tasks[i]), w.entries)
  }

  /** findFirstNonValidated, with the number of tasks for "none". */
  function FirstNonValidated(tasks: seq<Task>): (p: nat)
    ensures p <= |tasks|
    ensures forall i :: 0 <= i < p ==> tasks[i].status.Validated?
    ensures p < |tasks| ==> !tasks[p].status.Validated?
  {
    if tasks == [] || !tasks[0].status.Validated? then 0 else 1 + FirstNonValidated(tasks[1..])
  }
}
