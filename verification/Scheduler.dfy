/**
 The scheduler object.  Which worker moves next, and which key or dependency it takes next, is left
 open, so what is proved of `ProcessAll` holds for every interleaving of the workers; in
 synchronous mode the lowest task always moves first.
 */
module Scheduling {
  import opened Basics
  import opened Transactions
  import opened MultiVersion
  import opened SchedulerSteps
  import opened SchedulerSafety
  import opened SchedulerPasses

  const MAXIMUM_ITERATIONS: nat := 10

  // ----- every step brings its worker closer to the end -----

  function Rank(tx: Tx, t: Thread): nat {
    match t
    case Idle => 0
    case Publishing(_, _, _) => 1
    case Running(l) => if |l.history| <= tx.gas then 2 + tx.gas - |l.history| else 2
    case Queued => 3 + tx.gas
    case Awaiting(_) => 1
    case Invalidating(_, _) => 2
    case Checking(_, _, _) => 3
    case Unchecked => 4
  }

  function Todo(t: Thread): nat {
    match t
    case Publishing(todo, _, _) => |todo|
    case Checking(keys, _, _) => |keys|
    case Invalidating(stale, _) => |stale|
    case Awaiting(pending) => |pending|
    case _ => 0
  }

  function RankSum(c: Config, w: World, n: nat): nat
    requires Sized(c, w) && n <= |c.txs|
  {
    if n == 0 then 0 else RankSum(c, w, n - 1) + Rank(c.txs[n - 1], w.tasks[n - 1].thread)
  }

  function TodoSum(c: Config, w: World, n: nat): nat
    requires Sized(c, w) && n <= |c.txs|
  {
    if n == 0 then 0 else TodoSum(c, w, n - 1) + Todo(w.tasks[n - 1].thread)
  }

  lemma {:induction false} SumsFrame(c: Config, w: World, w1: World, i: nat, n: nat)
    requires Sized(c, w) && OnlyAt(c, w, w1, i) && i < |c.txs| && n <= |c.txs|
    ensures RankSum(c, w1, n) - RankSum(c, w, n) ==
            if i < n then Rank(c.txs[i], w1.tasks[i].thread) - Rank(c.txs[i], w.tasks[i].thread) else 0
    ensures TodoSum(c, w1, n) - TodoSum(c, w, n) ==
            if i < n then Todo(w1.tasks[i].thread) - Todo(w.tasks[i].thread) else 0
  {
    if n > 0 {
      SumsFrame(c, w, w1, i, n - 1);
    }
  }

  /** The worker of i moved on: fewer stages left, or the same stage with less to do. */
  ghost predicate MovedOn(c: Config, w: World, w1: World) {
    && Sized(c, w) && Sized(c, w1)
    && var n := |c.txs|;
       || RankSum(c, w1, n) < RankSum(c, w, n)
       || (RankSum(c, w1, n) == RankSum(c, w, n) && TodoSum(c, w1, n) < TodoSum(c, w, n))
  }

  lemma ExecutesMovesOn(c: Config, w: World, i: nat, synchronous: bool, w1: World)
    requires WorldOk(c, w) && Executes(c, w, i, synchronous, w1) && OnlyAt(c, w, w1, i)
    ensures MovedOn(c, w, w1)
  {
    assert TaskOk(c, w, i);
    SumsFrame(c, w, w1, i, |c.txs|);
  }

  lemma ValidatesMovesOn(c: Config, w: World, i: nat, w1: World)
    requires WorldOk(c, w) && Validates(c, w, i, w1) && OnlyAt(c, w, w1, i)
    ensures MovedOn(c, w, w1)
  {
    assert TaskOk(c, w, i);
    SumsFrame(c, w, w1, i, |c.txs|);
  }

  /** Between two phases: no worker holds a task. */
  ghost predicate AtRest(c: Config, w: World) {
    && WorldOk(c, w)
    && forall i :: 0 <= i < |c.txs| ==> w.tasks[i].thread.Idle?
  }

  lemma DispatchOk(c: Config, w: World, chosen: set<nat>, th: Thread)
    requires AtRest(c, w) && (th.Queued? || th.Unchecked?)
    ensures WorldOk(c, Dispatch(c, w, chosen, th))
  {
    var w1 := Dispatch(c, w, chosen, th);
    forall i | 0 <= i < |c.txs| ensures TaskOk(c, w1, i) { assert TaskOk(c, w, i); }
  }

  /** The task indices from a up to b. */
  function Range(a: nat, b: nat): (r: set<nat>)
    ensures forall i :: i in r <==> a <= i < b
    decreases b - a
  {
    if a >= b then {} else {a} + Range(a + 1, b)
  }

  function PendingTasks(tasks: seq<Task>): (r: set<nat>)
    ensures forall i :: i in r <==> 0 <= i < |tasks| && tasks[i].status.Pending?
  {
    set i | i in Range(0, |tasks|) && tasks[i].status.Pending?
  }

  ghost predicate SameAt(w0: World, w: World, j: nat)
    requires j < |w0.tasks| && j < |w0.entries| && j < |w.tasks| && j < |w.entries|
  {
    w.tasks[j] == w0.tasks[j] && w.entries[j] == w0.entries[j]
  }

  // ----- executeAll with concurrent workers -----

  /** Mid-way: w0 is the world before, `active` the tasks still held by a worker, p the first task that
      was not validated. */
  ghost predicate Executing(c: Config, w0: World, w: World, chosen: set<nat>, active: set<nat>, p: nat) {
    && Sized(c, w0) && WorldOk(c, w) && p < |c.txs| && Settled(c, w, p) && active <= chosen
    && (forall j :: j in chosen ==> p <= j < |c.txs|)
    && (forall j :: 0 <= j < |c.txs| && j !in chosen ==> SameAt(w0, w, j))
    && (forall j :: j in active ==> ExecutionThread(w.tasks[j].thread)
                                    && (w.tasks[j].thread.Queued? ==> w.tasks[j].status.Pending?))
    && (forall j :: j in chosen && j !in active ==>
          w.tasks[j].thread.Idle? && (w.tasks[j].status.Executed? || w.tasks[j].status.Aborted?))
    && (p in chosen ==> OnTrack(c, w, p))
  }

  lemma ExecutingBegins(c: Config, w0: World, chosen: set<nat>, p: nat)
    requires AtRest(c, w0) && p < |c.txs| && Settled(c, w0, p)
    requires forall i :: i in chosen ==> p <= i < |c.txs| && w0.tasks[i].status.Pending?
    ensures Executing(c, w0, Dispatch(c, w0, chosen, Queued), chosen, chosen, p)
  {
    DispatchOk(c, w0, chosen, Queued);
    SettledSame(c, w0, Dispatch(c, w0, chosen, Queued), p);
  }

  lemma ExecutingGoesOn(c: Config, w0: World, w: World, chosen: set<nat>, active: set<nat>, p: nat, i: nat, w1: World)
    requires Executing(c, w0, w, chosen, active, p)
    requires i in active && Executes(c, w, i, false, w1)
    ensures Sized(c, w1)
    ensures Executing(c, w0, w1, chosen, if w1.tasks[i].thread.Idle? then active - {i} else active, p)
    ensures MovedOn(c, w, w1)
  {
    ExecutesOk(c, w, i, false, w1);
    ExecutesMovesOn(c, w, i, false, w1);
    SettledFrame(c, w, w1, p, i);
    forall j | 0 <= j < |c.txs| && j !in chosen ensures SameAt(w0, w1, j) { assert SameAt(w0, w, j); }
    if p in chosen {
      OnTrackStill(c, w, p, i, w1);
    }
  }

  lemma OnTrackStill(c: Config, w: World, p: nat, i: nat, w1: World)
    requires WorldOk(c, w) && Executes(c, w, i, false, w1) && OnlyAt(c, w, w1, i)
    requires p <= i && Settled(c, w, p) && OnTrack(c, w, p)
    ensures OnTrack(c, w1, p)
  {
    if i == p {
      ExecutesOnTrack(c, w, i, false, w1);
    } else {
      StoreFrame(c, w, w1, p, i);
    }
  }

  // ----- executeAll in synchronous mode -----

  /** The tasks from p up to i are finished, i is in progress and the others wait for their turn. */
  ghost predicate ExecutingInOrder(c: Config, w0: World, w: World, p: nat, i: nat) {
    && Sized(c, w0) && WorldOk(c, w) && p <= i <= |c.txs| && Settled(c, w, i)
    && (forall j :: 0 <= j < p ==> SameAt(w0, w, j))
    && (forall j :: p <= j < i ==> w.tasks[j].thread.Idle? && Finished(c, w, j))
    && (forall j :: i < j < |c.txs| ==> w.tasks[j].thread.Queued?)
    && (i < |c.txs| ==> ExecutionThread(w.tasks[i].thread) && OnTrack(c, w, i))
  }

  lemma InOrderBegins(c: Config, w0: World, p: nat)
    requires AtRest(c, w0) && p < |c.txs| && Settled(c, w0, p)
    ensures ExecutingInOrder(c, w0, Dispatch(c, w0, Range(p, |c.txs|), Queued), p, p)
  {
    DispatchOk(c, w0, Range(p, |c.txs|), Queued);
    SettledSame(c, w0, Dispatch(c, w0, Range(p, |c.txs|), Queued), p);
  }

  lemma InOrderEnds(c: Config, w0: World, w: World, p: nat)
    requires AtRest(c, w0) && ExecutingInOrder(c, w0, w, p, |c.txs|)
    ensures AtRest(c, w)
  {
    forall j | 0 <= j < |c.txs| ensures w.tasks[j].thread.Idle? {
      assert j < p ==> SameAt(w0, w, j);
    }
  }

  lemma InOrderGoesOn(c: Config, w0: World, w: World, p: nat, i: nat, w1: World)
    requires ExecutingInOrder(c, w0, w, p, i) && Executes(c, w, i, true, w1)
    ensures Sized(c, w1)
    ensures ExecutingInOrder(c, w0, w1, p, if w1.tasks[i].thread.Idle? then i + 1 else i)
    ensures MovedOn(c, w, w1)
  {
    ExecutesOk(c, w, i, true, w1);
    ExecutesMovesOn(c, w, i, true, w1);
    SettledFrame(c, w, w1, i, i);
    ExecutesOnTrack(c, w, i, true, w1);
    forall j | 0 <= j < p ensures SameAt(w0, w1, j) { assert SameAt(w0, w, j); }
    forall j | p <= j < i ensures Finished(c, w1, j) {
      assert Finished(c, w, j);
      StoreFrame(c, w, w1, j, i);
    }
    if w1.tasks[i].thread.Idle? {
      assert TaskOk(c, w1, i);
      FinishedSettles(c, w1, i);
    }
  }

  // ----- validateAll -----

  /** The tasks before s are as they were. */
  ghost predicate Kept(c: Config, w0: World, w: World, s: nat) {
    && Sized(c, w0) && Sized(c, w) && s <= |c.txs|
    && forall j :: 0 <= j < s ==> SameAt(w0, w, j)
  }

  ghost predicate ValidatedBefore(w: World, s: nat)
    requires s <= |w.tasks|
  {
    forall j :: 0 <= j < s ==> w.tasks[j].status.Validated?
  }

  ghost predicate AllValidating(c: Config, w0: World, w: World, s: nat)
    requires Sized(c, w0) && Sized(c, w)
  {
    forall j :: s <= j < |c.txs| ==> Validating(c, w0, w, j)
  }

  /** The tasks from s on that a worker holds. */
  ghost predicate Holds(c: Config, w: World, active: set<nat>, s: nat)
    requires Sized(c, w)
  {
    forall j :: j in active <==> s <= j < |c.txs| && !w.tasks[j].thread.Idle?
  }

  /** The tasks from s up to q ran with what the tasks below them leave, and pass. */
  ghost predicate AllPassing(c: Config, w0: World, w: World, s: nat, q: nat)
    requires Sized(c, w0) && Sized(c, w) && q <= |c.txs|
  {
    forall j :: s <= j < q ==> Finished(c, w0, j) && Passing(c, w0, w, j)
  }

  /** Mid-way: the pass began in w0 at task s; the tasks from s up to q ran with what the tasks below them leave. */
  ghost predicate ValidatingAll(c: Config, w0: World, w: World, active: set<nat>, s: nat, q: nat) {
    && WorldOk(c, w) && s <= q <= |c.txs| && Kept(c, w0, w, s) && ValidatedBefore(w, s)
    && Settled(c, w0, q) && Settled(c, w, q)
    && Holds(c, w, active, s) && AllValidating(c, w0, w, s) && AllPassing(c, w0, w, s, q)
    && (s < |c.txs| && w0.tasks[s].status.Waiting? ==> Resuming(c, w, s))
  }

  lemma ValidatingBegins(c: Config, w: World, s: nat, q: nat)
    requires AtRest(c, w) && s == FirstNonValidated(w.tasks) && s <= q <= |c.txs| && Settled(c, w, q)
    requires forall j :: s <= j < q ==> Finished(c, w, j)
    ensures var w0 := Dispatch(c, w, Range(s, |c.txs|), Unchecked);
            ValidatingAll(c, w0, w0, Range(s, |c.txs|), s, q)
  {
    var w0 := Dispatch(c, w, Range(s, |c.txs|), Unchecked);
    DispatchOk(c, w, Range(s, |c.txs|), Unchecked);
    SettledSame(c, w, w0, q);
    StartsValidating(c, w, w0, s);
    StartsPassing(c, w, w0, s, q);
  }

  ghost predicate Starts(c: Config, w: World, w0: World, s: nat) {
    && Sized(c, w) && Sized(c, w0) && w0.entries == w.entries
    && forall j :: s <= j < |c.txs| ==> w0.tasks[j] == w.tasks[j].(thread := Unchecked)
  }

  lemma StartsValidating(c: Config, w: World, w0: World, s: nat)
    requires AtRest(c, w) && Starts(c, w, w0, s)
    ensures AllValidating(c, w0, w0, s)
  {
    forall j | s <= j < |c.txs| ensures Validating(c, w0, w0, j) {
      ValidatingOne(c, w, w0, j);
    }
  }

  lemma StartsPassing(c: Config, w: World, w0: World, s: nat, q: nat)
    requires q <= |c.txs| && Starts(c, w, w0, s) && forall j :: s <= j < q ==> Finished(c, w, j)
    ensures AllPassing(c, w0, w0, s, q)
  {
    forall j | s <= j < q ensures Finished(c, w0, j) && Passing(c, w0, w0, j) {
      PassingOne(c, w, w0, j);
    }
  }

  lemma PassingOne(c: Config, w: World, w0: World, j: nat)
    requires Sized(c, w) && Sized(c, w0) && j < |c.txs| && Finished(c, w, j)
    requires w0.entries == w.entries && w0.tasks[j] == w.tasks[j].(thread := Unchecked)
    ensures Finished(c, w0, j) && Passing(c, w0, w0, j)
  {
    FlushPrefix(c.parent, w.entries, w0.entries, j);
  }

  lemma ValidatingOne(c: Config, w: World, w0: World, j: nat)
    requires WorldOk(c, w) && Sized(c, w0) && j < |c.txs| && w.tasks[j].thread.Idle?
    requires w0.entries == w.entries && w0.tasks[j] == w.tasks[j].(thread := Unchecked)
    ensures Validating(c, w0, w0, j)
  {
    assert TaskOk(c, w, j);
  }

  lemma PassingSettled(c: Config, w0: World, w: World, s: nat, q: nat)
    requires s <= q <= |c.txs| && Kept(c, w0, w, s) && Settled(c, w0, q) && AllPassing(c, w0, w, s, q)
    ensures Settled(c, w, q) && forall j :: 0 <= j < q ==> w.entries[j] == w0.entries[j]
  {
    forall j | 0 <= j < q
      ensures w.entries[j] == w0.entries[j]
      ensures w.tasks[j].readset == w0.tasks[j].readset && w.tasks[j].response == w0.tasks[j].response
    {
      assert if j < s then SameAt(w0, w, j) else Passing(c, w0, w, j);
    }
    SettledSame(c, w0, w, q);
  }

  lemma ValidatingTasks(c: Config, w0: World, w: World, s: nat, i: nat, w1: World)
    requires Sized(c, w0) && WorldOk(c, w) && s <= i && Validates(c, w, i, w1)
    requires AllValidating(c, w0, w, s)
    ensures Sized(c, w1) && AllValidating(c, w0, w1, s)
  {
    ValidatesSelf(c, w0, w, i, w1);
    forall j | s <= j < |c.txs| && j != i ensures Validating(c, w0, w1, j) {
      ValidatesOther(c, w0, w, i, w1, j);
    }
  }

  lemma PassingTasks(c: Config, w0: World, w: World, s: nat, q: nat, i: nat, w1: World)
    requires WorldOk(c, w) && s <= i && Validates(c, w, i, w1) && s <= q <= |c.txs| && Kept(c, w0, w, s)
    requires Settled(c, w0, q) && AllPassing(c, w0, w, s, q)
    ensures Sized(c, w1) && AllPassing(c, w0, w1, s, q)
  {
    ValidatesOk(c, w, i, w1);
    PassingSettled(c, w0, w, s, q);
    forall j | s <= j < q ensures Passing(c, w0, w1, j) {
      assert Passing(c, w0, w, j) && Finished(c, w0, j);
      if j == i {
        FlushPrefix(c.parent, w.entries, w0.entries, i);
        ValidatesPassing(c, w0, w, i, w1);
      }
    }
  }

  lemma HoldsStill(c: Config, w: World, active: set<nat>, s: nat, i: nat, w1: World)
    requires Sized(c, w) && Holds(c, w, active, s) && i in active && OnlyAt(c, w, w1, i)
    ensures Holds(c, w1, if w1.tasks[i].thread.Idle? then active - {i} else active, s)
  {
  }

  lemma KeptStill(c: Config, w0: World, w: World, s: nat, i: nat, w1: World)
    requires Kept(c, w0, w, s) && ValidatedBefore(w, s) && s <= i < |c.txs| && OnlyAt(c, w, w1, i)
    ensures Kept(c, w0, w1, s) && ValidatedBefore(w1, s)
  {
    forall j | 0 <= j < s ensures SameAt(w0, w1, j) { assert SameAt(w0, w, j); }
  }

  lemma ResumingStill(c: Config, w: World, s: nat, i: nat, w1: World)
    requires WorldOk(c, w) && s <= i < |c.txs| && ValidatedBefore(w, s) && Validates(c, w, i, w1) && Resuming(c, w, s)
    requires OnlyAt(c, w, w1, i)
    ensures Sized(c, w1) && Resuming(c, w1, s)
  {
    if i == s {
      ValidatesResuming(c, w, i, w1);
    }
  }

  lemma ValidatingGoesOn(c: Config, w0: World, w: World, active: set<nat>, s: nat, q: nat, i: nat, w1: World)
    requires ValidatingAll(c, w0, w, active, s, q)
    requires i in active && Validates(c, w, i, w1)
    ensures Sized(c, w1)
    ensures ValidatingAll(c, w0, w1, if w1.tasks[i].thread.Idle? then active - {i} else active, s, q)
    ensures MovedOn(c, w, w1)
  {
    ValidatesOk(c, w, i, w1);
    ValidatesMovesOn(c, w, i, w1);
    ValidatingTasks(c, w0, w, s, i, w1);
    PassingTasks(c, w0, w, s, q, i, w1);
    HoldsStill(c, w, active, s, i, w1);
    KeptStill(c, w0, w, s, i, w1);
    PassingSettled(c, w0, w1, s, q);
    if w0.tasks[s].status.Waiting? {
      ResumingStill(c, w, s, i, w1);
    }
  }

  lemma HeldIsValidating(c: Config, w0: World, w: World, active: set<nat>, s: nat, q: nat, i: nat)
    requires ValidatingAll(c, w0, w, active, s, q) && i in active
    ensures i < |c.txs|
    ensures var t := w.tasks[i].thread; t.Unchecked? || t.Checking? || t.Invalidating? || t.Awaiting?
  {
    assert Validating(c, w0, w, i);
  }

  /** What a validation pass that began in w0 at task s leaves. */
  ghost predicate PassEnd(c: Config, w0: World, w: World, s: nat, q: nat) {
    && AtRest(c, w) && Kept(c, w0, w, s)
    && var p := FirstNonValidated(w.tasks);
       && q <= p && Settled(c, w, p)
       && (p < |c.txs| ==> w.tasks[p].status.Pending? || w.tasks[p].status.Waiting?)
       && (p == s < |c.txs| && w0.tasks[s].status.Waiting? ==> w.tasks[p].status.Pending?)
       && (forall j :: s <= j < |c.txs| ==> !w.tasks[j].status.Aborted?)
  }

  lemma ValidatingEnds(c: Config, was: World, w: World, s: nat, q: nat)
    requires AtRest(c, was)
    requires ValidatingAll(c, Dispatch(c, was, Range(s, |c.txs|), Unchecked), w, {}, s, q)
    ensures PassEnd(c, was, w, s, q)
  {
    var w0 := Dispatch(c, was, Range(s, |c.txs|), Unchecked);
    forall j | 0 <= j < s ensures SameAt(was, w, j) { assert SameAt(w0, w, j); }
    forall j | 0 <= j < |c.txs| ensures w.tasks[j].thread.Idle? {
      assert j < s ==> SameAt(was, w, j);
    }
    var p := FirstNonValidated(w.tasks);
    forall j | 0 <= j < q ensures w.tasks[j].status.Validated? {
      assert if j < s then SameAt(w0, w, j) else Passing(c, w0, w, j);
    }
    forall j | 0 <= j < s ensures w.entries[j] == w0.entries[j] { assert SameAt(w0, w, j); }
    ValidationSettles(c, w0, w, s, p);
  }

  lemma KeptTwice(c: Config, w0: World, w1: World, w2: World, s: nat)
    requires Kept(c, w0, w1, s) && Kept(c, w1, w2, s)
    ensures Kept(c, w0, w2, s)
  {
    forall j | 0 <= j < s ensures SameAt(w0, w2, j) {
      assert SameAt(w0, w1, j) && SameAt(w1, w2, j);
    }
  }

  /** Between two passes: everything before the first task that is not validated is settled, and that
      task is ready to run or waits. */
  ghost predicate Between(c: Config, w: World) {
    && AtRest(c, w)
    && var p := FirstNonValidated(w.tasks);
       Settled(c, w, p) && (p < |c.txs| ==> w.tasks[p].status.Pending? || w.tasks[p].status.Waiting?)
  }

  /** How far the batch is: two for every task of the validated prefix, one for a next task that is ready. */
  function Progress(w: World): nat {
    var p := FirstNonValidated(w.tasks);
    2 * p + if p < |w.tasks| && w.tasks[p].status.Pending? then 1 else 0
  }

  lemma InitialBetween(c: Config)
    ensures Between(c, Initial(c)) && PendingTasks(Initial(c).tasks) == Range(0, |c.txs|)
  {
    var w := Initial(c);
    forall i | 0 <= i < |c.txs| ensures TaskOk(c, w, i) {}
  }

  lemma SameFirst(c: Config, w0: World, w: World, p: nat)
    requires Sized(c, w0) && Sized(c, w) && p == FirstNonValidated(w0.tasks) < |c.txs|
    requires forall j :: 0 <= j < p ==> SameAt(w0, w, j)
    requires !w.tasks[p].status.Validated? && Settled(c, w0, p)
    ensures FirstNonValidated(w.tasks) == p && Settled(c, w, p)
  {
    forall j | 0 <= j < p ensures w.tasks[j] == w0.tasks[j] && w.entries[j] == w0.entries[j] {
      assert SameAt(w0, w, j);
    }
    SettledSame(c, w0, w, p);
  }

  lemma Lowest(a: set<nat>) returns (i: nat)
    requires a != {}
    ensures i in a && forall j :: j in a ==> i <= j
  {
    var x :| x in a;
    i := x;
    var rest := a - {x};
    if rest != {} {
      var m := Lowest(rest);
      i := if m < x then m else x;
    }
    forall j | j in a ensures i <= j { assert j == x || j in rest; }
  }

  class Scheduler {
    const config: Config
    var world: World
    var synchronous: bool

    constructor (c: Config)
      ensures config == c && world == Initial(c) && !synchronous
    {
      config := c;
      world := Initial(c);
      synchronous := false;
    }

    /** Any worker may move next; in synchronous mode it is the one with the lowest task. */
    method Pick(active: set<nat>) returns (i: nat)
      requires active != {}
      ensures i in active && (synchronous ==> forall j :: j in active ==> i <= j)
    {
      ghost var low := Lowest(active);
      i :| i in active && (synchronous ==> forall j :: j in active ==> i <= j);
    }

    /** The worker that executes task i takes one step. */
    method ExecuteStep(i: nat)
      requires Sized(config, world) && i < |config.txs| && ExecutionThread(world.tasks[i].thread)
      modifies this`world
      ensures Executes(config, old(world), i, synchronous, world)
    {
      match world.tasks[i].thread
      case Queued => world := Start(config, world, i, synchronous);
      case Running(_) => world := Advance(config, world, i);
      case Publishing(todo, _, _) =>
        if todo == {} {
          world := EndExecute(config, world, i);
        } else {
          var k :| k in todo;
          world := Publish(config, world, i, k);
        }
    }

    /** The worker that validates task i takes one step. */
    method ValidateStep(i: nat)
      requires WorldOk(config, world) && i < |config.txs|
      requires var t := world.tasks[i].thread; t.Unchecked? || t.Checking? || t.Invalidating? || t.Awaiting?
      modifies this`world
      ensures Validates(config, old(world), i, world)
    {
      assert TaskOk(config, world, i);
      match world.tasks[i].thread
      case Unchecked => world := Visit(config, world, i);
      case Checking(keys, _, _) =>
        if keys == {} {
          world := EndCheck(config, world, i);
        } else {
          var k :| k in keys;
          world := CheckKey(config, world, i, k);
        }
      case Invalidating(stale, _) =>
        if stale == {} {
          world := EndInvalidate(config, world, i);
        } else {
          var k :| k in stale;
          world := InvalidateKey(config, world, i, k);
        }
      case Awaiting(pending) =>
        if pending == {} {
          world := EndAwait(config, world, i);
        } else {
          var d :| d in pending;
          world := AwaitDep(config, world, i, d);
        }
    }

    /** Some worker that executes takes a step. */
    method ExecuteTurn(ghost w0: World, ghost chosen: set<nat>, active: set<nat>, ghost p: nat) returns (left: set<nat>)
      requires !synchronous && active != {} && Executing(config, w0, world, chosen, active, p)
      modifies this`world
      ensures Executing(config, w0, world, chosen, left, p) && MovedOn(config, old(world), world)
    {
      var i := Pick(active);
      ghost var w := world;
      ExecuteStep(i);
      ExecutingGoesOn(config, w0, w, chosen, active, p, i, world);
      left := if world.tasks[i].thread.Idle? then active - {i} else active;
    }

    /** executeAll with concurrent workers. */
    method ExecuteConcurrently(chosen: set<nat>, ghost p: nat)
      requires AtRest(config, world) && !synchronous
      requires p < |config.txs| && Settled(config, world, p)
      requires forall i :: i in chosen ==> p <= i < |config.txs| && world.tasks[i].status.Pending?
      modifies this`world
      ensures AtRest(config, world)
      ensures forall j :: 0 <= j < |config.txs| && j !in chosen ==> SameAt(old(world), world, j)
      ensures forall j :: j in chosen ==> world.tasks[j].status.Executed? || world.tasks[j].status.Aborted?
      ensures p in chosen ==> Finished(config, world, p)
    {
      ghost var w0 := world;
      ExecutingBegins(config, world, chosen, p);
      world := Dispatch(config, world, chosen, Queued);
      var active := chosen;
      while active != {}
        invariant Executing(config, w0, world, chosen, active, p)
        decreases RankSum(config, world, |config.txs|), TodoSum(config, world, |config.txs|)
      {
        active := ExecuteTurn(w0, chosen, active, p);
      }
    }

    /** In synchronous mode the lowest task takes a step. */
    method InOrderTurn(ghost w0: World, ghost p: nat, i: nat) returns (next: nat)
      requires synchronous && i < |config.txs| && ExecutingInOrder(config, w0, world, p, i)
      modifies this`world
      ensures ExecutingInOrder(config, w0, world, p, next) && MovedOn(config, old(world), world)
    {
      ghost var w := world;
      ExecuteStep(i);
      InOrderGoesOn(config, w0, w, p, i, world);
      next := if world.tasks[i].thread.Idle? then i + 1 else i;
    }

    /** executeAll in synchronous mode: the tasks from p on, one after the other. */
    method ExecuteInOrder(p: nat)
      requires AtRest(config, world) && synchronous
      requires p < |config.txs| && Settled(config, world, p)
      modifies this`world
      ensures AtRest(config, world)
      ensures forall j :: 0 <= j < p ==> SameAt(old(world), world, j)
      ensures Settled(config, world, |config.txs|)
      ensures forall j :: p <= j < |config.txs| ==> Finished(config, world, j)
    {
      ghost var w0 := world;
      InOrderBegins(config, world, p);
      world := Dispatch(config, world, Range(p, |config.txs|), Queued);
      var i: nat := p;
      while i < |config.txs|
        invariant ExecutingInOrder(config, w0, world, p, i)
        decreases RankSum(config, world, |config.txs|), TodoSum(config, world, |config.txs|)
      {
        i := InOrderTurn(w0, p, i);
      }
      InOrderEnds(config, w0, world, p);
    }

    /** executeAll, in the mode that is set.  The tasks from p up to q ran with what the tasks below them leave: p
        alone if it was ready, and all in synchronous mode. */
    method ExecuteAll(toExecute: set<nat>, p: nat) returns (ghost q: nat)
      requires Between(config, world) && p == FirstNonValidated(world.tasks) < |config.txs|
      requires toExecute == PendingTasks(world.tasks)
      modifies this`world
      ensures AtRest(config, world) && Kept(config, old(world), world, p) && p == FirstNonValidated(world.tasks)
      ensures p <= q <= |config.txs| && Settled(config, world, q)
      ensures forall j :: p <= j < q ==> Finished(config, world, j)
      ensures forall j :: j in toExecute ==> world.tasks[j].status.Executed? || world.tasks[j].status.Aborted?
      ensures !synchronous ==>
              forall j :: 0 <= j < |config.txs| && j !in toExecute ==> SameAt(old(world), world, j)
      ensures if synchronous then q == |config.txs|
              else if old(world.tasks[p].status.Pending?) then q == p + 1
              else world.tasks[p].status.Waiting?
    {
      ghost var was := world;
      q := p;
      if synchronous {
        ExecuteInOrder(p);
        q := |config.txs|;
        forall j | p <= j < |config.txs| ensures world.tasks[j].status.Executed? {
          assert Finished(config, world, j);
        }
        assert forall j :: j in toExecute ==> p <= j < |config.txs|;
      } else {
        ExecuteConcurrently(toExecute, p);
        if was.tasks[p].status.Pending? {
          assert TaskOk(config, world, p);
          q := p + 1;
        } else {
          assert SameAt(was, world, p);
        }
      }
      SameFirst(config, was, world, p);
      if q == p + 1 && !synchronous {
        FinishedSettles(config, world, p);
      }
    }

    /** Some worker that validates takes a step. */
    method ValidateTurn(ghost w0: World, active: set<nat>, ghost s: nat, ghost q: nat) returns (left: set<nat>)
      requires active != {} && ValidatingAll(config, w0, world, active, s, q)
      modifies this`world
      ensures ValidatingAll(config, w0, world, left, s, q) && MovedOn(config, old(world), world)
    {
      var i := Pick(active);
      HeldIsValidating(config, w0, world, active, s, q, i);
      ghost var w := world;
      ValidateStep(i);
      ValidatingGoesOn(config, w0, w, active, s, q, i, world);
      left := if world.tasks[i].thread.Idle? then active - {i} else active;
    }

    /** validateAll, from the first task that is not validated on.  `q` bounds a stretch of tasks that
        ran with what the tasks below them leave. */
    method ValidateAll(s: nat, ghost q: nat) returns (rerun: set<nat>)
      requires AtRest(config, world)
      requires s == FirstNonValidated(world.tasks) && s <= q <= |config.txs| && Settled(config, world, q)
      requires forall j :: s <= j < q ==> Finished(config, world, j)
      modifies this`world
      ensures PassEnd(config, old(world), world, s, q)
      ensures rerun == PendingTasks(world.tasks)
    {
      ghost var was := world;
      ValidatingBegins(config, world, s, q);
      var active := Range(s, |config.txs|);
      world := Dispatch(config, world, active, Unchecked);
      ghost var w0 := world;
      while active != {}
        invariant ValidatingAll(config, w0, world, active, s, q)
        decreases RankSum(config, world, |config.txs|), TodoSum(config, world, |config.txs|)
      {
        active := ValidateTurn(w0, active, s, q);
      }
      ValidatingEnds(config, was, world, s, q);
      rerun := PendingTasks(world.tasks);
    }

    /** One pass of the loop of ProcessAll.  Nothing before the first task p that was not validated is
        touched; p itself gets validated if it was ready, and ready if it waited; a synchronous pass
        validates everything. */
    method Pass(toExecute: set<nat>) returns (rerun: set<nat>)
      requires Between(config, world)
      requires FirstNonValidated(world.tasks) < |config.txs|
      requires toExecute == PendingTasks(world.tasks)
      modifies this`world
      ensures Between(config, world) && rerun == PendingTasks(world.tasks)
      ensures Kept(config, old(world), world, FirstNonValidated(old(world).tasks))
      ensures Progress(world) > Progress(old(world))
      ensures old(world).tasks[FirstNonValidated(old(world).tasks)].status.Pending? ==>
                FirstNonValidated(world.tasks) > FirstNonValidated(old(world).tasks)
      ensures synchronous ==> FirstNonValidated(world.tasks) == |config.txs|
    {
      ghost var was := world;
      var p := FirstNonValidated(world.tasks);
      ghost var q := ExecuteAll(toExecute, p);
      ghost var ran := world;
      rerun := ValidateAll(p, q);
      KeptTwice(config, was, ran, world, p);
    }

    /** For every batch and every interleaving: all transactions end up validated, and the number of passes is bounded
        both by the iteration limit and by the size of the batch.  The store and the responses are those of running
        the transactions one by one in order, up to the confusion of nothing and the empty value, and exactly those
        where no key can be both absent and empty. */
    method ProcessAll() returns (responses: seq<Response>, store: KvStore, passes: nat)
      requires world == Initial(config) && !synchronous
      modifies this
      ensures Sized(config, world) && forall i :: 0 <= i < |config.txs| ==> world.tasks[i].status.Validated?
      ensures passes <= MAXIMUM_ITERATIONS + 1 && (synchronous <==> passes == MAXIMUM_ITERATIONS + 1)
      ensures |config.txs| > 0 ==> passes < 2 * |config.txs|
      ensures exists stores :: OneByOne(config, stores, responses) && stores[|config.txs|] == store
      ensures Unambiguous(config) ==>
              && store == SequentialStore(config.txs, config.parent, |config.txs|)
              && forall i :: 0 <= i < |config.txs| ==>
                             responses[i] == SequentialResponse(config.txs, config.parent, i)
    {
      var toExecute := Range(0, |config.txs|);
      passes := 0;
      InitialBetween(config);
      while FirstNonValidated(world.tasks) < |config.txs|
        invariant Between(config, world) && toExecute == PendingTasks(world.tasks)
        invariant |config.txs| > 0 ==> passes < Progress(world)
        invariant passes <= MAXIMUM_ITERATIONS + 1 && (synchronous <==> passes == MAXIMUM_ITERATIONS + 1)
        invariant passes == MAXIMUM_ITERATIONS + 1 ==> FirstNonValidated(world.tasks) == |config.txs|
        decreases MAXIMUM_ITERATIONS + 1 - passes
      {
        if passes >= MAXIMUM_ITERATIONS {
          synchronous := true;
        }
        toExecute := Pass(toExecute);
        passes := passes + 1;
      }
      store := Flush(config.parent, world.entries, |config.txs|);
      forall i | 0 <= i < |config.txs| ensures world.tasks[i].response.Some? { assert SettledAt(config, world, i); }
      responses := CollectResponses();
      ghost var stores := SettledOneByOne(config, world, responses);
      if Unambiguous(config) {
        SettledSequential(config, world, |config.txs|);
      }
    }

    method CollectResponses() returns (responses: seq<Response>)
      requires Sized(config, world) && forall i :: 0 <= i < |config.txs| ==> world.tasks[i].response.Some?
      ensures |responses| == |config.txs|
      ensures forall i :: 0 <= i < |config.txs| ==> world.tasks[i].response == Some(responses[i])
    {
      responses := [];
      for n := 0 to |config.txs|
        invariant |responses| == n
        invariant forall i :: 0 <= i < n ==> world.tasks[i].response == Some(responses[i])
      {
        responses := responses + [world.tasks[n].response.value];
      }
    }
  }
}
