/**
 Runs of the scheduler as sequences of moments, for all interleavings and any number of passes, concurrent and then
 synchronous: whenever everything is validated, the batch holds the sequential result.
 */
module SchedulerRuns {
  import opened Basics
  import opened Transactions
  import opened MultiVersion
  import opened SchedulerSteps
  import opened SchedulerSafety
  import opened SchedulerPasses
  import opened Scheduling

  /** The tasks and the memory, and whether the scheduler is in synchronous mode. */
  datatype Moment = Moment(world: World, synchronous: bool)

  ghost predicate AllIdle(c: Config, w: World) {
    Sized(c, w) && forall i :: 0 <= i < |c.txs| ==> w.tasks[i].thread.Idle?
  }

  /** What executeAll is given: the pending tasks, or in synchronous mode all that are not validated yet. */
  function ToExecute(w: World, synchronous: bool): set<nat> {
    if synchronous then Range(FirstNonValidated(w.tasks), |w.tasks|) else PendingTasks(w.tasks)
  }

  /** No worker holds a task, and tasks are handed to the executors. */
  ghost predicate BeginsExecution(c: Config, w: World, synchronous: bool, w1: World) {
    AllIdle(c, w) && w1 == Dispatch(c, w, ToExecute(w, synchronous), Queued)
  }

  /** No worker holds a task, and the tasks that may be invalid are handed to the validators. */
  ghost predicate BeginsValidation(c: Config, w: World, w1: World) {
    AllIdle(c, w) && w1 == Dispatch(c, w, Range(FirstNonValidated(w.tasks), |c.txs|), Unchecked)
  }

  /** The worker of task i takes a step; in synchronous mode no lower task is held. */
  ghost predicate Turn(c: Config, m: Moment, i: nat, w1: World) {
    && (Executes(c, m.world, i, m.synchronous, w1) || Validates(c, m.world, i, w1))
    && (m.synchronous ==> forall j :: 0 <= j < i ==> m.world.tasks[j].thread.Idle?)
  }

  /** The mode changes between two phases only, and never back. */
  ghost predicate Step(c: Config, m: Moment, m1: Moment) {
    || (AllIdle(c, m.world) && m1 == Moment(m.world, true))
    || (m1.synchronous == m.synchronous
        && (|| BeginsExecution(c, m.world, m.synchronous, m1.world)
            || BeginsValidation(c, m.world, m1.world)
            || exists i :: Turn(c, m, i, m1.world)))
  }

  /** A run of the scheduler from a fresh batch. */
  ghost predicate IsRun(c: Config, run: seq<Moment>) {
    && |run| > 0 && run[0] == Moment(Initial(c), false)
    && forall n :: 0 <= n < |run| - 1 ==> Step(c, run[n], run[n + 1])
  }

  /** Everything is validated at the end of the run. */
  ghost predicate EndsValidated(c: Config, run: seq<Moment>) {
    && |run| > 0
    && var w := run[|run| - 1].world;
       AllIdle(c, w) && forall i :: 0 <= i < |c.txs| ==> w.tasks[i].status.Validated?
  }

  /** The outcome of the scheduler is the outcome of running the transactions one by one. */
  ghost predicate SequentialResult(c: Config, w: World)
    requires Sized(c, w)
  {
    && Flush(c.parent, w.entries, |c.txs|) == SequentialStore(c.txs, c.parent, |c.txs|)
    && forall i :: 0 <= i < |c.txs| ==>
                   w.tasks[i].response == Some(SequentialResponse(c.txs, c.parent, i))
  }

  ghost predicate Serializable(c: Config) {
    forall run: seq<Moment> :: IsRun(c, run) && EndsValidated(c, run) ==> SequentialResult(c, run[|run| - 1].world)
  }

  // ----- the invariant of a run -----

  /** Which phase a world is in, and where that phase began. */
  datatype Mode =
    | Rest
    | Execution(w0: World, chosen: set<nat>, active: set<nat>, p: nat)
    | InOrder(w0: World, p: nat, i: nat)
    | Validation(was: World, active: set<nat>, s: nat)

  ghost predicate Settling(c: Config, w: World) {
    AtRest(c, w) && Settled(c, w, FirstNonValidated(w.tasks))
  }

  ghost predicate Invariant(c: Config, m: Moment, mode: Mode) {
    match mode
    case Rest => Settling(c, m.world)
    case Execution(w0, chosen, active, p) =>
      && !m.synchronous && AllIdle(c, w0) && p == FirstNonValidated(w0.tasks)
      && Executing(c, w0, m.world, chosen, active, p)
    case InOrder(w0, p, i) =>
      m.synchronous && AtRest(c, w0) && ExecutingInOrder(c, w0, m.world, p, i)
    case Validation(was, active, s) =>
      && AtRest(c, was) && s == FirstNonValidated(was.tasks)
      && ValidatingAll(c, Dispatch(c, was, Range(s, |c.txs|), Unchecked), m.world, active, s, s)
  }

  lemma ExecutingEnds(c: Config, w0: World, w: World, chosen: set<nat>, p: nat)
    requires AllIdle(c, w0) && p == FirstNonValidated(w0.tasks) && Executing(c, w0, w, chosen, {}, p)
    ensures Settling(c, w)
  {
    forall j | 0 <= j < |c.txs| ensures w.tasks[j].thread.Idle? {
      assert j !in chosen ==> SameAt(w0, w, j);
    }
    forall j | 0 <= j < p ensures w.tasks[j].status.Validated? { assert SameAt(w0, w, j); }
    assert p !in chosen ==> SameAt(w0, w, p);
  }

  /** A world without active workers is at rest, whatever phase it closes. */
  lemma IdleRests(c: Config, m: Moment, mode: Mode)
    requires Invariant(c, m, mode) && AllIdle(c, m.world)
    ensures Settling(c, m.world)
  {
    match mode
    case Rest =>
    case Execution(w0, chosen, active, p) =>
      assert forall i :: i in active ==> ExecutionThread(m.world.tasks[i].thread);
      assert active == {};
      ExecutingEnds(c, w0, m.world, chosen, p);
    case InOrder(w0, p, i) =>
      InOrderEnds(c, w0, m.world, p);
    case Validation(was, active, s) =>
      assert active == {};
      ValidatingEnds(c, was, m.world, s, s);
  }

  lemma OnlyExecutes(c: Config, w0: World, w: World, chosen: set<nat>, active: set<nat>, p: nat, i: nat, w1: World)
    requires AllIdle(c, w0) && Executing(c, w0, w, chosen, active, p)
    requires Executes(c, w, i, false, w1) || Validates(c, w, i, w1)
    ensures i in active && Executes(c, w, i, false, w1)
  {
    forall j | 0 <= j < |c.txs| && j !in chosen ensures w.tasks[j].thread.Idle? { assert SameAt(w0, w, j); }
    assert !w.tasks[i].thread.Idle?;
  }

  /** In synchronous mode only the lowest task that is held can move. */
  lemma OnlyLowest(c: Config, w0: World, w: World, p: nat, i: nat, k: nat, w1: World)
    requires AtRest(c, w0) && ExecutingInOrder(c, w0, w, p, i)
    requires Executes(c, w, k, true, w1) || Validates(c, w, k, w1)
    requires forall j :: 0 <= j < k ==> w.tasks[j].thread.Idle?
    ensures k == i && Executes(c, w, i, true, w1)
  {
    forall j | 0 <= j < i ensures w.tasks[j].thread.Idle? {
      assert j < p ==> SameAt(w0, w, j);
    }
    assert !w.tasks[k].thread.Idle?;
  }

  lemma OnlyValidates(c: Config, was: World, w: World, active: set<nat>, s: nat, i: nat, synchronous: bool, w1: World)
    requires AtRest(c, was)
    requires ValidatingAll(c, Dispatch(c, was, Range(s, |c.txs|), Unchecked), w, active, s, s)
    requires Executes(c, w, i, synchronous, w1) || Validates(c, w, i, w1)
    ensures i in active && Validates(c, w, i, w1)
  {
    var w0 := Dispatch(c, was, Range(s, |c.txs|), Unchecked);
    forall j | 0 <= j < s ensures w.tasks[j].thread.Idle? { assert SameAt(w0, w, j); }
    assert !w.tasks[i].thread.Idle?;
    assert s <= i ==> Validating(c, w0, w, i);
  }

  lemma TurnKeeps(c: Config, m: Moment, mode: Mode, i: nat, w1: World) returns (next: Mode)
    requires Invariant(c, m, mode) && !AllIdle(c, m.world) && Turn(c, m, i, w1)
    ensures Invariant(c, Moment(w1, m.synchronous), next)
  {
    match mode
    case Execution(w0, chosen, active, p) =>
      OnlyExecutes(c, w0, m.world, chosen, active, p, i, w1);
      ExecutingGoesOn(c, w0, m.world, chosen, active, p, i, w1);
      next := Execution(w0, chosen, if w1.tasks[i].thread.Idle? then active - {i} else active, p);
    case InOrder(w0, p, k) =>
      OnlyLowest(c, w0, m.world, p, k, i, w1);
      InOrderGoesOn(c, w0, m.world, p, i, w1);
      next := InOrder(w0, p, if w1.tasks[i].thread.Idle? then i + 1 else i);
    case Validation(was, active, s) =>
      OnlyValidates(c, was, m.world, active, s, i, m.synchronous, w1);
      ValidatingGoesOn(c, Dispatch(c, was, Range(s, |c.txs|), Unchecked), m.world, active, s, s, i, w1);
      next := Validation(was, if w1.tasks[i].thread.Idle? then active - {i} else active, s);
  }

  lemma BeginKeeps(c: Config, m: Moment, w1: World) returns (next: Mode)
    requires Settling(c, m.world)
    requires BeginsExecution(c, m.world, m.synchronous, w1) || BeginsValidation(c, m.world, w1)
    ensures Invariant(c, Moment(w1, m.synchronous), next)
  {
    var w, p := m.world, FirstNonValidated(m.world.tasks);
    if p < |c.txs| && BeginsExecution(c, w, m.synchronous, w1) {
      if m.synchronous {
        InOrderBegins(c, w, p);
        next := InOrder(w, p, p);
      } else {
        ExecutingBegins(c, w, PendingTasks(w.tasks), p);
        next := Execution(w, PendingTasks(w.tasks), PendingTasks(w.tasks), p);
      }
    } else {
      if p == |c.txs| {
        assert ToExecute(w, m.synchronous) == {};
        assert Dispatch(c, w, {}, Queued).tasks == Dispatch(c, w, {}, Unchecked).tasks;
      }
      assert BeginsValidation(c, w, w1);
      ValidatingBegins(c, w, p, p);
      next := Validation(w, Range(p, |c.txs|), p);
    }
  }

  /** Every step of every run, of every batch, keeps the invariant of its phase. */
  lemma StepKeeps(c: Config, m: Moment, mode: Mode, m1: Moment) returns (next: Mode)
    requires Invariant(c, m, mode) && Step(c, m, m1)
    ensures Invariant(c, m1, next)
  {
    if AllIdle(c, m.world) {
      IdleRests(c, m, mode);
      if m1.world == m.world {
        next := Rest;
      } else {
        next := BeginKeeps(c, m, m1.world);
      }
    } else {
      var i: nat :| Turn(c, m, i, m1.world);
      next := TurnKeeps(c, m, mode, i, m1.world);
    }
  }

  lemma {:induction false} RunKeeps(c: Config, run: seq<Moment>, n: nat) returns (mode: Mode)
    requires IsRun(c, run) && n < |run|
    ensures Invariant(c, run[n], mode)
  {
    if n == 0 {
      InitialBetween(c);
      mode := Rest;
    } else {
      var before := RunKeeps(c, run, n - 1);
      mode := StepKeeps(c, run[n - 1], before, run[n]);
    }
  }

  /** At the end everything is settled. */
  lemma RunSettles(c: Config, run: seq<Moment>)
    requires IsRun(c, run) && EndsValidated(c, run)
    ensures WorldOk(c, run[|run| - 1].world) && Settled(c, run[|run| - 1].world, |c.txs|)
  {
    var mode := RunKeeps(c, run, |run| - 1);
    IdleRests(c, run[|run| - 1], mode);
  }

  /** For every batch: every run that ends with all tasks validated ends with a result of running the transactions one
      by one, each on what the one before it left, up to the confusion of nothing and the empty value. */
  lemma RunsAreOneByOne(c: Config, run: seq<Moment>) returns (stores: seq<KvStore>, responses: seq<Response>)
    requires IsRun(c, run) && EndsValidated(c, run)
    ensures OneByOne(c, stores, responses)
    ensures var w := run[|run| - 1].world;
            && Flush(c.parent, w.entries, |c.txs|) == stores[|c.txs|]
            && forall i :: 0 <= i < |c.txs| ==> w.tasks[i].response == Some(responses[i])
  {
    RunSettles(c, run);
    var w := run[|run| - 1].world;
    forall i | 0 <= i < |c.txs| ensures w.tasks[i].response.Some? { assert SettledAt(c, w, i); }
    responses := seq(|c.txs|, i requires 0 <= i < |c.txs| => w.tasks[i].response.value);
    stores := SettledOneByOne(c, w, responses);
  }

  /** For every batch in which no key can be both absent and empty, every run that ends with all tasks validated ends
      with the sequential result. */
  lemma RunsAreSerializable(c: Config)
    requires Unambiguous(c)
    ensures Serializable(c)
  {
    forall run: seq<Moment> | IsRun(c, run) && EndsValidated(c, run) ensures SequentialResult(c, run[|run| - 1].world) {
      RunSettles(c, run);
      SettledSequential(c, run[|run| - 1].world, |c.txs|);
    }
  }
}
