/**
 A validation that is not interrupted: what shouldRerun decides, from the status, the recorded reads, the memory below
 and the dependencies alone.
 */
module SchedulerAlone {
  import opened Basics
  import opened Transactions
  import opened MultiVersion
  import opened SchedulerSteps
  import opened SchedulerSafety
  import opened SchedulerPasses

  /** The recorded reads that still have to be compared are left out. */
  ghost predicate AllStand(c: Config, w: World, i: nat, rs: ReadSet, keys: set<Key>)
    requires Sized(c, w) && i < |c.txs|
  {
    forall k :: k in rs && k !in keys ==> Stands(c.parent, w.entries, i, k, rs[k])
  }

  ghost predicate AreConflicts(c: Config, w: World, i: nat, rs: ReadSet, keys: set<Key>, conflicts: set<nat>)
    requires Sized(c, w) && i < |c.txs|
  {
    forall j: nat :: j in conflicts <==>
                     exists k :: k in rs && k !in keys && ConflictsWith(w.entries, i, k, rs[k], j)
  }

  ghost predicate DepsValidated(w: World, deps: set<nat>) {
    forall d :: d in deps && d < |w.tasks| ==> w.tasks[d].status.Validated?
  }

  /** w0 is where the validation of task i began; nothing but task i has changed since. */
  ghost predicate Midway(c: Config, w0: World, w: World, i: nat) {
    && Sized(c, w0) && i < |c.txs| && OnlyAt(c, w0, w, i)
    && var t0, t := w0.tasks[i], w.tasks[i];
       match t.thread
       case Unchecked => w == w0
       case Checking(keys, valid, conflicts) =>
         && w.entries[i] == w0.entries[i] && t == t0.(thread := t.thread)
         && (t0.status.Executed? || t0.status.Validated?) && t0.readset.Some? && keys <= t0.readset.value.Keys
         && (valid <==> AllStand(c, w0, i, t0.readset.value, keys))
         && AreConflicts(c, w0, i, t0.readset.value, keys, conflicts)
       case Invalidating(stale, found) =>
         && t == t0.(thread := t.thread) && Failed(c, w0, i, found)
         && w.entries[i].Keys == w0.entries[i].Keys && stale <= w0.entries[i].Keys
         && (forall k :: k in w.entries[i] && k !in stale ==> w.entries[i][k] == Estimate)
         && (forall k :: k in stale ==> w.entries[i][k] == w0.entries[i][k])
       case Awaiting(pending) =>
         && (|| (t0.status.Waiting? && t == t0.(thread := t.thread) && w.entries[i] == w0.entries[i])
             || Invalidated(c, w0, w, i))
         && pending <= t.deps && DepsValidated(w0, t.deps - pending)
       case Idle => Decided(c, w0, w, i)
       case _ => false
  }

  /** Some recorded read does not stand, and these are the conflicts. */
  ghost predicate Failed(c: Config, w0: World, i: nat, conflicts: set<nat>)
    requires Sized(c, w0) && i < |c.txs|
  {
    var t := w0.tasks[i];
    && (t.status.Executed? || t.status.Validated?) && t.readset.Some?
    && !AllStand(c, w0, i, t.readset.value, {}) && AreConflicts(c, w0, i, t.readset.value, {}, conflicts)
  }

  /** All entries of the task are estimates, its read set is gone and the conflicts are among its dependencies. */
  ghost predicate Invalidated(c: Config, w0: World, w: World, i: nat)
    requires Sized(c, w0) && Sized(c, w) && i < |c.txs|
  {
    && w.entries[i] == (map k | k in w0.entries[i] :: Estimate)
    && exists conflicts :: Failed(c, w0, i, conflicts)
                           && w.tasks[i] == w0.tasks[i].(readset := None, deps := w0.tasks[i].deps + conflicts,
                                                         thread := w.tasks[i].thread)
  }

  /** Ready for another run, or waiting for a dependency that is not validated. */
  ghost predicate RerunOrWait(w0: World, deps: set<nat>, t: Task, t1: Task) {
    if DepsValidated(w0, deps) then t1 == Reset(t) else t1 == t.(status := Waiting, thread := Idle)
  }

  /** The decision of shouldRerun. */
  ghost predicate Decided(c: Config, w0: World, w: World, i: nat)
    requires Sized(c, w0) && Sized(c, w) && i < |c.txs|
  {
    var t0, t := w0.tasks[i], w.tasks[i];
    match t0.status
    case Pending => t == Reset(t0) && w.entries[i] == w0.entries[i]
    case Aborted => t == Reset(t0) && w.entries[i] == w0.entries[i]
    case Waiting => w.entries[i] == w0.entries[i] && RerunOrWait(w0, t0.deps, t0, t)
    case _ => DecidedByReads(c, w0, w, i)
  }

  /** Valid without conflicts: validated.  Valid with conflicts: looked at again in the next pass.  Otherwise the
      entries become estimates, the conflicts become dependencies, and the task runs again or waits. */
  ghost predicate DecidedByReads(c: Config, w0: World, w: World, i: nat)
    requires Sized(c, w0) && Sized(c, w) && i < |c.txs|
  {
    var t0, t := w0.tasks[i], w.tasks[i];
    && t0.readset.Some?
    && exists conflicts ::
         && AreConflicts(c, w0, i, t0.readset.value, {}, conflicts)
         && if AllStand(c, w0, i, t0.readset.value, {}) then
              && w.entries[i] == w0.entries[i]
              && t == (if conflicts == {} then t0.(status := Validated, thread := Idle) else t0.(thread := Idle))
            else
              && w.entries[i] == (map k | k in w0.entries[i] :: Estimate)
              && var t1 := t0.(readset := None, deps := t0.deps + conflicts);
                 RerunOrWait(w0, t1.deps, t1, t)
  }

  lemma CheckedKey(c: Config, w0: World, w: World, i: nat, k: Key)
    requires Midway(c, w0, w, i) && w.tasks[i].thread.Checking? && k in w.tasks[i].thread.keys
    ensures Midway(c, w0, CheckKey(c, w, i, k), i)
  {
    var rs := w0.tasks[i].readset.value;
    var check := CheckRead(c.parent, w.entries, i, k, rs[k]);
    var keys, conflicts := w.tasks[i].thread.keys, w.tasks[i].thread.conflicts;
    SameBelow(c, w0, w, i, k, rs[k]);
    CheckReadAll(c.parent, w0.entries, i, k, rs[k]);
    var w1 := CheckKey(c, w, i, k);
    MoreConflicts(c, w0, i, rs, keys, conflicts, k, check.conflict);
  }

  lemma MoreConflicts(c: Config, w0: World, i: nat, rs: ReadSet, keys: set<Key>, conflicts: set<nat>, k: Key,
                      conflict: Option<nat>)
    requires Sized(c, w0) && i < |c.txs| && k in keys && k in rs
    requires AreConflicts(c, w0, i, rs, keys, conflicts)
    requires forall j: nat :: conflict == Some(j) <==> ConflictsWith(w0.entries, i, k, rs[k], j)
    ensures AreConflicts(c, w0, i, rs, keys - {k}, conflicts + if conflict.Some? then {conflict.value} else {})
  {
    var more := conflicts + if conflict.Some? then {conflict.value} else {};
    forall j: nat
      ensures j in more <==> exists m :: m in rs && m !in keys - {k} && ConflictsWith(w0.entries, i, m, rs[m], j)
    {
      if j in conflicts {
        var m :| m in rs && m !in keys && ConflictsWith(w0.entries, i, m, rs[m], j);
        assert m !in keys - {k};
      }
      if conflict == Some(j) {
        assert k !in keys - {k};
      }
    }
  }

  /** Checks look at the entries below only, which have not changed. */
  lemma SameBelow(c: Config, w0: World, w: World, i: nat, k: Key, v: Option<Bytes>)
    requires Sized(c, w0) && i < |c.txs| && OnlyAt(c, w0, w, i)
    ensures CheckRead(c.parent, w.entries, i, k, v) == CheckRead(c.parent, w0.entries, i, k, v)
  {
    assert w.entries[..i] == w0.entries[..i];
    LatestPrefix(w.entries, w0.entries, i, k);
  }

  lemma VisitDecides(c: Config, w0: World, i: nat)
    requires Sized(c, w0) && i < |c.txs| && w0.tasks[i].thread.Unchecked?
    requires w0.tasks[i].status.Executed? || w0.tasks[i].status.Validated? ==> w0.tasks[i].readset.Some?
    ensures Midway(c, w0, Visit(c, w0, i), i)
  {
  }

  lemma EndCheckDecides(c: Config, w0: World, w: World, i: nat)
    requires Midway(c, w0, w, i) && w.tasks[i].thread.Checking? && w.tasks[i].thread.keys == {}
    ensures Midway(c, w0, EndCheck(c, w, i), i)
  {
  }

  lemma InvalidateDecides(c: Config, w0: World, w: World, i: nat, k: Key)
    requires Midway(c, w0, w, i) && w.tasks[i].thread.Invalidating? && k in w.tasks[i].thread.stale
    ensures Midway(c, w0, InvalidateKey(c, w, i, k), i)
  {
  }

  lemma EndInvalidateDecides(c: Config, w0: World, w: World, i: nat)
    requires Midway(c, w0, w, i) && w.tasks[i].thread.Invalidating? && w.tasks[i].thread.stale == {}
    ensures Midway(c, w0, EndInvalidate(c, w, i), i)
  {
    var w1 := EndInvalidate(c, w, i);
    assert w1.entries[i] == (map k | k in w0.entries[i] :: Estimate);
    assert Failed(c, w0, i, w.tasks[i].thread.found);
    assert Invalidated(c, w0, w1, i);
  }

  lemma AwaitDecides(c: Config, w0: World, w: World, i: nat, d: nat)
    requires Midway(c, w0, w, i) && w.tasks[i].thread.Awaiting? && d in w.tasks[i].thread.pending && d < i
    ensures Midway(c, w0, AwaitDep(c, w, i, d), i)
  {
    var w1 := AwaitDep(c, w, i, d);
    if w.tasks[d].status.Validated? {
      assert w1.tasks[i].deps - w1.tasks[i].thread.pending == w.tasks[i].deps - w.tasks[i].thread.pending + {d};
      if Invalidated(c, w0, w, i) {
        assert Invalidated(c, w0, w1, i);
      }
    } else {
      assert !DepsValidated(w0, w.tasks[i].deps);
      Rerun(c, w0, w, w1, i);
    }
  }

  lemma EndAwaitDecides(c: Config, w0: World, w: World, i: nat)
    requires Midway(c, w0, w, i) && w.tasks[i].thread.Awaiting? && w.tasks[i].thread.pending == {}
    ensures Midway(c, w0, EndAwait(c, w, i), i)
  {
    assert w.tasks[i].deps - {} == w.tasks[i].deps;
    Rerun(c, w0, w, EndAwait(c, w, i), i);
  }

  lemma Rerun(c: Config, w0: World, w: World, w1: World, i: nat)
    requires Midway(c, w0, w, i) && w.tasks[i].thread.Awaiting? && Sized(c, w1) && w1.entries == w.entries
    requires RerunOrWait(w0, w.tasks[i].deps, w.tasks[i], w1.tasks[i])
    ensures Decided(c, w0, w1, i)
  {
    if Invalidated(c, w0, w, i) {
      var conflicts :| Failed(c, w0, i, conflicts)
                       && w.tasks[i] == w0.tasks[i].(readset := None, deps := w0.tasks[i].deps + conflicts,
                                                     thread := w.tasks[i].thread);
      assert AreConflicts(c, w0, i, w0.tasks[i].readset.value, {}, conflicts);
    }
  }

  /** A run of the validator of one task, with no other worker in between. */
  ghost predicate ValidatesAlone(c: Config, run: seq<World>, i: nat) {
    && |run| > 0
    && (forall n :: 0 <= n < |run| ==> Sized(c, run[n]))
    && forall n :: 0 <= n < |run| - 1 ==> Validates(c, run[n], i, run[n + 1])
  }

  lemma StepDecides(c: Config, w0: World, w: World, i: nat, w1: World)
    requires WorldOk(c, w0) && WorldOk(c, w) && Midway(c, w0, w, i) && Validates(c, w, i, w1)
    ensures WorldOk(c, w1) && Midway(c, w0, w1, i)
  {
    ValidatesOk(c, w, i, w1);
    assert TaskOk(c, w, i);
    match w.tasks[i].thread
    case Unchecked => VisitDecides(c, w0, i);
    case Checking(keys, _, _) =>
      if keys == {} {
        EndCheckDecides(c, w0, w, i);
      } else {
        var k :| k in keys && k in w.tasks[i].readset.value && w1 == CheckKey(c, w, i, k);
        CheckedKey(c, w0, w, i, k);
      }
    case Invalidating(stale, _) =>
      if stale == {} {
        EndInvalidateDecides(c, w0, w, i);
      } else {
        var k :| k in stale && w1 == InvalidateKey(c, w, i, k);
        InvalidateDecides(c, w0, w, i, k);
      }
    case Awaiting(pending) =>
      if pending == {} {
        EndAwaitDecides(c, w0, w, i);
      } else {
        var d :| d in pending && d < |c.txs| && w1 == AwaitDep(c, w, i, d);
        AwaitDecides(c, w0, w, i, d);
      }
  }

  lemma {:induction false} RunDecides(c: Config, run: seq<World>, i: nat, n: nat)
    requires ValidatesAlone(c, run, i) && n < |run| && WorldOk(c, run[0]) && i < |c.txs|
    requires run[0].tasks[i].thread.Unchecked?
    ensures WorldOk(c, run[n]) && Midway(c, run[0], run[n], i)
  {
    if n > 0 {
      RunDecides(c, run, i, n - 1);
      StepDecides(c, run[0], run[n - 1], i, run[n]);
    }
  }

  /** shouldRerun in full, when nobody interferes: its decision follows from the status, the recorded reads, the memory
      below and the dependencies. */
  lemma DecidesAlone(c: Config, run: seq<World>, i: nat)
    requires ValidatesAlone(c, run, i) && WorldOk(c, run[0]) && i < |c.txs|
    requires run[0].tasks[i].thread.Unchecked? && run[|run| - 1].tasks[i].thread.Idle?
    ensures Decided(c, run[0], run[|run| - 1], i) && OnlyAt(c, run[0], run[|run| - 1], i)
  {
    RunDecides(c, run, i, |run| - 1);
  }
}
