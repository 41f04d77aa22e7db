/**
 What one pass of the scheduler achieves, for every batch.  A settled prefix holds what its transactions make of the
 memory below them, up to the confusion of nothing and the empty value; execution cannot disturb it, validation
 extends it, and the first task after it always gets ahead.
 */
module SchedulerPasses {
  import opened Basics
  import opened Transactions
  import opened MultiVersion
  import opened SchedulerSteps
  import opened SchedulerSafety

  /** What the entries below index i leave of the store. */
  function StoreBelow(c: Config, w: World, i: nat): KvStore
    requires Sized(c, w) && i <= |c.txs|
  {
    Flush(c.parent, w.entries, i)
  }

  /** The recorded reads pass for what the store holds: nothing and the empty value are not told apart. */
  ghost predicate Matches(store: KvStore, rs: ReadSet) {
    forall k :: k in rs ==> BytesEqual(Lookup(store, k), rs[k])
  }

  /** The task is certified, and its recorded reads match what the tasks below it leave. */
  ghost predicate SettledAt(c: Config, w: World, j: nat)
    requires Sized(c, w) && j < |c.txs|
  {
    Recorded(c, w, j) && Matches(StoreBelow(c, w, j), w.tasks[j].readset.value)
  }

  ghost predicate Settled(c: Config, w: World, n: nat)
    requires Sized(c, w) && n <= |c.txs|
  {
    forall j :: 0 <= j < n ==> SettledAt(c, w, j)
  }

  lemma SettledClean(c: Config, w: World, n: nat)
    requires Sized(c, w) && n <= |c.txs| && Settled(c, w, n)
    ensures CleanBelow(w.entries, n)
  {
    forall j | 0 <= j < n ensures Clean(w.entries[j]) { assert SettledAt(c, w, j); }
  }

  /** Above entries without estimates a read returns what they leave of the store. */
  lemma {:induction false} CleanRead(parent: KvStore, vs: seq<Entries>, n: nat, k: Key)
    requires n <= |vs| && CleanBelow(vs, n)
    ensures Read(parent, vs, n, k) == Got(Lookup(Flush(parent, vs, n), k))
  {
    if n > 0 {
      CleanRead(parent, vs, n - 1, k);
    }
  }

  /** Above a settled prefix a read returns what the prefix leaves of the store. */
  lemma SettledRead(c: Config, w: World, n: nat, k: Key)
    requires Sized(c, w) && n <= |c.txs| && Settled(c, w, n)
    ensures Read(c.parent, w.entries, n, k) == Got(Lookup(StoreBelow(c, w, n), k))
  {
    SettledClean(c, w, n);
    CleanRead(c.parent, w.entries, n, k);
  }

  lemma {:induction false} FlushPrefix(parent: KvStore, vs: seq<Entries>, us: seq<Entries>, n: nat)
    requires n <= |vs| && n <= |us| && forall j :: 0 <= j < n ==> vs[j] == us[j]
    ensures Flush(parent, vs, n) == Flush(parent, us, n)
  {
    if n > 0 {
      FlushPrefix(parent, vs, us, n - 1);
    }
  }

  /** What a prefix leaves depends on its entries only. */
  lemma SettledSame(c: Config, w: World, w1: World, n: nat)
    requires Sized(c, w) && Sized(c, w1) && n <= |c.txs| && Settled(c, w, n)
    requires forall j :: 0 <= j < n ==> w1.entries[j] == w.entries[j]
    requires forall j :: 0 <= j < n ==>
                         w1.tasks[j].readset == w.tasks[j].readset && w1.tasks[j].response == w.tasks[j].response
    ensures Settled(c, w1, n) && StoreBelow(c, w1, n) == StoreBelow(c, w, n)
  {
    forall j | 0 <= j < n ensures SettledAt(c, w1, j) {
      assert SettledAt(c, w, j);
      FlushPrefix(c.parent, w.entries, w1.entries, j);
    }
    FlushPrefix(c.parent, w.entries, w1.entries, n);
  }

  lemma {:induction false} LatestPrefix(vs: seq<Entries>, us: seq<Entries>, i: nat, k: Key)
    requires i <= |vs| && i <= |us| && vs[..i] == us[..i]
    ensures Latest(vs, i, k) == Latest(us, i, k)
  {
    if i > 0 {
      assert vs[i - 1] == vs[..i][i - 1] == us[..i][i - 1];
      assert vs[..i - 1] == vs[..i][..i - 1] == us[..i - 1];
      LatestPrefix(vs, us, i - 1, k);
    }
  }

  lemma ReadPrefix(c: Config, vs: seq<Entries>, us: seq<Entries>, i: nat, k: Key)
    requires i <= |vs| && i <= |us| && vs[..i] == us[..i]
    ensures Read(c.parent, vs, i, k) == Read(c.parent, us, i, k)
  {
    LatestPrefix(vs, us, i, k);
    var j := Latest(vs, i, k);
    if j.Some? {
      assert vs[j.value] == vs[..i][j.value] == us[..i][j.value] == us[j.value];
    }
  }

  /** The task has so far read what the tasks below it leave, and does not abort. */
  ghost predicate OnTrack(c: Config, w: World, i: nat)
    requires Sized(c, w) && i < |c.txs|
  {
    match w.tasks[i].thread
    case Queued => true
    case Running(l) => Agrees(StoreBelow(c, w, i), l.readset)
    case Publishing(_, _, ending) => ending.Done? && Agrees(StoreBelow(c, w, i), ending.readset)
    case _ => Finished(c, w, i)
  }

  /** The task ran with what the tasks below it leave. */
  ghost predicate Finished(c: Config, w: World, i: nat)
    requires Sized(c, w) && i < |c.txs|
  {
    var t := w.tasks[i];
    t.status.Executed? && t.readset.Some? && Agrees(StoreBelow(c, w, i), t.readset.value)
  }

  lemma FinishedSettles(c: Config, w: World, i: nat)
    requires Sized(c, w) && i < |c.txs| && Settled(c, w, i) && Recorded(c, w, i)
    requires Agrees(StoreBelow(c, w, i), w.tasks[i].readset.value)
    ensures Settled(c, w, i + 1)
  {
    assert SettledAt(c, w, i);
  }

  lemma StoreFrame(c: Config, w: World, w1: World, n: nat, i: nat)
    requires Sized(c, w) && OnlyAt(c, w, w1, i) && n <= i && n <= |c.txs|
    ensures StoreBelow(c, w1, n) == StoreBelow(c, w, n)
  {
    FlushPrefix(c.parent, w.entries, w1.entries, n);
  }

  // ----- one step of executeAll -----

  ghost predicate Executes(c: Config, w: World, i: nat, synchronous: bool, w1: World) {
    && Sized(c, w) && i < |c.txs|
    && (|| (w.tasks[i].thread.Queued? && w1 == Start(c, w, i, synchronous))
        || (w.tasks[i].thread.Running? && w1 == Advance(c, w, i))
        || (w.tasks[i].thread.Publishing? && exists k :: k in w.tasks[i].thread.todo && w1 == Publish(c, w, i, k))
        || (w.tasks[i].thread.Publishing? && w.tasks[i].thread.todo == {} && w1 == EndExecute(c, w, i)))
  }

  predicate ExecutionThread(t: Thread) {
    t.Queued? || t.Running? || t.Publishing?
  }

  lemma ExecutesOk(c: Config, w: World, i: nat, synchronous: bool, w1: World)
    requires WorldOk(c, w) && Executes(c, w, i, synchronous, w1)
    requires w.tasks[i].thread.Queued? ==> synchronous || w.tasks[i].status.Pending?
    ensures WorldOk(c, w1) && OnlyAt(c, w, w1, i)
    ensures (ExecutionThread(w1.tasks[i].thread) && !w1.tasks[i].thread.Queued?)
         || (w1.tasks[i].thread.Idle? && (w1.tasks[i].status.Executed? || w1.tasks[i].status.Aborted?))
  {
    assert TaskOk(c, w, i);
    if w.tasks[i].thread.Queued? {
      StartOk(c, w, i, synchronous);
    } else if w.tasks[i].thread.Running? {
      AdvanceOk(c, w, i);
    } else if w.tasks[i].thread.todo == {} {
      EndExecuteOk(c, w, i);
    } else {
      var k :| k in w.tasks[i].thread.todo && w1 == Publish(c, w, i, k);
      PublishOk(c, w, i, k);
    }
  }

  /** Right above a settled prefix a task never aborts and never reads anything stale. */
  lemma ExecutesOnTrack(c: Config, w: World, i: nat, synchronous: bool, w1: World)
    requires WorldOk(c, w) && Executes(c, w, i, synchronous, w1)
    requires Settled(c, w, i) && OnTrack(c, w, i)
    ensures Sized(c, w1) && OnTrack(c, w1, i)
  {
    StoreFrame(c, w, w1, i, i);
    if w.tasks[i].thread.Running? {
      var l := w.tasks[i].thread.local;
      match NextAction(c.txs[i], l.history)
      case Get(k) => SettledRead(c, w, i, k);
      case _ =>
    }
  }

  lemma SettledFrame(c: Config, w: World, w1: World, n: nat, i: nat)
    requires Sized(c, w) && OnlyAt(c, w, w1, i) && n <= i && n <= |c.txs| && Settled(c, w, n)
    ensures Settled(c, w1, n)
  {
    SettledSame(c, w, w1, n);
  }

  // ----- one step of validateAll -----

  ghost predicate Validates(c: Config, w: World, i: nat, w1: World) {
    && Sized(c, w) && i < |c.txs|
    && var t := w.tasks[i];
       match t.thread
       case Unchecked => w1 == Visit(c, w, i)
       case Checking(keys, _, _) =>
         if keys == {} then w1 == EndCheck(c, w, i)
         else t.readset.Some? && exists k :: k in keys && k in t.readset.value && w1 == CheckKey(c, w, i, k)
       case Invalidating(stale, _) =>
         if stale == {} then w1 == EndInvalidate(c, w, i)
         else exists k :: k in stale && w1 == InvalidateKey(c, w, i, k)
       case Awaiting(pending) =>
         if pending == {} then w1 == EndAwait(c, w, i)
         else exists d :: d in pending && d < |c.txs| && w1 == AwaitDep(c, w, i, d)
       case _ => false
  }

  lemma ValidatesOk(c: Config, w: World, i: nat, w1: World)
    requires WorldOk(c, w) && Validates(c, w, i, w1)
    ensures WorldOk(c, w1) && OnlyAt(c, w, w1, i)
  {
    match w.tasks[i].thread
    case Unchecked => VisitOk(c, w, i);
    case Checking(keys, _, _) =>
      if keys == {} {
        EndCheckOk(c, w, i);
      } else {
        assert TaskOk(c, w, i);
        var k :| k in keys && w1 == CheckKey(c, w, i, k);
        CheckKeyOk(c, w, i, k);
      }
    case Invalidating(stale, _) =>
      if stale == {} {
        EndInvalidateOk(c, w, i);
      } else {
        var k :| k in stale && w1 == InvalidateKey(c, w, i, k);
        InvalidateKeyOk(c, w, i, k);
      }
    case Awaiting(pending) =>
      if pending == {} {
        EndAwaitOk(c, w, i);
      } else {
        assert TaskOk(c, w, i);
        var d :| d in pending && w1 == AwaitDep(c, w, i, d);
        AwaitDepOk(c, w, i, d);
      }
  }

  /** Nothing below j changed since the pass began, and nothing below j was an estimate. */
  ghost predicate Stable(c: Config, w0: World, w: World, j: nat)
    requires Sized(c, w0) && Sized(c, w) && j <= |c.txs|
  {
    w.entries[..j] == w0.entries[..j] && CleanBelow(w0.entries, j)
  }

  /** All recorded reads of j outside `keys` pass for what the memory held when the pass began. */
  ghost predicate ReadsMatch(c: Config, w0: World, t: Task, j: nat, keys: set<Key>)
    requires Sized(c, w0) && j < |c.txs|
  {
    && t.readset.Some?
    && forall k :: k in t.readset.value && k !in keys ==>
                   PassesFor(Read(c.parent, w0.entries, j, k), t.readset.value[k])
  }

  predicate PassesFor(r: ReadResult, v: Option<Bytes>) {
    r.Got? && BytesEqual(r.value, v)
  }

  /** What is known of task j during a validation pass that began in w0. */
  ghost predicate Validating(c: Config, w0: World, w: World, j: nat)
    requires Sized(c, w0) && Sized(c, w) && j < |c.txs|
  {
    var t := w.tasks[j];
    var same := w.entries[j] == w0.entries[j];
    match t.thread
    case Unchecked => same && t == w0.tasks[j]
    case Checking(keys, valid, conflicts) =>
      same && (valid && Stable(c, w0, w, j) ==> conflicts == {} && ReadsMatch(c, w0, t, j, keys))
    case Invalidating(_, _) => true
    case Awaiting(_) => true
    case Idle =>
      && !t.status.Aborted?
      && (t.status.Executed? ==> same && !Stable(c, w0, w, j))
      && (t.status.Validated? ==> same && (Stable(c, w0, w, j) ==> ReadsMatch(c, w0, t, j, {})))
    case _ => false
  }

  /** A validation step changes the memory only by leaving an estimate. */
  lemma ChangeLeavesEstimate(c: Config, w: World, i: nat, w1: World)
    requires Validates(c, w, i, w1)
    ensures |w1.entries| == |c.txs| && (w1.entries == w.entries || !Clean(w1.entries[i]))
  {
    if w.tasks[i].thread.Invalidating? && w.tasks[i].thread.stale != {} {
      var k :| k in w.tasks[i].thread.stale && w1 == InvalidateKey(c, w, i, k);
      assert w1.entries[i][k].Estimate?;
    }
  }

  /** Once something below j changed it stays changed: an estimate is never what was there. */
  lemma StillStable(c: Config, w0: World, w: World, i: nat, w1: World, j: nat)
    requires Sized(c, w0) && Validates(c, w, i, w1) && Sized(c, w1) && j <= |c.txs|
    requires OnlyAt(c, w, w1, i)
    requires Stable(c, w0, w1, j)
    ensures Stable(c, w0, w, j)
  {
    ChangeLeavesEstimate(c, w, i, w1);
    forall m | 0 <= m < j ensures w.entries[m] == w0.entries[m] {
      assert w1.entries[m] == w1.entries[..j][m] == w0.entries[..j][m];
      assert Clean(w0.entries[m]);
    }
  }

  lemma CheckMatches(c: Config, w0: World, w: World, j: nat, k: Key, v: Option<Bytes>)
    requires Sized(c, w0) && Sized(c, w) && j < |c.txs| && Stable(c, w0, w, j)
    ensures var check := CheckRead(c.parent, w.entries, j, k, v);
            check.valid ==> check.conflict.None? && PassesFor(Read(c.parent, w0.entries, j, k), v)
  {
    ReadPrefix(c, w.entries, w0.entries, j, k);
    var m := Latest(w.entries, j, k);
    if m.Some? {
      assert w.entries[m.value] == w.entries[..j][m.value] == w0.entries[..j][m.value] == w0.entries[m.value];
    }
  }

  /** A step of the validator of i keeps what is known of i. */
  lemma ValidatesSelf(c: Config, w0: World, w: World, i: nat, w1: World)
    requires Sized(c, w0) && WorldOk(c, w) && Validates(c, w, i, w1)
    requires Validating(c, w0, w, i)
    ensures Sized(c, w1) && Validating(c, w0, w1, i)
  {
    ValidatesOk(c, w, i, w1);
    assert TaskOk(c, w, i);
    assert w1.entries[..i] == w.entries[..i];
    match w.tasks[i].thread
    case Checking(keys, valid, conflicts) =>
      if keys != {} {
        var k :| k in keys && w1 == CheckKey(c, w, i, k);
        if Stable(c, w0, w, i) {
          CheckMatches(c, w0, w, i, k, w.tasks[i].readset.value[k]);
        }
      }
    case _ =>
  }

  /** A step of the validator of i keeps what is known of every other task. */
  lemma ValidatesOther(c: Config, w0: World, w: World, i: nat, w1: World, j: nat)
    requires Sized(c, w0) && WorldOk(c, w) && Validates(c, w, i, w1) && j < |c.txs| && j != i
    requires Validating(c, w0, w, j)
    ensures Sized(c, w1) && Validating(c, w0, w1, j)
  {
    ValidatesOk(c, w, i, w1);
    if Stable(c, w0, w1, j) {
      StillStable(c, w0, w, i, w1, j);
    }
  }

  /** Where the pass began at s and every task is idle again, everything validated from s on is settled,
      and the first task that is not validated is pending or waiting. */
  lemma ValidationSettles(c: Config, w0: World, w: World, s: nat, p: nat)
    requires Sized(c, w0) && WorldOk(c, w) && s <= p <= |c.txs| && Settled(c, w, s)
    requires forall j :: 0 <= j < s ==> w.entries[j] == w0.entries[j]
    requires forall j :: s <= j < |c.txs| ==> w.tasks[j].thread.Idle? && Validating(c, w0, w, j)
    requires forall j :: s <= j < p ==> w.tasks[j].status.Validated?
    ensures Settled(c, w, p)
    ensures p < |c.txs| ==> w.tasks[p].status != Executed && w.tasks[p].status != Aborted
  {
    SettledClean(c, w, s);
    forall j | 0 <= j < p ensures Clean(w.entries[j]) && w.entries[j] == w0.entries[j] {
      assert TaskOk(c, w, j);
    }
    forall j | s <= j < p ensures SettledAt(c, w, j) {
      assert Validating(c, w0, w, j) && Stable(c, w0, w, j);
      ValidatedSettles(c, w0, w, j);
    }
    if p < |c.txs| {
      assert Validating(c, w0, w, p);
      assert Stable(c, w0, w, p);
    }
  }

  /** A validated task over a prefix without estimates that did not change is settled. */
  lemma ValidatedSettles(c: Config, w0: World, w: World, j: nat)
    requires Sized(c, w0) && WorldOk(c, w) && j < |c.txs| && Stable(c, w0, w, j)
    requires w.tasks[j].thread.Idle? && w.tasks[j].status.Validated? && ReadsMatch(c, w0, w.tasks[j], j, {})
    ensures SettledAt(c, w, j)
  {
    assert TaskOk(c, w, j);
    forall i | 0 <= i < j ensures Clean(w.entries[i]) {
      assert w.entries[i] == w.entries[..j][i] == w0.entries[..j][i] == w0.entries[i];
    }
    forall k | k in w.tasks[j].readset.value
      ensures BytesEqual(Lookup(StoreBelow(c, w, j), k), w.tasks[j].readset.value[k])
    {
      ReadPrefix(c, w.entries, w0.entries, j, k);
      CleanRead(c.parent, w.entries, j, k);
    }
  }

  // ----- tasks that must succeed -----

  /** In a pass that began in w0, task j passes its validation. */
  ghost predicate Passing(c: Config, w0: World, w: World, j: nat)
    requires Sized(c, w0) && Sized(c, w) && j < |c.txs|
  {
    var t := w.tasks[j];
    && w.entries[j] == w0.entries[j] && t.readset == w0.tasks[j].readset && t.response == w0.tasks[j].response
    && match t.thread
       case Unchecked => t.status.Executed?
       case Checking(_, valid, conflicts) => valid && conflicts == {}
       case Idle => t.status.Validated?
       case _ => false
  }

  /** A task whose recorded reads are what a settled prefix leaves passes. */
  lemma ValidatesPassing(c: Config, w0: World, w: World, i: nat, w1: World)
    requires Sized(c, w0) && WorldOk(c, w) && Validates(c, w, i, w1) && Settled(c, w, i)
    requires w0.tasks[i].readset.Some? && Agrees(StoreBelow(c, w, i), w0.tasks[i].readset.value)
    requires Passing(c, w0, w, i)
    ensures Sized(c, w1) && Passing(c, w0, w1, i)
  {
    ValidatesOk(c, w, i, w1);
    assert TaskOk(c, w, i);
    match w.tasks[i].thread
    case Checking(keys, _, _) =>
      if keys != {} {
        var k :| k in keys && w1 == CheckKey(c, w, i, k);
        SettledCheck(c, w, i, k, w.tasks[i].readset.value[k]);
      }
    case _ =>
  }

  /** Over a settled prefix the value that it leaves checks. */
  lemma SettledCheck(c: Config, w: World, i: nat, k: Key, v: Option<Bytes>)
    requires Sized(c, w) && i <= |c.txs| && Settled(c, w, i) && v == Lookup(StoreBelow(c, w, i), k)
    ensures CheckRead(c.parent, w.entries, i, k, v) == Verdict(true, None)
  {
    SettledRead(c, w, i, k);
  }

  /** A task that waits on validated tasks only becomes ready. */
  ghost predicate Resuming(c: Config, w: World, j: nat)
    requires Sized(c, w) && j < |c.txs|
  {
    match w.tasks[j].thread
    case Unchecked => w.tasks[j].status.Waiting?
    case Awaiting(_) => true
    case Idle => w.tasks[j].status.Pending?
    case _ => false
  }

  lemma ValidatesResuming(c: Config, w: World, i: nat, w1: World)
    requires WorldOk(c, w) && Validates(c, w, i, w1) && Resuming(c, w, i)
    requires forall d :: 0 <= d < i ==> w.tasks[d].status.Validated?
    ensures Sized(c, w1) && Resuming(c, w1, i)
  {
    ValidatesOk(c, w, i, w1);
    assert TaskOk(c, w, i);
  }

  // ----- what a settled prefix amounts to -----

  /** The stores differ at most in that one holds the empty value where the other holds nothing. */
  ghost predicate Alike(a: KvStore, b: KvStore) {
    forall k :: BytesEqual(Lookup(a, k), Lookup(b, k))
  }

  /** The transaction, alone on a store alike, gives the response; its writes go to the store itself. */
  ghost predicate Explains(tx: Tx, store: KvStore, next: KvStore, r: Response) {
    exists seen: KvStore, e: Entries ::
      && Alike(store, seen) && Clean(e)
      && Deliver(tx, [], seen) == Outcome(Overlay(seen, e), r) && next == Overlay(store, e)
  }

  /** The transactions one by one, each on what the one before it left, up to the confusion of nothing and empty. */
  ghost predicate OneByOne(c: Config, stores: seq<KvStore>, responses: seq<Response>) {
    && |responses| == |c.txs| && |stores| == |c.txs| + 1 && stores[0] == c.parent
    && forall i :: 0 <= i < |c.txs| ==> Explains(c.txs[i], stores[i], stores[i + 1], responses[i])
  }

  /** The store with the recorded reads laid over it. */
  function Seen(store: KvStore, rs: ReadSet): KvStore {
    Overlay(store, Items(rs))
  }

  lemma SettledExplains(c: Config, w: World, j: nat)
    requires Sized(c, w) && j < |c.txs| && SettledAt(c, w, j)
    ensures Explains(c.txs[j], StoreBelow(c, w, j), StoreBelow(c, w, j + 1), w.tasks[j].response.value)
  {
    var store, rs, e, r := StoreBelow(c, w, j), w.tasks[j].readset.value, w.entries[j], w.tasks[j].response.value;
    var seen := Seen(store, rs);
    assert Agrees(seen, rs);
    assert Alike(store, seen);
    assert Deliver(c.txs[j], [], seen) == Outcome(Overlay(seen, e), r);
  }

  lemma SettledOneByOne(c: Config, w: World, responses: seq<Response>) returns (stores: seq<KvStore>)
    requires Sized(c, w) && Settled(c, w, |c.txs|) && |responses| == |c.txs|
    requires forall i :: 0 <= i < |c.txs| ==> w.tasks[i].response == Some(responses[i])
    ensures OneByOne(c, stores, responses) && stores[|c.txs|] == StoreBelow(c, w, |c.txs|)
  {
    stores := seq(|c.txs| + 1, i requires 0 <= i <= |c.txs| => StoreBelow(c, w, i));
    forall i | 0 <= i < |c.txs| ensures Explains(c.txs[i], stores[i], stores[i + 1], responses[i]) {
      SettledExplains(c, w, i);
    }
  }

  // ----- where nothing and the empty value cannot be confused -----

  function StoreBefore(c: Config, i: nat): KvStore
    requires i <= |c.txs|
  {
    SequentialStore(c.txs, c.parent, i)
  }

  /** What a prefix leaves is something its keys may hold. */
  lemma {:induction false} FlushIsPossible(c: Config, w: World, n: nat, k: Key)
    requires WorldOk(c, w) && n <= |c.txs|
    ensures MayHold(c, k, Lookup(StoreBelow(c, w, n), k))
  {
    if n > 0 {
      FlushIsPossible(c, w, n - 1, k);
      assert TaskOk(c, w, n - 1);
    }
  }

  lemma MatchingAgrees(c: Config, w: World, j: nat)
    requires Unambiguous(c) && WorldOk(c, w) && j < |c.txs| && SettledAt(c, w, j)
    ensures Agrees(StoreBelow(c, w, j), w.tasks[j].readset.value)
  {
    var rs := w.tasks[j].readset.value;
    forall k | k in rs ensures Lookup(StoreBelow(c, w, j), k) == rs[k] {
      FlushIsPossible(c, w, j, k);
      assert MayHold(c, k, rs[k]);
      assert !(MayHold(c, k, None) && MayHold(c, k, Some([])));
    }
  }

  /** The first n tasks hold the responses, and leave the store, of the sequential run. */
  ghost predicate Sequential(c: Config, w: World, n: nat)
    requires Sized(c, w) && n <= |c.txs|
  {
    && StoreBelow(c, w, n) == StoreBefore(c, n)
    && forall j :: 0 <= j < n ==> w.tasks[j].response == Some(SequentialResponse(c.txs, c.parent, j))
  }

  /** There a settled prefix holds exactly what running its transactions one by one gives. */
  lemma {:induction false} SettledSequential(c: Config, w: World, n: nat)
    requires Unambiguous(c) && WorldOk(c, w) && n <= |c.txs| && Settled(c, w, n)
    ensures Sequential(c, w, n)
  {
    if n > 0 {
      SettledSequential(c, w, n - 1);
      SequentialTask(c, w, n - 1);
    }
  }

  lemma SequentialTask(c: Config, w: World, j: nat)
    requires Unambiguous(c) && WorldOk(c, w) && j < |c.txs| && SettledAt(c, w, j) && Sequential(c, w, j)
    ensures Sequential(c, w, j + 1)
  {
    MatchingAgrees(c, w, j);
    SequentialNext(c, w, j);
  }

  lemma SequentialNext(c: Config, w: World, j: nat)
    requires Sized(c, w) && j < |c.txs| && Recorded(c, w, j) && StoreBelow(c, w, j) == StoreBefore(c, j)
    requires Agrees(StoreBefore(c, j), w.tasks[j].readset.value)
    ensures StoreBelow(c, w, j + 1) == StoreBefore(c, j + 1)
    ensures w.tasks[j].response == Some(SequentialResponse(c.txs, c.parent, j))
  {
    assert Deliver(c.txs[j], [], StoreBefore(c, j)) ==
           Outcome(Overlay(StoreBefore(c, j), w.entries[j]), w.tasks[j].response.value);
  }
}
