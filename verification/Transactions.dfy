/**
 A transaction as the scheduler sees it: deterministic code that issues one store action at a
 time and sees nothing but the values its reads returned.  `Deliver` is the reference semantics:
 the transaction runs alone, directly on the store.
 */
module Transactions {
  import opened Basics

  type Key = Bytes
  type KvStore = map<Key, Bytes>
  type Response = Bytes

  /** What a transaction does next.  A write of None is a deletion. */
  datatype Action =
    | Get(key: Key)
    | Set(key: Key, value: Option<Bytes>)
    | Finish(response: Response)

  /** `code` maps the results of the actions so far to the next action; after `gas` actions the
      transaction stops with `outOfGas`. */
  datatype Tx = Tx(code: seq<Option<Bytes>> -> Action, gas: nat, outOfGas: Response)

  function NextAction(tx: Tx, history: seq<Option<Bytes>>): Action {
    if |history| >= tx.gas then Finish(tx.outOfGas) else tx.code(history)
  }

  function Lookup(store: KvStore, k: Key): Option<Bytes> {
    if k in store then Some(store[k]) else None
  }

  function Write(store: KvStore, k: Key, v: Option<Bytes>): (r: KvStore)
    ensures forall j :: Lookup(r, j) == if j == k then v else Lookup(store, j)
  {
    if v.Some? then store[k := v.value] else store - {k}
  }

  /** Two stores that answer every lookup alike are the same store. */
  lemma SameStore(a: KvStore, b: KvStore)
    requires forall k :: Lookup(a, k) == Lookup(b, k)
    ensures a == b
  {
    forall k ensures k in a <==> k in b {
      assert Lookup(a, k) == Lookup(b, k);
    }
    forall k | k in a ensures a[k] == b[k] {
      assert Lookup(a, k) == Lookup(b, k);
    }
  }

  datatype Outcome = Outcome(store: KvStore, response: Response)

  /** The rest of the run of `tx` after `history`, alone on `store`. */
  function Deliver(tx: Tx, history: seq<Option<Bytes>>, store: KvStore): Outcome
    decreases tx.gas - |history|
  {
    match NextAction(tx, history)
    case Finish(response) => Outcome(store, response)
    case Set(k, v) => Deliver(tx, history + [None], Write(store, k, v))
    case Get(k) => Deliver(tx, history + [Lookup(store, k)], store)
  }

  /** The store after the first n transactions ran one by one, in order. */
  function SequentialStore(txs: seq<Tx>, parent: KvStore, n: nat): KvStore
    requires n <= |txs|
  {
    if n == 0 then parent
    else Deliver(txs[n - 1], [], SequentialStore(txs, parent, n - 1)).store
  }

  /** The response of transaction i when the transactions run one by one, in order. */
  function SequentialResponse(txs: seq<Tx>, parent: KvStore, i: nat): Response
    requires i < |txs|
  {
    Deliver(txs[i], [], SequentialStore(txs, parent, i)).response
  }
}
