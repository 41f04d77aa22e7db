/**
 The multi-version memory as a value: for every transaction index the entries it currently has,
 and what a read below an index, a read-set check and the final write-out make of them.
 */
module MultiVersion {
  import opened Basics
  import opened Transactions

  datatype Item = Estimate | Deleted | Value(bytes: Bytes)

  type WriteSet = map<Key, Option<Bytes>>
  type ReadSet = map<Key, Option<Bytes>>
  type Entries = map<Key, Item>

  /** The entries a finished execution publishes: a nil write becomes a tombstone. */
  function Items(ws: WriteSet): Entries {
    map k | k in ws :: if ws[k].None? then Deleted else Value(ws[k].value)
  }

  /** The entries an aborted execution publishes. */
  function Estimates(ws: WriteSet): Entries {
    map k | k in ws :: Estimate
  }

  ghost predicate Clean(e: Entries) {
    forall k :: k in e ==> !e[k].Estimate?
  }

  ghost predicate CleanBelow(vs: seq<Entries>, i: nat)
    requires i <= |vs|
  {
    forall j :: 0 <= j < i ==> Clean(vs[j])
  }

  /** The greatest index below i that has an entry for k. */
  function Latest(vs: seq<Entries>, i: nat, k: Key): (r: Option<nat>)
    requires i <= |vs|
    ensures r.None? ==> forall j :: 0 <= j < i ==> k !in vs[j]
    ensures r.Some? ==> r.value < i && k in vs[r.value]
    ensures r.Some? ==> forall j :: r.value < j < i ==> k !in vs[j]
  {
    if i == 0 then None
    else if k in vs[i - 1] then Some(i - 1)
    else Latest(vs, i - 1, k)
  }

  datatype ReadResult = Blocked(writer: nat) | Got(value: Option<Bytes>)

  /** What transaction i gets when it reads k outside its own write set. */
  function Read(parent: KvStore, vs: seq<Entries>, i: nat, k: Key): ReadResult
    requires i <= |vs|
  {
    match Latest(vs, i, k)
    case None => Got(Lookup(parent, k))
    case Some(j) =>
      match vs[j][k]
      case Estimate => Blocked(j)
      case Deleted => Got(None)
      case Value(b) => Got(Some(b))
  }

  /** bytes.Equal: a nil slice and an empty slice are equal. */
  predicate BytesEqual(a: Option<Bytes>, b: Option<Bytes>) {
    (if a.None? then [] else a.value) == (if b.None? then [] else b.value)
  }

  datatype Verdict = Verdict(valid: bool, conflict: Option<nat>)

  /** The check of one recorded read against the current memory. */
  function CheckRead(parent: KvStore, vs: seq<Entries>, i: nat, k: Key, recorded: Option<Bytes>): Verdict
    requires i <= |vs|
  {
    match Latest(vs, i, k)
    case None => Verdict(BytesEqual(Lookup(parent, k), recorded), None)
    case Some(j) =>
      match vs[j][k]
      case Estimate => Verdict(true, Some(j))
      case Deleted => if recorded.Some? then Verdict(false, Some(j)) else Verdict(true, None)
      case Value(b) => if BytesEqual(Some(b), recorded) then Verdict(true, None) else Verdict(false, Some(j))
  }

  /** A recorded read still stands: below i the latest entry is an estimate, or a tombstone where nothing was recorded,
      or a value equal to the recorded one; without an entry the parent holds an equal value. */
  predicate Stands(parent: KvStore, vs: seq<Entries>, i: nat, k: Key, recorded: Option<Bytes>)
    requires i <= |vs|
  {
    var j := Latest(vs, i, k);
    if j.None? then BytesEqual(Lookup(parent, k), recorded) else ItemStands(vs[j.value][k], recorded)
  }

  predicate ItemStands(item: Item, recorded: Option<Bytes>) {
    || item.Estimate?
    || (item.Deleted? && recorded.None?)
    || (item.Value? && BytesEqual(Some(item.bytes), recorded))
  }

  /** j is the latest writer of k below i, and its entry is an estimate or does not stand. */
  predicate ConflictsWith(vs: seq<Entries>, i: nat, k: Key, recorded: Option<Bytes>, j: nat)
    requires i <= |vs|
  {
    && j < i && k in vs[j] && (forall m :: j < m < i ==> k !in vs[m])
    && (vs[j][k].Estimate? || !ItemStands(vs[j][k], recorded))
  }

  /** What the check answers, from the latest entry alone. */
  lemma CheckReadMeans(parent: KvStore, vs: seq<Entries>, i: nat, k: Key, recorded: Option<Bytes>, j: nat)
    requires i <= |vs|
    ensures CheckRead(parent, vs, i, k, recorded).valid <==> Stands(parent, vs, i, k, recorded)
    ensures CheckRead(parent, vs, i, k, recorded).conflict == Some(j) <==> ConflictsWith(vs, i, k, recorded, j)
  {
  }

  lemma CheckReadAll(parent: KvStore, vs: seq<Entries>, i: nat, k: Key, recorded: Option<Bytes>)
    requires i <= |vs|
    ensures CheckRead(parent, vs, i, k, recorded).valid <==> Stands(parent, vs, i, k, recorded)
    ensures forall j: nat :: CheckRead(parent, vs, i, k, recorded).conflict == Some(j) <==>
                             ConflictsWith(vs, i, k, recorded, j)
  {
    CheckReadMeans(parent, vs, i, k, recorded, 0);
    forall j: nat
      ensures CheckRead(parent, vs, i, k, recorded).conflict == Some(j) <==> ConflictsWith(vs, i, k, recorded, j)
    {
      CheckReadMeans(parent, vs, i, k, recorded, j);
    }
  }

  /** The latest entry below i for k is a tombstone. */
  predicate Tombstoned(vs: seq<Entries>, i: nat, k: Key)
    requires i <= |vs|
  {
    var j := Latest(vs, i, k);
    j.Some? && vs[j.value][k].Deleted?
  }

  /** A read is put off exactly when a fresh read would be blocked, by the same writer.  It is accepted without conflict
      exactly when a fresh read would return the recorded value, or one of the two is nil, the other is empty, and the
      key is not tombstoned. */
  lemma CheckReadExact(parent: KvStore, vs: seq<Entries>, i: nat, k: Key, recorded: Option<Bytes>)
    requires i <= |vs|
    ensures CheckRead(parent, vs, i, k, recorded) == Verdict(true, None) <==>
            (Read(parent, vs, i, k).Got? &&
             var now := Read(parent, vs, i, k).value;
             now == recorded ||
             (!Tombstoned(vs, i, k) && {now, recorded} == {None, Some([])}))
    ensures forall j :: CheckRead(parent, vs, i, k, recorded) == Verdict(true, Some(j)) <==>
                        Read(parent, vs, i, k) == Blocked(j)
  {
    if Read(parent, vs, i, k).Got? {
      var now := Read(parent, vs, i, k).value;
      var pair: set<Option<Bytes>> := {None, Some([])};
      if BytesEqual(now, recorded) && now != recorded {
        assert {now, recorded} == pair;
      }
      if {now, recorded} == pair {
        assert now in pair && recorded in pair;
        assert None in {now, recorded} && Some([]) in {now, recorded};
      }
    }
  }

  /** `store` with the entries written over it; estimates write nothing. */
  function Overlay(store: KvStore, e: Entries): (r: KvStore)
    ensures forall k :: Lookup(r, k) ==
                        if k !in e || e[k].Estimate? then Lookup(store, k)
                        else if e[k].Deleted? then None else Some(e[k].bytes)
  {
    map k | k in store.Keys + e.Keys && (if k in e then e[k].Value? || (e[k].Estimate? && k in store) else true)
      :: if k in e && e[k].Value? then e[k].bytes else store[k]
  }

  /** WriteLatestToStore: the entries of the first n transactions written over `store` in order. */
  function Flush(store: KvStore, vs: seq<Entries>, n: nat): KvStore
    requires n <= |vs|
  {
    if n == 0 then store else Overlay(Flush(store, vs, n - 1), vs[n - 1])
  }

  lemma OverlayWrite(store: KvStore, ws: WriteSet, k: Key, v: Option<Bytes>)
    ensures Overlay(store, Items(ws[k := v])) == Write(Overlay(store, Items(ws)), k, v)
  {
    SameStore(Overlay(store, Items(ws[k := v])), Write(Overlay(store, Items(ws)), k, v));
  }

  lemma OverlayNothing(store: KvStore)
    ensures Overlay(store, map[]) == store
  {
    SameStore(Overlay(store, map[]), store);
  }
}
