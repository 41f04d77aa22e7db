/**
 The multi-version store object: values kept per key, with a list of written keys per transaction
 index so that a write set can be replaced.  Its operations are proved against the entries per index
 that the scheduler's steps work on.
 */
module MultiVersionStore {
  import opened Basics
  import opened Transactions
  import opened MultiVersion

  type Item = MultiVersion.Item
  type VersionMap = map<Key, map<nat, Item>>

  /** The entries of transaction i. */
  function At(m: VersionMap, i: nat): Entries {
    map k | k in m && i in m[k] :: m[k][i]
  }

  function Put(m: VersionMap, k: Key, i: nat, item: Item): (r: VersionMap)
    ensures At(r, i) == At(m, i)[k := item]
    ensures forall j :: j != i ==> At(r, j) == At(m, j)
  {
    var r := m[k := (if k in m then m[k] else map[])[i := item]];
    assert forall j :: j != i ==> At(r, j) == At(m, j);
    r
  }

  function Drop(m: VersionMap, k: Key, i: nat): (r: VersionMap)
    ensures At(r, i) == At(m, i) - {k}
    ensures forall j :: j != i ==> At(r, j) == At(m, j)
  {
    var r := if k in m then m[k := m[k] - {i}] else m;
    assert forall j :: j != i ==> At(r, j) == At(m, j);
    r
  }

  /** Only the entries of index i differ. */
  ghost predicate OnlyAt(m0: VersionMap, m: VersionMap, i: nat) {
    forall j :: j != i ==> At(m, j) == At(m0, j)
  }

  /** The keys listed for an index are the keys it has entries for. */
  ghost predicate Lists(listed: map<nat, set<Key>>, m: VersionMap) {
    forall i :: At(m, i).Keys == if i in listed then listed[i] else {}
  }

  lemma ListsNew(listed: map<nat, set<Key>>, m0: VersionMap, m: VersionMap, i: nat, keys: set<Key>)
    requires Lists(listed, m0) && OnlyAt(m0, m, i) && At(m, i).Keys == keys
    ensures Lists(listed[i := keys], m)
  {
  }

  /** Old keys of index i are dropped, up to those still to do, unless they are among the new keys. */
  ghost predicate Removing(m0: VersionMap, m: VersionMap, i: nat, newKeys: set<Key>, todo: set<Key>) {
    OnlyAt(m0, m, i) && At(m, i).Keys == todo + At(m0, i).Keys * newKeys && todo <= At(m0, i).Keys
  }

  lemma RemoveOne(m0: VersionMap, m: VersionMap, i: nat, newKeys: set<Key>, todo: set<Key>, k: Key)
    requires Removing(m0, m, i, newKeys, todo) && k in todo
    ensures Removing(m0, if k in newKeys then m else Drop(m, k, i), i, newKeys, todo - {k})
  {
  }

  /** The items are put at index i, up to those still to do, over what was left there of their keys. */
  ghost predicate Putting(m0: VersionMap, m: VersionMap, i: nat, items: Entries, todo: set<Key>) {
    && OnlyAt(m0, m, i) && todo <= items.Keys && At(m, i).Keys <= items.Keys
    && forall k :: k in items && k !in todo ==> k in At(m, i) && At(m, i)[k] == items[k]
  }

  lemma PutOne(m0: VersionMap, m: VersionMap, i: nat, items: Entries, todo: set<Key>, k: Key)
    requires Putting(m0, m, i, items, todo) && k in todo
    ensures Putting(m0, Put(m, k, i, items[k]), i, items, todo - {k})
  {
    var m1 := Put(m, k, i, items[k]);
    assert At(m1, i) == At(m, i)[k := items[k]];
  }

  lemma PutEnds(m0: VersionMap, m: VersionMap, i: nat, items: Entries)
    requires Putting(m0, m, i, items, {})
    ensures At(m, i) == items
  {
  }

  function EstimatesFor(keys: set<Key>): Entries {
    map k | k in keys :: Estimate
  }

  /** The first n indices as the sequence of entries the scheduler reads from. */
  function Versions(m: VersionMap, n: nat): (vs: seq<Entries>)
    ensures |vs| == n && forall i :: 0 <= i < n ==> vs[i] == At(m, i)
  {
    seq(n, i requires 0 <= i < n => At(m, i))
  }

  /** The greatest index below i among the versions of one key. */
  function LatestIn(versions: map<nat, Item>, i: nat): (r: Option<nat>)
    ensures r.Some? ==> r.value < i && r.value in versions
  {
    if i == 0 then None else if i - 1 in versions then Some(i - 1) else LatestIn(versions, i - 1)
  }

  lemma {:induction false} LatestInVersions(m: VersionMap, n: nat, i: nat, k: Key)
    requires i <= n
    ensures Latest(Versions(m, n), i, k) == if k in m then LatestIn(m[k], i) else None
  {
    if i > 0 {
      LatestInVersions(m, n, i - 1, k);
    }
  }

  /** The key was read with one value, and that read still stands. */
  predicate ReadStands(parent: KvStore, m: VersionMap, index: nat, k: Key, values: seq<Option<Bytes>>) {
    |values| == 1 && Stands(parent, Versions(m, index), index, k, values[0])
  }

  /** The key was read with one value, and j is in its way. */
  predicate ReadConflicts(m: VersionMap, index: nat, k: Key, values: seq<Option<Bytes>>, j: nat) {
    |values| == 1 && ConflictsWith(Versions(m, index), index, k, values[0], j)
  }

  class Store {
    var multiVersionMap: VersionMap
    var txWritesetKeys: map<nat, set<Key>>
    var txReadSets: map<nat, map<Key, seq<Option<Bytes>>>>
    var parentStore: KvStore

    ghost predicate Valid()
      reads this
    {
      Lists(txWritesetKeys, multiVersionMap)
    }

    constructor (parent: KvStore)
      ensures Valid() && parentStore == parent && (forall i :: At(multiVersionMap, i) == map[])
    {
      multiVersionMap, txWritesetKeys, txReadSets, parentStore := map[], map[], map[], parent;
    }

    /** The latest entry below an index, with the index that wrote it. */
    method GetLatestBeforeIndex(index: nat, key: Key) returns (r: Option<(nat, Item)>)
      ensures var j := Latest(Versions(multiVersionMap, index), index, key);
              r == if j.None? then None else Some((j.value, At(multiVersionMap, j.value)[key]))
    {
      LatestInVersions(multiVersionMap, index, index, key);
      if key !in multiVersionMap {
        return None;
      }
      var j := LatestIn(multiVersionMap[key], index);
      r := if j.None? then None else Some((j.value, multiVersionMap[key][j.value]));
    }

    /** The old entries of an index go, except those the new write set is about to overwrite. */
    method RemoveOldWriteset(index: nat, newKeys: set<Key>)
      requires Valid()
      modifies this`multiVersionMap, this`txWritesetKeys
      ensures txWritesetKeys == old(txWritesetKeys) - {index}
      ensures At(multiVersionMap, index).Keys == old(At(multiVersionMap, index)).Keys * newKeys
      ensures OnlyAt(old(multiVersionMap), multiVersionMap, index)
    {
      if index !in txWritesetKeys {
        return;
      }
      var keys := txWritesetKeys[index];
      txWritesetKeys := txWritesetKeys - {index};
      var todo := keys;
      while todo != {}
        invariant Removing(old(multiVersionMap), multiVersionMap, index, newKeys, todo)
        invariant txWritesetKeys == old(txWritesetKeys) - {index}
      {
        var k :| k in todo;
        RemoveOne(old(multiVersionMap), multiVersionMap, index, newKeys, todo, k);
        todo := todo - {k};
        if k !in newKeys {
          multiVersionMap := Drop(multiVersionMap, k, index);
        }
      }
    }

    /** Replaces whatever the index had by the items of the write set. */
    method SetWriteset(index: nat, writeset: WriteSet)
      requires Valid()
      modifies this`multiVersionMap, this`txWritesetKeys
      ensures Valid() && At(multiVersionMap, index) == Items(writeset)
      ensures OnlyAt(old(multiVersionMap), multiVersionMap, index)
    {
      PutAll(index, Items(writeset));
    }

    /** Replaces whatever the index had by estimates for the keys of the write set. */
    method SetEstimatedWriteset(index: nat, writeset: WriteSet)
      requires Valid()
      modifies this`multiVersionMap, this`txWritesetKeys
      ensures Valid() && At(multiVersionMap, index) == Estimates(writeset)
      ensures OnlyAt(old(multiVersionMap), multiVersionMap, index)
    {
      PutAll(index, Estimates(writeset));
    }

    method PutAll(index: nat, items: Entries)
      requires Valid()
      modifies this`multiVersionMap, this`txWritesetKeys
      ensures Valid() && At(multiVersionMap, index) == items
      ensures OnlyAt(old(multiVersionMap), multiVersionMap, index)
    {
      RemoveOldWriteset(index, items.Keys);
      PutItems(index, items);
      ListsNew(old(txWritesetKeys), old(multiVersionMap), multiVersionMap, index, items.Keys);
      txWritesetKeys := txWritesetKeys[index := items.Keys];
      assert txWritesetKeys == old(txWritesetKeys)[index := items.Keys];
    }

    method PutItems(index: nat, items: Entries)
      requires At(multiVersionMap, index).Keys <= items.Keys
      modifies this`multiVersionMap
      ensures At(multiVersionMap, index) == items && OnlyAt(old(multiVersionMap), multiVersionMap, index)
    {
      var todo := items.Keys;
      while todo != {}
        invariant Putting(old(multiVersionMap), multiVersionMap, index, items, todo)
      {
        var k :| k in todo;
        PutOne(old(multiVersionMap), multiVersionMap, index, items, todo, k);
        todo := todo - {k};
        multiVersionMap := Put(multiVersionMap, k, index, items[k]);
      }
      PutEnds(old(multiVersionMap), multiVersionMap, index, items);
    }

    /** Every entry of the index becomes an estimate; the list of its keys stays. */
    method InvalidateWriteset(index: nat)
      requires Valid()
      modifies this`multiVersionMap
      ensures Valid() && At(multiVersionMap, index) == EstimatesFor(old(At(multiVersionMap, index)).Keys)
      ensures OnlyAt(old(multiVersionMap), multiVersionMap, index)
    {
      if index !in txWritesetKeys {
        assert At(multiVersionMap, index).Keys == {};
        assert At(multiVersionMap, index) == map[];
        return;
      }
      var keys := txWritesetKeys[index];
      PutItems(index, EstimatesFor(keys));
      ListsNew(txWritesetKeys, old(multiVersionMap), multiVersionMap, index, keys);
      assert txWritesetKeys == txWritesetKeys[index := keys];
    }

    /** checkReadsetAtIndex: valid exactly when every key was read with one value and that read stands.  The conflicts
        are the latest writers of keys read once whose entry is an estimate or does not stand. */
    method ValidateTransactionState(index: nat) returns (valid: bool, conflicts: set<nat>)
      ensures var rs := if index in txReadSets then txReadSets[index] else map[];
              && (valid <==> forall k :: k in rs ==> ReadStands(parentStore, multiVersionMap, index, k, rs[k]))
              && (forall j: nat :: j in conflicts <==>
                                   exists k :: k in rs && ReadConflicts(multiVersionMap, index, k, rs[k], j))
    {
      valid, conflicts := true, {};
      if index !in txReadSets {
        return;
      }
      var rs := txReadSets[index];
      var todo := rs.Keys;
      while todo != {}
        invariant todo <= rs.Keys
        invariant valid <==> forall k :: k in rs && k !in todo ==>
                                         ReadStands(parentStore, multiVersionMap, index, k, rs[k])
        invariant forall j: nat ::
                    j in conflicts <==>
                    exists k :: k in rs && k !in todo && ReadConflicts(multiVersionMap, index, k, rs[k], j)
      {
        var k :| k in todo;
        todo := todo - {k};
        if |rs[k]| != 1 {
          valid := false;
        } else {
          var check := CheckOne(index, k, rs[k][0]);
          valid := valid && check.valid;
          if check.conflict.Some? {
            conflicts := conflicts + {check.conflict.value};
          }
        }
      }
    }

    /** One recorded read against the store. */
    method CheckOne(index: nat, key: Key, value: Option<Bytes>) returns (check: Verdict)
      ensures check == CheckRead(parentStore, Versions(multiVersionMap, index), index, key, value)
      ensures check.valid <==> Stands(parentStore, Versions(multiVersionMap, index), index, key, value)
      ensures forall j: nat :: check.conflict == Some(j) <==>
                          ConflictsWith(Versions(multiVersionMap, index), index, key, value, j)
    {
      CheckReadAll(parentStore, Versions(multiVersionMap, index), index, key, value);
      var latest := GetLatestBeforeIndex(index, key);
      match latest
      case None => check := Verdict(BytesEqual(Lookup(parentStore, key), value), None);
      case Some((j, item)) =>
        match item
        case Estimate => check := Verdict(true, Some(j));
        case Deleted => check := if value.Some? then Verdict(false, Some(j)) else Verdict(true, None);
        case Value(b) => check := if BytesEqual(Some(b), value) then Verdict(true, None) else Verdict(false, Some(j));
    }

    /** Writes the latest item that is no estimate, for every key, to the parent store. */
    method WriteLatestToStore(n: nat)
      requires forall k, i :: k in multiVersionMap && i in multiVersionMap[k] ==> i < n
      modifies this`parentStore
      ensures parentStore == Flush(old(parentStore), Versions(multiVersionMap, n), n)
    {
      ghost var before := parentStore;
      var todo := multiVersionMap.Keys;
      forall k | k !in multiVersionMap { FlushAt(before, multiVersionMap, n, n, k); }
      while todo != {}
        invariant todo <= multiVersionMap.Keys
        invariant forall k :: k in todo ==> Lookup(parentStore, k) == Lookup(before, k)
        invariant forall k :: k !in todo ==>
                              Lookup(parentStore, k) == Lookup(Flush(before, Versions(multiVersionMap, n), n), k)
      {
        var k :| k in todo;
        todo := todo - {k};
        FlushAt(before, multiVersionMap, n, n, k);
        var j := LatestNonEstimate(multiVersionMap[k], n);
        if j.Some? {
          match multiVersionMap[k][j.value]
          case Deleted => parentStore := Write(parentStore, k, None);
          case Value(b) => parentStore := Write(parentStore, k, Some(b));
        }
      }
      SameStore(parentStore, Flush(before, Versions(multiVersionMap, n), n));
    }
  }

  /** The greatest index below i whose version of one key is no estimate. */
  function LatestNonEstimate(versions: map<nat, Item>, i: nat): (r: Option<nat>)
    ensures r.Some? ==> r.value < i && r.value in versions && !versions[r.value].Estimate?
  {
    if i == 0 then None
    else if i - 1 in versions && !versions[i - 1].Estimate? then Some(i - 1)
    else LatestNonEstimate(versions, i - 1)
  }

  /** What flushing n indices leaves for a key. */
  lemma {:induction false} FlushAt(store: KvStore, m: VersionMap, n: nat, i: nat, k: Key)
    requires i <= n
    ensures var j := if k in m then LatestNonEstimate(m[k], i) else None;
            Lookup(Flush(store, Versions(m, n), i), k) ==
            if j.None? then Lookup(store, k) else if m[k][j.value].Deleted? then None else Some(m[k][j.value].bytes)
  {
    if i > 0 {
      FlushAt(store, m, n, i - 1, k);
    }
  }
}
