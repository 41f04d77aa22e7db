/** The snapshot store: saving, loading, deleting, and pruning by height. */
module SnapshotStore {
  import opened Basics
  import opened ByteOrder
  import opened SnapshotKeys
  import opened SnapshotChunks
  import opened SnapshotData
  import opened SnapshotTidy

  class Store {
    const sha256: Bytes -> Bytes
    var db: Database
    var files: Files
    var dirs: set<Uint64>
    var saving: set<Uint64>

    ghost predicate Valid()
      reads this
    {
      AllDecode(db)
    }

    ghost predicate IsTidy()
      reads this
    {
      Tidy(db, files, dirs)
    }

    constructor (sha256: Bytes -> Bytes)
      ensures Valid() && db == map[] && files == map[] && dirs == {} && saving == {} && this.sha256 == sha256
      ensures IsTidy()
    {
      this.sha256 := sha256;
      db, files, dirs, saving := map[], map[], {}, {};
    }

    /** GetLatest: the newest snapshot below the greatest key. */
    method GetLatest() returns (r: Option<Snapshot>)
      requires Valid()
      ensures r.None? <==> Listed(db) == {}
      ensures r.Some? ==> exists key :: key in Listed(db) && db[key] == r.value
      ensures r.Some? ==> forall key :: key in Listed(db) ==>
                                        !Older(r.value.height, r.value.format, db[key].height, db[key].format)
    {
      var iter := Iterator(db);
      if iter == [] {
        return None;
      }
      assert iter[0] in Listed(db);
      r := Some(db[iter[0]]);
      forall key | key in Listed(db)
        ensures !Older(r.value.height, r.value.format, db[key].height, db[key].format)
      {
        var i :| 0 <= i < |iter| && iter[i] == key;
        OrderOf(iter[0], key);
        LessTotal(iter[0], key);
        LessIrreflexive(key);
      }
      assert iter[0] in Listed(db);
    }

    /** List: all of them, newest first. */
    method List() returns (r: seq<Snapshot>)
      requires Valid()
      ensures forall i, j :: 0 <= i < j < |r| ==> Older(r[j].height, r[j].format, r[i].height, r[i].format)
      ensures forall snapshot :: snapshot in r <==> exists key :: key in Listed(db) && db[key] == snapshot
    {
      var iter := Iterator(db);
      r := [];
      for n := 0 to |iter|
        invariant |r| == n && forall i :: 0 <= i < n ==> iter[i] in db && r[i] == db[iter[i]]
      {
        NextKey(db, iter, n);
        r := r + [db[iter[n]]];
      }
      ListIsComplete(db, iter, r);
    }

    /** Delete refuses heights that are being saved.  It leaves the directory of the height. */
    method Delete(height: Uint64, format: Uint32) returns (ok: bool)
      modifies `db, `files
      ensures ok == (height !in saving) && (old(Valid()) ==> Valid())
      ensures db == if ok then old(db) - {EncodeKey(height, format)} else old(db)
      ensures files == if ok then old(files) - {Place(height, format)} else old(files)
      ensures old(IsTidy()) ==> IsTidy()
    {
      if height in saving {
        return false;
      }
      PlaceOfKey(height, format);
      DeleteStaysTidy(db, files, dirs, EncodeKey(height, format), Place(height, format));
      db := db - {EncodeKey(height, format)};
      files := files - {Place(height, format)};
      return true;
    }

    /**
     Save: the chunks are written to files numbered from 0, and the snapshot records the hash of each and of all
     of them together.  A chunk that cannot be read ends it, and the whole directory of the height is removed, with
     the files of the other formats in it.
     */
    method Save(height: Uint64, format: Uint32, chunks: seq<Option<Bytes>>) returns (r: Result<Snapshot>)
      requires Valid()
      modifies `db, `files, `dirs
      ensures Valid()
      ensures height == 0 || height in saving || EncodeKey(height, format) in old(db) ==>
              r.Err? && db == old(db) && files == old(files) && dirs == old(dirs)
      ensures height != 0 && height !in saving && EncodeKey(height, format) !in old(db) ==>
              if AllRead(chunks) then
                && r == Ok(SnapshotOf(sha256, height, format, Values(chunks)))
                && db == old(db)[EncodeKey(height, format) := r.value]
                && files == Filed(old(files), Place(height, format), Values(chunks))
                && dirs == old(dirs) + if chunks == [] then {} else {height}
              else
                && r.Err? && db == old(db) && dirs == old(dirs) - {height}
                && files == WithoutHeight(old(files), height)
      ensures r.Ok? ==> Describes(sha256, height, format, chunks, r.value)
      ensures old(IsTidy()) ==>
              (IsTidy() <==> height == 0 || height in saving || EncodeKey(height, format) in old(db) ||
                             if AllRead(chunks) then chunks != [] else NoSnapshotAt(old(db), height))
    {
      if height == 0 {
        return Err("snapshot height cannot be 0");
      }
      if height in saving {
        return Err("already being saved");
      }
      if EncodeKey(height, format) in db {
        return Err("snapshot already exists");
      }
      DecodeEncode(height, format);
      if IsTidy() {
        TidyAfterSave(sha256, db, files, dirs, height, format, chunks);
      }
      r := SaveChunks(height, format, chunks);
    }

    /** The rest of Save, once the snapshot is known to be new. */
    method SaveChunks(height: Uint64, format: Uint32, chunks: seq<Option<Bytes>>) returns (r: Result<Snapshot>)
      requires Valid() && height != 0 && EncodeKey(height, format) !in db
      modifies `db, `files, `dirs
      ensures Valid()
      ensures if AllRead(chunks) then
                && r == Ok(SnapshotOf(sha256, height, format, Values(chunks)))
                && db == old(db)[EncodeKey(height, format) := r.value]
                && files == Filed(old(files), Place(height, format), Values(chunks))
                && dirs == old(dirs) + if chunks == [] then {} else {height}
              else
                && r.Err? && db == old(db) && dirs == old(dirs) - {height}
                && files == WithoutHeight(old(files), height)
      ensures r.Ok? ==> Describes(sha256, height, format, chunks, r.value)
    {
      var ok, index, hashes, all := WriteChunks(Place(height, format), chunks);
      if !ok {
        WithoutHeightOf(old(files), Place(height, format), files);
        files := WithoutHeight(files, height);
        dirs := dirs - {height};
        return Err("failed to generate snapshot chunk");
      }
      DecodeEncode(height, format);
      SnapshotDescribes(sha256, height, format, chunks);
      var snapshot := Snapshot(height, format, index, sha256(all), hashes);
      db := db[EncodeKey(height, format) := snapshot];
      return Ok(snapshot);
    }

    /** The loop of Save over the chunks; it stops at one that cannot be read. */
    method WriteChunks(place: Place, chunks: seq<Option<Bytes>>)
      returns (ok: bool, index: Uint32, hashes: seq<Bytes>, all: Bytes)
      modifies `files, `dirs
      ensures ok <==> AllRead(chunks)
      ensures ok ==>
              && index == |chunks| % 0x1_0000_0000
              && hashes == Hashes(sha256, Values(chunks)) && all == Concat(Values(chunks))
              && files == Filed(old(files), place, Values(chunks))
              && dirs == old(dirs) + if chunks == [] then {} else {place.height}
      ensures files - {place} == old(files) - {place} && old(dirs) <= dirs <= old(dirs) + {place.height}
    {
      hashes, all, index := [], [], 0;
      ghost var done: seq<Bytes> := [];
      var n := 0;
      while n < |chunks|
        invariant n <= |chunks| && index == n % 0x1_0000_0000
        invariant |done| == n && forall i :: 0 <= i < n ==> chunks[i] == Some(done[i])
        invariant Written(sha256, old(files), place, done, files, hashes, all)
        invariant dirs == old(dirs) + if n == 0 then {} else {place.height}
      {
        if chunks[n].None? {
          return false, index, hashes, all;
        }
        dirs := dirs + {place.height};
        WrittenMore(sha256, old(files), place, done, files, hashes, all, chunks[n].value);
        files := files[place := WithFile(FilesIn(files, place), index, chunks[n].value)];
        hashes, all, index := hashes + [sha256(chunks[n].value)], all + chunks[n].value, NextIndex(index, n);
        n, done := n + 1, done + [chunks[n].value];
      }
      DoneIsAll(chunks, done);
      return true, index, hashes, all;
    }

    /** Load: the snapshot and the chunks its counter covers; None for a file that is not there. */
    function Load(height: Uint64, format: Uint32): Option<Loaded>
      reads this
    {
      var key, place := EncodeKey(height, format), Place(height, format);
      if key !in db then None
      else Some(Loaded(db[key], ChunksOf(FilesIn(files, place), db[key].chunks)))
    }

    /** Some snapshot that pruning would delete is of a height that is being saved. */
    ghost predicate PruneConflicts(retain: nat)
      reads this
    {
      exists key :: key in Dropped(db, retain, Listed(db)) && HeightOf(key) in saving
    }

    /** The first loop of Prune. */
    method DropOld(retain: Uint32) returns (r: Result<nat>, prunedHeights: set<Uint64>)
      requires Valid()
      modifies `db, `files
      ensures Valid() && (old(IsTidy()) ==> IsTidy())
      ensures r.Ok? <==> !old(PruneConflicts(retain))
      ensures r.Ok? ==>
              var dropped := Dropped(old(db), retain, Listed(old(db)));
              && db == old(db) - dropped && files == old(files) - PlacesOf(dropped)
              && r.value == |dropped| && prunedHeights == HeightsIn(dropped)
      ensures forall key :: key in old(db) && key !in Dropped(old(db), retain, Listed(old(db))) ==>
                            key in db && db[key] == old(db)[key]
    {
      var iter := Iterator(db);
      KeysAreKeys(db, iter);
      ghost var gone := RunMeans(db, files, retain, saving, iter);
      TidyWithout(db, files, dirs, gone);
      r, prunedHeights := DropKeys(iter, retain);
    }

    /** The second loop of Prune: a directory can be removed when it is there and no format is left in it. */
    method RemoveDirs(heights: set<Uint64>) returns (ok: bool)
      modifies `dirs
      ensures ok <==> Removable(files, old(dirs), heights)
      ensures ok ==> dirs == old(dirs) - heights
      ensures old(dirs) - heights <= dirs <= old(dirs) && LeftEmpty(files, old(dirs), dirs)
    {
      var todo := heights;
      while todo != {}
        invariant todo <= heights && dirs == old(dirs) - (heights - todo)
        invariant Removable(files, old(dirs), heights - todo)
        decreases |todo|
      {
        var height :| height in todo;
        if height !in dirs || exists place :: place in files && place.height == height {
          return false;
        }
        dirs := dirs - {height};
        todo := todo - {height};
      }
      return true;
    }

    /**
     Prune: of the snapshots that are listed, exactly those at the `retain` greatest heights stay, in all formats.
     It fails when one to delete is being saved, or when the directory of a pruned height cannot be removed.  In a
     tidy store that is only when the greatest key is in the way.
     */
    method Prune(retain: Uint32) returns (r: Result<nat>)
      requires Valid()
      modifies `db, `files, `dirs
      ensures Valid() && (old(IsTidy()) ==> IsTidy())
      ensures r.Ok? ==> !old(PruneConflicts(retain))
      ensures !old(PruneConflicts(retain)) ==>
              var dropped := Dropped(old(db), retain, Listed(old(db)));
              && db == old(db) - dropped && files == old(files) - PlacesOf(dropped)
              && (r.Ok? <==> Removable(files, old(dirs), HeightsIn(dropped)))
              && (r.Ok? ==> r.value == |dropped| && dirs == old(dirs) - HeightsIn(dropped))
              && (old(IsTidy()) ==> (r.Ok? <==> !Stuck(old(db), retain)))
      ensures forall key :: key in old(db) && key !in Dropped(old(db), retain, Listed(old(db))) ==>
                            key in db && db[key] == old(db)[key]
    {
      PrunedDirs(db, files, dirs, retain);
      var result, heights := DropOld(retain);
      if result.Err? {
        return result;
      }
      var ok := RemoveDirs(heights);
      TidyDirs(db, files, old(dirs), dirs);
      return if ok then result else Err("failed to remove snapshot directory");
    }

    method DropKeys(iter: seq<Bytes>, retain: Uint32) returns (r: Result<nat>, prunedHeights: set<Uint64>)
      requires AreKeys(iter)
      modifies `db, `files
      ensures var end := Run(PruneState(old(db), old(files), {}, 0, {}), retain, saving, iter);
              && db == end.state.db && files == end.state.files && prunedHeights == end.state.heights
              && if end.ok then r == Ok(end.state.pruned) else r.Err?
    {
      var pruned, skip: set<Uint64> := 0, {};
      prunedHeights := {};
      ghost var end := Run(PruneState(db, files, {}, 0, {}), retain, saving, iter);
      var n := 0;
      while n < |iter|
        invariant n <= |iter|
        invariant Run(PruneState(db, files, skip, pruned, prunedHeights), retain, saving, iter[n..]) == end
      {
        var key := iter[n];
        assert iter[n..][0] == key && iter[n..][1..] == iter[n + 1..];
        var decoded := DecodeKey(key).value;
        if decoded.height in skip || |skip| < retain {
          skip := skip + {decoded.height};
        } else {
          var ok := Delete(decoded.height, decoded.format);
          if !ok {
            return Err("currently being saved"), prunedHeights;
          }
          pruned := pruned + 1;
          prunedHeights := prunedHeights + {decoded.height};
        }
        n := n + 1;
      }
      return Ok(pruned), prunedHeights;
    }
  }

  /** A snapshot without chunks has no directory: pruning it fails, after it is deleted. */
  method PruneWithoutChunks(sha256: Bytes -> Bytes, height: Uint64, format: Uint32)
    returns (store: Store, saved: Result<Snapshot>, pruned: Result<nat>)
    requires 0 < height < MAX_HEIGHT
    ensures saved.Ok? && pruned.Err? && store.db == map[]
  {
    store := new Store(sha256);
    saved := store.Save(height, format, []);
    ghost var key := EncodeKey(height, format);
    PlaceOfKey(height, format);
    assert store.db.Keys == {key};
    OnlyOne(store.db, key);
    assert HeightOf(key) in HeightsIn({key}) && HeightOf(key) !in store.dirs;
    pruned := store.Prune(0);
    assert store.db.Keys == {};
  }

  lemma OnlyOne(db: Database, key: Bytes)
    requires db.Keys == {key} && HeightOf(key) < MAX_HEIGHT
    ensures Dropped(db, 0, Listed(db)) == {key}
  {
    assert key in Listed(db);
  }

  /** A save that breaks takes the files of another format at its height with it; the snapshot stays listed. */
  method BrokenSaveTakesOthers(sha256: Bytes -> Bytes, height: Uint64, format: Uint32, other: Uint32, chunk: Bytes)
    returns (before: Option<Loaded>, broken: Result<Snapshot>, after: Option<Loaded>)
    requires height != 0 && format != other
    ensures broken.Err? && before.Some? && after.Some? && after.value.snapshot == before.value.snapshot
    ensures before.value.chunks == [Some(chunk)] && after.value.chunks == [None]
  {
    var store := new Store(sha256);
    var saved := store.Save(height, format, [Some(chunk)]);
    before := store.Load(height, format);
    PlaceOfKey(height, format);
    PlaceOfKey(height, other);
    OneChunk(Place(height, format), chunk);
    broken := store.Save(height, other, [None]);
    after := store.Load(height, format);
  }

  lemma OneChunk(place: Place, chunk: Bytes)
    ensures Values([Some(chunk)]) == [chunk]
    ensures Filed(map[], place, [chunk]) == map[place := map[0 := chunk]]
  {
    assert Values([Some(chunk)]) == Values([]) + [chunk] by { assert [Some(chunk)][..0] == []; }
    var base := FilesIn(map[], place);
    assert Laid(base, [chunk]) == WithFile(base, 0, chunk) by { assert [chunk][..0] == [] && Laid(base, []) == base; }
  }
}
