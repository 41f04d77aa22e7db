/** Snapshots that have their files, and what each operation of the store does to that. */
module SnapshotTidy {
  import opened Basics
  import opened SnapshotKeys
  import opened SnapshotData

  /** The snapshots have files, in a directory of their height, and nothing else has. */
  ghost predicate Tidy(db: Database, files: Files, dirs: set<Uint64>) {
    AllDecode(db) && files.Keys == PlacesOf(db.Keys) && InDirs(files, dirs)
  }

  ghost predicate InDirs(files: Files, dirs: set<Uint64>) {
    forall place :: place in files ==> place.height in dirs
  }

  ghost predicate EmptyDir(files: Files, height: Uint64) {
    forall place :: place in files ==> place.height != height
  }

  /** The directories of all heights are there, and empty. */
  ghost predicate Removable(files: Files, dirs: set<Uint64>, heights: set<Uint64>) {
    forall h :: h in heights ==> h in dirs && EmptyDir(files, h)
  }

  /** The directories that are gone were empty. */
  ghost predicate LeftEmpty(files: Files, dirs: set<Uint64>, left: set<Uint64>) {
    forall h :: h in dirs && h !in left ==> EmptyDir(files, h)
  }

  ghost predicate DecodeAll(keys: set<Bytes>) {
    forall key :: key in keys ==> DecodeKey(key).Ok?
  }

  lemma PlaceOfKey(height: Uint64, format: Uint32)
    ensures DecodeKey(EncodeKey(height, format)).Ok? && PlaceOf(EncodeKey(height, format)) == Place(height, format)
  {
    DecodeEncode(height, format);
  }

  // ----- deleting and pruning -----

  lemma OtherPlace(keys: set<Bytes>, key: Bytes)
    requires DecodeAll(keys) && DecodeKey(key).Ok? && key !in keys
    ensures PlaceOf(key) !in PlacesOf(keys)
  {
    forall other | other in keys ensures PlaceOf(other) != PlaceOf(key) {
      EncodeDecode(key);
      EncodeDecode(other);
    }
  }

  lemma PlacesWithout(all: set<Bytes>, keys: set<Bytes>)
    requires DecodeAll(all) && DecodeAll(keys)
    ensures PlacesOf(all - keys) == PlacesOf(all) - PlacesOf(keys)
  {
    forall key | key in all - keys ensures PlaceOf(key) !in PlacesOf(keys) {
      OtherPlace(keys, key);
    }
  }

  /** Snapshots deleted with their files leave a tidy store. */
  lemma TidyWithout(db: Database, files: Files, dirs: set<Uint64>, keys: set<Bytes>)
    requires DecodeAll(keys)
    ensures Tidy(db, files, dirs) ==> Tidy(db - keys, files - PlacesOf(keys), dirs)
  {
    if Tidy(db, files, dirs) {
      PlacesWithout(db.Keys, keys);
      assert (db - keys).Keys == db.Keys - keys;
    }
  }

  lemma DeleteStaysTidy(db: Database, files: Files, dirs: set<Uint64>, key: Bytes, place: Place)
    requires DecodeKey(key).Ok? && PlaceOf(key) == place
    ensures Tidy(db, files, dirs) ==> Tidy(db - {key}, files - {place}, dirs)
  {
    assert PlacesOf({key}) == {place};
    TidyWithout(db, files, dirs, {key});
  }

  /** Removing empty directories leaves a tidy store. */
  lemma TidyDirs(db: Database, files: Files, dirs: set<Uint64>, left: set<Uint64>)
    requires LeftEmpty(files, dirs, left)
    ensures Tidy(db, files, dirs) ==> Tidy(db, files, left)
  {
  }

  /**
   Pruning everything deletes the other formats at the greatest height, and leaves the snapshot with the greatest
   key, whose files are in the same directory.
   */
  ghost predicate Stuck(db: Database, retain: nat) {
    retain == 0 && (exists key :: key in db && IsLast(key)) && MAX_HEIGHT in ListedHeights(db)
  }

  lemma NoneAboveGreatest(db: Database, retain: nat)
    ensures Retained(db, retain, MAX_HEIGHT) <==> retain > 0
  {
    assert HeightsAbove(db, MAX_HEIGHT) == {};
  }

  /** A file that stays at a height that is pruned is that of the greatest key. */
  lemma FileStays(db: Database, files: Files, dirs: set<Uint64>, retain: nat, key: Bytes, place: Place)
    requires Tidy(db, files, dirs) && key in Dropped(db, retain, Listed(db))
    requires place in files && place !in PlacesOf(Dropped(db, retain, Listed(db))) && place.height == HeightOf(key)
    ensures Stuck(db, retain)
  {
    var other :| other in db.Keys && PlaceOf(other) == place;
    assert other !in Dropped(db, retain, Listed(db));
    assert IsLast(other);
    assert key in Listed(db) && HeightOf(key) in ListedHeights(db);
    NoneAboveGreatest(db, retain);
  }

  lemma StuckFile(db: Database, files: Files, dirs: set<Uint64>, retain: nat) returns (place: Place)
    requires Tidy(db, files, dirs) && Stuck(db, retain)
    ensures MAX_HEIGHT in HeightsIn(Dropped(db, retain, Listed(db)))
    ensures place in files && place !in PlacesOf(Dropped(db, retain, Listed(db))) && place.height == MAX_HEIGHT
  {
    var dropped := Dropped(db, retain, Listed(db));
    var last :| last in db && IsLast(last);
    var key :| key in Listed(db) && HeightOf(key) == MAX_HEIGHT;
    NoneAboveGreatest(db, retain);
    assert key in dropped;
    OtherPlace(dropped, last);
    place := PlaceOf(last);
  }

  /** In a tidy store the directories of the pruned heights can be removed, unless the greatest key is in the way. */
  lemma PrunedDirs(db: Database, files: Files, dirs: set<Uint64>, retain: nat)
    ensures Tidy(db, files, dirs) ==>
            var dropped := Dropped(db, retain, Listed(db));
            (Removable(files - PlacesOf(dropped), dirs, HeightsIn(dropped)) <==> !Stuck(db, retain))
  {
    if Tidy(db, files, dirs) {
      var dropped := Dropped(db, retain, Listed(db));
      if Stuck(db, retain) {
        var place := StuckFile(db, files, dirs, retain);
        assert place in files - PlacesOf(dropped);
        assert !EmptyDir(files - PlacesOf(dropped), MAX_HEIGHT);
      } else {
        forall h | h in HeightsIn(dropped) ensures h in dirs && EmptyDir(files - PlacesOf(dropped), h) {
          var key :| key in dropped && HeightOf(key) == h;
          assert PlaceOf(key) in files;
          if !EmptyDir(files - PlacesOf(dropped), h) {
            var place :| place in files - PlacesOf(dropped) && place.height == h;
            FileStays(db, files, dirs, retain, key, place);
          }
        }
      }
    }
  }

  // ----- saving -----

  lemma PlacesWith(all: set<Bytes>, key: Bytes)
    ensures PlacesOf(all + {key}) == PlacesOf(all) + {PlaceOf(key)}
  {
  }

  /** A saved snapshot has files exactly if it has chunks. */
  lemma TidySave(db: Database, files: Files, dirs: set<Uint64>, key: Bytes, chunks: seq<Bytes>, snapshot: Snapshot)
    requires key !in db && DecodeKey(key) == Ok(Decoded(snapshot.height, snapshot.format))
    requires Tidy(db, files, dirs)
    ensures chunks == [] ==> !Tidy(db[key := snapshot], files, dirs)
    ensures chunks != [] ==> Tidy(db[key := snapshot], Filed(files, PlaceOf(key), chunks), dirs + {HeightOf(key)})
  {
    OtherPlace(db.Keys, key);
    PlacesWith(db.Keys, key);
    assert db[key := snapshot].Keys == db.Keys + {key};
  }

  /** No snapshot of the height, in any format. */
  ghost predicate NoSnapshotAt(db: Database, height: Uint64) {
    forall key :: key in db ==> HeightOf(key) != height
  }

  /** A broken save takes the files of every format at the height with it. */
  lemma TidyBrokenSave(db: Database, files: Files, dirs: set<Uint64>, height: Uint64)
    requires Tidy(db, files, dirs)
    ensures Tidy(db, WithoutHeight(files, height), dirs - {height}) <==> NoSnapshotAt(db, height)
  {
    if NoSnapshotAt(db, height) {
      assert WithoutHeight(files, height).Keys == files.Keys;
    } else {
      var key :| key in db && HeightOf(key) == height;
      assert PlaceOf(key) in PlacesOf(db.Keys) && PlaceOf(key) !in WithoutHeight(files, height).Keys;
    }
  }

  /** A save keeps a tidy store tidy exactly when it writes a chunk, or fails at a height without snapshots. */
  lemma TidyAfterSave(sha256: Bytes -> Bytes, db: Database, files: Files, dirs: set<Uint64>, height: Uint64,
                      format: Uint32, chunks: seq<Option<Bytes>>)
    requires Tidy(db, files, dirs) && EncodeKey(height, format) !in db
    ensures AllRead(chunks) ==>
            (Tidy(db[EncodeKey(height, format) := SnapshotOf(sha256, height, format, Values(chunks))],
                  Filed(files, Place(height, format), Values(chunks)), dirs + if chunks == [] then {} else {height})
             <==> chunks != [])
    ensures Tidy(db, WithoutHeight(files, height), dirs - {height}) <==> NoSnapshotAt(db, height)
  {
    DecodeEncode(height, format);
    TidyBrokenSave(db, files, dirs, height);
    TidySave(db, files, dirs, EncodeKey(height, format), Values(chunks),
             SnapshotOf(sha256, height, format, Values(chunks)));
  }
}
