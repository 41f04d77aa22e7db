/** What the snapshot store holds, metadata in an ordered database and chunks in directories, and what pruning keeps. */
module SnapshotData {
  import opened Basics
  import opened ByteOrder
  import opened SnapshotKeys
  import opened SnapshotChunks

  datatype Snapshot = Snapshot(height: Uint64, format: Uint32, chunks: Uint32, hash: Bytes, chunkHashes: seq<Bytes>)

  type Database = map<Bytes, Snapshot>

  // ----- the range the store iterates over -----

  /** A reverse iterator over [lo, hi). */
  ghost predicate IsReverse(keys: set<Bytes>, s: seq<Bytes>, lo: Bytes, hi: Bytes) {
    && (forall i, j :: 0 <= i < j < |s| ==> Less(s[j], s[i]))
    && (forall key :: key in s <==> key in keys && !Less(key, lo) && Less(key, hi))
  }

  method Greatest(keys: set<Bytes>) returns (best: Bytes)
    requires keys != {}
    ensures best in keys && forall key :: key in keys && key != best ==> Less(key, best)
  {
    best :| best in keys;
    var todo := keys - {best};
    while todo != {}
      invariant best in keys && todo <= keys
      invariant forall key :: key in keys && key !in todo && key != best ==> Less(key, best)
      decreases |todo|
    {
      var key :| key in todo;
      LessTotal(key, best);
      if Less(best, key) {
        forall k | k in keys && k !in todo && k != best ensures Less(k, key) {
          LessTransitive(k, best, key);
        }
        best := key;
      }
      todo := todo - {key};
    }
  }

  /** The iterator the database gives out. */
  method ReverseIterator(keys: set<Bytes>, lo: Bytes, hi: Bytes) returns (s: seq<Bytes>)
    ensures IsReverse(keys, s, lo, hi)
  {
    var todo := set key | key in keys && !Less(key, lo) && Less(key, hi);
    s := [];
    ghost var all := todo;
    while todo != {}
      invariant todo <= all && forall key :: key in s <==> key in all && key !in todo
      invariant forall i, j :: 0 <= i < j < |s| ==> Less(s[j], s[i])
      invariant forall i, key :: 0 <= i < |s| && key in todo ==> Less(key, s[i])
      decreases |todo|
    {
      var key := Greatest(todo);
      s, todo := s + [key], todo - {key};
    }
  }

  ghost predicate AllDecode(db: Database) {
    forall key :: key in db ==> DecodeKey(key) == Ok(Decoded(db[key].height, db[key].format))
  }

  function HeightOf(key: Bytes): Uint64 {
    match DecodeKey(key)
    case Ok(d) => d.height
    case Err(_) => 0
  }

  function FormatOf(key: Bytes): Uint32 {
    match DecodeKey(key)
    case Ok(d) => d.format
    case Err(_) => 0
  }

  lemma OrderOf(a: Bytes, b: Bytes)
    requires DecodeKey(a).Ok? && DecodeKey(b).Ok?
    ensures Less(a, b) <==> Older(HeightOf(a), FormatOf(a), HeightOf(b), FormatOf(b))
  {
    EncodeDecode(a);
    EncodeDecode(b);
    KeyOrder(HeightOf(a), FormatOf(a), HeightOf(b), FormatOf(b));
  }

  // ----- what pruning keeps -----

  const MAX_HEIGHT: Uint64 := 0xffff_ffff_ffff_ffff
  const MAX_FORMAT: Uint32 := 0xffff_ffff

  /** The one key that the iterators of the store do not reach. */
  predicate IsLast(key: Bytes) {
    HeightOf(key) == MAX_HEIGHT && FormatOf(key) == MAX_FORMAT
  }

  ghost function Listed(db: Database): set<Bytes> {
    set key | key in db && !IsLast(key)
  }

  ghost function ListedHeights(db: Database): set<Uint64> {
    set key | key in Listed(db) :: HeightOf(key)
  }

  ghost function HeightsAbove(db: Database, height: Uint64): set<Uint64> {
    set g | g in ListedHeights(db) && g > height
  }

  /** The height is one of the `retain` greatest heights. */
  ghost predicate Retained(db: Database, retain: nat, height: Uint64) {
    |HeightsAbove(db, height)| < retain
  }

  /** The keys among these that pruning removes. */
  ghost function Dropped(db: Database, retain: nat, keys: set<Bytes>): set<Bytes> {
    set key | key in keys && !Retained(db, retain, HeightOf(key))
  }

  /** The keys run through the listed snapshots, newest first. */
  ghost predicate Iterates(db: Database, keys: seq<Bytes>) {
    && AllDecode(db)
    && (forall i, j :: 0 <= i < j < |keys| ==> Less(keys[j], keys[i]))
    && (forall key :: key in keys <==> key in Listed(db))
  }

  /** The range of the iterators leaves out the greatest key and nothing else. */
  lemma RangeOf(key: Bytes, height: Uint64, format: Uint32)
    requires DecodeKey(key).Ok? && height == MAX_HEIGHT && format == MAX_FORMAT
    ensures Less(key, EncodeKey(height, format)) <==> !IsLast(key)
  {
    EncodeDecode(key);
    KeyOrder(HeightOf(key), FormatOf(key), height, format);
  }

  lemma RangeStart(key: Bytes, height: Uint64, format: Uint32)
    requires DecodeKey(key).Ok? && height == 0 && format == 0
    ensures !Less(key, EncodeKey(height, format))
  {
    EncodeDecode(key);
    KeyOrder(HeightOf(key), FormatOf(key), height, format);
  }

  /** The reverse iterator of the database over the range the store asks for. */
  method Iterator(db: Database) returns (keys: seq<Bytes>)
    requires AllDecode(db)
    ensures Iterates(db, keys)
  {
    keys := ReverseIterator(db.Keys, EncodeKey(0, 0), EncodeKey(MAX_HEIGHT, MAX_FORMAT));
    forall key | key in db
      ensures !Less(key, EncodeKey(0, 0))
      ensures Less(key, EncodeKey(MAX_HEIGHT, MAX_FORMAT)) <==> !IsLast(key)
    {
      RangeStart(key, 0, 0);
      RangeOf(key, MAX_HEIGHT, MAX_FORMAT);
    }
  }

  // ----- the skip set of the loop -----

  ghost function Above(heights: seq<Uint64>, h: Uint64): set<Uint64> {
    set g | g in heights && g > h
  }

  predicate Falling(heights: seq<Uint64>) {
    forall i, j :: 0 <= i < j < |heights| ==> heights[i] >= heights[j]
  }

  lemma Subset<T>(a: set<T>, b: set<T>)
    requires a <= b
    ensures |a| <= |b|
  {
    assert b == a + (b - a);
  }

  /** The retained heights among the first n. */
  ghost function SkipSet(heights: seq<Uint64>, retain: nat, n: nat): set<Uint64>
    requires n <= |heights|
  {
    set h | h in heights[..n] && |Above(heights, h)| < retain
  }

  /** Nothing that comes later is above. */
  lemma AboveIsEarlier(heights: seq<Uint64>, n: nat)
    requires Falling(heights) && n < |heights|
    ensures forall g :: g in Above(heights, heights[n]) <==> g in heights[..n] && g > heights[n]
  {
    forall g | g in Above(heights, heights[n]) ensures g in heights[..n] {
      var j :| 0 <= j < |heights| && heights[j] == g;
      assert j < n;
      assert heights[..n][j] == g;
    }
  }

  lemma SkipsAreAbove(heights: seq<Uint64>, retain: nat, n: nat)
    requires Falling(heights) && n < |heights| && heights[n] !in SkipSet(heights, retain, n)
    ensures SkipSet(heights, retain, n) <= Above(heights, heights[n])
  {
    forall g | g in SkipSet(heights, retain, n) ensures g in Above(heights, heights[n]) {
      var j :| 0 <= j < |heights[..n]| && heights[..n][j] == g;
      assert heights[j] == g;
    }
  }

  /** The test of the loop holds exactly for the retained heights. */
  lemma SkipTest(heights: seq<Uint64>, retain: nat, n: nat)
    requires Falling(heights) && n < |heights|
    ensures var skip, h := SkipSet(heights, retain, n), heights[n];
            h in skip || |skip| < retain <==> |Above(heights, h)| < retain
  {
    var skip, h := SkipSet(heights, retain, n), heights[n];
    var above := Above(heights, h);
    if h !in skip {
      SkipsAreAbove(heights, retain, n);
      Subset(skip, above);
      if |above| >= retain {
        AtLeast(heights, retain, n);
      }
    }
  }

  /** When the next height is not retained, `retain` heights before it are. */
  lemma {:induction false} AtLeast(heights: seq<Uint64>, retain: nat, n: nat)
    requires Falling(heights) && n < |heights| && |Above(heights, heights[n])| >= retain
    ensures |SkipSet(heights, retain, n)| >= retain
    decreases n
  {
    var h := heights[n];
    AboveIsEarlier(heights, n);
    if forall g :: g in Above(heights, h) ==> |Above(heights, g)| < retain {
      Subset(Above(heights, h), SkipSet(heights, retain, n));
    } else {
      var g :| g in Above(heights, h) && |Above(heights, g)| >= retain;
      var j :| 0 <= j < |heights[..n]| && heights[..n][j] == g;
      AtLeast(heights, retain, j);
      assert heights[..j] == heights[..n][..j];
      Subset(SkipSet(heights, retain, j), SkipSet(heights, retain, n));
    }
  }

  lemma SkipStep(heights: seq<Uint64>, retain: nat, n: nat)
    requires n < |heights|
    ensures SkipSet(heights, retain, n + 1) ==
            SkipSet(heights, retain, n) + if |Above(heights, heights[n])| < retain then {heights[n]} else {}
  {
    assert heights[..n + 1] == heights[..n] + [heights[n]];
  }

  function HeightsOf(keys: seq<Bytes>): (r: seq<Uint64>)
    ensures |r| == |keys| && forall i :: 0 <= i < |keys| ==> r[i] == HeightOf(keys[i])
  {
    if keys == [] then [] else [HeightOf(keys[0])] + HeightsOf(keys[1..])
  }

  /** The iterator runs down the heights, and over all of them. */
  lemma IteratesHeights(db: Database, keys: seq<Bytes>)
    requires Iterates(db, keys)
    ensures Falling(HeightsOf(keys))
    ensures forall h: Uint64 :: Above(HeightsOf(keys), h) == HeightsAbove(db, h)
  {
    var heights := HeightsOf(keys);
    forall i, j | 0 <= i < j < |keys| ensures heights[i] >= heights[j] {
      assert keys[i] in Listed(db) && keys[j] in Listed(db);
      OrderOf(keys[j], keys[i]);
    }
    forall g ensures g in heights <==> g in ListedHeights(db) {
      if g in heights {
        var i :| 0 <= i < |heights| && heights[i] == g;
        assert keys[i] in Listed(db);
      }
      if g in ListedHeights(db) {
        var key :| key in Listed(db) && HeightOf(key) == g;
        var i :| 0 <= i < |keys| && keys[i] == key;
        assert heights[i] == g;
      }
    }
  }

  // ----- the store -----

  /** A snapshot's place on disk. */
  datatype Place = Place(height: Uint64, format: Uint32)

  /** The chunk files by number. */
  type Files = map<Place, map<nat, Bytes>>

  function PlaceOf(key: Bytes): Place {
    Place(HeightOf(key), FormatOf(key))
  }

  ghost function PlacesOf(keys: set<Bytes>): set<Place> {
    set key | key in keys :: PlaceOf(key)
  }

  ghost function HeightsIn(keys: set<Bytes>): set<Uint64> {
    set key | key in keys :: HeightOf(key)
  }

  function WithFile(numbered: map<nat, Bytes>, n: nat, chunk: Bytes): map<nat, Bytes> {
    numbered[n := chunk]
  }

  function FilesIn(files: Files, place: Place): map<nat, Bytes> {
    if place in files then files[place] else map[]
  }

  /** Files of chunks by number; the number wraps at 32 bits. */
  function Laid(base: map<nat, Bytes>, chunks: seq<Bytes>): map<nat, Bytes> {
    if chunks == [] then base
    else WithFile(Laid(base, chunks[..|chunks| - 1]), (|chunks| - 1) % 0x1_0000_0000, chunks[|chunks| - 1])
  }

  lemma {:induction false} LaidHolds(base: map<nat, Bytes>, chunks: seq<Bytes>, i: nat)
    requires i < |chunks| <= 0x1_0000_0000
    ensures i in Laid(base, chunks) && Laid(base, chunks)[i] == chunks[i]
  {
    if i < |chunks| - 1 {
      LaidHolds(base, chunks[..|chunks| - 1], i);
    }
  }

  /** Files with other numbers stay. */
  lemma {:induction false} LaidKeeps(base: map<nat, Bytes>, chunks: seq<Bytes>, i: nat)
    requires |chunks| <= i
    ensures i in Laid(base, chunks) <==> i in base
    ensures i in base ==> Laid(base, chunks)[i] == base[i]
  {
    if chunks != [] {
      LaidKeeps(base, chunks[..|chunks| - 1], i);
    }
  }

  function Hashes(sha256: Bytes -> Bytes, chunks: seq<Bytes>): (r: seq<Bytes>)
    ensures |r| == |chunks| && forall i :: 0 <= i < |chunks| ==> r[i] == sha256(chunks[i])
  {
    if chunks == [] then [] else Hashes(sha256, chunks[..|chunks| - 1]) + [sha256(chunks[|chunks| - 1])]
  }

  lemma {:induction false} ConcatSnoc(chunks: seq<Bytes>, last: Bytes)
    ensures Concat(chunks + [last]) == Concat(chunks) + last
  {
    if chunks == [] {
      assert Concat([last]) == last + Concat([last][1..]);
    } else {
      assert (chunks + [last])[1..] == chunks[1..] + [last];
      ConcatSnoc(chunks[1..], last);
    }
  }

  lemma ListIsComplete(db: Database, iter: seq<Bytes>, r: seq<Snapshot>)
    requires Iterates(db, iter) && |r| == |iter|
    requires forall i :: 0 <= i < |r| ==> iter[i] in db && r[i] == db[iter[i]]
    ensures forall i, j :: 0 <= i < j < |r| ==> Older(r[j].height, r[j].format, r[i].height, r[i].format)
    ensures forall snapshot :: snapshot in r <==> exists key :: key in Listed(db) && db[key] == snapshot
  {
    forall i, j | 0 <= i < j < |r| ensures Older(r[j].height, r[j].format, r[i].height, r[i].format) {
      OrderOf(iter[j], iter[i]);
    }
    forall key | key in Listed(db) ensures db[key] in r {
      var i :| 0 <= i < |iter| && iter[i] == key;
      assert r[i] == db[key];
    }
    forall snapshot | snapshot in r ensures exists key :: key in Listed(db) && db[key] == snapshot {
      var i :| 0 <= i < |r| && r[i] == snapshot;
      assert iter[i] in Listed(db);
    }
  }

  predicate AllRead(chunks: seq<Option<Bytes>>) {
    forall i :: 0 <= i < |chunks| ==> chunks[i].Some?
  }

  /** The chunks that could be read. */
  function Values(chunks: seq<Option<Bytes>>): (r: seq<Bytes>)
    ensures |r| <= |chunks|
    ensures AllRead(chunks) ==>
            |r| == |chunks| && forall i :: 0 <= i < |chunks| ==> r[i] == chunks[i].value
  {
    if chunks == [] then []
    else Values(chunks[..|chunks| - 1]) + if chunks[|chunks| - 1].Some? then [chunks[|chunks| - 1].value] else []
  }

  /** The files with the chunks of one snapshot added. */
  function Filed(files: Files, place: Place, chunks: seq<Bytes>): Files {
    if chunks == [] then files
    else files[place := Laid(FilesIn(files, place), chunks)]
  }

  lemma FiledSnoc(files: Files, place: Place, chunks: seq<Bytes>, last: Bytes)
    ensures var before := Filed(files, place, chunks);
            Filed(files, place, chunks + [last]) ==
            before[place := WithFile(FilesIn(before, place), |chunks| % 0x1_0000_0000, last)]
  {
    assert (chunks + [last])[..|chunks|] == chunks;
  }

  /** The counter of chunks wraps at 32 bits. */
  function NextIndex(index: Uint32, ghost n: nat): (r: Uint32)
    requires index == n % 0x1_0000_0000
    ensures r == (n + 1) % 0x1_0000_0000
  {
    (index + 1) % 0x1_0000_0000
  }

  /** What the loop of Save has written and collected. */
  ghost predicate Written(sha256: Bytes -> Bytes, before: Files, place: Place, chunks: seq<Bytes>,
                          files: Files, hashes: seq<Bytes>, all: Bytes)
  {
    && files == Filed(before, place, chunks) && files - {place} == before - {place}
    && hashes == Hashes(sha256, chunks) && all == Concat(chunks)
  }

  lemma DoneIsAll(chunks: seq<Option<Bytes>>, done: seq<Bytes>)
    requires |done| == |chunks| && forall i :: 0 <= i < |chunks| ==> chunks[i] == Some(done[i])
    ensures AllRead(chunks) && Values(chunks) == done
  {
    assert AllRead(chunks);
  }

  lemma WrittenMore(sha256: Bytes -> Bytes, before: Files, place: Place, chunks: seq<Bytes>,
                    files: Files, hashes: seq<Bytes>, all: Bytes, chunk: Bytes)
    requires Written(sha256, before, place, chunks, files, hashes, all)
    ensures Written(sha256, before, place, chunks + [chunk],
                    files[place := WithFile(FilesIn(files, place), |chunks| % 0x1_0000_0000, chunk)],
                    hashes + [sha256(chunk)], all + chunk)
  {
    FiledSnoc(before, place, chunks, chunk);
    ConcatSnoc(chunks, chunk);
    assert (chunks + [chunk])[..|chunks|] == chunks;
    var more := WithFile(FilesIn(files, place), |chunks| % 0x1_0000_0000, chunk);
    assert files[place := more] - {place} == files - {place};
  }

  function WithoutHeight(files: Files, height: Uint64): Files {
    map place | place in files && place.height != height :: files[place]
  }

  lemma WithoutHeightOf(before: Files, place: Place, after: Files)
    requires after - {place} == before - {place}
    ensures WithoutHeight(after, place.height) == WithoutHeight(before, place.height)
  {
    forall other | other != place
      ensures other in after <==> other in before
      ensures other in after && other in before ==> after[other] == before[other]
    {
      assert other in after - {place} <==> other in before - {place};
      if other in after {
        assert (after - {place})[other] == after[other] && (before - {place})[other] == before[other];
      }
    }
  }

  function SnapshotOf(sha256: Bytes -> Bytes, height: Uint64, format: Uint32, chunks: seq<Bytes>): Snapshot {
    Snapshot(height, format, |chunks| % 0x1_0000_0000, sha256(Concat(chunks)), Hashes(sha256, chunks))
  }

  /** The snapshot of these chunks: their number modulo 2^32, the hash of all of them and the hash of each. */
  ghost predicate Describes(sha256: Bytes -> Bytes, height: Uint64, format: Uint32, chunks: seq<Option<Bytes>>,
                            s: Snapshot)
  {
    && s.height == height && s.format == format && s.chunks == |chunks| % 0x1_0000_0000
    && s.hash == sha256(Concat(Values(chunks))) && |s.chunkHashes| == |chunks|
    && forall i :: 0 <= i < |chunks| ==> chunks[i].Some? && s.chunkHashes[i] == sha256(chunks[i].value)
  }

  lemma SnapshotDescribes(sha256: Bytes -> Bytes, height: Uint64, format: Uint32, chunks: seq<Option<Bytes>>)
    requires AllRead(chunks)
    ensures Describes(sha256, height, format, chunks, SnapshotOf(sha256, height, format, Values(chunks)))
  {
  }

  datatype Loaded = Loaded(snapshot: Snapshot, chunks: seq<Option<Bytes>>)

  function ChunksOf(numbered: map<nat, Bytes>, n: nat): (r: seq<Option<Bytes>>)
    ensures |r| == n && forall i :: 0 <= i < n ==> r[i] == if i in numbered then Some(numbered[i]) else None
  {
    if n == 0 then []
    else ChunksOf(numbered, n - 1) + [if n - 1 in numbered then Some(numbered[n - 1]) else None]
  }

  lemma ValuesAre(read: seq<Option<Bytes>>, chunks: seq<Bytes>)
    requires |read| == |chunks| && forall i :: 0 <= i < |chunks| ==> read[i] == Some(chunks[i])
    ensures Values(read) == chunks
  {
  }

  /** What was saved is what is loaded, whatever files were there before. */
  lemma SavedIsLoaded(files: Files, place: Place, chunks: seq<Bytes>)
    requires |chunks| < 0x1_0000_0000
    ensures Values(ChunksOf(FilesIn(Filed(files, place, chunks), place), |chunks|)) == chunks
  {
    var numbered := FilesIn(Filed(files, place, chunks), place);
    var read := ChunksOf(numbered, |chunks|);
    forall i | 0 <= i < |chunks| ensures read[i] == Some(chunks[i]) {
      LaidHolds(FilesIn(files, place), chunks, i);
    }
    ValuesAre(read, chunks);
  }

  predicate AreKeys(iter: seq<Bytes>) {
    forall i :: 0 <= i < |iter| ==> DecodeKey(iter[i]).Ok? && EncodeKey(HeightOf(iter[i]), FormatOf(iter[i])) == iter[i]
  }

  lemma KeysAreKeys(db: Database, iter: seq<Bytes>)
    requires Iterates(db, iter)
    ensures AreKeys(iter)
  {
    forall i | 0 <= i < |iter|
      ensures DecodeKey(iter[i]).Ok? && EncodeKey(HeightOf(iter[i]), FormatOf(iter[i])) == iter[i]
    {
      NextKey(db, iter, i);
    }
  }

  // ----- the loop on values -----

  datatype PruneState = PruneState(db: Database, files: Files, skip: set<Uint64>, pruned: nat, heights: set<Uint64>)

  datatype PruneEnd = PruneEnd(state: PruneState, ok: bool)

  function Run(s: PruneState, retain: nat, saving: set<Uint64>, keys: seq<Bytes>): PruneEnd
    decreases |keys|
  {
    if keys == [] then PruneEnd(s, true)
    else
      var h := HeightOf(keys[0]);
      if h in s.skip || |s.skip| < retain then Run(s.(skip := s.skip + {h}), retain, saving, keys[1..])
      else if h in saving then PruneEnd(s, false)
      else
        Run(WithoutKey(s, keys[0]), retain, saving, keys[1..])
  }

  function WithoutKey(s: PruneState, key: Bytes): PruneState {
    PruneState(s.db - {key}, s.files - {PlaceOf(key)}, s.skip, s.pruned + 1, s.heights + {HeightOf(key)})
  }

  /** The state after n keys, of which those in `gone` are deleted. */
  ghost predicate StateAfter(s: PruneState, db: Database, files: Files, retain: nat, saving: set<Uint64>,
                             iter: seq<Bytes>, n: nat, gone: set<Bytes>)
  {
    Pruning(db, retain, saving, iter, n, s.skip, gone) && Lacks(s, db, files, gone)
  }

  /** The keys in `gone` are deleted and accounted for. */
  ghost predicate Lacks(s: PruneState, db: Database, files: Files, gone: set<Bytes>) {
    && s.db == db - gone && s.files == files - PlacesOf(gone)
    && s.pruned == |gone| && s.heights == HeightsIn(gone)
  }

  lemma LacksMore(s: PruneState, db: Database, files: Files, gone: set<Bytes>, key: Bytes)
    requires Lacks(s, db, files, gone) && key !in gone
    ensures Lacks(WithoutKey(s, key), db, files, gone + {key})
  {
    DropOne(db, files, gone, key);
  }

  /** What the loop ends with. */
  ghost predicate RunEnds(e: PruneEnd, db: Database, files: Files, retain: nat, saving: set<Uint64>, gone: set<Bytes>) {
    && e.state.db == db - gone && e.state.files == files - PlacesOf(gone)
    && gone <= Dropped(db, retain, Listed(db))
    && (e.ok <==> forall key :: key in Dropped(db, retain, Listed(db)) ==> HeightOf(key) !in saving)
    && (e.ok ==>
          && gone == Dropped(db, retain, Listed(db))
          && e.state.pruned == |gone| && e.state.heights == HeightsIn(gone))
  }

  lemma {:induction false} RunGoesOn(s: PruneState, db: Database, files: Files, retain: nat, saving: set<Uint64>,
                                     iter: seq<Bytes>, n: nat, gone: set<Bytes>) returns (all: set<Bytes>)
    requires n <= |iter| && StateAfter(s, db, files, retain, saving, iter, n, gone)
    ensures RunEnds(Run(s, retain, saving, iter[n..]), db, files, retain, saving, all)
    decreases |iter| - n
  {
    if n == |iter| {
      PruningEnds(db, retain, saving, iter, s.skip, gone);
      all := gone;
    } else {
      var key, h := iter[n], HeightOf(iter[n]);
      assert iter[n..][0] == key && iter[n..][1..] == iter[n + 1..];
      if h in s.skip || |s.skip| < retain {
        StateSkips(s, db, files, retain, saving, iter, n, gone);
        all := RunGoesOn(s.(skip := s.skip + {h}), db, files, retain, saving, iter, n + 1, gone);
      } else {
        StateDrops(s, db, files, retain, saving, iter, n, gone);
        if h in saving {
          all := gone;
        } else {
          all := RunGoesOn(WithoutKey(s, key), db, files, retain, saving, iter, n + 1, gone + {key});
        }
      }
    }
  }

  lemma StateSkips(s: PruneState, db: Database, files: Files, retain: nat, saving: set<Uint64>,
                   iter: seq<Bytes>, n: nat, gone: set<Bytes>)
    requires n < |iter| && StateAfter(s, db, files, retain, saving, iter, n, gone)
    requires HeightOf(iter[n]) in s.skip || |s.skip| < retain
    ensures StateAfter(s.(skip := s.skip + {HeightOf(iter[n])}), db, files, retain, saving, iter, n + 1, gone)
  {
    PruningSkips(db, retain, saving, iter, n, s.skip, gone);
  }

  lemma StateDrops(s: PruneState, db: Database, files: Files, retain: nat, saving: set<Uint64>,
                   iter: seq<Bytes>, n: nat, gone: set<Bytes>)
    requires n < |iter| && StateAfter(s, db, files, retain, saving, iter, n, gone)
    requires HeightOf(iter[n]) !in s.skip && |s.skip| >= retain
    ensures iter[n] in Dropped(db, retain, Listed(db))
    ensures HeightOf(iter[n]) !in saving ==>
            StateAfter(WithoutKey(s, iter[n]), db, files, retain, saving, iter, n + 1, gone + {iter[n]})
  {
    PruningDrops(db, retain, saving, iter, n, s.skip, gone);
    LacksMore(s, db, files, gone, iter[n]);
  }

  lemma StateAtStart(db: Database, files: Files, retain: nat, saving: set<Uint64>, iter: seq<Bytes>)
    requires Iterates(db, iter)
    ensures StateAfter(PruneState(db, files, {}, 0, {}), db, files, retain, saving, iter, 0, {})
  {
    assert db - {} == db && PlacesOf({}) == {} && files - {} == files;
  }

  lemma RunMeans(db: Database, files: Files, retain: nat, saving: set<Uint64>, iter: seq<Bytes>)
    returns (all: set<Bytes>)
    requires Iterates(db, iter)
    ensures RunEnds(Run(PruneState(db, files, {}, 0, {}), retain, saving, iter), db, files, retain, saving, all)
  {
    StateAtStart(db, files, retain, saving, iter);
    assert iter[0..] == iter;
    all := RunGoesOn(PruneState(db, files, {}, 0, {}), db, files, retain, saving, iter, 0, {});
  }

  /** The keys among the first n of the iterator that pruning removes. */
  ghost function GoneAfter(db: Database, retain: nat, iter: seq<Bytes>, n: nat): set<Bytes>
    requires n <= |iter|
  {
    if n == 0 then {}
    else GoneAfter(db, retain, iter, n - 1) + if Retained(db, retain, HeightOf(iter[n - 1])) then {} else {iter[n - 1]}
  }

  lemma {:induction false} GoneAfterMeans(db: Database, retain: nat, iter: seq<Bytes>, n: nat, key: Bytes)
    requires n <= |iter|
    ensures key in GoneAfter(db, retain, iter, n) <==> Among(iter, n, key) && !Retained(db, retain, HeightOf(key))
  {
    if n > 0 {
      GoneAfterMeans(db, retain, iter, n - 1, key);
      assert Among(iter, n, key) <==> Among(iter, n - 1, key) || key == iter[n - 1];
    }
  }

  predicate Among(keys: seq<Bytes>, n: nat, key: Bytes)
    requires n <= |keys|
  {
    exists i :: 0 <= i < n && keys[i] == key
  }

  /** The state of the loop after n keys. */
  ghost predicate Pruning(db: Database, retain: nat, saving: set<Uint64>, iter: seq<Bytes>, n: nat,
                          skip: set<Uint64>, gone: set<Bytes>)
  {
    && Iterates(db, iter) && n <= |iter|
    && skip == SkipSet(HeightsOf(iter), retain, n)
    && gone == GoneAfter(db, retain, iter, n)
    && gone <= Dropped(db, retain, Listed(db))
    && forall key :: key in gone ==> HeightOf(key) !in saving
  }

  lemma DropOne(db: Database, files: Files, gone: set<Bytes>, key: Bytes)
    ensures db - gone - {key} == db - (gone + {key})
    ensures files - PlacesOf(gone) - {PlaceOf(key)} == files - PlacesOf(gone + {key})
    ensures HeightsIn(gone + {key}) == HeightsIn(gone) + {HeightOf(key)}
  {
    assert PlacesOf(gone + {key}) == PlacesOf(gone) + {PlaceOf(key)};
  }

  lemma NextKey(db: Database, iter: seq<Bytes>, n: nat)
    requires Iterates(db, iter) && n < |iter|
    ensures iter[n] in Listed(db) && DecodeKey(iter[n]).Ok? && !Among(iter, n, iter[n])
    ensures EncodeKey(HeightOf(iter[n]), FormatOf(iter[n])) == iter[n]
  {
    var key := iter[n];
    assert key in Listed(db);
    EncodeDecode(key);
    if Among(iter, n, key) {
      var i :| 0 <= i < n && iter[i] == key;
      LessIrreflexive(key);
    }
  }

  /** A key that the loop skips is of a retained height, and the state goes on. */
  lemma PruningSkips(db: Database, retain: nat, saving: set<Uint64>, iter: seq<Bytes>, n: nat,
                     skip: set<Uint64>, gone: set<Bytes>)
    requires Pruning(db, retain, saving, iter, n, skip, gone) && n < |iter|
    requires HeightOf(iter[n]) in skip || |skip| < retain
    ensures Pruning(db, retain, saving, iter, n + 1, skip + {HeightOf(iter[n])}, gone)
  {
    SkipMeansRetained(db, retain, iter, n);
    SkipStep(HeightsOf(iter), retain, n);
  }

  /** A key that the loop does not skip is one to drop, and the state goes on if it may be. */
  lemma PruningDrops(db: Database, retain: nat, saving: set<Uint64>, iter: seq<Bytes>, n: nat,
                     skip: set<Uint64>, gone: set<Bytes>)
    requires Pruning(db, retain, saving, iter, n, skip, gone) && n < |iter|
    requires HeightOf(iter[n]) !in skip && |skip| >= retain
    ensures iter[n] in Dropped(db, retain, Listed(db)) && iter[n] !in gone
    ensures HeightOf(iter[n]) !in saving ==> Pruning(db, retain, saving, iter, n + 1, skip, gone + {iter[n]})
  {
    NextKey(db, iter, n);
    GoneAfterMeans(db, retain, iter, n, iter[n]);
    SkipMeansRetained(db, retain, iter, n);
    SkipStep(HeightsOf(iter), retain, n);
  }

  lemma SkipMeansRetained(db: Database, retain: nat, iter: seq<Bytes>, n: nat)
    requires Iterates(db, iter) && n < |iter|
    ensures var skip, h := SkipSet(HeightsOf(iter), retain, n), HeightOf(iter[n]);
            && (h in skip || |skip| < retain <==> Retained(db, retain, h))
            && (Retained(db, retain, h) <==> |Above(HeightsOf(iter), h)| < retain)
  {
    IteratesHeights(db, iter);
    SkipTest(HeightsOf(iter), retain, n);
  }

  lemma PruningEnds(db: Database, retain: nat, saving: set<Uint64>, iter: seq<Bytes>,
                    skip: set<Uint64>, gone: set<Bytes>)
    requires Pruning(db, retain, saving, iter, |iter|, skip, gone)
    ensures gone == Dropped(db, retain, Listed(db))
  {
    forall key ensures key in gone <==> key in Dropped(db, retain, Listed(db)) {
      GoneAfterMeans(db, retain, iter, |iter|, key);
    }
  }
}
