/** SaveRdb and LoadRdb of src/persistence/rdb.cpp on a Store: snapshot files written from it and loaded into it. */
module SnapshotFile {
  import opened Bytes
  import opened Keyspace
  import opened Atomic
  import opened Persistence
  import opened Eviction
  import opened Machine
  import L = Layout
  import S = Store
  import R = Rdb
  import T = RdbTheory
  import F = RdbFile

  /** `when` are the readings that sort out expired keys, `at` are the readings that anchor the deadlines. */
  method SaveFile(store: S.Store, when: Bytes -> int, at: Clocks) returns (file: Bytes, ghost es: seq<R.SnapshotEntry>)
    requires store.Valid()
    ensures IsSnapshot(es, store.data.contents, when, at) && file == R.FileOf(es)
  {
    var entries := store.Snapshot(when, at);
    file := F.SaveRdb(entries);
    es := entries;
  }

  /** Nothing is touched unless the whole file is read; then everything is replaced. */
  method LoadFile(store: S.Store, file: Bytes, wallRead: int, at: Clocks, rounds: Rounds) returns (ok: bool)
    requires store.Valid()
    modifies store`used, store`accessClock, store`stalled, store`surplus, store.data
    ensures store.Valid() && ok == R.Load(file, wallRead).Some?
    ensures !ok ==> store.Here() == old(store.Here()) && store.used == old(store.used)
    ensures ok ==> store.Here() == S.Loaded(old(store.Here()), R.Load(file, wallRead).value, at, rounds)
  {
    var read := F.LoadRdb(file, wallRead);
    if read.None? { return false; }
    store.LoadSnapshot(read.value, at, rounds);
    ok := true;
  }

  const FRESH := Clear(State(map[], 0, L.NoEdit))

  ghost predicate SameKeysDue(space: Space, when: Bytes -> int, saved: Clocks, loaded: Clocks, after: Space) {
    forall k :: Survived(k, space, when, saved, loaded, after)
  }

  lemma AllSurvive(es: seq<R.SnapshotEntry>, space: Space, when: Bytes -> int, saved: Clocks, wallRead: int,
                   loaded: Clocks)
    requires IsSnapshot(es, space, when, saved) && wallRead <= loaded.wall && T.AllFit(es) && |es| < TWO64
    ensures R.Load(R.FileOf(es), wallRead).Some?
    ensures var back := R.Load(R.FileOf(es), wallRead).value;
      SameKeysDue(space, when, saved, loaded, RestoreAll(FRESH, back, loaded).space)
  {
    T.LoadUndoesSave(es, wallRead);
    var back := R.Load(R.FileOf(es), wallRead).value;
    forall k ensures Survived(k, space, when, saved, loaded, RestoreAll(FRESH, back, loaded).space) {
      SaveThenLoad(es, space, when, saved, wallRead, loaded, FRESH, k);
    }
  }

  // ---------------------------------------------------------------- stores that fit the format

  predicate ValueFits(v: Value) {
    match v
    case Str(s) => |s| < TWO32
    case List(items) => |items| < TWO32 && T.Short(items)
    case Hash(fields) => |fields| < TWO32 && forall f | f in fields :: |f| < TWO32 && |fields[f]| < TWO32
  }

  /** Every length and count fits its field of the format, and every deadline its word. */
  predicate SpaceFits(space: Space, at: Clocks) {
    && |space| < TWO64
    && forall k | k in space ::
      |k| < TWO32 && ValueFits(space[k].value) && T.DeadlineFits(WallDeadline(space[k].deadline, at))
  }

  lemma {:induction false} MapOfSize(ps: seq<(Bytes, Bytes)>)
    ensures |MapOf(ps)| <= |ps|
  {
    if ps != [] {
      var front, last := ps[..|ps| - 1], ps[|ps| - 1];
      MapOfSize(front);
      assert MapOf(ps).Keys == MapOf(front).Keys + {last.0};
    }
  }

  lemma LastIsFresh(ps: seq<(Bytes, Bytes)>)
    requires ps != [] && |MapOf(ps)| == |ps|
    ensures ps[|ps| - 1].0 !in MapOf(ps[..|ps| - 1]) && |MapOf(ps[..|ps| - 1])| == |ps| - 1
  {
    var front, last := MapOf(ps[..|ps| - 1]), ps[|ps| - 1];
    MapOfSize(ps[..|ps| - 1]);
    assert MapOf(ps).Keys == front.Keys + {last.0};
    assert last.0 in front ==> MapOf(ps).Keys == front.Keys;
  }

  /** As many fields as pairs: then every pair is a field with its value. */
  lemma {:induction false} PairIsField(ps: seq<(Bytes, Bytes)>, i: nat)
    requires |MapOf(ps)| == |ps| && i < |ps|
    ensures ps[i].0 in MapOf(ps) && MapOf(ps)[ps[i].0] == ps[i].1
  {
    LastIsFresh(ps);
    if i < |ps| - 1 {
      PairIsField(ps[..|ps| - 1], i);
      assert ps[..|ps| - 1][i] == ps[i];
    }
  }

  lemma {:induction false} FlattenShort(ps: seq<(Bytes, Bytes)>)
    requires forall i | 0 <= i < |ps| :: |ps[i].0| < TWO32 && |ps[i].1| < TWO32
    ensures T.Short(R.Flatten(ps))
  {
    if ps != [] { FlattenShort(ps[1..]); }
  }

  lemma CaptureFits(c: R.Content, v: Value)
    requires Captures(c, v) && ValueFits(v)
    ensures T.ContentFits(c)
  {
    if c.Pairs? {
      forall i | 0 <= i < |c.pairs| ensures |c.pairs[i].0| < TWO32 && |c.pairs[i].1| < TWO32 {
        PairIsField(c.pairs, i);
      }
      FlattenShort(c.pairs);
    }
  }

  lemma {:induction false} NoMoreThanKeys(es: seq<R.SnapshotEntry>, keys: set<Bytes>)
    requires DistinctKeys(es) && forall i | 0 <= i < |es| :: es[i].key in keys
    ensures |es| <= |keys|
  {
    if es != [] { NoMoreThanKeys(es[..|es| - 1], keys - {es[|es| - 1].key}); }
  }

  /** A snapshot of a store that fits is written without loss. */
  lemma SnapshotFits(es: seq<R.SnapshotEntry>, space: Space, when: Bytes -> int, at: Clocks)
    requires IsSnapshot(es, space, when, at) && SpaceFits(space, at)
    ensures T.AllFit(es) && |es| < TWO64
  {
    NoMoreThanKeys(es, space.Keys);
    forall i | 0 <= i < |es| ensures T.Fits(es[i]) {
      assert es[i].key in space;
      CaptureFits(es[i].content, space[es[i].key].value);
    }
  }

  /** A store that fits the format is saved, and a fresh one is loaded from the file: exactly the keys that are still
      due come back. */
  method SaveAndRestart(store: S.Store, when: Bytes -> int, saved: Clocks, wallRead: int, loaded: Clocks,
                        rounds: Rounds)
    returns (copy: S.Store, ok: bool)
    requires store.Valid() && wallRead <= loaded.wall
    ensures copy.Valid()
    ensures SpaceFits(store.data.contents, saved) ==>
      ok && SameKeysDue(store.data.contents, when, saved, loaded, copy.data.contents)
  {
    var file, es := SaveFile(store, when, saved);
    copy := new S.Store();
    ok := LoadFile(copy, file, wallRead, loaded, rounds);
    if SpaceFits(store.data.contents, saved) {
      SnapshotFits(es, store.data.contents, when, saved);
      AllSurvive(es, store.data.contents, when, saved, wallRead, loaded);
    }
  }
}
