/** Snapshot and LoadSnapshot of src/store/store.cpp as values, and what survives a save and a load. */
module Persistence {
  import opened Bytes
  import opened MapSum
  import opened Keyspace
  import opened Atomic
  import opened Machine
  import R = Rdb
  import T = RdbTheory

  /** A reading of both clocks: steady for deadlines in memory, wall for deadlines on disk. */
  datatype Clocks = Clocks(steady: int, wall: int)

  // ---------------------------------------------------------------- capturing

  /** The content lists the value; a hash in some order, each field once. */
  predicate Captures(c: R.Content, v: Value) {
    match v
    case Str(s) => c == R.Text(s)
    case List(xs) => c == R.Items(xs)
    case Hash(m) => c.Pairs? && MapOf(c.pairs) == m && |c.pairs| == |m|
  }

  /** The remaining time, truncated to milliseconds, put behind the wall clock. */
  function WallDeadline(d: Option<int>, at: Clocks): Option<int> {
    match d
    case None => None
    case Some(t) => Some(at.wall + ToMilliseconds(t - at.steady) * MILLISECOND)
  }

  /** `es` captures exactly the keys that are live when they are looked at, each once; `when(k)` is that reading for
      the key `k`, and `at` are the readings that anchor deadlines. */
  ghost predicate IsSnapshot(es: seq<R.SnapshotEntry>, space: Space, when: Bytes -> int, at: Clocks) {
    && (forall i | 0 <= i < |es| ::
          && es[i].key in space && !Expired(space[es[i].key], when(es[i].key))
          && Captures(es[i].content, space[es[i].key].value)
          && es[i].expiresWall == WallDeadline(space[es[i].key].deadline, at))
    && DistinctKeys(es)
    && (forall k | k in space && !Expired(space[k], when(k)) :: exists i :: 0 <= i < |es| && es[i].key == k)
  }

  predicate DistinctKeys(es: seq<R.SnapshotEntry>) {
    forall i, j | 0 <= i < j < |es| :: es[i].key != es[j].key
  }

  // ---------------------------------------------------------------- restoring

  function ValueOf(c: R.Content): Value {
    match c
    case Text(s) => Str(s)
    case Items(xs) => List(xs)
    case Pairs(ps) => Hash(MapOf(ps))
  }

  function SteadyDeadline(d: Option<int>, at: Clocks): Option<int> {
    match d
    case None => None
    case Some(w) => Some(at.steady + (w - at.wall))
  }

  /** One entry of LoadSnapshot: skipped if expired on the wall clock, else stored and stamped. */
  function Restore(s: State, e: R.SnapshotEntry, at: Clocks): State {
    if R.AlreadyExpired(e, at.wall) then s
    else Put(s, e.key, ValueOf(e.content), SteadyDeadline(e.expiresWall, at))
  }

  function RestoreAll(s: State, es: seq<R.SnapshotEntry>, at: Clocks): State {
    if es == [] then s else Restore(RestoreAll(s, es[..|es| - 1], at), es[|es| - 1], at)
  }

  /** With distinct keys, the restored table is the entries still due, under their keys. */
  ghost predicate Restored(space: Space, es: seq<R.SnapshotEntry>, at: Clocks) {
    && (forall i | 0 <= i < |es| && !R.AlreadyExpired(es[i], at.wall) ::
          && es[i].key in space
          && space[es[i].key].value == ValueOf(es[i].content)
          && space[es[i].key].deadline == SteadyDeadline(es[i].expiresWall, at))
    && (forall k | k in space :: exists i :: 0 <= i < |es| && es[i].key == k && !R.AlreadyExpired(es[i], at.wall))
  }

  lemma {:induction false} RestoreAllMeaning(start: State, es: seq<R.SnapshotEntry>, at: Clocks)
    requires start.space == map[] && DistinctKeys(es)
    ensures Restored(RestoreAll(start, es, at).space, es, at)
  {
    if es != [] {
      var front, last := es[..|es| - 1], es[|es| - 1];
      RestoreAllMeaning(start, front, at);
      var before := RestoreAll(start, front, at).space;
      RestoreOneMore(before, es, at, RestoreAll(start, es, at).space);
    }
  }

  lemma RestoreOneMore(before: Space, es: seq<R.SnapshotEntry>, at: Clocks, after: Space)
    requires es != [] && DistinctKeys(es) && Restored(before, es[..|es| - 1], at)
    requires
      var e := es[|es| - 1];
      if R.AlreadyExpired(e, at.wall) then after == before
      else e.key in after && after[e.key].value == ValueOf(e.content)
           && after[e.key].deadline == SteadyDeadline(e.expiresWall, at) && after - {e.key} == before - {e.key}
    ensures Restored(after, es, at)
  {
    var n := |es| - 1;
    var front, last := es[..n], es[n];
    assert forall i | 0 <= i < n :: front[i] == es[i];
    forall i | 0 <= i < |es| && !R.AlreadyExpired(es[i], at.wall)
      ensures es[i].key in after && after[es[i].key].value == ValueOf(es[i].content)
      ensures after[es[i].key].deadline == SteadyDeadline(es[i].expiresWall, at)
    {
      if i < n {
        assert front[i].key in before && es[i].key != last.key;
        assert es[i].key in before - {last.key};
      }
    }
    forall k | k in after ensures exists i :: 0 <= i < |es| && es[i].key == k && !R.AlreadyExpired(es[i], at.wall) {
      if k == last.key && !R.AlreadyExpired(last, at.wall) {
        assert es[n].key == k;
      } else {
        assert k in before by { if !R.AlreadyExpired(last, at.wall) { assert k in after - {last.key}; } }
        var i :| 0 <= i < n && front[i].key == k && !R.AlreadyExpired(front[i], at.wall);
        assert es[i].key == k;
      }
    }
  }

  // ---------------------------------------------------------------- accounting of a load

  /** What LoadSnapshot adds to the account: every stored entry, also one that overwrites an earlier one. */
  ghost function LoadedBytes(es: seq<R.SnapshotEntry>, at: Clocks): nat {
    if es == [] then 0
    else
      var e := es[|es| - 1];
      LoadedBytes(es[..|es| - 1], at)
      + (if R.AlreadyExpired(e, at.wall) then 0
         else EntryBytes(e.key, Entry(ValueOf(e.content), None, 0)))
  }

  /** No two entries that are stored share a key. */
  predicate DistinctStored(es: seq<R.SnapshotEntry>, at: Clocks) {
    forall i, j | 0 <= i < j < |es| && !R.AlreadyExpired(es[i], at.wall) && !R.AlreadyExpired(es[j], at.wall) ::
      es[i].key != es[j].key
  }

  lemma {:induction false} RestoredKeys(s: State, es: seq<R.SnapshotEntry>, at: Clocks, k: Bytes)
    ensures k in RestoreAll(s, es, at).space
       <==> k in s.space || exists i :: 0 <= i < |es| && es[i].key == k && !R.AlreadyExpired(es[i], at.wall)
  {
    if es != [] {
      var n := |es| - 1;
      RestoredKeys(s, es[..n], at, k);
      assert forall i | 0 <= i < n :: es[..n][i] == es[i];
      if k in RestoreAll(s, es[..n], at).space && k !in s.space {
        var i :| 0 <= i < n && es[..n][i].key == k && !R.AlreadyExpired(es[..n][i], at.wall);
        assert es[i].key == k;
      }
    }
  }

  lemma DistinctStoredSnoc(es: seq<R.SnapshotEntry>, at: Clocks)
    requires es != []
    ensures var n := |es| - 1;
      DistinctStored(es, at) <==>
        && DistinctStored(es[..n], at)
        && (!R.AlreadyExpired(es[n], at.wall) ==>
              !exists i :: 0 <= i < n && es[..n][i].key == es[n].key && !R.AlreadyExpired(es[..n][i], at.wall))
  {
    var n := |es| - 1;
    assert forall i | 0 <= i < n :: es[..n][i] == es[i];
  }

  /** The account after a load is exact if and only if no stored key repeats; otherwise it is too high. */
  lemma {:induction false} LoadAccountExact(es: seq<R.SnapshotEntry>, at: Clocks, start: State)
    requires start.space == map[]
    ensures var space := RestoreAll(start, es, at).space;
      && LoadedBytes(es, at) >= SpaceBytes(space)
      && (LoadedBytes(es, at) == SpaceBytes(space) <==> DistinctStored(es, at))
  {
    if es != [] {
      var n := |es| - 1;
      var e, s := es[n], RestoreAll(start, es[..n], at);
      LoadAccountExact(es[..n], at, start);
      DistinctStoredSnoc(es, at);
      if !R.AlreadyExpired(e, at.wall) {
        RestoredKeys(start, es[..n], at, e.key);
        var entry := Entry(ValueOf(e.content), SteadyDeadline(e.expiresWall, at), s.clock);
        SumSet(s.space, EntryBytes, e.key, entry);
        if e.key in s.space { SumOut(s.space, EntryBytes, e.key); } else { assert s.space - {e.key} == s.space; }
      }
    }
  }

  // ---------------------------------------------------------------- a save and a load

  /** The deadline a key has after a save at `saved` and a load at `loaded`. */
  function RoundTripDeadline(d: Option<int>, saved: Clocks, loaded: Clocks): Option<int> {
    SteadyDeadline(T.StoredDeadline(WallDeadline(d, saved)), loaded)
  }

  /** Whether the load still finds the key due. */
  predicate StillDue(d: Option<int>, saved: Clocks, loaded: Clocks) {
    var r := RoundTripDeadline(d, saved, loaded);
    r.None? || r.value > loaded.steady
  }

  lemma {:induction false} KeptMembers(es: seq<R.SnapshotEntry>, wallNow: int)
    ensures forall e :: e in T.Kept(es, wallNow) <==> e in es && !R.AlreadyExpired(e, wallNow)
  {
    if es != [] {
      KeptMembers(es[1..], wallNow);
      assert es == [es[0]] + es[1..];
    }
  }

  lemma {:induction false} KeptDistinct(es: seq<R.SnapshotEntry>, wallNow: int)
    requires DistinctKeys(es)
    ensures DistinctKeys(T.Kept(es, wallNow))
  {
    if es != [] {
      KeptDistinct(es[1..], wallNow);
      KeptMembers(es[1..], wallNow);
      var rest := T.Kept(es[1..], wallNow);
      forall j | 0 <= j < |rest| ensures rest[j].key != es[0].key {
        assert rest[j] in es[1..];
        var i :| 0 <= i < |es[1..]| && es[1..][i] == rest[j];
        assert es[i + 1] == rest[j];
      }
    }
  }

  /** What a key of the saved table becomes. */
  ghost predicate Survived(k: Bytes, space: Space, when: Bytes -> int, saved: Clocks, loaded: Clocks, after: Space) {
    if k in space && !Expired(space[k], when(k)) && StillDue(space[k].deadline, saved, loaded)
    then
      && k in after && after[k].value == space[k].value
      && after[k].deadline == RoundTripDeadline(space[k].deadline, saved, loaded)
    else k !in after
  }

  lemma CapturedValue(c: R.Content, v: Value)
    requires Captures(c, v)
    ensures ValueOf(c) == v
  {
  }

  /** Whatever the load finds was live at the save and is still due. */
  lemma FoundWasDue(es: seq<R.SnapshotEntry>, space: Space, when: Bytes -> int, saved: Clocks, wallRead: int,
                    loaded: Clocks, after: Space, k: Bytes)
    requires IsSnapshot(es, space, when, saved)
    requires Restored(after, T.Kept(T.StoredAll(es), wallRead), loaded) && k in after
    ensures k in space && !Expired(space[k], when(k)) && StillDue(space[k].deadline, saved, loaded)
  {
    var stored := T.StoredAll(es);
    var kept := T.Kept(stored, wallRead);
    KeptMembers(stored, wallRead);
    var j :| 0 <= j < |kept| && kept[j].key == k && !R.AlreadyExpired(kept[j], loaded.wall);
    assert kept[j] in stored;
    var i :| 0 <= i < |stored| && stored[i] == kept[j];
    assert es[i].key == k;
  }

  lemma SurvivedOne(es: seq<R.SnapshotEntry>, space: Space, when: Bytes -> int, saved: Clocks, wallRead: int,
                    loaded: Clocks, after: Space, k: Bytes)
    requires IsSnapshot(es, space, when, saved) && wallRead <= loaded.wall
    requires Restored(after, T.Kept(T.StoredAll(es), wallRead), loaded)
    ensures Survived(k, space, when, saved, loaded, after)
  {
    if k in space && !Expired(space[k], when(k)) && StillDue(space[k].deadline, saved, loaded) {
      var stored := T.StoredAll(es);
      var kept := T.Kept(stored, wallRead);
      KeptMembers(stored, wallRead);
      var i :| 0 <= i < |es| && es[i].key == k;
      assert stored[i] in kept;
      var j :| 0 <= j < |kept| && kept[j] == stored[i];
      CapturedValue(es[i].content, space[k].value);
    } else if k in after {
      FoundWasDue(es, space, when, saved, wallRead, loaded, after, k);
    }
  }

  /** Save, then load into a store without a budget: every key comes back with its typed value and its round-trip
      deadline, except exactly the keys that were expired at the save or are no longer due at the load. */
  lemma SaveThenLoad(es: seq<R.SnapshotEntry>, space: Space, when: Bytes -> int, saved: Clocks, wallRead: int,
                     loaded: Clocks, start: State, k: Bytes)
    requires start.space == map[] && IsSnapshot(es, space, when, saved) && wallRead <= loaded.wall
    requires T.AllFit(es) && |es| < TWO64
    ensures R.Load(R.FileOf(es), wallRead).Some?
    ensures var back := R.Load(R.FileOf(es), wallRead).value;
      Survived(k, space, when, saved, loaded, RestoreAll(start, back, loaded).space)
  {
    T.LoadUndoesSave(es, wallRead);
    var stored := T.StoredAll(es);
    assert DistinctKeys(stored);
    KeptDistinct(stored, wallRead);
    var kept := T.Kept(stored, wallRead);
    RestoreAllMeaning(start, kept, loaded);
    SurvivedOne(es, space, when, saved, wallRead, loaded, RestoreAll(start, kept, loaded).space, k);
  }

  // ---------------------------------------------------------------- how far deadlines drift

  /** Both clocks advance equally; at each reading the wall clock may be read some time after the steady one.
      The restored deadline is off by the difference of those two delays, less up to two milliseconds. */
  lemma DeadlineDrift(t: int, saved: Clocks, loaded: Clocks, offset: int, saveDelay: nat, loadDelay: nat)
    requires saved.wall == saved.steady + offset + saveDelay
    requires loaded.wall == loaded.steady + offset + loadDelay
    requires t >= saved.steady && saved.wall >= 0
    ensures var r := RoundTripDeadline(Some(t), saved, loaded);
      r.Some? && t + saveDelay - loadDelay - 2 * MILLISECOND < r.value <= t + saveDelay - loadDelay
  {
    var left := t - saved.steady;
    var wall := saved.wall + ToMilliseconds(left) * MILLISECOND;
    Truncation(left);
    Truncation(wall);
  }

  lemma Truncation(ns: int)
    requires ns >= 0
    ensures ns - MILLISECOND < ToMilliseconds(ns) * MILLISECOND <= ns
  {
  }

  /** With simultaneous readings a restored deadline is never later than the original, and under 2 ms earlier. */
  lemma NeverLater(t: int, saved: Clocks, loaded: Clocks)
    requires loaded.wall - loaded.steady == saved.wall - saved.steady
    requires t >= saved.steady && saved.wall >= 0
    ensures var r := RoundTripDeadline(Some(t), saved, loaded); r.Some? && t - 2 * MILLISECOND < r.value <= t
  {
    DeadlineDrift(t, saved, loaded, saved.wall - saved.steady, 0, 0);
  }
}
