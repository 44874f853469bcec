/** What every critical section keeps about the entries' access stamps, and what eviction does with them. */
module Stamps {
  import opened Bytes
  import opened Keyspace
  import opened Readings
  import opened Atomic
  import Interleaving

  /** Stamps are pairwise distinct and older than the access clock. */
  ghost predicate Stamped(s: State) {
    && (forall k {:trigger s.space[k].stamp} | k in s.space :: s.space[k].stamp < s.clock)
    && (forall k, j {:trigger s.space[k].stamp, s.space[j].stamp} | k in s.space && j in s.space && k != j ::
          s.space[k].stamp != s.space[j].stamp)
  }

  lemma PutKeepsStamps(s: State, key: Bytes, value: Value, deadline: Option<int>)
    requires Stamped(s)
    ensures Stamped(Put(s, key, value, deadline))
  {
  }

  lemma DropKeepsStamps(s: State, keys: set<Bytes>)
    requires Stamped(s)
    ensures forall edits {:trigger State(s.space - keys, s.clock, edits)} ::
      Stamped(State(s.space - keys, s.clock, edits))
  {
  }

  lemma ReadKeepsStamps(s: State, key: Bytes, q: Query, now: int)
    requires Stamped(s)
    ensures Stamped(ReadSection(s, key, q, now).state)
  {
  }

  lemma CreateKeepsStamps(s: State, key: Bytes, empty: Value, now: int)
    requires Stamped(s)
    ensures Stamped(GetOrCreate(s, key, empty, now))
  {
    PutKeepsStamps(s, key, empty, None);
  }

  lemma PushKeepsStamps(s: State, key: Bytes, values: seq<Bytes>, front: bool, now: int)
    requires Stamped(s)
    ensures Stamped(PushSection(s, key, values, front, now).state)
  {
    CreateKeepsStamps(s, key, List([]), now);
    var t := GetOrCreate(s, key, List([]), now);
    if t.space[key].value.List? {
      var items := t.space[key].value.items;
      var grown := if front then PushFront(items, values) else items + values;
      PutKeepsStamps(t, key, List(grown), t.space[key].deadline);
    }
  }

  lemma HSetKeepsStamps(s: State, key: Bytes, pairs: seq<(Bytes, Bytes)>, now: int)
    requires Stamped(s)
    ensures Stamped(HSetSection(s, key, pairs, now).state)
  {
    CreateKeepsStamps(s, key, Hash(map[]), now);
    var t := GetOrCreate(s, key, Hash(map[]), now);
    if t.space[key].value.Hash? {
      PutKeepsStamps(t, key, Hash(SetFields(t.space[key].value.fields, pairs).0), t.space[key].deadline);
    }
  }

  lemma HDelKeepsStamps(s: State, key: Bytes, dropped: seq<Bytes>, now: int)
    requires Stamped(s)
    ensures Stamped(HDelSection(s, key, dropped, now).state)
  {
    DropKeepsStamps(s, {key});
    if key in s.space && s.space[key].value.Hash? {
      PutKeepsStamps(s, key, Hash(DropFields(s.space[key].value.fields, dropped).0), s.space[key].deadline);
    }
  }

  lemma ExpireKeepsStamps(s: State, key: Bytes, seconds: int, now: int)
    requires Stamped(s)
    ensures Stamped(ExpireSection(s, key, seconds, now).state)
  {
    DropKeepsStamps(s, {key});
  }

  lemma ExpireByKeepsStamps(s: State, key: Bytes, seconds: int, clock: Clock)
    requires Stamped(s)
    ensures Stamped(ExpireBy(s, key, seconds, clock).state)
  {
    DropKeepsStamps(s, {key});
  }

  /** Every call keeps the stamps, on any table and at any time. */
  lemma SectionKeepsStamps(call: Call, s: State, now: int)
    requires Stamped(s)
    ensures Stamped(FirstSection(call, s, now).state)
  {
    match call
    case Read(key, q) => ReadKeepsStamps(s, key, q, now);
    case Ttl(_) =>
    case Exists(_) =>
    case Keys =>
    case FlushAll =>
    case Set(key, value) => PutKeepsStamps(s, key, Str(value), None);
    case Del(keys) =>
      DropKeysMeaning(s, keys, now);
      DropKeepsStamps(s, KeysOf(keys));
    case Expire(key, seconds) => ExpireKeepsStamps(s, key, seconds, now);
    case LPush(key, values) => PushKeepsStamps(s, key, values, true, now);
    case RPush(key, values) => PushKeepsStamps(s, key, values, false, now);
    case HSet(key, pairs) => HSetKeepsStamps(s, key, pairs, now);
    case HDel(key, dropped) => HDelKeepsStamps(s, key, dropped, now);
  }

  /** However often a section reads the clock. */
  lemma SectionByKeepsStamps(call: Call, s: State, clock: Clock)
    requires Stamped(s)
    ensures Stamped(SectionBy(call, s, clock).state)
  {
    match call
    case Del(keys) =>
      DropBySameState(s, keys, clock, clock(0));
      SectionKeepsStamps(call, s, clock(0));
    case Ttl(_) =>
    case Exists(_) =>
    case Keys =>
    case Expire(key, seconds) => ExpireByKeepsStamps(s, key, seconds, clock);
    case _ => SectionKeepsStamps(call, s, clock(0));
  }

  lemma {:induction false} SweepKeepsStamps(s: State, keys: seq<Bytes>, clock: Clock)
    requires Stamped(s)
    ensures Stamped(SweepBy(s, keys, clock))
  {
    if keys != [] { SweepKeepsStamps(s, keys[..|keys| - 1], clock); }
  }

  lemma StepKeepsStamps(y: Interleaving.System, step: Interleaving.Step)
    requires Interleaving.Enabled(y, step) && Stamped(y.state)
    ensures Stamped(Interleaving.Next(y, step).state)
  {
    match step
    case Begin(_, call, clock) => SectionByKeepsStamps(call, y.state, clock);
    case Sweep(clock) => SweepKeepsStamps(y.state, y.candidates.value, clock);
    case _ =>
  }

  /** In every reachable state of every interleaving, stamps are distinct and below the clock. */
  lemma {:induction false} RunKeepsStamps(y: Interleaving.System, steps: seq<Interleaving.Step>)
    requires Interleaving.Schedule(y, steps) && Stamped(y.state)
    ensures Stamped(Interleaving.Final(y, steps).state)
    decreases |steps|
  {
    if steps != [] {
      StepKeepsStamps(y, steps[0]);
      RunKeepsStamps(Interleaving.Next(y, steps[0]), steps[1..]);
    }
  }

  // ---------------------------------------------------------------- recency

  /** The key was touched after every other one. */
  ghost predicate Newest(key: Bytes, space: Space) {
    key in space && forall k | k in space && k != key :: space[k].stamp < space[key].stamp
  }

  /** No stamp but that of `key` has changed. */
  ghost predicate OthersAsBefore(key: Bytes, before: Space, after: Space) {
    forall k | k in after && k != key :: k in before && after[k].stamp == before[k].stamp
  }

  lemma TouchIsNewest(s: State, key: Bytes)
    requires Stamped(s) && key in s.space
    ensures Newest(key, Touch(s, key).space) && OthersAsBefore(key, s.space, Touch(s, key).space)
  {
  }

  lemma PutIsNewest(s: State, key: Bytes, value: Value, deadline: Option<int>)
    requires Stamped(s)
    ensures Newest(key, Put(s, key, value, deadline).space)
    ensures OthersAsBefore(key, s.space, Put(s, key, value, deadline).space)
  {
  }

  lemma CreateIsOld(s: State, key: Bytes, empty: Value, now: int)
    requires Stamped(s)
    ensures Stamped(GetOrCreate(s, key, empty, now))
    ensures OthersAsBefore(key, s.space, GetOrCreate(s, key, empty, now).space)
  {
    CreateKeepsStamps(s, key, empty, now);
  }

  lemma PushIsNewest(s: State, key: Bytes, values: seq<Bytes>, front: bool, now: int)
    requires Stamped(s) && !PushSection(s, key, values, front, now).reply.WrongType?
    ensures Newest(key, PushSection(s, key, values, front, now).state.space)
    ensures OthersAsBefore(key, s.space, PushSection(s, key, values, front, now).state.space)
  {
    var t := GetOrCreate(s, key, List([]), now);
    CreateIsOld(s, key, List([]), now);
    var items := t.space[key].value.items;
    var grown := if front then PushFront(items, values) else items + values;
    PutIsNewest(t, key, List(grown), t.space[key].deadline);
  }

  lemma HSetIsNewest(s: State, key: Bytes, pairs: seq<(Bytes, Bytes)>, now: int)
    requires Stamped(s) && !HSetSection(s, key, pairs, now).reply.WrongType?
    ensures Newest(key, HSetSection(s, key, pairs, now).state.space)
    ensures OthersAsBefore(key, s.space, HSetSection(s, key, pairs, now).state.space)
  {
    var t := GetOrCreate(s, key, Hash(map[]), now);
    CreateIsOld(s, key, Hash(map[]), now);
    PutIsNewest(t, key, Hash(SetFields(t.space[key].value.fields, pairs).0), t.space[key].deadline);
  }

  /** The key that a call uses, and so makes the most recent, if it does not fail. */
  function Uses(call: Call): Option<Bytes> {
    match call
    case Read(key, _) => Some(key)
    case Set(key, _) => Some(key)
    case LPush(key, _) => Some(key)
    case RPush(key, _) => Some(key)
    case HSet(key, _) => Some(key)
    case HDel(key, _) => Some(key)
    case _ => None
  }

  /** A call that does not fail makes the live key it uses the most recent of all, and leaves every other stamp; a call
      that uses none leaves all stamps. */
  lemma UseIsRecent(call: Call, s: State, now: int)
    requires Stamped(s) && !FirstSection(call, s, now).reply.WrongType?
    ensures var after := FirstSection(call, s, now).state.space;
      match Uses(call)
      case Some(key) =>
        (key in after && !Expired(after[key], now) ==> Newest(key, after)) && OthersAsBefore(key, s.space, after)
      case None => forall k | k in after :: k in s.space && after[k].stamp == s.space[k].stamp
  {
    match call
    case Read(key, q) => if key in s.space { TouchIsNewest(s, key); }
    case Set(key, value) => PutIsNewest(s, key, Str(value), None);
    case Del(keys) => DropKeysMeaning(s, keys, now);
    case LPush(key, values) => PushIsNewest(s, key, values, true, now);
    case RPush(key, values) => PushIsNewest(s, key, values, false, now);
    case HSet(key, pairs) => HSetIsNewest(s, key, pairs, now);
    case HDel(key, dropped) => HDelIsNewest(s, key, dropped, now);
    case _ =>
  }

  lemma HDelIsNewest(s: State, key: Bytes, dropped: seq<Bytes>, now: int)
    requires Stamped(s) && !HDelSection(s, key, dropped, now).reply.WrongType?
    ensures var after := HDelSection(s, key, dropped, now).state.space;
      (key in after && !Expired(after[key], now) ==> Newest(key, after)) && OthersAsBefore(key, s.space, after)
  {
    if key in s.space && !Expired(s.space[key], now) {
      PutIsNewest(s, key, Hash(DropFields(s.space[key].value.fields, dropped).0), s.space[key].deadline);
    }
  }

  // ---------------------------------------------------------------- eviction

  /** `victim` is in the sample, and no stamp of the sample is older than its own. */
  predicate LeastRecent(sample: seq<(Bytes, Entry)>, victim: Bytes, stamp: nat) {
    && (exists i :: 0 <= i < |sample| && sample[i].0 == victim && sample[i].1.stamp == stamp)
    && forall i | 0 <= i < |sample| :: sample[i].1.stamp >= stamp
  }

  /** The first of the oldest entries of a sample. */
  function Oldest(sample: seq<(Bytes, Entry)>): (i: nat)
    requires sample != []
    ensures i < |sample|
  {
    var last := |sample| - 1;
    if last == 0 then 0
    else
      var i := Oldest(sample[..last]);
      if sample[last].1.stamp < sample[i].1.stamp then last else i
  }

  lemma {:induction false} OldestIsLeast(sample: seq<(Bytes, Entry)>)
    requires sample != []
    ensures forall j | 0 <= j < |sample| :: sample[j].1.stamp >= sample[Oldest(sample)].1.stamp
  {
    var last := |sample| - 1;
    if last > 0 {
      OldestIsLeast(sample[..last]);
      forall j | 0 <= j < last ensures sample[j].1.stamp >= sample[Oldest(sample[..last])].1.stamp {
        assert sample[..last][j] == sample[j];
      }
    }
  }

  /** The scan for the oldest stamp of a sample. */
  method PickVictim(sample: seq<(Bytes, Entry)>) returns (victim: nat)
    requires sample != []
    ensures victim == Oldest(sample)
  {
    victim := 0;
    var oldest := sample[0].1.stamp;
    for i := 1 to |sample|
      invariant victim == Oldest(sample[..i]) && oldest == sample[victim].1.stamp
    {
      assert sample[..i + 1][..i] == sample[..i];
      var accessed := sample[i].1.stamp;
      if accessed < oldest { oldest, victim := accessed, i; }
    }
    assert sample[..|sample|] == sample;
  }

  /** Since stamps are distinct, the victim of a sample is unique: every other key of it was touched later. */
  lemma VictimIsUnique(sample: seq<(Bytes, Entry)>, victim: Bytes, s: State, i: nat)
    requires Stamped(s) && L.AreEntries(sample, s.space) && victim in s.space && i < |sample|
    requires LeastRecent(sample, victim, s.space[victim].stamp)
    ensures sample[i].0 == victim || sample[i].1.stamp > s.space[victim].stamp
  {
    assert sample[i].0 in s.space;
  }

  /** The key touched last of all is the victim only of a sample that holds no other key. */
  lemma MostRecentIsSpared(sample: seq<(Bytes, Entry)>, victim: Bytes, s: State, latest: Bytes)
    requires Stamped(s) && L.AreEntries(sample, s.space) && victim in s.space && latest in s.space
    requires LeastRecent(sample, victim, s.space[victim].stamp)
    requires forall k | k in s.space :: s.space[k].stamp <= s.space[latest].stamp
    ensures victim == latest <==> forall i | 0 <= i < |sample| :: sample[i].0 == latest
  {
    var i :| 0 <= i < |sample| && sample[i].0 == victim;
    if victim == latest {
      forall j | 0 <= j < |sample| ensures sample[j].0 == latest { VictimIsUnique(sample, victim, s, j); }
    }
  }
}
