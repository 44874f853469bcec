/** The keyspace of src/store/store.cpp as values: what each critical section does to the physical entries.
    Times are nanoseconds of the steady clock; each critical section reads it once. */
module Keyspace {
  import opened Bytes
  import opened MapSum
  import opened Machine
  import L = Layout

  datatype Value = Str(str: Bytes) | List(items: seq<Bytes>) | Hash(fields: map<Bytes, Bytes>)

  /** A physical entry; `stamp` is the logical access time of approximate LRU. */
  datatype Entry = Entry(value: Value, deadline: Option<int>, stamp: nat)

  type Space = map<Bytes, Entry>

  /** The table, the access clock, and the table's edits so far, which determine where its nodes stand. */
  datatype State = State(space: Space, clock: nat, edits: L.Edits<Entry>)

  predicate Expired(e: Entry, now: int) {
    e.deadline.Some? && now >= e.deadline.value
  }

  // ---------------------------------------------------------------- memory estimate

  const ENTRY_OVERHEAD: nat := 48
  const ELEMENT_OVERHEAD: nat := 16
  const FIELD_OVERHEAD: nat := 16

  function ItemBytes(items: seq<Bytes>): nat {
    if items == [] then 0 else ItemBytes(items[..|items| - 1]) + |items[|items| - 1]| + ELEMENT_OVERHEAD
  }

  function FieldBytes(field: Bytes, value: Bytes): nat {
    |field| + |value| + FIELD_OVERHEAD
  }

  ghost function ValueBytes(v: Value): nat {
    match v
    case Str(s) => |s|
    case List(items) => ItemBytes(items)
    case Hash(fields) => Sum(fields, FieldBytes)
  }

  ghost function EntryBytes(key: Bytes, e: Entry): nat {
    |key| + ENTRY_OVERHEAD + ValueBytes(e.value)
  }

  ghost function SpaceBytes(space: Space): nat {
    Sum(space, EntryBytes)
  }

  // ---------------------------------------------------------------- steps on entries

  function Touch(s: State, key: Bytes): State
    requires key in s.space
  {
    var e := s.space[key].(stamp := s.clock);
    State(s.space[key := e], s.clock + 1, L.Save(s.edits, key, e))
  }

  function Drop(s: State, key: Bytes): State {
    s.(space := s.space - {key}, edits := L.Erase(s.edits, key))
  }

  /** Stores a value under a key and stamps it. */
  function Put(s: State, key: Bytes, value: Value, deadline: Option<int>): State {
    var e := Entry(value, deadline, s.clock);
    State(s.space[key := e], s.clock + 1, L.Save(s.edits, key, e))
  }

  function Clear(s: State): State {
    s.(space := map[], edits := L.Reset(s.edits))
  }

  /** DeleteIfExpired, and the body of the sweeper's second phase. */
  function DropIfExpired(s: State, key: Bytes, now: int): State {
    if key in s.space && Expired(s.space[key], now) then Drop(s, key) else s
  }

  function DropAllExpired(s: State, keys: seq<Bytes>, now: int): State
    decreases |keys|
  {
    if keys == [] then s else DropAllExpired(DropIfExpired(s, keys[0], now), keys[1..], now)
  }

  // ---------------------------------------------------------------- replies

  datatype Reply =
    | Ok
    | Nil
    | WrongType
    | Number(n: int)
    | Text(s: Bytes)
    | Texts(xs: seq<Bytes>)
    | KeySet(keys: set<Bytes>)
    | Fields(fields: map<Bytes, Bytes>)  // the pairs, in some order
    | Values(of: map<Bytes, Bytes>)      // the values of these fields, in some order

  // ---------------------------------------------------------------- single-key reads

  datatype Query =
    Get | LLen | LRange(start: int, stop: int)
    | HGet(field: Bytes) | HGetAll | HLen | HExists(field: Bytes) | HKeys | HVals

  /** The elements between two Redis indices, over unbounded integers. */
  function Slice(items: seq<Bytes>, start: int, stop: int): seq<Bytes> {
    var n := |items|;
    var lo := if start < 0 then n + start else start;
    var hi := if stop < 0 then n + stop else stop;
    var from := if lo < 0 then 0 else lo;
    var upto := if hi >= n then n else hi + 1;
    if from < upto then items[from..upto] else []
  }

  function Answer(q: Query, v: Value): Reply {
    match (q, v)
    case (Get, Str(s)) => Text(s)
    case (LLen, List(xs)) => Number(|xs|)
    case (LRange(start, stop), List(xs)) => Texts(Slice(xs, start, stop))
    case (HGet(f), Hash(m)) => if f in m then Text(m[f]) else Nil
    case (HGetAll, Hash(m)) => Fields(m)
    case (HLen, Hash(m)) => Number(|m|)
    case (HExists(f), Hash(m)) => Number(if f in m then 1 else 0)
    case (HKeys, Hash(m)) => KeySet(m.Keys)
    case (HVals, Hash(m)) => Values(m)
    case _ => WrongType
  }

  function IfAbsent(q: Query): Reply {
    match q
    case Get => Nil
    case HGet(_) => Nil
    case LRange(_, _) => Texts([])
    case HGetAll => Fields(map[])
    case HKeys => KeySet({})
    case HVals => Values(map[])
    case _ => Number(0)
  }

  // ---------------------------------------------------------------- every call's first critical section

  datatype Call =
    | Read(key: Bytes, query: Query)
    | Ttl(key: Bytes)
    | Exists(keys: seq<Bytes>)
    | Keys
    | Set(key: Bytes, value: Bytes)
    | Del(keys: seq<Bytes>)
    | FlushAll
    | Expire(key: Bytes, seconds: int)
    | LPush(key: Bytes, values: seq<Bytes>)
    | RPush(key: Bytes, values: seq<Bytes>)
    | HSet(key: Bytes, pairs: seq<(Bytes, Bytes)>)
    | HDel(key: Bytes, dropped: seq<Bytes>)

  /** The state after the section, the reply, and the keys it saw expired and left for DeleteIfExpired. */
  datatype Section = Section(state: State, reply: Reply, stale: seq<Bytes>)

  function ReadSection(s: State, key: Bytes, q: Query, now: int): Section {
    if key !in s.space then Section(s, IfAbsent(q), [])
    else if Expired(s.space[key], now) then Section(s, IfAbsent(q), [key])
    else
      var a := Answer(q, s.space[key].value);
      Section(if a.WrongType? then s else Touch(s, key), a, [])
  }

  /** Whole seconds left, to the nearest: milliseconds are truncated first. */
  function SecondsLeft(deadline: int, now: int): int {
    Truncated(ToMilliseconds(deadline - now) + 500, 1000)
  }

  /** Found live at `now`, its time left read off the clock at `seen`. */
  function TtlSection(s: State, key: Bytes, now: int, seen: int): Section {
    if key !in s.space then Section(s, Number(-2), [])
    else
      var e := s.space[key];
      if Expired(e, now) then Section(s, Number(-2), [key])
      else Section(s, Number(if e.deadline.None? then -1 else SecondsLeft(e.deadline.value, seen)), [])
  }

  /** How many of the keys are live, repetitions counted, and which were seen expired. */
  function CountLive(space: Space, keys: seq<Bytes>, now: int): (nat, seq<Bytes>) {
    if keys == [] then (0, [])
    else
      var (n, stale) := CountLive(space, keys[..|keys| - 1], now);
      var key := keys[|keys| - 1];
      if key !in space then (n, stale)
      else if Expired(space[key], now) then (n, stale + [key])
      else (n + 1, stale)
  }

  /** Deletes the keys in turn; an expired one goes too, but does not count. */
  function DropKeys(s: State, keys: seq<Bytes>, now: int): (State, nat) {
    if keys == [] then (s, 0)
    else
      var (t, n) := DropKeys(s, keys[..|keys| - 1], now);
      var key := keys[|keys| - 1];
      if key !in t.space then (t, n)
      else (Drop(t, key), if Expired(t.space[key], now) then n else n + 1)
  }

  function ExpireSection(s: State, key: Bytes, seconds: int, now: int): Section {
    if key !in s.space then Section(s, Number(0), [])
    else if Expired(s.space[key], now) then Section(Drop(s, key), Number(0), [])
    else if seconds <= 0 then Section(Drop(s, key), Number(1), [])
    else
      var e := s.space[key].(deadline := Some(now + seconds * SECOND));
      Section(s.(space := s.space[key := e], edits := L.Save(s.edits, key, e)), Number(1), [])
  }

  /** GetOrCreateList and GetOrCreateHash: an absent or expired key becomes `empty`. */
  function GetOrCreate(s: State, key: Bytes, empty: Value, now: int): State {
    if key !in s.space then Put(s, key, empty, None)
    else if Expired(s.space[key], now) then Put(Drop(s, key), key, empty, None)
    else s
  }

  /** Each value goes to the front in turn. */
  function PushFront(items: seq<Bytes>, values: seq<Bytes>): seq<Bytes>
    decreases |values|
  {
    if values == [] then items else PushFront([values[0]] + items, values[1..])
  }

  function PushSection(s: State, key: Bytes, values: seq<Bytes>, front: bool, now: int): Section {
    var t := GetOrCreate(s, key, List([]), now);
    match t.space[key].value
    case List(items) =>
      var grown := if front then PushFront(items, values) else items + values;
      Section(Put(t, key, List(grown), t.space[key].deadline), Number(|grown|), [])
    case _ => Section(t, WrongType, [])
  }

  /** Sets the fields in turn and counts the new ones. */
  function SetFields(fields: map<Bytes, Bytes>, pairs: seq<(Bytes, Bytes)>): (map<Bytes, Bytes>, nat) {
    if pairs == [] then (fields, 0)
    else
      var (m, n) := SetFields(fields, pairs[..|pairs| - 1]);
      var last := pairs[|pairs| - 1];
      (m[last.0 := last.1], if last.0 in m then n else n + 1)
  }

  /** Removes the fields in turn and counts those that were there. */
  function DropFields(fields: map<Bytes, Bytes>, dropped: seq<Bytes>): (map<Bytes, Bytes>, nat) {
    if dropped == [] then (fields, 0)
    else
      var (m, n) := DropFields(fields, dropped[..|dropped| - 1]);
      var f := dropped[|dropped| - 1];
      (m - {f}, if f in m then n + 1 else n)
  }

  function HSetSection(s: State, key: Bytes, pairs: seq<(Bytes, Bytes)>, now: int): Section {
    var t := GetOrCreate(s, key, Hash(map[]), now);
    match t.space[key].value
    case Hash(fields) =>
      var (m, added) := SetFields(fields, pairs);
      Section(Put(t, key, Hash(m), t.space[key].deadline), Number(added), [])
    case _ => Section(t, WrongType, [])
  }

  function HDelSection(s: State, key: Bytes, dropped: seq<Bytes>, now: int): Section {
    if key !in s.space then Section(s, Number(0), [])
    else if Expired(s.space[key], now) then Section(Drop(s, key), Number(0), [])
    else
      match s.space[key].value
      case Hash(fields) =>
        var (m, removed) := DropFields(fields, dropped);
        Section(if m == map[] then Drop(s, key) else Put(s, key, Hash(m), s.space[key].deadline), Number(removed), [])
      case _ => Section(s, WrongType, [])
  }

  /** The expired keys of the table, in some order. */
  ghost predicate ListsExpired(keys: seq<Bytes>, space: Space, now: int) {
    forall k: Bytes :: k in keys <==> k in space && Expired(space[k], now)
  }

  /** The entries of the table in bucket order. */
  function Physical(s: State): seq<(Bytes, Entry)> {
    L.Listing(L.After(s.edits).bs)
  }

  /** Of the listed keys, those whose entries are expired, or those whose entries are not, in order. */
  function Among(listing: seq<(Bytes, Entry)>, space: Space, now: int, expired: bool): seq<Bytes> {
    if listing == [] then []
    else
      var rest := Among(listing[..|listing| - 1], space, now, expired);
      var k := listing[|listing| - 1].0;
      if k in space && Expired(space[k], now) == expired then rest + [k] else rest
  }

  function StaleKeys(s: State, now: int): seq<Bytes> {
    Among(Physical(s), s.space, now, true)
  }

  function LiveKeys(s: State, now: int): seq<Bytes> {
    Among(Physical(s), s.space, now, false)
  }

  ghost function FirstSection(call: Call, s: State, now: int): Section {
    match call
    case Read(key, q) => ReadSection(s, key, q, now)
    case Ttl(key) => TtlSection(s, key, now, now)
    case Exists(keys) =>
      var (n, stale) := CountLive(s.space, keys, now);
      Section(s, Number(n), stale)
    case Keys =>
      Section(s, KeySet(set k | k in s.space && !Expired(s.space[k], now)),
              StaleKeys(s, now))
    case Set(key, value) => Section(Put(s, key, Str(value), None), Ok, [])
    case Del(keys) =>
      var (t, n) := DropKeys(s, keys, now);
      Section(t, Number(n), [])
    case FlushAll => Section(Clear(s), Ok, [])
    case Expire(key, seconds) => ExpireSection(s, key, seconds, now)
    case LPush(key, values) => PushSection(s, key, values, true, now)
    case RPush(key, values) => PushSection(s, key, values, false, now)
    case HSet(key, pairs) => HSetSection(s, key, pairs, now)
    case HDel(key, dropped) => HDelSection(s, key, dropped, now)
  }

  // ---------------------------------------------------------------- what a walk over the table finds

  /** The table is the one that its edits lead to. */
  ghost predicate Consistent(s: State) {
    L.Contents(s.edits) == s.space
  }

  lemma {:induction false} DropKeysConsistent(s: State, keys: seq<Bytes>, now: int)
    requires Consistent(s)
    ensures Consistent(DropKeys(s, keys, now).0)
  {
    if keys != [] { DropKeysConsistent(s, keys[..|keys| - 1], now); }
  }

  lemma CreateConsistent(s: State, key: Bytes, empty: Value, now: int)
    requires Consistent(s)
    ensures Consistent(GetOrCreate(s, key, empty, now))
  {
    if key in s.space && Expired(s.space[key], now) { assert Consistent(Drop(s, key)); }
  }

  lemma PushConsistent(s: State, key: Bytes, values: seq<Bytes>, front: bool, now: int)
    requires Consistent(s)
    ensures Consistent(PushSection(s, key, values, front, now).state)
  {
    CreateConsistent(s, key, List([]), now);
  }

  lemma HSetConsistent(s: State, key: Bytes, pairs: seq<(Bytes, Bytes)>, now: int)
    requires Consistent(s)
    ensures Consistent(HSetSection(s, key, pairs, now).state)
  {
    CreateConsistent(s, key, Hash(map[]), now);
  }

  lemma SectionConsistent(call: Call, s: State, now: int)
    requires Consistent(s)
    ensures Consistent(FirstSection(call, s, now).state)
  {
    match call
    case Del(keys) => DropKeysConsistent(s, keys, now);
    case LPush(key, values) => PushConsistent(s, key, values, true, now);
    case RPush(key, values) => PushConsistent(s, key, values, false, now);
    case HSet(key, pairs) => HSetConsistent(s, key, pairs, now);
    case _ =>
  }

  lemma {:induction false} AmongMembers(listing: seq<(Bytes, Entry)>, space: Space, now: int, expired: bool, k: Bytes)
    ensures k in Among(listing, space, now, expired)
       <==> k in L.KeySet(listing) && k in space && Expired(space[k], now) == expired
  {
    if listing != [] { AmongMembers(listing[..|listing| - 1], space, now, expired, k); }
  }

  predicate Distinct(keys: seq<Bytes>) {
    forall i, j | 0 <= i < j < |keys| :: keys[i] != keys[j]
  }

  lemma {:induction false} NotAmong(listing: seq<(Bytes, Entry)>, k: Bytes)
    requires forall i | 0 <= i < |listing| :: listing[i].0 != k
    ensures k !in L.KeySet(listing)
  {
    if listing != [] { NotAmong(listing[..|listing| - 1], k); }
  }

  lemma {:induction false} AmongDistinct(listing: seq<(Bytes, Entry)>, space: Space, now: int, expired: bool)
    requires forall i, j | 0 <= i < j < |listing| :: listing[i].0 != listing[j].0
    ensures Distinct(Among(listing, space, now, expired))
  {
    if listing != [] {
      var front, k := listing[..|listing| - 1], listing[|listing| - 1].0;
      AmongDistinct(front, space, now, expired);
      NotAmong(front, k);
      AmongMembers(front, space, now, expired, k);
    }
  }

  /** Keys and sweeps find every live key, or every expired one, exactly once. */
  lemma WalkFindsAll(s: State, now: int)
    requires Consistent(s)
    ensures forall k :: k in LiveKeys(s, now) <==> k in s.space && !Expired(s.space[k], now)
    ensures ListsExpired(StaleKeys(s, now), s.space, now)
    ensures Distinct(LiveKeys(s, now)) && Distinct(StaleKeys(s, now))
  {
    L.AfterHolds(s.edits);
    L.ListingIsAll(L.After(s.edits).bs, s.space);
    AmongDistinct(Physical(s), s.space, now, true);
    AmongDistinct(Physical(s), s.space, now, false);
    forall k: Bytes ensures k in LiveKeys(s, now) <==> k in s.space && !Expired(s.space[k], now) {
      AmongMembers(Physical(s), s.space, now, false, k);
    }
    forall k: Bytes ensures k in StaleKeys(s, now) <==> k in s.space && Expired(s.space[k], now) {
      AmongMembers(Physical(s), s.space, now, true, k);
    }
  }

  /** The elements of a set in some order. */
  ghost function Enumerate(keys: set<Bytes>): (r: seq<Bytes>)
    ensures forall k :: k in r <==> k in keys
  {
    if keys == {} then []
    else
      var k :| k in keys;
      var r := Enumerate(keys - {k});
      assert forall j :: j in [k] + r <==> j == k || j in r;
      [k] + r
  }
}
