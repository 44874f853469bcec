/** The reference: a map with deadlines whose operations never see an expired key.
    Every critical section of the store refines it. */
module Atomic {
  import opened Bytes
  import opened Keyspace
  import opened Machine

  datatype Timed = Timed(value: Value, deadline: Option<int>)

  type Live = map<Bytes, Timed>

  /** What is live in the table at time `t`. */
  function View(space: Space, t: int): Live {
    map k | k in space && !Expired(space[k], t) :: Timed(space[k].value, space[k].deadline)
  }

  /** What of a live map is still live at time `t`. */
  function Purge(live: Live, t: int): Live {
    map k | k in live && !(live[k].deadline.Some? && t >= live[k].deadline.value) :: live[k]
  }

  /** The keys that occur in a list. */
  function KeysOf(keys: seq<Bytes>): set<Bytes> {
    set k | k in keys
  }

  function Occurrences(live: Live, keys: seq<Bytes>): nat {
    if keys == [] then 0
    else Occurrences(live, keys[..|keys| - 1]) + (if keys[|keys| - 1] in live then 1 else 0)
  }

  function Reverse(xs: seq<Bytes>): seq<Bytes> {
    if xs == [] then [] else Reverse(xs[1..]) + [xs[0]]
  }

  /** The map of a list of pairs; the last pair of a field counts. */
  function MapOf(pairs: seq<(Bytes, Bytes)>): map<Bytes, Bytes> {
    if pairs == [] then map[] else MapOf(pairs[..|pairs| - 1])[pairs[|pairs| - 1].0 := pairs[|pairs| - 1].1]
  }

  function DeadlineAt(live: Live, key: Bytes): Option<int> {
    if key in live then live[key].deadline else None
  }

  function AtomicPush(live: Live, key: Bytes, values: seq<Bytes>, front: bool): (Live, Reply) {
    if key in live && !live[key].value.List? then (live, WrongType)
    else
      var items := if key in live then live[key].value.items else [];
      var grown := if front then Reverse(values) + items else items + values;
      (live[key := Timed(List(grown), DeadlineAt(live, key))], Number(|grown|))
  }

  function AtomicHSet(live: Live, key: Bytes, pairs: seq<(Bytes, Bytes)>): (Live, Reply) {
    if key in live && !live[key].value.Hash? then (live, WrongType)
    else
      var fields := if key in live then live[key].value.fields else map[];
      (live[key := Timed(Hash(fields + MapOf(pairs)), DeadlineAt(live, key))],
       Number(|MapOf(pairs).Keys - fields.Keys|))
  }

  function AtomicHDel(live: Live, key: Bytes, dropped: seq<Bytes>): (Live, Reply) {
    if key !in live then (live, Number(0))
    else if !live[key].value.Hash? then (live, WrongType)
    else
      var fields := live[key].value.fields;
      var rest := fields - KeysOf(dropped);
      (if rest == map[] then live - {key} else live[key := live[key].(value := Hash(rest))],
       Number(|fields.Keys * KeysOf(dropped)|))
  }

  // ---------------------------------------------------------------- reading the reference map

  /** The list under a key: an absent key holds an empty one, and a key of another type none. */
  function ListUnder(live: Live, key: Bytes): Option<seq<Bytes>> {
    if key !in live then Some([]) else if live[key].value.List? then Some(live[key].value.items) else None
  }

  function HashUnder(live: Live, key: Bytes): Option<map<Bytes, Bytes>> {
    if key !in live then Some(map[]) else if live[key].value.Hash? then Some(live[key].value.fields) else None
  }

  /** Where a Redis index points in a list of `n`: a negative one counts from the end.  It may point outside. */
  function Position(index: int, n: nat): int {
    if index < 0 then n + index else index
  }

  /** The elements at the positions from `lo` to `hi`, both included, as far as there are any. */
  function Window(items: seq<Bytes>, lo: int, hi: int): seq<Bytes> {
    if items == [] then []
    else
      var last := |items| - 1;
      Window(items[..last], lo, hi) + (if lo <= last <= hi then [items[last]] else [])
  }

  function ReadList(xs: Option<seq<Bytes>>, q: Query): Reply
    requires q.LLen? || q.LRange?
  {
    match xs
    case None => WrongType
    case Some(items) =>
      if q.LLen? then Number(|items|)
      else Texts(Window(items, Position(q.start, |items|), Position(q.stop, |items|)))
  }

  function ReadHash(m: Option<map<Bytes, Bytes>>, q: Query): Reply
    requires !q.Get? && !q.LLen? && !q.LRange?
  {
    match m
    case None => WrongType
    case Some(fields) =>
      match q
      case HGet(field) => if field in fields then Text(fields[field]) else Nil
      case HExists(field) => Number(if field in fields then 1 else 0)
      case HLen => Number(|fields.Keys|)
      case HGetAll => Fields(fields)
      case HKeys => KeySet(fields.Keys)
      case HVals => Values(fields)
  }

  /** What a read of the reference map answers. */
  function ReadLive(live: Live, key: Bytes, q: Query): Reply {
    match q
    case Get =>
      if key !in live then Nil
      else if live[key].value.Str? then Text(live[key].value.str)
      else WrongType
    case LLen => ReadList(ListUnder(live, key), q)
    case LRange(_, _) => ReadList(ListUnder(live, key), q)
    case _ => ReadHash(HashUnder(live, key), q)
  }

  /** The whole second nearest to a time left, after cutting it to milliseconds. */
  function NearestSecond(ns: int): (r: int)
    requires ns > 0
    ensures 1000 * r - 500 <= ns / 1_000_000 < 1000 * r + 500
  {
    (ns / 1_000_000 + 500) / 1000
  }

  /** One call on the reference map; no entry of `live` is expired at `now`. */
  ghost function Apply(call: Call, live: Live, now: int): (Live, Reply) {
    match call
    case Read(key, q) => (live, ReadLive(live, key, q))
    case Ttl(key) =>
      (live, Number(if key !in live then -2
                    else if live[key].deadline.None? then -1
                    else if live[key].deadline.value > now then NearestSecond(live[key].deadline.value - now)
                    else 0))
    case Exists(keys) => (live, Number(Occurrences(live, keys)))
    case Keys => (live, KeySet(live.Keys))
    case Set(key, value) => (live[key := Timed(Str(value), None)], Ok)
    case Del(keys) => (live - KeysOf(keys), Number(|live.Keys * KeysOf(keys)|))
    case FlushAll => (map[], Ok)
    case Expire(key, seconds) =>
      if key !in live then (live, Number(0))
      else if seconds <= 0 then (live - {key}, Number(1))
      else (live[key := live[key].(deadline := Some(now + seconds * 1_000_000_000))], Number(1))
    case LPush(key, values) => AtomicPush(live, key, values, true)
    case RPush(key, values) => AtomicPush(live, key, values, false)
    case HSet(key, pairs) => AtomicHSet(live, key, pairs)
    case HDel(key, dropped) => AtomicHDel(live, key, dropped)
  }

  // ---------------------------------------------------------------- time passes

  lemma ViewLater(space: Space, t: int, u: int)
    requires t <= u
    ensures View(space, u) == Purge(View(space, t), u)
  {
  }

  /** A physical delete of an expired key is invisible, at that time and ever after. */
  lemma DropIsInvisible(s: State, key: Bytes, now: int, t: int)
    requires now <= t
    ensures View(DropIfExpired(s, key, now).space, t) == View(s.space, t)
  {
  }

  // ---------------------------------------------------------------- loops against their meaning

  lemma {:induction false} PushFrontReverses(items: seq<Bytes>, values: seq<Bytes>)
    ensures PushFront(items, values) == Reverse(values) + items
    decreases |values|
  {
    if values == [] {
      assert Reverse(values) + items == items;
    } else {
      PushFrontReverses([values[0]] + items, values[1..]);
      Assoc(Reverse(values[1..]), [values[0]], items);
    }
  }

  lemma MinusGrows(a: set<Bytes>, b: set<Bytes>, x: Bytes)
    ensures |a + {x} - b| == |a - b| + if x in a || x in b then 0 else 1
  {
    if x in a || x in b {
      assert a + {x} - b == a - b;
    } else {
      assert a + {x} - b == a - b + {x};
    }
  }

  lemma MeetGrows(a: set<Bytes>, b: set<Bytes>, x: Bytes)
    ensures |a * (b + {x})| == |a * b| + if x in a && x !in b then 1 else 0
  {
    if x in a && x !in b {
      assert a * (b + {x}) == a * b + {x};
    } else {
      assert a * (b + {x}) == a * b;
    }
  }

  lemma {:induction false} SetFieldsMeaning(fields: map<Bytes, Bytes>, pairs: seq<(Bytes, Bytes)>)
    ensures SetFields(fields, pairs).0 == fields + MapOf(pairs)
    ensures SetFields(fields, pairs).1 == |MapOf(pairs).Keys - fields.Keys|
  {
    if pairs == [] {
      NothingMerged(fields);
    } else {
      var front, last := pairs[..|pairs| - 1], pairs[|pairs| - 1];
      SetFieldsMeaning(fields, front);
      assert MapOf(pairs) == MapOf(front)[last.0 := last.1];
      MergeOne(fields, MapOf(front), last.0, last.1);
      CountOne(fields.Keys, MapOf(front), last.0, last.1);
    }
  }

  lemma NothingMerged(fields: map<Bytes, Bytes>)
    ensures fields + MapOf([]) == fields && MapOf([]).Keys - fields.Keys == {}
  {
  }

  lemma MergeOne(fields: map<Bytes, Bytes>, m: map<Bytes, Bytes>, f: Bytes, v: Bytes)
    ensures (fields + m)[f := v] == fields + m[f := v]
  {
  }

  lemma CountOne(fields: set<Bytes>, m: map<Bytes, Bytes>, f: Bytes, v: Bytes)
    ensures |m[f := v].Keys - fields| == |m.Keys - fields| + if f in fields || f in m then 0 else 1
  {
    assert m[f := v].Keys == m.Keys + {f};
    MinusGrows(m.Keys, fields, f);
  }

  lemma DropLast<V>(m: map<Bytes, V>, ks: set<Bytes>, k: Bytes)
    ensures m - ks - {k} == m - (ks + {k})
    ensures k !in m - ks ==> m - ks == m - (ks + {k})
  {
  }

  lemma {:induction false} DropFieldsMeaning(fields: map<Bytes, Bytes>, dropped: seq<Bytes>)
    ensures DropFields(fields, dropped).0 == fields - KeysOf(dropped)
    ensures DropFields(fields, dropped).1 == |fields.Keys * KeysOf(dropped)|
  {
    if dropped == [] {
      assert fields - KeysOf(dropped) == fields && fields.Keys * KeysOf(dropped) == {};
    } else {
      var front, f := dropped[..|dropped| - 1], dropped[|dropped| - 1];
      DropFieldsMeaning(fields, front);
      KeysOfSnoc(dropped);
      DropLast(fields, KeysOf(front), f);
      MeetGrows(fields.Keys, KeysOf(front), f);
    }
  }

  lemma KeysOfSnoc(keys: seq<Bytes>)
    requires keys != []
    ensures KeysOf(keys) == KeysOf(keys[..|keys| - 1]) + {keys[|keys| - 1]}
  {
    assert keys == keys[..|keys| - 1] + [keys[|keys| - 1]];
  }

  lemma {:induction false} CountLiveMeaning(space: Space, keys: seq<Bytes>, now: int)
    ensures CountLive(space, keys, now).0 == Occurrences(View(space, now), keys)
  {
    if keys != [] { CountLiveMeaning(space, keys[..|keys| - 1], now); }
  }

  lemma {:induction false} DropKeysMeaning(s: State, keys: seq<Bytes>, now: int)
    ensures DropKeys(s, keys, now).0.space == s.space - KeysOf(keys) && DropKeys(s, keys, now).0.clock == s.clock
    ensures DropKeys(s, keys, now).1 == |View(s.space, now).Keys * KeysOf(keys)|
  {
    if keys == [] {
      assert s.space - KeysOf(keys) == s.space && View(s.space, now).Keys * KeysOf(keys) == {};
    } else {
      var front, key := keys[..|keys| - 1], keys[|keys| - 1];
      DropKeysMeaning(s, front, now);
      KeysOfSnoc(keys);
      DropLast(s.space, KeysOf(front), key);
      MeetGrows(View(s.space, now).Keys, KeysOf(front), key);
      assert key in View(s.space, now).Keys <==> key in s.space && !Expired(s.space[key], now);
    }
  }

  // ---------------------------------------------------------------- every section refines the reference

  /** The section answers as the reference does on the live view, and leaves the live view the reference leaves. */
  ghost predicate Refines(call: Call, s: State, now: int) {
    var f := FirstSection(call, s, now);
    Apply(call, View(s.space, now), now) == (View(f.state.space, now), f.reply)
  }

  lemma TouchIsInvisible(s: State, key: Bytes, t: int)
    requires key in s.space
    ensures View(Touch(s, key).space, t) == View(s.space, t)
  {
  }

  function Stretch(items: seq<Bytes>, lo: int, hi: int): seq<Bytes> {
    var from, upto := (if lo < 0 then 0 else lo), (if hi >= |items| then |items| else hi + 1);
    if from < upto then items[from..upto] else []
  }

  lemma StretchGrows(items: seq<Bytes>, x: Bytes, lo: int, hi: int)
    ensures Stretch(items + [x], lo, hi) == Stretch(items, lo, hi) + if lo <= |items| <= hi then [x] else []
  {
    var n, from := |items|, if lo < 0 then 0 else lo;
    if lo <= n <= hi {
      assert (items + [x])[from..n + 1] == items[from..n] + [x];
    } else if hi < n && from < hi + 1 {
      assert (items + [x])[from..hi + 1] == items[from..hi + 1];
    }
  }

  lemma {:induction false} WindowIs(items: seq<Bytes>, lo: int, hi: int)
    ensures Window(items, lo, hi) == Stretch(items, lo, hi)
  {
    if items != [] {
      var last := |items| - 1;
      WindowIs(items[..last], lo, hi);
      StretchGrows(items[..last], items[last], lo, hi);
      assert items[..last] + [items[last]] == items;
    }
  }

  lemma SliceIsWindow(items: seq<Bytes>, start: int, stop: int)
    ensures Slice(items, start, stop) == Window(items, Position(start, |items|), Position(stop, |items|))
  {
    WindowIs(items, Position(start, |items|), Position(stop, |items|));
  }

  lemma RangeIsRead(live: Live, key: Bytes, start: int, stop: int)
    ensures ReadLive(live, key, LRange(start, stop))
         == if key in live then Answer(LRange(start, stop), live[key].value) else IfAbsent(LRange(start, stop))
  {
    var xs := ListUnder(live, key);
    if xs.Some? { SliceIsWindow(xs.value, start, stop); }
  }

  /** The store's answers are those of the reference. */
  lemma AnswerIsRead(live: Live, key: Bytes, q: Query)
    ensures ReadLive(live, key, q) == if key in live then Answer(q, live[key].value) else IfAbsent(q)
  {
    if q.LRange? { RangeIsRead(live, key, q.start, q.stop); }
  }

  lemma ReadRefines(s: State, key: Bytes, q: Query, now: int)
    ensures Refines(Read(key, q), s, now)
  {
    AnswerIsRead(View(s.space, now), key, q);
    if key in s.space { TouchIsInvisible(s, key, now); }
  }

  lemma PutView(s: State, key: Bytes, value: Value, deadline: Option<int>, t: int)
    requires deadline.Some? ==> t < deadline.value
    ensures View(Put(s, key, value, deadline).space, t) == View(s.space, t)[key := Timed(value, deadline)]
  {
  }

  lemma DropView(s: State, key: Bytes, t: int)
    ensures View(Drop(s, key).space, t) == View(s.space, t) - {key}
  {
  }

  /** Creating the key first does not change what is put there in the end. */
  lemma CreatedView(s: State, key: Bytes, empty: Value, now: int, timed: Timed)
    ensures var t := GetOrCreate(s, key, empty, now);
      && View(t.space, now)[key := timed] == View(s.space, now)[key := timed]
      && t.space[key].deadline == DeadlineAt(View(s.space, now), key)
      && t.space[key].value == (if key in View(s.space, now) then View(s.space, now)[key].value else empty)
  {
  }

  lemma PushRefines(s: State, key: Bytes, values: seq<Bytes>, front: bool, now: int)
    ensures var f := PushSection(s, key, values, front, now);
      AtomicPush(View(s.space, now), key, values, front) == (View(f.state.space, now), f.reply)
  {
    var t := GetOrCreate(s, key, List([]), now);
    var deadline := DeadlineAt(View(s.space, now), key);
    CreatedView(s, key, List([]), now, Timed(List([]), deadline));
    if t.space[key].value.List? {
      var items := t.space[key].value.items;
      PushFrontReverses(items, values);
      var grown := if front then PushFront(items, values) else items + values;
      PutView(t, key, List(grown), deadline, now);
      CreatedView(s, key, List([]), now, Timed(List(grown), deadline));
    }
  }

  lemma HSetRefines(s: State, key: Bytes, pairs: seq<(Bytes, Bytes)>, now: int)
    ensures Refines(HSet(key, pairs), s, now)
  {
    var t := GetOrCreate(s, key, Hash(map[]), now);
    var deadline := DeadlineAt(View(s.space, now), key);
    CreatedView(s, key, Hash(map[]), now, Timed(Hash(map[]), deadline));
    if t.space[key].value.Hash? {
      var fields := t.space[key].value.fields;
      SetFieldsMeaning(fields, pairs);
      var m := SetFields(fields, pairs).0;
      PutView(t, key, Hash(m), deadline, now);
      CreatedView(s, key, Hash(map[]), now, Timed(Hash(m), deadline));
    }
  }

  lemma HDelLive(s: State, key: Bytes, dropped: seq<Bytes>, now: int)
    requires key in s.space && !Expired(s.space[key], now) && s.space[key].value.Hash?
    ensures var f := HDelSection(s, key, dropped, now);
      AtomicHDel(View(s.space, now), key, dropped) == (View(f.state.space, now), f.reply)
  {
    var fields := s.space[key].value.fields;
    DropFieldsMeaning(fields, dropped);
    if fields - KeysOf(dropped) == map[] {
      DropView(s, key, now);
    } else {
      PutView(s, key, Hash(fields - KeysOf(dropped)), s.space[key].deadline, now);
    }
  }

  lemma HDelRefines(s: State, key: Bytes, dropped: seq<Bytes>, now: int)
    ensures Refines(HDel(key, dropped), s, now)
  {
    if key in s.space && !Expired(s.space[key], now) {
      if s.space[key].value.Hash? { HDelLive(s, key, dropped, now); }
    } else {
      HDelNothing(s, key, dropped, now);
    }
  }

  lemma HDelNothing(s: State, key: Bytes, dropped: seq<Bytes>, now: int)
    requires key !in View(s.space, now)
    ensures Refines(HDel(key, dropped), s, now)
  {
    DropView(s, key, now);
    assert View(s.space, now) - {key} == View(s.space, now);
  }

  lemma ExpireRefines(s: State, key: Bytes, seconds: int, now: int)
    ensures Refines(Expire(key, seconds), s, now)
  {
    var live := View(s.space, now);
    DropView(s, key, now);
    if key !in live {
      assert live - {key} == live;
    } else if seconds > 0 {
      var e := s.space[key].(deadline := Some(now + seconds * SECOND));
      assert View(s.space[key := e], now) == live[key := Timed(e.value, e.deadline)];
    }
  }

  lemma DelRefines(s: State, keys: seq<Bytes>, now: int)
    ensures Refines(Del(keys), s, now)
  {
    DropKeysMeaning(s, keys, now);
    DropSetView(s.space, KeysOf(keys), now);
  }

  lemma DropSetView(space: Space, keys: set<Bytes>, t: int)
    ensures View(space - keys, t) == View(space, t) - keys
  {
  }

  /** Every call's first critical section, on any table, with any keys already expired. */
  lemma SectionRefines(call: Call, s: State, now: int)
    ensures Refines(call, s, now)
  {
    match call
    case Read(key, q) => ReadRefines(s, key, q, now);
    case Ttl(key) =>
    case Exists(keys) => CountLiveMeaning(s.space, keys, now);
    case Keys => assert View(s.space, now).Keys == set k | k in s.space && !Expired(s.space[k], now);
    case Set(key, value) => PutView(s, key, Str(value), None, now);
    case Del(keys) => DelRefines(s, keys, now);
    case FlushAll =>
    case Expire(key, seconds) => ExpireRefines(s, key, seconds, now);
    case LPush(key, values) => PushRefines(s, key, values, true, now);
    case RPush(key, values) => PushRefines(s, key, values, false, now);
    case HSet(key, pairs) => HSetRefines(s, key, pairs, now);
    case HDel(key, dropped) => HDelRefines(s, key, dropped, now);
  }
}
