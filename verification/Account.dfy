/** What the byte account counts, in plain lengths: each operation of the class moves `used` by the lengths that it adds
    or takes away, plus 48 for a key and 16 for an element or a field. */
module Account {
  import opened Bytes
  import opened MapSum
  import opened Keyspace
  import opened Readings
  import opened Eviction
  import L = Layout
  import S = Store

  // ---------------------------------------------------------------- values

  lemma StringWeighs(key: Bytes, e: Entry)
    requires e.value.Str?
    ensures EntryBytes(key, e) == |key| + 48 + |e.value.str|
  {
  }

  lemma EmptyWeighs(key: Bytes, e: Entry)
    requires e.value == List([]) || e.value == Hash(map[])
    ensures EntryBytes(key, e) == |key| + 48
  {
  }

  lemma {:induction false} FrontWeighs(x: Bytes, items: seq<Bytes>)
    ensures ItemBytes([x] + items) == ItemBytes(items) + |x| + 16
  {
    var all, none: seq<Bytes> := [x] + items, [];
    if items == [] {
      assert all[..0] == none && all[|all| - 1] == x;
    } else {
      var n := |items| - 1;
      FrontWeighs(x, items[..n]);
      assert all[..|all| - 1] == [x] + items[..n] && all[|all| - 1] == items[n];
    }
  }

  lemma ElementWeighs(key: Bytes, e: Entry, f: Entry, x: Bytes)
    requires e.value.List? && (f.value == List(e.value.items + [x]) || f.value == List([x] + e.value.items))
    ensures EntryBytes(key, f) == EntryBytes(key, e) + |x| + 16
  {
    var items := e.value.items;
    FrontWeighs(x, items);
    assert (items + [x])[..|items|] == items;
  }

  lemma FieldWeighs(key: Bytes, e: Entry, f: Entry, field: Bytes, v: Bytes)
    requires e.value.Hash? && f.value == Hash(e.value.fields[field := v])
    ensures EntryBytes(key, f) == EntryBytes(key, e)
      + if field in e.value.fields then |v| - |e.value.fields[field]| else |field| + |v| + 16
  {
    var fields := e.value.fields;
    SumSet(fields, FieldBytes, field, v);
    if field in fields { SumOut(fields, FieldBytes, field); } else { assert fields - {field} == fields; }
  }

  lemma LostFieldWeighs(key: Bytes, e: Entry, f: Entry, field: Bytes)
    requires e.value.Hash? && field in e.value.fields && f.value == Hash(e.value.fields - {field})
    ensures EntryBytes(key, e) == EntryBytes(key, f) + |field| + |e.value.fields[field]| + 16
  {
    SumOut(e.value.fields, FieldBytes, field);
  }

  // ---------------------------------------------------------------- tables

  lemma Replaced(space: Space, key: Bytes, e: Entry)
    ensures SpaceBytes(space[key := e])
         == SpaceBytes(space) + EntryBytes(key, e) - if key in space then EntryBytes(key, space[key]) else 0
  {
    SumSet(space, EntryBytes, key, e);
    if key in space { SumOut(space, EntryBytes, key); } else { assert space - {key} == space; }
  }

  lemma Removed(space: Space, key: Bytes)
    requires key in space
    ensures SpaceBytes(space) == SpaceBytes(space - {key}) + EntryBytes(key, space[key])
  {
    SumOut(space, EntryBytes, key);
  }

  // ---------------------------------------------------------------- the class, without a budget

  /** SET on an absent key, and over a string. */
  method Set(store: S.Store, key: Bytes, value: Bytes, rounds: Rounds)
    requires store.Valid() && store.maxMemory == 0
    requires key in store.data.contents ==> store.data.contents[key].value.Str?
    modifies store`used, store`accessClock, store`stalled, store.data
    ensures key !in old(store.data.contents) ==> store.used == old(store.used) + |key| + 48 + |value|
    ensures key in old(store.data.contents) ==>
      store.used == old(store.used) + |value| - |old(store.data.contents)[key].value.str|
  {
    ghost var s := store.Now();
    ghost var e := Entry(Str(value), None, s.clock);
    Replaced(s.space, key, e);
    StringWeighs(key, e);
    if key in s.space { StringWeighs(key, s.space[key]); }
    store.Set(key, value, rounds);
    assert store.data.contents == s.space[key := e];
  }

  /** What a key without a deadline holds is live. */
  ghost predicate Lasting(space: Space, key: Bytes) {
    key in space && space[key].deadline.None?
  }

  lemma PushedOne(s: State, key: Bytes, x: Bytes, front: bool, now: int)
    requires Lasting(s.space, key) && s.space[key].value.List?
    ensures var f := PushSection(s, key, [x], front, now);
      !f.reply.WrongType? && SpaceBytes(f.state.space) == SpaceBytes(s.space) + |x| + 16
  {
    var e := s.space[key];
    var grown := if front then [x] + e.value.items else e.value.items + [x];
    assert PushFront(e.value.items, [x]) == [x] + e.value.items by { assert [x][1..] == []; }
    var f := Entry(List(grown), e.deadline, s.clock);
    assert PushSection(s, key, [x], front, now).state.space == s.space[key := f];
    Replaced(s.space, key, f);
    ElementWeighs(key, e, f, x);
  }

  lemma PushedFirst(s: State, key: Bytes, x: Bytes, front: bool, now: int)
    requires key !in s.space
    ensures var f := PushSection(s, key, [x], front, now);
      !f.reply.WrongType? && SpaceBytes(f.state.space) == SpaceBytes(s.space) + |key| + 48 + |x| + 16
  {
    var t := Put(s, key, List([]), None);
    assert t == GetOrCreate(s, key, List([]), now);
    Replaced(s.space, key, t.space[key]);
    EmptyWeighs(key, t.space[key]);
    var none: seq<Bytes> := [];
    var f := Entry(List([x]), None, t.clock);
    assert PushFront(none, [x]) == [x] by { assert [x][1..] == none; }
    assert none + [x] == [x] == [x] + none;
    assert PushSection(s, key, [x], front, now).state.space == t.space[key := f];
    Replaced(t.space, key, f);
    ElementWeighs(key, t.space[key], f, x);
  }

  /** LPUSH or RPUSH of one value onto a list, or under an absent key. */
  method Push(store: S.Store, key: Bytes, x: Bytes, front: bool, now: int, rounds: Rounds)
    requires store.Valid() && store.maxMemory == 0
    requires key in store.data.contents ==> Lasting(store.data.contents, key) && store.data.contents[key].value.List?
    modifies store`used, store`accessClock, store`stalled, store.data
    ensures key in old(store.data.contents) ==> store.used == old(store.used) + |x| + 16
    ensures key !in old(store.data.contents) ==> store.used == old(store.used) + |key| + 48 + |x| + 16
  {
    ghost var s := store.Now();
    if key in s.space { PushedOne(s, key, x, front, now); } else { PushedFirst(s, key, x, front, now); }
    var _ := store.Push(key, [x], front, now, rounds);
  }

  lemma OnePair(fields: map<Bytes, Bytes>, field: Bytes, v: Bytes)
    ensures SetFields(fields, [(field, v)]).0 == fields[field := v]
  {
    var none: seq<(Bytes, Bytes)>, one := [], [(field, v)];
    assert one[..0] == none && SetFields(fields, none) == (fields, 0);
  }

  lemma SetOne(s: State, key: Bytes, field: Bytes, v: Bytes, now: int)
    requires Lasting(s.space, key) && s.space[key].value.Hash?
    ensures var f := HSetSection(s, key, [(field, v)], now); var fields := s.space[key].value.fields;
      && !f.reply.WrongType?
      && SpaceBytes(f.state.space) == SpaceBytes(s.space)
           + if field in fields then |v| - |fields[field]| else |field| + |v| + 16
  {
    var e := s.space[key];
    OnePair(e.value.fields, field, v);
    var f := Entry(Hash(e.value.fields[field := v]), e.deadline, s.clock);
    assert HSetSection(s, key, [(field, v)], now).state.space == s.space[key := f];
    Replaced(s.space, key, f);
    FieldWeighs(key, e, f, field, v);
  }

  lemma SetFirst(s: State, key: Bytes, field: Bytes, v: Bytes, now: int)
    requires key !in s.space
    ensures var f := HSetSection(s, key, [(field, v)], now);
      !f.reply.WrongType? && SpaceBytes(f.state.space) == SpaceBytes(s.space) + |key| + 48 + |field| + |v| + 16
  {
    var t, none: map<Bytes, Bytes> := Put(s, key, Hash(map[]), None), map[];
    assert t == GetOrCreate(s, key, Hash(map[]), now);
    Replaced(s.space, key, t.space[key]);
    EmptyWeighs(key, t.space[key]);
    OnePair(none, field, v);
    var f := Entry(Hash(none[field := v]), None, t.clock);
    assert HSetSection(s, key, [(field, v)], now).state.space == t.space[key := f];
    Replaced(t.space, key, f);
    FieldWeighs(key, t.space[key], f, field, v);
  }

  /** HSET of a new field, of a present one, or under an absent key. */
  method HSet(store: S.Store, key: Bytes, field: Bytes, v: Bytes, now: int, rounds: Rounds)
    requires store.Valid() && store.maxMemory == 0
    requires key in store.data.contents ==> Lasting(store.data.contents, key) && store.data.contents[key].value.Hash?
    modifies store`used, store`accessClock, store`stalled, store.data
    ensures key !in old(store.data.contents) ==> store.used == old(store.used) + |key| + 48 + |field| + |v| + 16
    ensures key in old(store.data.contents) ==> var fields := old(store.data.contents)[key].value.fields;
      store.used == old(store.used) + if field in fields then |v| - |fields[field]| else |field| + |v| + 16
  {
    ghost var s := store.Now();
    if key in s.space { SetOne(s, key, field, v, now); } else { SetFirst(s, key, field, v, now); }
    var _ := store.HSet(key, [(field, v)], now, rounds);
  }

  lemma OneField(fields: map<Bytes, Bytes>, field: Bytes)
    ensures DropFields(fields, [field]).0 == fields - {field}
  {
    var none: seq<Bytes>, one := [], [field];
    assert one[..0] == none && DropFields(fields, none) == (fields, 0);
  }

  lemma DroppedOne(s: State, key: Bytes, field: Bytes, now: int)
    requires Lasting(s.space, key) && s.space[key].value.Hash? && field in s.space[key].value.fields
    ensures var fields, after := s.space[key].value.fields, HDelSection(s, key, [field], now).state.space;
      SpaceBytes(s.space) == SpaceBytes(after)
        + |field| + |fields[field]| + 16 + if fields.Keys == {field} then |key| + 48 else 0
  {
    var e := s.space[key];
    var rest := e.value.fields - {field};
    OneField(e.value.fields, field);
    var f := Entry(Hash(rest), e.deadline, s.clock);
    LostFieldWeighs(key, e, f, field);
    if e.value.fields.Keys == {field} {
      assert rest == map[];
      Removed(s.space, key);
      EmptyWeighs(key, f);
    } else {
      var g :| g in e.value.fields.Keys && g != field;
      assert g in rest;
      Replaced(s.space, key, f);
    }
  }

  /** HDEL of a field; of the last one, the key goes too. */
  method HDel(store: S.Store, key: Bytes, field: Bytes, now: int)
    requires store.Valid() && Lasting(store.data.contents, key) && store.data.contents[key].value.Hash?
    requires field in store.data.contents[key].value.fields
    modifies store`used, store`accessClock, store.data
    ensures var fields := old(store.data.contents)[key].value.fields;
      old(store.used) == store.used + |field| + |fields[field]| + 16 + if fields.Keys == {field} then |key| + 48 else 0
  {
    DroppedOne(store.Now(), key, field, now);
    var _ := store.HDel(key, [field], now);
  }

  /** DEL of a string gives back all that its SET took. */
  method SetThenDel(store: S.Store, key: Bytes, value: Bytes, clock: Clock, rounds: Rounds)
    requires store.Valid() && store.maxMemory == 0 && key !in store.data.contents
    modifies store`used, store`accessClock, store`stalled, store.data
    ensures store.used == old(store.used) && store.data.contents == old(store.data.contents)
  {
    ghost var s := store.Now();
    store.Set(key, value, rounds);
    ghost var t := store.Now();
    assert t.space == s.space[key := Entry(Str(value), None, s.clock)];
    DelOne(t, key, clock);
    var _ := store.Del([key], clock);
    assert t.space - {key} == s.space;
  }

  lemma DelOne(s: State, key: Bytes, clock: Clock)
    ensures DropBy(s, [key], clock).0.space == s.space - {key}
  {
    var none: seq<Bytes>, one := [], [key];
    assert one[..0] == none && DropBy(s, none, clock) == (s, 0);
  }
}
