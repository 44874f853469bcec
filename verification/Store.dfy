/** The Store class of src/store/store.cpp: running memory accounting and eviction over the hash table.
    Each method is one call; `now` is the clock reading of its critical section, `later` that of a deferred one. */
module Store {
  import opened Bytes
  import opened MapSum
  import opened Keyspace
  import opened Readings
  import opened Atomic
  import opened Stamps
  import opened Eviction
  import opened HashTable
  import opened Persistence
  import opened Machine
  import L = Layout
  import ListIndex
  import R = Rdb

  // ---------------------------------------------------------------- accounting

  lemma BytesWith(space: Space, key: Bytes, e: Entry)
    ensures SpaceBytes(space[key := e]) == SpaceBytes(space - {key}) + EntryBytes(key, e)
  {
    SumSet(space, EntryBytes, key, e);
  }

  lemma BytesMoved(space: Space, key: Bytes, e: Entry)
    ensures var before := if key in space then EntryBytes(key, space[key]) else 0;
      before <= SpaceBytes(space) && SpaceBytes(space[key := e]) == SpaceBytes(space) - before + EntryBytes(key, e)
  {
    BytesWithout(space, key);
    BytesWith(space, key, e);
  }

  /** Stamps and deadlines weigh nothing. */
  lemma SameBytes(space: Space, key: Bytes, e: Entry)
    requires key in space && e.value == space[key].value
    ensures SpaceBytes(space[key := e]) == SpaceBytes(space)
  {
    BytesWith(space, key, e);
    BytesWithout(space, key);
  }

  /** The estimate, computed element by element. */
  method EstimateEntryBytes(key: Bytes, e: Entry) returns (bytes: nat)
    ensures bytes == EntryBytes(key, e)
  {
    bytes := |key| + ENTRY_OVERHEAD;
    match e.value
    case Str(s) => bytes := bytes + |s|;
    case List(items) =>
      var n := EstimateItems(items);
      bytes := bytes + n;
    case Hash(fields) =>
      var n := EstimateFields(fields);
      bytes := bytes + n;
  }

  method EstimateItems(items: seq<Bytes>) returns (bytes: nat)
    ensures bytes == ItemBytes(items)
  {
    bytes := 0;
    for i := 0 to |items|
      invariant bytes == ItemBytes(items[..i])
    {
      assert items[..i + 1][..i] == items[..i];
      bytes := bytes + |items[i]| + ELEMENT_OVERHEAD;
    }
    assert items[..|items|] == items;
  }

  method EstimateFields(fields: map<Bytes, Bytes>) returns (bytes: nat)
    ensures bytes == Sum(fields, FieldBytes)
  {
    bytes := 0;
    var rest := fields;
    while rest != map[]
      invariant bytes + Sum(rest, FieldBytes) == Sum(fields, FieldBytes)
      decreases |rest|
    {
      var f :| f in rest;
      SumOut(rest, FieldBytes, f);
      assert (rest - {f}).Keys == rest.Keys - {f};
      bytes := bytes + FieldBytes(f, rest[f]);
      rest := rest - {f};
    }
  }

  // ---------------------------------------------------------------- the class

  class Store {
    const data: Table<Entry>
    var used: nat
    var maxMemory: nat
    var accessClock: nat
    ghost var stalled: bool  // the last eviction met an empty sample
    ghost var surplus: nat   // bytes that the last load counted for entries it then overwrote

    ghost function Now(): State
      reads `accessClock, data
    {
      State(data.contents, accessClock, data.edits)
    }

    ghost function Here(): World
      reads `accessClock, `maxMemory, `surplus, `stalled, data
    {
      World(Now(), maxMemory, surplus, stalled)
    }

    /** The running account is the sum of the estimates of all physical entries, and the surplus. */
    ghost predicate Sound()
      reads `used, `surplus, data
    {
      data.Valid() && used == SpaceBytes(data.contents) + surplus
    }

    /** Moreover usage is within the budget, unless sampling let the last eviction down or the surplus
        alone exceeds it.  No method below but FlushAll and LoadSnapshot can change the surplus. */
    ghost predicate Valid()
      reads this, data
    {
      Sound() && (stalled || maxMemory == 0 || used <= maxMemory || used <= surplus)
    }

    constructor ()
      ensures Valid() && fresh(data) && Here() == World(State(map[], 0, L.NoEdit), 0, 0, false)
    {
      data := new Table();
      used, maxMemory, accessClock, stalled, surplus := 0, 0, 0, false, 0;
    }

    // -------------------------------------------------------------- building blocks

    /** Takes an entry out of the table and of the account. */
    method Discard(key: Bytes, e: Entry)
      requires Sound() && key in data.contents && data.contents[key] == e
      modifies `used, data
      ensures Sound() && Now() == Drop(old(Now()), key) && used == old(used) - EntryBytes(key, e)
    {
      BytesWithout(data.contents, key);
      var bytes := EstimateEntryBytes(key, e);
      used := used - bytes;
      var _ := data.Delete(key);
    }

    /** Stores an entry, stamps it, and moves the account from what was there before. */
    method Place(key: Bytes, value: Value, deadline: Option<int>)
      requires Sound()
      modifies `used, `accessClock, data
      ensures Sound() && Now() == Put(old(Now()), key, value, deadline)
    {
      var existing := data.Get(key);
      var before := 0;
      if existing.Some? { before := EstimateEntryBytes(key, existing.value); }
      var e := Entry(value, deadline, accessClock);
      BytesMoved(data.contents, key, e);
      var after := EstimateEntryBytes(key, e);
      var _ := data.Set(key, e);
      used := used - before;
      used := used + after;
      accessClock := accessClock + 1;
    }

    /** Stamps an entry with the next tick. */
    method TouchEntry(key: Bytes, e: Entry)
      requires Sound() && key in data.contents && data.contents[key] == e
      modifies `accessClock, data
      ensures Sound() && Now() == Touch(old(Now()), key)
    {
      SameBytes(data.contents, key, e.(stamp := accessClock));
      data.Assign(key, e.(stamp := accessClock));
      accessClock := accessClock + 1;
    }

    // -------------------------------------------------------------- eviction

    /** Removes the least recent key of a sample at a time, until the budget holds, the table is empty
        or a sample comes back empty: the pass that the draws determine. */
    method EvictIfOverBudget(rounds: Rounds)
      requires Sound()
      modifies `used, `stalled, data
      ensures Valid() && Here() == Balance(Drawing(rounds), old(Here())) && used <= old(used)
      ensures maxMemory > 0 ==>
        var p := Evict(Drawing(rounds), old(Now()), old(used), maxMemory);
        && Now() == p.state && Explained(p, Drawing(rounds), old(Now()), maxMemory, surplus)
        && Chosen(p.log, old(Now()), OldestHeads(rounds), 0, maxMemory, surplus)
    {
      ghost var w, u, draw := Here(), used, Drawing(rounds);
      stalled := false;
      if maxMemory == 0 { return; }
      RoundsOf(rounds);
      EveryPass(rounds, Now(), used, maxMemory, surplus);
      EveryPassChooses(rounds, Now(), used, maxMemory, surplus, Evict(draw, Now(), used, maxMemory));
      EvictLoop(rounds, draw);
      BalanceIs(draw, w, u, EvictFrom(draw, w.state, u, w.max, 0, |w.state.space|), Here());
    }

    method EvictLoop(rounds: Rounds, ghost draw: Sampler)
      requires Sound() && !stalled && DrawsHeads(draw, rounds)
      modifies `used, `stalled, data
      ensures Valid() && used <= old(used)
      ensures Ended(EvictFrom(draw, old(Now()), old(used), maxMemory, 0, |old(data.contents)|))
    {
      ghost var pass := EvictFrom(draw, Now(), used, maxMemory, 0, |data.contents|);
      var round := 0;
      while used > maxMemory && data.Length() > 0
        invariant Sound() && !stalled && used <= old(used)
        invariant SameEnd(EvictFrom(draw, Now(), used, maxMemory, round, |data.contents|), pass)
        decreases |data.contents|
      {
        ghost var s, u, n := Now(), used, |data.contents|;
        var found, key, e := EvictRound(rounds, round, draw);
        if !found {
          stalled := true;
          break;
        }
        DropSize(s.space, key);
        SameEndOnce(draw, s, u, maxMemory, round, n, key, e, used, |data.contents|, pass);
        round := round + 1;
      }
      NothingHeld(data.contents);
    }

    method EvictRound(rounds: Rounds, round: nat, ghost draw: Sampler) returns (found: bool, key: Bytes, e: Entry)
      requires Sound() && data.contents != map[] && DrawsHeads(draw, rounds)
      modifies `used, data
      ensures Sound() && found == (draw(old(Now()), round) != [])
      ensures !found ==> Now() == old(Now()) && used == old(used)
      ensures found ==>
        && (key, e) == draw(old(Now()), round)[Oldest(draw(old(Now()), round))]
        && key in old(data.contents) && Now() == Drop(old(Now()), key) && used == old(used) - EntryBytes(key, e)
    {
      assert draw(Now(), round) == HeadsOf(Now(), rounds(round));
      found, key, e := EvictOne(rounds(round));
    }

    /** The store stands where the pass ended. */
    ghost predicate Ended(p: Pass)
      reads this, data
    {
      Now() == p.state && used == p.used && stalled == p.stalled
    }

    /** One trip round the loop: the oldest of the drawn heads goes, or nothing if there are none. */
    method EvictOne(draws: L.Draws) returns (found: bool, key: Bytes, e: Entry)
      requires Sound() && data.contents != map[]
      modifies `used, data
      ensures Sound() && found == (HeadsOf(old(Now()), draws) != [])
      ensures !found ==> Now() == old(Now()) && used == old(used)
      ensures found ==>
        && (key, e) == HeadsOf(old(Now()), draws)[Oldest(HeadsOf(old(Now()), draws))]
        && key in old(data.contents) && Now() == Drop(old(Now()), key) && used == old(used) - EntryBytes(key, e)
      ensures found <==> L.HitsUpTo(old(data.buckets), draws, SAMPLE_ATTEMPTS) != []
      ensures found ==> OldestOfFive(old(data.buckets), draws, old(data.contents), key)
    {
      var sample := data.SampleKeys(SAMPLE_SIZE, draws);
      if sample == [] { return false, [], Entry(Str([]), None, 0); }
      var i := PickVictim(sample);
      OldestIsLeast(sample);
      FromSample(sample, data.buckets, draws, data.contents, i);
      found, key, e := true, sample[i].0, sample[i].1;
      Discard(key, e);
    }

    method SetMaxMemory(bytes: nat, rounds: Rounds)
      requires Valid()
      modifies `used, `maxMemory, `stalled, data
      ensures Valid() && Here() == Balance(Drawing(rounds), old(Here()).(max := bytes))
    {
      maxMemory := bytes;
      EvictIfOverBudget(rounds);
    }

    // -------------------------------------------------------------- writes

    /** Stores a stamped value, then makes room for it. */
    method Write(key: Bytes, value: Value, deadline: Option<int>, rounds: Rounds)
      requires Sound()
      modifies `used, `accessClock, `stalled, data
      ensures Valid()
      ensures Here() == Balance(Drawing(rounds), old(Here()).(state := Put(old(Now()), key, value, deadline)))
    {
      Place(key, value, deadline);
      EvictIfOverBudget(rounds);
    }

    method Set(key: Bytes, value: Bytes, rounds: Rounds)
      requires Valid()
      modifies `used, `accessClock, `stalled, data
      ensures Valid()
      ensures Here() == Land(old(Here()), Section(Put(old(Now()), key, Str(value), None), Ok, []), rounds)
    {
      Write(key, Str(value), None, rounds);
    }

    /** GetOrCreateList and GetOrCreateHash; tells what the key holds then. */
    method Ensure(key: Bytes, empty: Value, now: int) returns (e: Entry, created: bool)
      requires Sound()
      modifies `used, `accessClock, data
      ensures Sound() && Now() == GetOrCreate(old(Now()), key, empty, now)
      ensures key in data.contents && e == data.contents[key]
      ensures created ==> e.value == empty
      ensures !created ==> Now() == old(Now()) && used == old(used) && !Expired(e, now)
    {
      var v := data.Get(key);
      created := v.None? || Expired(v.value, now);
      if v.Some? && Expired(v.value, now) {
        Discard(key, v.value);
        v := None;
      }
      if v.None? {
        Place(key, empty, None);
        v := data.Get(key);
      }
      e := v.value;
    }

    method Push(key: Bytes, values: seq<Bytes>, front: bool, now: int, rounds: Rounds) returns (reply: Reply)
      requires Valid()
      modifies `used, `accessClock, `stalled, data
      ensures Valid() && reply == PushSection(old(Now()), key, values, front, now).reply
      ensures Here() == Land(old(Here()), PushSection(old(Now()), key, values, front, now), rounds)
    {
      ghost var start := Now();
      var e, created := Ensure(key, List([]), now);
      if !e.value.List? {
        PushWrongType(start, key, values, front, now);
        return WrongType;
      }
      PushSectionIs(start, key, values, front, now, Now());
      reply := Grow(key, e, values, front, rounds);
    }

    /** Pushes onto the list that `e` holds. */
    method Grow(key: Bytes, e: Entry, values: seq<Bytes>, front: bool, rounds: Rounds) returns (reply: Reply)
      requires Sound() && e.value.List?
      modifies `used, `accessClock, `stalled, data
      ensures Valid()
      ensures var grown := if front then PushFront(e.value.items, values) else e.value.items + values;
        && reply == Number(|grown|)
        && Here() == Balance(Drawing(rounds), old(Here()).(state := Put(old(Now()), key, List(grown), e.deadline)))
    {
      var items := e.value.items;
      if front { items := PushEach(items, values); } else { items := items + values; }
      reply := Number(|items|);
      Write(key, List(items), e.deadline, rounds);
    }

    method HSet(key: Bytes, pairs: seq<(Bytes, Bytes)>, now: int, rounds: Rounds) returns (reply: Reply)
      requires Valid()
      modifies `used, `accessClock, `stalled, data
      ensures Valid() && reply == HSetSection(old(Now()), key, pairs, now).reply
      ensures Here() == Land(old(Here()), HSetSection(old(Now()), key, pairs, now), rounds)
    {
      ghost var start := Now();
      var e, created := Ensure(key, Hash(map[]), now);
      if !e.value.Hash? {
        HSetWrongType(start, key, pairs, now);
        return WrongType;
      }
      HSetSectionIs(start, key, pairs, now, Now());
      reply := SetAll(key, e, pairs, rounds);
    }

    /** Sets the fields of the hash that `e` holds. */
    method SetAll(key: Bytes, e: Entry, pairs: seq<(Bytes, Bytes)>, rounds: Rounds) returns (reply: Reply)
      requires Sound() && e.value.Hash?
      modifies `used, `accessClock, `stalled, data
      ensures Valid() && reply == Number(SetFields(e.value.fields, pairs).1)
      ensures var m := SetFields(e.value.fields, pairs).0;
        Here() == Balance(Drawing(rounds), old(Here()).(state := Put(old(Now()), key, Hash(m), e.deadline)))
    {
      var fields, added := SetEach(e.value.fields, pairs);
      reply := Number(added);
      Write(key, Hash(fields), e.deadline, rounds);
    }

    method HDel(key: Bytes, dropped: seq<Bytes>, now: int) returns (reply: Reply)
      requires Valid()
      modifies `used, `accessClock, data
      ensures Valid() && used <= old(used)
      ensures var f := HDelSection(old(Now()), key, dropped, now); reply == f.reply && Now() == f.state
    {
      var v := data.Get(key);
      if v.None? { return Number(0); }
      if Expired(v.value, now) {
        Discard(key, v.value);
        return Number(0);
      }
      if !v.value.value.Hash? { return WrongType; }
      var fields, removed := DropEach(v.value.value.fields, dropped);
      FewerFields(v.value.value.fields, dropped);
      Shrink(key, v.value, fields);
      return Number(removed);
    }

    /** Stores the fields a hash has left, or drops the key with the last of them. */
    method Shrink(key: Bytes, e: Entry, fields: map<Bytes, Bytes>)
      requires Valid() && key in data.contents && data.contents[key] == e && e.value.Hash?
      requires Sum(fields, FieldBytes) <= Sum(e.value.fields, FieldBytes)
      modifies `used, `accessClock, data
      ensures Valid() && used <= old(used)
      ensures Now() == if fields == map[] then Drop(old(Now()), key) else Put(old(Now()), key, Hash(fields), e.deadline)
    {
      BytesWithout(data.contents, key);
      BytesWith(data.contents, key, Entry(Hash(fields), e.deadline, accessClock));
      if fields == map[] {
        Discard(key, e);
      } else {
        Place(key, Hash(fields), e.deadline);
      }
    }

    /** The clock is read once for the expiry check and once more for the deadline. */
    method Expire(key: Bytes, seconds: int, clock: Clock) returns (reply: Reply)
      requires Valid()
      modifies `used, `accessClock, data
      ensures Valid() && used <= old(used)
      ensures var f := ExpireBy(old(Now()), key, seconds, clock); reply == f.reply && Now() == f.state
    {
      var v := data.Get(key);
      if v.None? { return Number(0); }
      if Expired(v.value, clock(0)) {
        Discard(key, v.value);
        return Number(0);
      }
      if seconds <= 0 {
        Discard(key, v.value);
        return Number(1);
      }
      var e := v.value.(deadline := Some(clock(1) + seconds * SECOND));
      SameBytes(data.contents, key, e);
      data.Assign(key, e);
      return Number(1);
    }

    /** One key of Del: gone in any case, counted only if it was live. */
    method DelOne(key: Bytes, now: int) returns (counted: bool)
      requires Valid()
      modifies `used, data
      ensures Valid() && used <= old(used)
      ensures Now() == if key in old(data.contents) then Drop(old(Now()), key) else old(Now())
      ensures counted == (key in old(data.contents) && !Expired(old(data.contents)[key], now))
    {
      var v := data.Get(key);
      if v.None? { return false; }
      Discard(key, v.value);
      return !Expired(v.value, now);
    }

    method Del(keys: seq<Bytes>, clock: Clock) returns (removed: nat)
      requires Valid()
      modifies `used, `accessClock, data
      ensures Valid() && used <= old(used)
      ensures Now() == DropBy(old(Now()), keys, clock).0 && removed == DropBy(old(Now()), keys, clock).1
    {
      ghost var start := Now();
      removed := 0;
      for i := 0 to |keys|
        invariant Valid() && used <= old(used)
        invariant Now() == DropBy(start, keys[..i], clock).0 && removed == DropBy(start, keys[..i], clock).1
      {
        DropByStep(start, keys, i, clock);
        var counted := DelOne(keys[i], clock(i));
        if counted { removed := removed + 1; }
      }
      assert keys[..|keys|] == keys;
    }

    method FlushAll()
      requires Valid()
      modifies `used, `surplus, data
      ensures Valid() && Now() == Clear(old(Now())) && used == surplus == 0
    {
      data.Clear();
      used, surplus := 0, 0;
    }

    // -------------------------------------------------------------- reads, and what they leave for later

    method DeleteIfExpired(key: Bytes, now: int) returns (deleted: bool)
      requires Valid()
      modifies `used, `accessClock, data
      ensures Valid() && used <= old(used)
      ensures Now() == DropIfExpired(old(Now()), key, now)
      ensures deleted <==> key in old(data.contents) && Due(old(data.contents)[key], now)
      ensures deleted <==> key in old(data.contents) && key !in data.contents
      ensures data.contents == if deleted then old(data.contents) - {key} else old(data.contents)
    {
      var v := data.Get(key);
      deleted := v.Some? && Expired(v.value, now);
      if deleted { Discard(key, v.value); }
    }

    method DeleteAllExpired(keys: seq<Bytes>, clock: Clock)
      requires Valid()
      modifies `used, `accessClock, data
      ensures Valid() && used <= old(used)
      ensures Now() == SweepBy(old(Now()), keys, clock)
    {
      for i := 0 to |keys|
        invariant Valid() && used <= old(used)
        invariant Now() == SweepBy(old(Now()), keys[..i], clock)
      {
        assert keys[..i + 1][..i] == keys[..i];
        var _ := DeleteIfExpired(keys[i], clock(i));
      }
      assert keys[..|keys|] == keys;
    }

    /** The shape of every single-key read: look under the shared lock, escalate only for a stale entry. */
    method Read(key: Bytes, q: Query, now: int, later: int) returns (reply: Reply)
      requires Valid()
      modifies `used, `accessClock, data
      ensures Valid() && used <= old(used)
      ensures var f := ReadSection(old(Now()), key, q, now);
        reply == f.reply && Now() == DropAllExpired(f.state, f.stale, later)
      ensures key in old(data.contents) && Due(old(data.contents)[key], now) && now <= later ==> key !in data.contents
    {
      var v := data.Get(key);
      if v.None? { return IfAbsent(q); }
      if !Expired(v.value, now) {
        reply := Evaluate(q, v.value.value);
        if !reply.WrongType? { TouchEntry(key, v.value); }
        return;
      }
      var _ := DeleteIfExpired(key, later);
      return IfAbsent(q);
    }

    /** The clock is read at `now` for the expiry check, and at `seen` for the time that is left. */
    method Ttl(key: Bytes, now: int, seen: int, later: int) returns (reply: Reply)
      requires Valid()
      modifies `used, `accessClock, data
      ensures Valid() && used <= old(used)
      ensures var f := TtlSection(old(Now()), key, now, seen);
        reply == f.reply && Now() == DropAllExpired(f.state, f.stale, later)
    {
      var v := data.Get(key);
      if v.None? { return Number(-2); }
      if !Expired(v.value, now) {
        return Number(if v.value.deadline.None? then -1 else SecondsLeft(v.value.deadline.value, seen));
      }
      var _ := DeleteIfExpired(key, later);
      return Number(-2);
    }

    /** The look under the shared lock: how many keys are live, and which were seen expired. */
    method CountExisting(keys: seq<Bytes>, clock: Clock) returns (count: nat, stale: seq<Bytes>)
      requires Sound()
      ensures (count, stale) == CountBy(data.contents, keys, clock)
    {
      count, stale := 0, [];
      for i := 0 to |keys|
        invariant (count, stale) == CountBy(data.contents, keys[..i], clock)
      {
        assert keys[..i + 1][..i] == keys[..i];
        var v := data.Get(keys[i]);
        if v.Some? {
          if Expired(v.value, clock(i)) { stale := stale + [keys[i]]; } else { count := count + 1; }
        }
      }
      assert keys[..|keys|] == keys;
    }

    method Exists(keys: seq<Bytes>, clock: Clock, later: Clock) returns (count: nat)
      requires Valid()
      modifies `used, `accessClock, data
      ensures Valid() && used <= old(used)
      ensures count == CountBy(old(data.contents), keys, clock).0
      ensures Now() == SweepBy(old(Now()), CountBy(old(data.contents), keys, clock).1, later)
    {
      var stale;
      count, stale := CountExisting(keys, clock);
      DeleteAllExpired(stale, later);
    }

    /** The keys found live and those found expired, each once, in bucket order. */
    method Partition(clock: Clock) returns (live: seq<Bytes>, stale: seq<Bytes>)
      requires data.Valid()
      ensures live == AmongBy(Physical(Now()), data.contents, clock, false) && stale == FoundBy(Now(), clock)
    {
      var entries := data.Entries();
      ListedAgree(entries, data.contents);
      live, stale := Split(entries, data.contents, clock);
    }

    method Keys(clock: Clock, later: Clock) returns (live: seq<Bytes>)
      requires Valid()
      modifies `used, `accessClock, data
      ensures Valid() && used <= old(used)
      ensures live == AmongBy(Physical(old(Now())), old(data.contents), clock, false)
      ensures Now() == SweepBy(old(Now()), FoundBy(old(Now()), clock), later)
    {
      var expired;
      live, expired := Partition(clock);
      DeleteAllExpired(expired, later);
    }

    /** The background thread's tick: scan under the shared lock, delete under the write lock. */
    method SweepExpired(clock: Clock, later: Clock)
      requires Valid()
      modifies `used, `accessClock, data
      ensures Valid() && used <= old(used)
      ensures Now() == SweepBy(old(Now()), FoundBy(old(Now()), clock), later)
      ensures Swept(old(data.contents), data.contents, clock, later)
      ensures old(used) - used == SpaceBytes(old(data.contents)) - SpaceBytes(data.contents)
    {
      IsSwept(Now(), clock, later);
      var live, expired := Partition(clock);
      if expired == [] { return; }
      DeleteAllExpired(expired, later);
    }

    // -------------------------------------------------------------- snapshots

    /** Every key that is live when the walk comes to it, in bucket order; `when(k)` is that reading for the key `k`,
        and `at` are the two readings that anchor deadlines. */
    method Snapshot(when: Bytes -> int, at: Clocks) returns (es: seq<R.SnapshotEntry>)
      requires Sound()
      ensures IsSnapshot(es, data.contents, when, at)
    {
      es := [];
      ghost var done: set<Bytes> := {};
      var entries := data.Entries();
      for i := 0 to |entries|
        invariant done == KeysUpTo(entries, i)
        invariant Captured(es, data.contents, when, at, done)
      {
        var key, e := entries[i].0, entries[i].1;
        FreshKey(entries, i);
        if Expired(e, when(key)) {
          SkipOne(es, data.contents, when, at, done, key);
        } else {
          var c := Capture(e.value);
          CaptureOne(es, data.contents, when, at, done, key, c);
          es := es + [R.SnapshotEntry(key, c, WallDeadline(e.deadline, at))];
        }
        done := done + {key};
      }
      AllKeys(entries);
    }

    /** Replaces everything; an entry already expired on the wall clock is skipped. */
    method LoadSnapshot(es: seq<R.SnapshotEntry>, at: Clocks, rounds: Rounds)
      requires Valid()
      modifies `used, `accessClock, `stalled, `surplus, data
      ensures Valid() && Here() == Loaded(old(Here()), es, at, rounds)
    {
      ReplaceAll(es, at);
      EvictIfOverBudget(rounds);
    }

    method ReplaceAll(es: seq<R.SnapshotEntry>, at: Clocks)
      requires data.Valid()
      modifies `used, `accessClock, `surplus, data
      ensures Sound() && Here() == Replaced(old(Here()), es, at)
    {
      ghost var start := Clear(Now());
      LoadEntries(es, at);
      LoadAccountExact(es, at, start);
      surplus := used - SpaceBytes(data.contents);
    }

    /** The loop of LoadSnapshot: the account takes every stored entry, and nothing off for an overwritten one. */
    method LoadEntries(es: seq<R.SnapshotEntry>, at: Clocks)
      requires data.Valid()
      modifies `used, `accessClock, data
      ensures data.Valid() && used == LoadedBytes(es, at)
      ensures Now() == RestoreAll(Clear(old(Now())), es, at)
    {
      ghost var start := Clear(Now());
      data.Clear();
      used := 0;
      for i := 0 to |es|
        invariant data.Valid() && used == LoadedBytes(es[..i], at) && Now() == RestoreAll(start, es[..i], at)
      {
        assert es[..i + 1][..i] == es[..i];
        if !R.AlreadyExpired(es[i], at.wall) {
          var v := Build(es[i].content);
          var e := Entry(v, SteadyDeadline(es[i].expiresWall, at), accessClock);
          var _ := data.Set(es[i].key, e);
          var bytes := EstimateEntryBytes(es[i].key, e);
          used := used + bytes;
          accessClock := accessClock + 1;
        }
      }
      assert es[..|es|] == es;
    }
  }

  // ---------------------------------------------------------------- helpers of the class

  lemma ListedAgree(entries: seq<(Bytes, Entry)>, space: Space)
    requires L.Listed(entries, space, space.Keys)
    ensures L.AreEntries(entries, space)
  {
  }

  method Split(entries: seq<(Bytes, Entry)>, ghost space: Space, clock: Clock)
    returns (live: seq<Bytes>, stale: seq<Bytes>)
    requires L.AreEntries(entries, space)
    ensures live == AmongBy(entries, space, clock, false) && stale == AmongBy(entries, space, clock, true)
  {
    live, stale := [], [];
    for i := 0 to |entries|
      invariant live == AmongBy(entries[..i], space, clock, false)
      invariant stale == AmongBy(entries[..i], space, clock, true)
    {
      assert entries[..i + 1][..i] == entries[..i];
      var key, e := entries[i].0, entries[i].1;
      if Expired(e, clock(i)) { stale := stale + [key]; } else { live := live + [key]; }
    }
    assert entries[..|entries|] == entries;
  }

  predicate SameEnd(p: Pass, q: Pass) {
    p.state == q.state && p.used == q.used && p.stalled == q.stalled
  }

  ghost predicate DrawsHeads(draw: Sampler, rounds: Rounds) {
    forall s: State, r: nat {:trigger HeadsOf(s, rounds(r))} :: draw(s, r) == HeadsOf(s, rounds(r))
  }

  lemma RoundsOf(rounds: Rounds)
    ensures DrawsHeads(Drawing(rounds), rounds)
  {
  }

  lemma BalanceIs(draw: Sampler, w: World, used: int, p: Pass, w': World)
    requires w.max > 0 && used == SpaceBytes(w.state.space) + w.surplus
    requires p == EvictFrom(draw, w.state, used, w.max, 0, |w.state.space|)
    requires w' == World(p.state, w.max, w.surplus, p.stalled)
    ensures w' == Balance(draw, w)
  {
  }

  lemma SameEndOnce(draw: Sampler, s: State, used: int, max: nat, round: nat, left: nat, key: Bytes, e: Entry,
                    used': int, left': nat, pass: Pass)
    requires used > max && left > 0 && draw(s, round) != [] && draw(s, round)[Oldest(draw(s, round))] == (key, e)
    requires used' == used - EntryBytes(key, e) && left' == left - 1
    requires SameEnd(EvictFrom(draw, s, used, max, round, left), pass)
    ensures SameEnd(EvictFrom(draw, Drop(s, key), used', max, round + 1, left'), pass)
  {
    EvictOnce(draw, s, used, max, round, left, key, e);
  }

  /** After the loop of a load: the entries still due, and the bytes counted twice. */
  ghost function Replaced(w: World, es: seq<R.SnapshotEntry>, at: Clocks): World {
    var s := RestoreAll(Clear(w.state), es, at);
    LoadAccountExact(es, at, Clear(w.state));
    w.(state := s, surplus := LoadedBytes(es, at) - SpaceBytes(s.space))
  }

  /** After a load: what the eviction leaves of it. */
  ghost function Loaded(w: World, es: seq<R.SnapshotEntry>, at: Clocks, rounds: Rounds): World {
    Balance(Drawing(rounds), Replaced(w, es, at))
  }

  lemma DropByStep(s: State, keys: seq<Bytes>, i: nat, clock: Clock)
    requires i < |keys|
    ensures var (t, n) := DropBy(s, keys[..i], clock);
      DropBy(s, keys[..i + 1], clock)
        == (if keys[i] in t.space then Drop(t, keys[i]) else t,
            if keys[i] in t.space && !Expired(t.space[keys[i]], clock(i)) then n + 1 else n)
  {
    assert keys[..i + 1][..i] == keys[..i];
  }

  lemma PushWrongType(s: State, key: Bytes, values: seq<Bytes>, front: bool, now: int)
    requires key in s.space && !Expired(s.space[key], now) && !s.space[key].value.List?
    ensures PushSection(s, key, values, front, now) == Section(s, WrongType, [])
  {
  }

  lemma HSetWrongType(s: State, key: Bytes, pairs: seq<(Bytes, Bytes)>, now: int)
    requires key in s.space && !Expired(s.space[key], now) && !s.space[key].value.Hash?
    ensures HSetSection(s, key, pairs, now) == Section(s, WrongType, [])
  {
  }

  lemma PushSectionIs(s: State, key: Bytes, values: seq<Bytes>, front: bool, now: int, t: State)
    requires t == GetOrCreate(s, key, List([]), now) && t.space[key].value.List?
    ensures var items := t.space[key].value.items;
      var grown := if front then PushFront(items, values) else items + values;
      && PushSection(s, key, values, front, now).state == Put(t, key, List(grown), t.space[key].deadline)
      && PushSection(s, key, values, front, now).reply == Number(|grown|)
  {
  }

  lemma HSetSectionIs(s: State, key: Bytes, pairs: seq<(Bytes, Bytes)>, now: int, t: State)
    requires t == GetOrCreate(s, key, Hash(map[]), now) && t.space[key].value.Hash?
    ensures var (m, added) := SetFields(t.space[key].value.fields, pairs);
      && HSetSection(s, key, pairs, now).state == Put(t, key, Hash(m), t.space[key].deadline)
      && HSetSection(s, key, pairs, now).reply == Number(added)
  {
  }

  predicate InInt(i: int) {
    ListIndex.INT_MIN <= i <= ListIndex.INT_MAX
  }

  /** The answer of a read: LRANGE in the arithmetic of a 32-bit int, wherever its indices and the length fit one. */
  method Evaluate(q: Query, v: Value) returns (reply: Reply)
    ensures reply == Answer(q, v)
  {
    if q.LRange? && v.List? && InInt(q.start) && InInt(q.stop) && InInt(|v.items|) {
      ListIndex.MachineSliceIsSlice(v.items, q.start, q.stop);
      return Texts(ListIndex.MachineSlice(v.items, q.start, q.stop));
    }
    return Answer(q, v);
  }

  method PushEach(given: seq<Bytes>, values: seq<Bytes>) returns (items: seq<Bytes>)
    ensures items == PushFront(given, values)
  {
    items := given;
    assert values[0..] == values;
    for i := 0 to |values|
      invariant PushFront(items, values[i..]) == PushFront(given, values)
    {
      assert values[i..][1..] == values[i + 1..] && values[i..][0] == values[i];
      items := [values[i]] + items;
    }
    assert values[|values|..] == [];
  }

  method SetEach(given: map<Bytes, Bytes>, pairs: seq<(Bytes, Bytes)>)
    returns (fields: map<Bytes, Bytes>, added: nat)
    ensures fields == SetFields(given, pairs).0 && added == SetFields(given, pairs).1
  {
    fields, added := given, 0;
    for i := 0 to |pairs|
      invariant fields == SetFields(given, pairs[..i]).0 && added == SetFields(given, pairs[..i]).1
    {
      assert pairs[..i + 1][..i] == pairs[..i];
      if pairs[i].0 !in fields { added := added + 1; }
      fields := fields[pairs[i].0 := pairs[i].1];
    }
    assert pairs[..|pairs|] == pairs;
  }

  method DropEach(given: map<Bytes, Bytes>, dropped: seq<Bytes>) returns (fields: map<Bytes, Bytes>, removed: nat)
    ensures fields == DropFields(given, dropped).0 && removed == DropFields(given, dropped).1
  {
    fields, removed := given, 0;
    for i := 0 to |dropped|
      invariant fields == DropFields(given, dropped[..i]).0 && removed == DropFields(given, dropped[..i]).1
    {
      assert dropped[..i + 1][..i] == dropped[..i];
      if dropped[i] in fields { removed := removed + 1; }
      fields := fields - {dropped[i]};
    }
    assert dropped[..|dropped|] == dropped;
  }

  lemma {:induction false} FewerFields(fields: map<Bytes, Bytes>, dropped: seq<Bytes>)
    ensures Sum(DropFields(fields, dropped).0, FieldBytes) <= Sum(fields, FieldBytes)
  {
    if dropped != [] {
      var front, f := dropped[..|dropped| - 1], dropped[|dropped| - 1];
      FewerFields(fields, front);
      var m := DropFields(fields, front).0;
      if f in m { SumOut(m, FieldBytes, f); } else { assert m - {f} == m; }
    }
  }

  method Capture(v: Value) returns (c: R.Content)
    ensures Captures(c, v)
  {
    match v
    case Str(s) => c := R.Text(s);
    case List(xs) => c := R.Items(xs);
    case Hash(fields) =>
      var pairs := ListFields(fields);
      c := R.Pairs(pairs);
  }

  /** `pairs` lists some of the fields, each once. */
  ghost predicate ListsSome(pairs: seq<(Bytes, Bytes)>, fields: map<Bytes, Bytes>) {
    |pairs| == |MapOf(pairs)| && forall f | f in MapOf(pairs) :: f in fields && fields[f] == MapOf(pairs)[f]
  }

  method ListFields(fields: map<Bytes, Bytes>) returns (pairs: seq<(Bytes, Bytes)>)
    ensures MapOf(pairs) == fields && |pairs| == |fields|
  {
    pairs := [];
    var rest := fields.Keys;
    while rest != {}
      invariant ListsSome(pairs, fields) && rest == fields.Keys - MapOf(pairs).Keys
      decreases |rest|
    {
      var f :| f in rest;
      ListField(pairs, fields, f);
      pairs := pairs + [(f, fields[f])];
      rest := rest - {f};
    }
    ListsAll(pairs, fields);
  }

  lemma ListsAll(pairs: seq<(Bytes, Bytes)>, fields: map<Bytes, Bytes>)
    requires ListsSome(pairs, fields) && fields.Keys - MapOf(pairs).Keys == {}
    ensures MapOf(pairs) == fields
  {
    forall f | f in fields ensures f in MapOf(pairs) {
      assert f !in fields.Keys - MapOf(pairs).Keys;
    }
    assert MapOf(pairs).Keys == fields.Keys;
  }

  lemma ListField(pairs: seq<(Bytes, Bytes)>, fields: map<Bytes, Bytes>, f: Bytes)
    requires ListsSome(pairs, fields) && f in fields && f !in MapOf(pairs)
    ensures ListsSome(pairs + [(f, fields[f])], fields)
    ensures fields.Keys - MapOf(pairs + [(f, fields[f])]).Keys == fields.Keys - MapOf(pairs).Keys - {f}
  {
    var more := pairs + [(f, fields[f])];
    assert more[..|pairs|] == pairs;
    assert MapOf(more).Keys == MapOf(pairs).Keys + {f};
  }

  method Build(c: R.Content) returns (v: Value)
    ensures v == ValueOf(c)
  {
    match c
    case Text(s) => v := Str(s);
    case Items(xs) => v := List(xs);
    case Pairs(ps) =>
      var fields, added := SetEach(map[], ps);
      SetFieldsMeaning(map[], ps);
      assert map[] + MapOf(ps) == MapOf(ps);
      v := Hash(fields);
  }

  /** The snapshot so far: exactly the live keys of `done`. */
  ghost predicate Captured(es: seq<R.SnapshotEntry>, space: Space, when: Bytes -> int, at: Clocks, done: set<Bytes>) {
    && (forall i | 0 <= i < |es| ::
          && es[i].key in done && es[i].key in space && !Expired(space[es[i].key], when(es[i].key))
          && Captures(es[i].content, space[es[i].key].value)
          && es[i].expiresWall == WallDeadline(space[es[i].key].deadline, at))
    && DistinctKeys(es)
    && (forall k | k in done && k in space && !Expired(space[k], when(k)) ::
          exists i :: 0 <= i < |es| && es[i].key == k)
  }

  lemma SkipOne(es: seq<R.SnapshotEntry>, space: Space, when: Bytes -> int, at: Clocks, done: set<Bytes>, key: Bytes)
    requires Captured(es, space, when, at, done) && key in space && Expired(space[key], when(key))
    ensures Captured(es, space, when, at, done + {key})
  {
  }

  lemma CaptureOne(es: seq<R.SnapshotEntry>, space: Space, when: Bytes -> int, at: Clocks, done: set<Bytes>,
                   key: Bytes, c: R.Content)
    requires Captured(es, space, when, at, done) && key in space && key !in done && !Expired(space[key], when(key))
    requires Captures(c, space[key].value)
    ensures Captured(es + [R.SnapshotEntry(key, c, WallDeadline(space[key].deadline, at))],
                     space, when, at, done + {key})
  {
    var more := es + [R.SnapshotEntry(key, c, WallDeadline(space[key].deadline, at))];
    assert more[|es|].key == key && forall i | 0 <= i < |es| :: more[i] == es[i];
    forall k | k in done + {key} && k in space && !Expired(space[k], when(k))
      ensures exists i :: 0 <= i < |more| && more[i].key == k
    {
      if k != key {
        var i :| 0 <= i < |es| && es[i].key == k;
        assert more[i].key == k;
      }
    }
  }

  ghost function KeysUpTo<V>(entries: seq<(Bytes, V)>, i: nat): set<Bytes>
    requires i <= |entries|
  {
    set j | 0 <= j < i :: entries[j].0
  }

  lemma FreshKey<V>(entries: seq<(Bytes, V)>, i: nat)
    requires i < |entries| && forall j, l | 0 <= j < l < |entries| :: entries[j].0 != entries[l].0
    ensures entries[i].0 !in KeysUpTo(entries, i)
    ensures KeysUpTo(entries, i + 1) == KeysUpTo(entries, i) + {entries[i].0}
  {
  }

  lemma {:induction false} AllKeys<V>(entries: seq<(Bytes, V)>)
    ensures KeysUpTo(entries, |entries|) == L.KeySet(entries)
  {
    if entries != [] {
      var n := |entries| - 1;
      AllKeys(entries[..n]);
      assert KeysUpTo(entries, n) == KeysUpTo(entries[..n], n);
      assert KeysUpTo(entries, n + 1) == KeysUpTo(entries, n) + {entries[n].0};
    }
  }
}
