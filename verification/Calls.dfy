/** Every store call on the class, with the evictions that the random draws determine. */
module Calls {
  import opened Bytes
  import opened Keyspace
  import opened Readings
  import opened Eviction
  import opened Dispatcher
  import S = Store

  /** The calls that end in EvictIfOverBudget. */
  predicate Grows(call: Call) {
    call.Set? || call.LPush? || call.RPush? || call.HSet?
  }

  /** A call with its deferred deletes or its evictions, each section at one instant. */
  ghost function Invoke(w: World, call: Call, m: Moment, rounds: Rounds): (World, Reply) {
    var (s, reply) := Exec(call, w.state, m.now, m.later);
    if Grows(call) then (Land(w, FirstSection(call, w.state, m.now), rounds), reply)
    else (w.(state := s, surplus := if call.FlushAll? then 0 else w.surplus), reply)
  }

  /** A call that cannot grow the store, with every clock reading of its own. */
  ghost function ExecBy(call: Call, s: State, clock: Clock, later: Clock): (State, Reply) {
    var f := SectionBy(call, s, clock);
    (SweepBy(f.state, f.stale, later), f.reply)
  }

  /** Any call, with every clock reading of its own. */
  ghost function InvokeBy(w: World, call: Call, clock: Clock, later: Clock, rounds: Rounds): (World, Reply) {
    if Grows(call) then
      var f := SectionBy(call, w.state, clock);
      (Land(w, f, rounds), f.reply)
    else
      var (s, reply) := ExecBy(call, w.state, clock, later);
      (w.(state := s, surplus := if call.FlushAll? then 0 else w.surplus), reply)
  }

  /** A quiet call is a call at the instant of its last reading. */
  lemma QuietInvoke(w: World, call: Call, clock: Clock, later: int, rounds: Rounds)
    requires Consistent(w.state) && Steady(clock) && Quiet(call, w.state, clock)
    ensures InvokeBy(w, call, clock, Fixed(later), rounds)
         == Invoke(w, call, Moment(clock(LastReading(call, w.state)), later), rounds)
  {
    var now := clock(LastReading(call, w.state));
    QuietSection(call, w.state, clock);
    var f := FirstSection(call, w.state, now);
    FixedSweep(f.state, f.stale, later);
  }

  lemma FixedInvoke(w: World, call: Call, m: Moment, rounds: Rounds)
    requires Consistent(w.state)
    ensures InvokeBy(w, call, Fixed(m.now), Fixed(m.later), rounds) == Invoke(w, call, m, rounds)
  {
    QuietInvoke(w, call, Fixed(m.now), m.later, rounds);
  }

  lemma WritesLeaveNothing(call: Call, s: State, now: int, later: int)
    requires IsWrite(call)
    ensures Exec(call, s, now, later) == (FirstSection(call, s, now).state, FirstSection(call, s, now).reply)
  {
    assert FirstSection(call, s, now).stale == [];
  }

  /** Without a budget nothing is evicted. */
  lemma NoBudget(w: World, call: Call, m: Moment, rounds: Rounds)
    requires w.max == 0
    ensures var (w', reply) := Invoke(w, call, m, rounds);
      w'.max == 0 && (w'.state, reply) == Exec(call, w.state, m.now, m.later)
  {
    if Grows(call) { WritesLeaveNothing(call, w.state, m.now, m.later); }
  }

  // ---------------------------------------------------------------- reads

  lemma SweepOne(s: State, key: Bytes, later: Clock)
    ensures SweepBy(s, [key], later) == DropAllExpired(s, [key], later(0))
    ensures SweepBy(s, [], later) == s
  {
    var none: seq<Bytes>, one := [], [key];
    assert one[..0] == none && one[1..] == none;
    assert SweepBy(s, none, later) == s;
  }

  method Look(store: S.Store, key: Bytes, q: Query, clock: Clock, later: Clock) returns (reply: Reply)
    requires store.Valid()
    modifies store`used, store`accessClock, store.data
    ensures store.Valid() && (store.Now(), reply) == ExecBy(Read(key, q), old(store.Now()), clock, later)
  {
    SweepOne(store.Now(), key, later);
    reply := store.Read(key, q, clock(0), later(0));
  }

  method TimeLeft(store: S.Store, key: Bytes, clock: Clock, later: Clock) returns (reply: Reply)
    requires store.Valid()
    modifies store`used, store`accessClock, store.data
    ensures store.Valid() && (store.Now(), reply) == ExecBy(Ttl(key), old(store.Now()), clock, later)
  {
    SweepOne(store.Now(), key, later);
    reply := store.Ttl(key, clock(0), clock(1), later(0));
  }

  method Count(store: S.Store, keys: seq<Bytes>, clock: Clock, later: Clock) returns (reply: Reply)
    requires store.Valid()
    modifies store`used, store`accessClock, store.data
    ensures store.Valid() && (store.Now(), reply) == ExecBy(Exists(keys), old(store.Now()), clock, later)
  {
    var n := store.Exists(keys, clock, later);
    reply := Number(n);
  }

  /** The keys found live, each once, in bucket order. */
  method ListKeys(store: S.Store, clock: Clock, later: Clock) returns (live: seq<Bytes>)
    requires store.Valid()
    modifies store`used, store`accessClock, store.data
    ensures store.Valid() && Distinct(live)
    ensures live == AmongBy(Physical(old(store.Now())), old(store.data.contents), clock, false)
    ensures (store.Now(), KeySet(set k | k in live)) == ExecBy(Keys, old(store.Now()), clock, later)
  {
    WalkIsDistinct(store.Now(), clock);
    live := store.Keys(clock, later);
  }

  /** The reads, each with its deferred deletes. */
  method ExecuteRead(store: S.Store, call: Call, clock: Clock, later: Clock) returns (reply: Reply)
    requires store.Valid() && !IsWrite(call)
    modifies store`used, store`accessClock, store.data
    ensures store.Valid() && (store.Now(), reply) == ExecBy(call, old(store.Now()), clock, later)
  {
    match call
    case Read(key, q) => reply := Look(store, key, q, clock, later);
    case Ttl(key) => reply := TimeLeft(store, key, clock, later);
    case Exists(keys) => reply := Count(store, keys, clock, later);
    case Keys =>
      var live := ListKeys(store, clock, later);
      reply := KeySet(set k | k in live);
  }

  // ---------------------------------------------------------------- writes that cannot grow the store

  method Remove(store: S.Store, keys: seq<Bytes>, clock: Clock) returns (reply: Reply)
    requires store.Valid()
    modifies store`used, store`accessClock, store.data
    ensures store.Valid() && reply == SectionBy(Del(keys), old(store.Now()), clock).reply
    ensures store.Now() == SectionBy(Del(keys), old(store.Now()), clock).state
  {
    var n := store.Del(keys, clock);
    reply := Number(n);
  }

  /** Del, EXPIRE and HDEL. */
  method ExecuteRemoval(store: S.Store, call: Call, clock: Clock) returns (reply: Reply)
    requires store.Valid() && (call.Del? || call.Expire? || call.HDel?)
    modifies store`used, store`accessClock, store.data
    ensures store.Valid() && reply == SectionBy(call, old(store.Now()), clock).reply
    ensures store.Now() == SectionBy(call, old(store.Now()), clock).state
  {
    match call
    case Del(keys) => reply := Remove(store, keys, clock);
    case Expire(key, seconds) => reply := store.Expire(key, seconds, clock);
    case HDel(key, dropped) => reply := store.HDel(key, dropped, clock(0));
  }

  // ---------------------------------------------------------------- writes that can

  /** SET, LPUSH, RPUSH and HSET. */
  method ExecuteGrowth(store: S.Store, call: Call, now: int, rounds: Rounds) returns (reply: Reply)
    requires store.Valid() && Grows(call)
    modifies store`used, store`accessClock, store`stalled, store.data
    ensures store.Valid() && reply == FirstSection(call, old(store.Now()), now).reply
    ensures store.Here() == Land(old(store.Here()), FirstSection(call, old(store.Now()), now), rounds)
  {
    ghost var s := store.Now();
    match call
    case Set(key, value) =>
      assert FirstSection(call, s, now) == Section(Put(s, key, Str(value), None), Ok, []);
      store.Set(key, value, rounds);
      reply := Ok;
    case LPush(key, values) =>
      assert FirstSection(call, s, now) == PushSection(s, key, values, true, now);
      reply := store.Push(key, values, true, now, rounds);
    case RPush(key, values) =>
      assert FirstSection(call, s, now) == PushSection(s, key, values, false, now);
      reply := store.Push(key, values, false, now, rounds);
    case HSet(key, pairs) =>
      assert FirstSection(call, s, now) == HSetSection(s, key, pairs, now);
      reply := store.HSet(key, pairs, now, rounds);
  }

  // ---------------------------------------------------------------- every call

  lemma WritesLeaveNone(call: Call, s: State, clock: Clock)
    requires IsWrite(call)
    ensures SectionBy(call, s, clock).stale == []
  {
  }

  /** What the call does to the store, and its reply, are a function of the store, the clock readings and the draws. */
  method Execute(store: S.Store, call: Call, clock: Clock, later: Clock, rounds: Rounds) returns (reply: Reply)
    requires store.Valid()
    modifies store`used, store`accessClock, store`stalled, store`surplus, store.data
    ensures store.Valid() && (store.Here(), reply) == InvokeBy(old(store.Here()), call, clock, later, rounds)
  {
    ghost var s := store.Now();
    if IsWrite(call) { WritesLeaveNone(call, s, clock); }
    if Grows(call) {
      reply := ExecuteGrowth(store, call, clock(0), rounds);
    } else if call.FlushAll? {
      store.FlushAll();
      reply := Ok;
    } else if IsWrite(call) {
      reply := ExecuteRemoval(store, call, clock);
    } else {
      reply := ExecuteRead(store, call, clock, later);
    }
  }

  /** The same with both readings given once and for all. */
  method ExecuteAt(store: S.Store, call: Call, m: Moment, rounds: Rounds) returns (reply: Reply)
    requires store.Valid()
    modifies store`used, store`accessClock, store`stalled, store`surplus, store.data
    ensures store.Valid() && (store.Here(), reply) == Invoke(old(store.Here()), call, m, rounds)
  {
    FixedInvoke(store.Here(), call, m, rounds);
    reply := Execute(store, call, Fixed(m.now), Fixed(m.later), rounds);
  }
}
