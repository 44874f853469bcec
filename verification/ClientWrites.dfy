/** What every write leaves behind and answers, and what the next command then finds. */
module ClientWrites {
  import opened Bytes
  import opened Decimal
  import opened Resp
  import opened Keyspace
  import opened Atomic
  import opened CommandParser
  import opened Dispatcher
  import opened Commands
  import opened Readings
  import opened ClientLaws
  import Interleaving

  // ---------------------------------------------------------------- the state after a call

  /** Later than both readings of a command. */
  predicate Since(m: Moment, t: int) {
    m.now <= t && m.later <= t
  }

  lemma AfterIs(s: State, args: Command, call: Call, m: Moment, t: int)
    requires Interpret(args) == Do(call) && Since(m, t)
    ensures View(After(s, args, m).space, t) == Purge(Apply(call, View(s.space, m.now), m.now).0, t)
  {
    var f := FirstSection(call, s, m.now);
    FixedSweep(f.state, f.stale, m.later);
    Interleaving.SweepIsInvisible(f.state, f.stale, Fixed(m.later), t);
    ViewLater(f.state.space, m.now, t);
    SectionRefines(call, s, m.now);
  }

  /** What a key of the reference map holds at `t`. */
  function HeldIn(live: Live, key: Bytes, t: int): Option<Value> {
    if key in live && !(live[key].deadline.Some? && live[key].deadline.value <= t) then Some(live[key].value) else None
  }

  lemma HeldAfter(s: State, args: Command, call: Call, m: Moment, t: int, key: Bytes)
    requires Interpret(args) == Do(call) && Since(m, t)
    ensures Held(After(s, args, m), key, t) == HeldIn(Apply(call, View(s.space, m.now), m.now).0, key, t)
  {
    AfterIs(s, args, call, m, t);
    HeldIsLive(After(s, args, m), key, t);
  }

  /** Reply and state of a call whose outcome on the reference map is known. */
  lemma Outcome(s: State, args: Command, call: Call, m: Moment, t: int, key: Bytes, out: (Live, Reply))
    requires Interpret(args) == Do(call) && Since(m, t) && Apply(call, View(s.space, m.now), m.now) == out
    ensures ReplyTo(s, args, m) == ToResp(out.1) && Held(After(s, args, m), key, t) == HeldIn(out.0, key, t)
  {
    ReplyIs(s, args, call, m);
    HeldAfter(s, args, call, m, t, key);
  }

  lemma HeldBefore(s: State, key: Bytes, now: int, t: int)
    requires now <= t
    ensures HeldIn(View(s.space, now), key, t) == Held(s, key, t)
  {
  }

  /** The key is there at `now`, and its deadline comes by `t`. */
  predicate RunsOut(s: State, key: Bytes, now: int, t: int) {
    key in s.space && !Due(s.space[key], now) && Due(s.space[key], t)
  }

  /** The keys that a call may change. */
  predicate Names(call: Call, key: Bytes) {
    match call
    case Set(k, _) => key == k
    case Del(keys) => key in keys
    case FlushAll => true
    case Expire(k, _) => key == k
    case LPush(k, _) => key == k
    case RPush(k, _) => key == k
    case HSet(k, _) => key == k
    case HDel(k, _) => key == k
    case _ => false
  }

  /** No command changes a key that it does not name. */
  lemma OthersKept(s: State, args: Command, call: Call, m: Moment, t: int, key: Bytes)
    requires Interpret(args) == Do(call) && Since(m, t) && !Names(call, key)
    ensures Held(After(s, args, m), key, t) == Held(s, key, t)
  {
    HeldAfter(s, args, call, m, t, key);
    HeldBefore(s, key, m.now, t);
  }

  // ---------------------------------------------------------------- strings and keys

  lemma SetLaw(s: State, args: Command, m: Moment, t: int)
    requires |args| == 3 && Spells(args[0], "SET") && Since(m, t)
    ensures ReplyTo(s, args, m) == SimpleString(Ascii("OK"))
    ensures Held(After(s, args, m), args[1], t) == Some(Str(args[2]))
  {
    ReadsSet(args);
    HeldAfter(s, args, Call.Set(args[1], args[2]), m, t, args[1]);
  }

  lemma LiveAmong(s: State, keys: seq<Bytes>, t: int)
    ensures View(s.space, t).Keys * KeysOf(keys) == set k | k in keys && Held(s, k, t).Some?
  {
  }

  /** DEL answers how many of the keys, each counted once, held something, and they hold nothing any more. */
  lemma DelLaw(s: State, args: Command, m: Moment, t: int, key: Bytes)
    requires |args| >= 2 && Spells(args[0], "DEL") && Since(m, t) && key in args[1..]
    ensures ReplyTo(s, args, m) == Integer(|set k | k in args[1..] && Held(s, k, m.now).Some?|)
    ensures Held(After(s, args, m), key, t) == None
  {
    ReadsDel(args);
    LiveAmong(s, args[1..], m.now);
    var live, gone := View(s.space, m.now), KeysOf(args[1..]);
    Outcome(s, args, Del(args[1..]), m, t, key, (live - gone, Number(|live.Keys * gone|)));
  }

  lemma FlushAllLaw(s: State, args: Command, m: Moment, t: int, key: Bytes)
    requires |args| == 1 && Spells(args[0], "FLUSHALL") && Since(m, t)
    ensures ReplyTo(s, args, m) == SimpleString(Ascii("OK")) && Held(After(s, args, m), key, t) == None
  {
    ReadsFlushAll(args);
    HeldAfter(s, args, FlushAll, m, t, key);
  }

  /** EXPIRE: the value stays until the new deadline, or goes at once if no time is given. */
  lemma ExpireLaw(s: State, args: Command, seconds: int, m: Moment, t: int)
    requires |args| == 3 && Spells(args[0], "EXPIRE") && args[2] == ToDecimal(seconds) && Since(m, t)
    requires INT64_MIN <= seconds <= INT64_MAX
    ensures ReplyTo(s, args, m) == Integer(if Held(s, args[1], m.now).Some? then 1 else 0)
    ensures Held(After(s, args, m), args[1], t)
         == if seconds > 0 && t < m.now + seconds * 1_000_000_000 then Held(s, args[1], m.now) else None
  {
    ReadsExpire(args);
    PrintedReads(seconds);
    ReplyIs(s, args, Expire(args[1], seconds), m);
    HeldAfter(s, args, Expire(args[1], seconds), m, t, args[1]);
    HeldIsLive(s, args[1], m.now);
  }

  lemma ExpireSets(s: State, args: Command, seconds: int, m: Moment)
    requires |args| == 3 && Spells(args[0], "EXPIRE") && args[2] == ToDecimal(seconds)
    requires 0 < seconds <= INT64_MAX && Held(s, args[1], m.now).Some?
    ensures var space := After(s, args, m).space;
      args[1] in space && space[args[1]].deadline == Some(m.now + seconds * 1_000_000_000)
  {
    ReadsExpire(args);
    PrintedReads(seconds);
    assert After(s, args, m) == ExpireSection(s, args[1], seconds, m.now).state;
  }

  /** TTL after EXPIRE: the nearest second to what is left, cut to milliseconds. */
  lemma ExpireThenTtl(s: State, args: Command, ttl: Command, seconds: int, m: Moment, n: Moment) returns (r: int)
    requires |args| == 3 && Spells(args[0], "EXPIRE") && args[2] == ToDecimal(seconds)
    requires 0 < seconds <= INT64_MAX && Held(s, args[1], m.now).Some?
    requires |ttl| == 2 && Spells(ttl[0], "TTL") && ttl[1] == args[1]
    requires m.now <= n.now < m.now + seconds * 1_000_000_000
    ensures ReplyTo(After(s, args, m), ttl, n) == Integer(r)
    ensures 1000 * r - 500 <= (m.now + seconds * 1_000_000_000 - n.now) / 1_000_000 < 1000 * r + 500
  {
    ExpireSets(s, args, seconds, m);
    r := TtlReply(After(s, args, m), ttl, n);
  }

  // ---------------------------------------------------------------- lists

  /** The list under a key, an empty one if it holds nothing. */
  function Items(s: State, key: Bytes, t: int): seq<Bytes> {
    match Held(s, key, t)
    case Some(List(xs)) => xs
    case _ => []
  }

  ghost predicate ListOrNothing(s: State, key: Bytes, t: int) {
    Held(s, key, t).Some? ==> Held(s, key, t).value.List?
  }

  /** The values in the opposite order. */
  predicate Reversed(xs: seq<Bytes>, ys: seq<Bytes>) {
    |xs| == |ys| && forall i | 0 <= i < |xs| :: xs[i] == ys[|ys| - 1 - i]
  }

  lemma {:induction false} ReverseIs(xs: seq<Bytes>)
    ensures Reversed(Reverse(xs), xs)
  {
    if xs != [] { ReverseIs(xs[1..]); }
  }

  /** The deadline of a key of the reference map has come by `t`. */
  predicate Ended(live: Live, key: Bytes, t: int) {
    key in live && live[key].deadline.Some? && live[key].deadline.value <= t
  }

  lemma ItemsLive(s: State, key: Bytes, now: int, t: int)
    requires ListOrNothing(s, key, now)
    ensures ListUnder(View(s.space, now), key) == Some(Items(s, key, now))
    ensures Ended(View(s.space, now), key, t) == RunsOut(s, key, now, t)
  {
  }

  lemma PushLive(live: Live, key: Bytes, values: seq<Bytes>, front: bool, items: seq<Bytes>, t: int)
    requires ListUnder(live, key) == Some(items)
    ensures AtomicPush(live, key, values, front).1 == Number(|items| + |values|)
    ensures HeldIn(AtomicPush(live, key, values, front).0, key, t)
         == if Ended(live, key, t) then None
            else Some(List(if front then Reverse(values) + items else items + values))
  {
    ReverseIs(values);
  }

  lemma RPushLaw(s: State, args: Command, m: Moment, t: int)
    requires |args| >= 3 && Spells(args[0], "RPUSH") && Since(m, t) && ListOrNothing(s, args[1], m.now)
    ensures ReplyTo(s, args, m) == Integer(|Items(s, args[1], m.now)| + |args| - 2)
    ensures Held(After(s, args, m), args[1], t)
         == if RunsOut(s, args[1], m.now, t) then None else Some(List(Items(s, args[1], m.now) + args[2..]))
  {
    ReadsRPush(args);
    ItemsLive(s, args[1], m.now, t);
    PushLive(View(s.space, m.now), args[1], args[2..], false, Items(s, args[1], m.now), t);
    Outcome(s, args, RPush(args[1], args[2..]), m, t, args[1],
            AtomicPush(View(s.space, m.now), args[1], args[2..], false));
  }

  lemma LPushLaw(s: State, args: Command, m: Moment, t: int) returns (front: seq<Bytes>)
    requires |args| >= 3 && Spells(args[0], "LPUSH") && Since(m, t) && ListOrNothing(s, args[1], m.now)
    ensures ReplyTo(s, args, m) == Integer(|Items(s, args[1], m.now)| + |args| - 2) && Reversed(front, args[2..])
    ensures Held(After(s, args, m), args[1], t)
         == if RunsOut(s, args[1], m.now, t) then None else Some(List(front + Items(s, args[1], m.now)))
  {
    ReadsLPush(args);
    ItemsLive(s, args[1], m.now, t);
    PushLive(View(s.space, m.now), args[1], args[2..], true, Items(s, args[1], m.now), t);
    Outcome(s, args, LPush(args[1], args[2..]), m, t, args[1],
            AtomicPush(View(s.space, m.now), args[1], args[2..], true));
    front := Reverse(args[2..]);
    ReverseIs(args[2..]);
  }

  lemma PushThenLLen(s: State, args: Command, llen: Command, m: Moment, n: Moment)
    requires |args| >= 3 && (Spells(args[0], "RPUSH") || Spells(args[0], "LPUSH")) && Since(m, n.now)
    requires ListOrNothing(s, args[1], m.now) && !RunsOut(s, args[1], m.now, n.now)
    requires |llen| == 2 && Spells(llen[0], "LLEN") && llen[1] == args[1]
    ensures ReplyTo(After(s, args, m), llen, n) == Integer(|Items(s, args[1], m.now)| + |args| - 2)
  {
    if Spells(args[0], "RPUSH") {
      RPushLaw(s, args, m, n.now);
    } else {
      var front := LPushLaw(s, args, m, n.now);
    }
    LLenReply(After(s, args, m), llen, n);
  }

  // ---------------------------------------------------------------- hashes

  function FieldsOf(s: State, key: Bytes, t: int): map<Bytes, Bytes> {
    match Held(s, key, t)
    case Some(Hash(fields)) => fields
    case _ => map[]
  }

  ghost predicate HashOrNothing(s: State, key: Bytes, t: int) {
    Held(s, key, t).Some? ==> Held(s, key, t).value.Hash?
  }

  lemma {:induction false} LastPair(pairs: seq<(Bytes, Bytes)>, i: nat)
    requires i < |pairs| && forall j | i < j < |pairs| :: pairs[j].0 != pairs[i].0
    ensures pairs[i].0 in MapOf(pairs) && MapOf(pairs)[pairs[i].0] == pairs[i].1
  {
    var last := |pairs| - 1;
    if i < last {
      LastPair(pairs[..last], i);
      assert pairs[last].0 != pairs[i].0;
    }
  }

  lemma {:induction false} HasPair(pairs: seq<(Bytes, Bytes)>, f: Bytes)
    ensures f in MapOf(pairs) <==> exists i :: 0 <= i < |pairs| && pairs[i].0 == f
  {
    if pairs != [] {
      var last := |pairs| - 1;
      HasPair(pairs[..last], f);
      if i :| 0 <= i < |pairs| && pairs[i].0 == f { assert i < last ==> pairs[..last][i].0 == f; }
      if i :| 0 <= i < last && pairs[..last][i].0 == f { assert pairs[i].0 == f; }
    }
  }

  lemma FieldsLive(s: State, key: Bytes, now: int, t: int)
    requires HashOrNothing(s, key, now)
    ensures HashUnder(View(s.space, now), key) == Some(FieldsOf(s, key, now))
    ensures Ended(View(s.space, now), key, t) == RunsOut(s, key, now, t)
    ensures key in View(s.space, now) <==> Held(s, key, now).Some?
  {
  }

  lemma HSetLive(live: Live, key: Bytes, pairs: seq<(Bytes, Bytes)>, fields: map<Bytes, Bytes>, t: int)
    requires HashUnder(live, key) == Some(fields)
    ensures AtomicHSet(live, key, pairs).1 == Number(|MapOf(pairs).Keys - fields.Keys|)
    ensures HeldIn(AtomicHSet(live, key, pairs).0, key, t)
         == if Ended(live, key, t) then None else Some(Hash(fields + MapOf(pairs)))
  {
  }

  /** HSET merges its pairs into the hash and answers how many fields are new. */
  lemma HSetLaw(s: State, args: Command, m: Moment, t: int)
    requires |args| >= 4 && |args| % 2 == 0 && Spells(args[0], "HSET") && Since(m, t)
    requires HashOrNothing(s, args[1], m.now)
    ensures ReplyTo(s, args, m) == Integer(|MapOf(PairsOf(args[2..])).Keys - FieldsOf(s, args[1], m.now).Keys|)
    ensures Held(After(s, args, m), args[1], t)
         == if RunsOut(s, args[1], m.now, t) then None
            else Some(Hash(FieldsOf(s, args[1], m.now) + MapOf(PairsOf(args[2..]))))
  {
    ReadsHSet(args);
    FieldsLive(s, args[1], m.now, t);
    HSetLive(View(s.space, m.now), args[1], PairsOf(args[2..]), FieldsOf(s, args[1], m.now), t);
    Outcome(s, args, HSet(args[1], PairsOf(args[2..])), m, t, args[1],
            AtomicHSet(View(s.space, m.now), args[1], PairsOf(args[2..])));
  }

  /** The words of an HSET behind the key: the last pair of a field counts. */
  lemma LastWord(words: Command, i: nat)
    requires 2 * i + 1 < |words| && forall j | i < j && 2 * j + 1 < |words| :: words[2 * j] != words[2 * i]
    ensures words[2 * i] in MapOf(PairsOf(words)) && MapOf(PairsOf(words))[words[2 * i]] == words[2 * i + 1]
  {
    var pairs := PairsOf(words);
    PairsAre(words, i);
    forall j | i < j < |pairs| ensures pairs[j].0 != pairs[i].0 { PairsAre(words, j); }
    LastPair(pairs, i);
  }

  /** A field is in the map of the pairs iff it is named at one of the even places. */
  lemma NamedWord(words: Command, f: Bytes)
    ensures f in MapOf(PairsOf(words)) <==> exists i: nat :: 2 * i + 1 < |words| && words[2 * i] == f
  {
    var pairs := PairsOf(words);
    HasPair(pairs, f);
    PairCount(words);
    forall i: nat | 2 * i + 1 < |words| ensures i < |pairs| && pairs[i].0 == words[2 * i] { PairsAre(words, i); }
    if i :| 0 <= i < |pairs| && pairs[i].0 == f { assert words[2 * i] == f; }
  }

  /** HSET, then HGET of a field that it names: the last value that it gives the field. */
  lemma HSetThenHGet(s: State, args: Command, get: Command, i: nat, m: Moment, n: Moment)
    requires |args| >= 4 && |args| % 2 == 0 && Spells(args[0], "HSET") && Since(m, n.now)
    requires HashOrNothing(s, args[1], m.now) && !RunsOut(s, args[1], m.now, n.now)
    requires 2 * i + 1 < |args| - 2
    requires forall j | i < j && 2 * j + 1 < |args| - 2 :: args[2..][2 * j] != args[2..][2 * i]
    requires |get| == 3 && Spells(get[0], "HGET") && get[1] == args[1] && get[2] == args[2..][2 * i]
    ensures ReplyTo(After(s, args, m), get, n) == BulkString(args[2..][2 * i + 1])
  {
    HSetLaw(s, args, m, n.now);
    HGetReply(After(s, args, m), get, n);
    LastWord(args[2..], i);
  }

  /** A field that the HSET does not name keeps its value. */
  lemma HSetKeepsField(s: State, args: Command, get: Command, m: Moment, n: Moment)
    requires |args| >= 4 && |args| % 2 == 0 && Spells(args[0], "HSET") && Since(m, n.now)
    requires HashOrNothing(s, args[1], m.now) && !RunsOut(s, args[1], m.now, n.now)
    requires |get| == 3 && Spells(get[0], "HGET") && get[1] == args[1]
    requires forall j: nat | 2 * j + 1 < |args| - 2 :: args[2..][2 * j] != get[2]
    ensures ReplyTo(After(s, args, m), get, n) == ReplyTo(s, get, m)
  {
    HSetLaw(s, args, m, n.now);
    HGetReply(After(s, args, m), get, n);
    HGetReply(s, get, m);
    NamedWord(args[2..], get[2]);
  }

  lemma EmptiedIff(fields: map<Bytes, Bytes>, gone: set<Bytes>)
    ensures fields - gone == map[] <==> fields.Keys <= gone
    ensures (fields - gone).Keys == fields.Keys - gone
  {
    assert forall f :: f in fields - gone <==> f in fields && f !in gone;
  }

  lemma HDelLive(live: Live, key: Bytes, dropped: seq<Bytes>, fields: map<Bytes, Bytes>, t: int)
    requires HashUnder(live, key) == Some(fields)
    ensures AtomicHDel(live, key, dropped).1 == Number(|fields.Keys * KeysOf(dropped)|)
    ensures HeldIn(AtomicHDel(live, key, dropped).0, key, t)
         == if Ended(live, key, t) || key !in live || fields.Keys <= KeysOf(dropped) then None
            else Some(Hash(fields - KeysOf(dropped)))
  {
    EmptiedIff(fields, KeysOf(dropped));
    if key !in live { assert fields.Keys * KeysOf(dropped) == {}; }
  }

  /** HDEL removes the fields, answers how many were there, and takes an emptied hash away. */
  lemma HDelLaw(s: State, args: Command, m: Moment, t: int)
    requires |args| >= 3 && Spells(args[0], "HDEL") && Since(m, t) && HashOrNothing(s, args[1], m.now)
    ensures ReplyTo(s, args, m) == Integer(|FieldsOf(s, args[1], m.now).Keys * KeysOf(args[2..])|)
    ensures Held(After(s, args, m), args[1], t)
         == if RunsOut(s, args[1], m.now, t) || Held(s, args[1], m.now).None?
               || FieldsOf(s, args[1], m.now).Keys <= KeysOf(args[2..]) then None
            else Some(Hash(FieldsOf(s, args[1], m.now) - KeysOf(args[2..])))
  {
    ReadsHDel(args);
    FieldsLive(s, args[1], m.now, t);
    HDelLive(View(s.space, m.now), args[1], args[2..], FieldsOf(s, args[1], m.now), t);
    Outcome(s, args, HDel(args[1], args[2..]), m, t, args[1], AtomicHDel(View(s.space, m.now), args[1], args[2..]));
  }

  /** After HDEL a dropped field is gone, and HLEN is the number of fields that are left. */
  lemma HDelThenAsk(s: State, args: Command, has: Command, hlen: Command, m: Moment, n: Moment)
    requires |args| >= 3 && Spells(args[0], "HDEL") && Since(m, n.now)
    requires HashOrNothing(s, args[1], m.now) && !RunsOut(s, args[1], m.now, n.now)
    requires |has| == 3 && Spells(has[0], "HEXISTS") && has[1] == args[1]
    requires |hlen| == 2 && Spells(hlen[0], "HLEN") && hlen[1] == args[1]
    ensures var fields, t := FieldsOf(s, args[1], m.now), After(s, args, m);
      && ReplyTo(t, has, n) == Integer(if has[2] in fields && has[2] !in args[2..] then 1 else 0)
      && ReplyTo(t, hlen, n) == Integer(|fields.Keys - KeysOf(args[2..])|)
  {
    HDelLaw(s, args, m, n.now);
    HExistsReply(After(s, args, m), has, n);
    HLenReply(After(s, args, m), hlen, n);
    var fields, gone := FieldsOf(s, args[1], m.now), KeysOf(args[2..]);
    EmptiedIff(fields, gone);
    if fields.Keys <= gone { assert fields.Keys - gone == {}; }
  }

  /** After HSET the fields it names are there, and HLEN counts the old and the new ones together. */
  lemma HSetThenAsk(s: State, args: Command, has: Command, hlen: Command, m: Moment, n: Moment)
    requires |args| >= 4 && |args| % 2 == 0 && Spells(args[0], "HSET") && Since(m, n.now)
    requires HashOrNothing(s, args[1], m.now) && !RunsOut(s, args[1], m.now, n.now)
    requires |has| == 3 && Spells(has[0], "HEXISTS") && has[1] == args[1]
    requires |hlen| == 2 && Spells(hlen[0], "HLEN") && hlen[1] == args[1]
    ensures var fields, names, t := FieldsOf(s, args[1], m.now), MapOf(PairsOf(args[2..])).Keys, After(s, args, m);
      && ReplyTo(t, has, n) == Integer(if has[2] in fields || has[2] in names then 1 else 0)
      && ReplyTo(t, hlen, n) == Integer(|fields.Keys + names|)
  {
    HSetLaw(s, args, m, n.now);
    HExistsReply(After(s, args, m), has, n);
    HLenReply(After(s, args, m), hlen, n);
    var fields, pairs := FieldsOf(s, args[1], m.now), MapOf(PairsOf(args[2..]));
    assert (fields + pairs).Keys == fields.Keys + pairs.Keys;
  }

  /** HSET, then HGETALL: the old fields and the pairs merged, every field once with its value behind it. */
  lemma HSetThenHGetAll(s: State, args: Command, all: Command, m: Moment, n: Moment)
    returns (names: seq<Bytes>, flat: seq<Bytes>)
    requires |args| >= 4 && |args| % 2 == 0 && Spells(args[0], "HSET") && Since(m, n.now)
    requires HashOrNothing(s, args[1], m.now) && !RunsOut(s, args[1], m.now, n.now)
    requires |all| == 2 && Spells(all[0], "HGETALL") && all[1] == args[1]
    ensures var merged := FieldsOf(s, args[1], m.now) + MapOf(PairsOf(args[2..]));
      && ReplyTo(After(s, args, m), all, n) == Strings(flat)
      && EachOnce(names, merged.Keys) && |flat| == 2 * |names|
      && forall i | 0 <= i < |names| :: flat[2 * i] == names[i] && flat[2 * i + 1] == merged[names[i]]
  {
    HSetLaw(s, args, m, n.now);
    names, flat := HGetAllReply(After(s, args, m), all, FieldsOf(s, args[1], m.now) + MapOf(PairsOf(args[2..])), n);
  }

  // ---------------------------------------------------------------- refusals

  /** A write that wants a value of another type, by the name of its command. */
  predicate Misfits(args: Command, v: Value) {
    || (|args| >= 3 && (Spells(args[0], "LPUSH") || Spells(args[0], "RPUSH")) && !v.List?)
    || (|args| >= 4 && |args| % 2 == 0 && Spells(args[0], "HSET") && !v.Hash?)
    || (|args| >= 3 && Spells(args[0], "HDEL") && !v.Hash?)
  }

  lemma RefusedCall(s: State, args: Command, call: Call, m: Moment, t: int, key: Bytes)
    requires Interpret(args) == Do(call) && Since(m, t)
    requires Apply(call, View(s.space, m.now), m.now) == (View(s.space, m.now), WrongType)
    ensures ReplyTo(s, args, m) == WRONG_TYPE && Held(After(s, args, m), key, t) == Held(s, key, t)
  {
    Outcome(s, args, call, m, t, key, (View(s.space, m.now), WrongType));
    HeldBefore(s, key, m.now, t);
  }

  lemma RefusedPush(s: State, args: Command, v: Value, m: Moment, t: int, key: Bytes)
    requires |args| >= 3 && (Spells(args[0], "LPUSH") || Spells(args[0], "RPUSH")) && !v.List?
    requires Held(s, args[1], m.now) == Some(v) && Since(m, t)
    ensures ReplyTo(s, args, m) == WRONG_TYPE && Held(After(s, args, m), key, t) == Held(s, key, t)
  {
    HeldIsLive(s, args[1], m.now);
    if Spells(args[0], "LPUSH") {
      ReadsLPush(args);
      RefusedCall(s, args, LPush(args[1], args[2..]), m, t, key);
    } else {
      ReadsRPush(args);
      RefusedCall(s, args, RPush(args[1], args[2..]), m, t, key);
    }
  }

  /** It is refused, and no key changes. */
  lemma RefusedWrite(s: State, args: Command, v: Value, m: Moment, t: int, key: Bytes)
    requires Misfits(args, v) && Held(s, args[1], m.now) == Some(v) && Since(m, t)
    ensures ReplyTo(s, args, m) == WRONG_TYPE && Held(After(s, args, m), key, t) == Held(s, key, t)
  {
    HeldIsLive(s, args[1], m.now);
    if (Spells(args[0], "LPUSH") || Spells(args[0], "RPUSH")) && !v.List? {
      RefusedPush(s, args, v, m, t, key);
    } else if |args| >= 4 && |args| % 2 == 0 && Spells(args[0], "HSET") && !v.Hash? {
      ReadsHSet(args);
      RefusedCall(s, args, HSet(args[1], PairsOf(args[2..])), m, t, key);
    } else {
      ReadsHDel(args);
      RefusedCall(s, args, HDel(args[1], args[2..]), m, t, key);
    }
  }
}
