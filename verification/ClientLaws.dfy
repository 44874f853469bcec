/** What every read and every question answers, in terms of the value that a key holds at a time. */
module ClientLaws {
  import opened Bytes
  import opened Decimal
  import opened Resp
  import opened Keyspace
  import opened Atomic
  import opened CommandParser
  import opened Dispatcher
  import opened Commands
  import ListIndex
  import Glob

  /** What a key holds for a client at `t`: a key whose deadline has come holds nothing. */
  function Held(s: State, key: Bytes, t: int): Option<Value> {
    if key in s.space && !(s.space[key].deadline.Some? && s.space[key].deadline.value <= t)
    then Some(s.space[key].value) else None
  }

  const WRONG_TYPE: RespValue := Error(Ascii("WRONGTYPE Operation against a key holding the wrong kind of value"))

  lemma HeldIsLive(s: State, key: Bytes, t: int)
    ensures Held(s, key, t) == if key in View(s.space, t) then Some(View(s.space, t)[key].value) else None
  {
  }

  /** Every reply is that of the reference map. */
  lemma ReplyIs(s: State, args: Command, call: Call, m: Moment)
    requires Interpret(args) == Do(call)
    ensures ReplyTo(s, args, m) == ToResp(Apply(call, View(s.space, m.now), m.now).1)
  {
    SectionRefines(call, s, m.now);
  }

  // ---------------------------------------------------------------- reads

  lemma ReadReply(s: State, args: Command, key: Bytes, q: Query, m: Moment)
    requires Interpret(args) == Do(Read(key, q))
    ensures ReplyTo(s, args, m) == ToResp(ReadLive(View(s.space, m.now), key, q))
  {
    ReplyIs(s, args, Read(key, q), m);
  }

  lemma GetReply(s: State, args: Command, m: Moment)
    requires |args| == 2 && Spells(args[0], "GET")
    ensures ReplyTo(s, args, m) ==
      match Held(s, args[1], m.now)
      case None => NilBulkString
      case Some(Str(x)) => BulkString(x)
      case _ => WRONG_TYPE
  {
    ReadsGet(args);
    ReadReply(s, args, args[1], Get, m);
  }

  lemma LLenReply(s: State, args: Command, m: Moment)
    requires |args| == 2 && Spells(args[0], "LLEN")
    ensures ReplyTo(s, args, m) ==
      match Held(s, args[1], m.now)
      case None => Integer(0)
      case Some(List(xs)) => Integer(|xs|)
      case _ => WRONG_TYPE
  {
    ReadsLLen(args);
    ReadReply(s, args, args[1], LLen, m);
  }

  /** Saturating the indices changes nothing for a list that fits an int. */
  lemma ClampedWindow(xs: seq<Bytes>, start: ListIndex.Int64, stop: ListIndex.Int64)
    requires |xs| <= 0x7FFF_FFFF
    ensures Window(xs, Position(ListIndex.ClampToInt(start), |xs|), Position(ListIndex.ClampToInt(stop), |xs|))
         == Window(xs, Position(start, |xs|), Position(stop, |xs|))
  {
    ListIndex.ClampIsHarmless(xs, start, stop);
    SliceIsWindow(xs, start, stop);
    SliceIsWindow(xs, ListIndex.ClampToInt(start), ListIndex.ClampToInt(stop));
  }

  /** LRANGE gives the elements between the two positions, both included, for all 64-bit indices. */
  lemma LRangeReply(s: State, args: Command, start: int, stop: int, m: Moment)
    requires |args| == 4 && Spells(args[0], "LRANGE") && args[2] == ToDecimal(start) && args[3] == ToDecimal(stop)
    requires INT64_MIN <= start <= INT64_MAX && INT64_MIN <= stop <= INT64_MAX
    requires var v := Held(s, args[1], m.now); v.Some? && v.value.List? ==> |v.value.items| <= 0x7FFF_FFFF
    ensures ReplyTo(s, args, m) ==
      match Held(s, args[1], m.now)
      case None => Strings([])
      case Some(List(xs)) => Strings(Window(xs, Position(start, |xs|), Position(stop, |xs|)))
      case _ => WRONG_TYPE
  {
    ReadsLRange(args);
    PrintedReads(start);
    PrintedReads(stop);
    var a, b := ListIndex.ClampToInt(start), ListIndex.ClampToInt(stop);
    ReadReply(s, args, args[1], LRange(a, b), m);
    var v := Held(s, args[1], m.now);
    if v.Some? && v.value.List? { ClampedWindow(v.value.items, start, stop); }
  }

  lemma HGetReply(s: State, args: Command, m: Moment)
    requires |args| == 3 && Spells(args[0], "HGET")
    ensures ReplyTo(s, args, m) ==
      match Held(s, args[1], m.now)
      case None => NilBulkString
      case Some(Hash(fields)) => if args[2] in fields then BulkString(fields[args[2]]) else NilBulkString
      case _ => WRONG_TYPE
  {
    ReadsHGet(args);
    ReadReply(s, args, args[1], HGet(args[2]), m);
  }

  lemma HExistsReply(s: State, args: Command, m: Moment)
    requires |args| == 3 && Spells(args[0], "HEXISTS")
    ensures ReplyTo(s, args, m) ==
      match Held(s, args[1], m.now)
      case None => Integer(0)
      case Some(Hash(fields)) => Integer(if args[2] in fields then 1 else 0)
      case _ => WRONG_TYPE
  {
    ReadsHExists(args);
    ReadReply(s, args, args[1], HExists(args[2]), m);
  }

  lemma HLenReply(s: State, args: Command, m: Moment)
    requires |args| == 2 && Spells(args[0], "HLEN")
    ensures ReplyTo(s, args, m) ==
      match Held(s, args[1], m.now)
      case None => Integer(0)
      case Some(Hash(fields)) => Integer(|fields.Keys|)
      case _ => WRONG_TYPE
  {
    ReadsHLen(args);
    ReadReply(s, args, args[1], HLen, m);
  }

  /** Every element of the set once, in some order. */
  ghost predicate EachOnce(xs: seq<Bytes>, keys: set<Bytes>) {
    (forall k :: k in xs <==> k in keys) && Distinct(xs)
  }

  lemma {:induction false} EnumerateOnce(keys: set<Bytes>)
    ensures EachOnce(Enumerate(keys), keys)
  {
    if keys != {} {
      var k :| k in keys && Enumerate(keys) == [k] + Enumerate(keys - {k});
      EnumerateOnce(keys - {k});
    }
  }

  /** HKEYS gives every field once. */
  lemma HKeysReply(s: State, args: Command, fields: map<Bytes, Bytes>, m: Moment) returns (names: seq<Bytes>)
    requires |args| == 2 && Spells(args[0], "HKEYS") && Held(s, args[1], m.now) == Some(Hash(fields))
    ensures ReplyTo(s, args, m) == Strings(names) && EachOnce(names, fields.Keys)
  {
    ReadsHKeys(args);
    ReadReply(s, args, args[1], HKeys, m);
    names := Enumerate(fields.Keys);
    EnumerateOnce(fields.Keys);
  }

  /** HVALS gives the value of every field once. */
  lemma HValsReply(s: State, args: Command, fields: map<Bytes, Bytes>, m: Moment)
    returns (names: seq<Bytes>, values: seq<Bytes>)
    requires |args| == 2 && Spells(args[0], "HVALS") && Held(s, args[1], m.now) == Some(Hash(fields))
    ensures ReplyTo(s, args, m) == Strings(values) && EachOnce(names, fields.Keys)
    ensures |values| == |names| && forall i | 0 <= i < |names| :: values[i] == fields[names[i]]
  {
    ReadsHVals(args);
    ReadReply(s, args, args[1], HVals, m);
    names := Enumerate(fields.Keys);
    EnumerateOnce(fields.Keys);
    values := seq(|names|, i requires 0 <= i < |names| => fields[names[i]]);
  }

  lemma {:induction false} AlternateAt(fields: map<Bytes, Bytes>, names: seq<Bytes>, i: nat)
    requires (forall f | f in names :: f in fields) && i < |names|
    ensures |Alternate(fields, names)| == 2 * |names|
    ensures Alternate(fields, names)[2 * i] == names[i] && Alternate(fields, names)[2 * i + 1] == fields[names[i]]
    decreases |names|
  {
    AlternateSize(fields, names);
    if i > 0 { AlternateAt(fields, names[1..], i - 1); }
  }

  lemma {:induction false} AlternateSize(fields: map<Bytes, Bytes>, names: seq<Bytes>)
    requires forall f | f in names :: f in fields
    ensures |Alternate(fields, names)| == 2 * |names|
  {
    if names != [] { AlternateSize(fields, names[1..]); }
  }

  lemma AlternateIs(fields: map<Bytes, Bytes>, names: seq<Bytes>, flat: seq<Bytes>)
    requires (forall f | f in names :: f in fields) && flat == Alternate(fields, names)
    ensures |flat| == 2 * |names|
    ensures forall i | 0 <= i < |names| :: flat[2 * i] == names[i] && flat[2 * i + 1] == fields[names[i]]
  {
    AlternateSize(fields, names);
    forall i | 0 <= i < |names| ensures flat[2 * i] == names[i] && flat[2 * i + 1] == fields[names[i]] {
      AlternateAt(fields, names, i);
    }
  }

  lemma HGetAllText(s: State, args: Command, fields: map<Bytes, Bytes>, names: seq<Bytes>, m: Moment)
    requires |args| == 2 && Spells(args[0], "HGETALL") && Held(s, args[1], m.now) == Some(Hash(fields))
    requires names == Enumerate(fields.Keys) && forall f | f in names :: f in fields
    ensures ReplyTo(s, args, m) == Strings(Alternate(fields, names))
  {
    ReadsHGetAll(args);
    ReadReply(s, args, args[1], HGetAll, m);
  }

  /** HGETALL gives every field once, with its value behind it. */
  lemma HGetAllReply(s: State, args: Command, fields: map<Bytes, Bytes>, m: Moment)
    returns (names: seq<Bytes>, flat: seq<Bytes>)
    requires |args| == 2 && Spells(args[0], "HGETALL") && Held(s, args[1], m.now) == Some(Hash(fields))
    ensures ReplyTo(s, args, m) == Strings(flat) && EachOnce(names, fields.Keys) && |flat| == 2 * |names|
    ensures forall i | 0 <= i < |names| :: flat[2 * i] == names[i] && flat[2 * i + 1] == fields[names[i]]
  {
    names := Enumerate(fields.Keys);
    EnumerateOnce(fields.Keys);
    HGetAllText(s, args, fields, names, m);
    flat := Alternate(fields, names);
    AlternateIs(fields, names, flat);
  }

  lemma NoFields(s: State, args: Command, q: Query, m: Moment)
    requires |args| == 2 && Interpret(args) == Do(Read(args[1], q)) && (q.HKeys? || q.HVals? || q.HGetAll?)
    requires var v := Held(s, args[1], m.now); v.Some? ==> !v.value.Hash?
    ensures ReplyTo(s, args, m) == if Held(s, args[1], m.now).Some? then WRONG_TYPE else Strings([])
  {
    ReadReply(s, args, args[1], q, m);
    var none: set<Bytes>, nothing: map<Bytes, Bytes> := {}, map[];
    assert Enumerate(none) == [] && nothing.Keys == none;
  }

  /** HKEYS, HVALS and HGETALL give nothing for a key that holds nothing, and refuse another type. */
  lemma AbsentHash(s: State, args: Command, m: Moment)
    requires |args| == 2 && (Spells(args[0], "HKEYS") || Spells(args[0], "HVALS") || Spells(args[0], "HGETALL"))
    requires var v := Held(s, args[1], m.now); v.Some? ==> !v.value.Hash?
    ensures ReplyTo(s, args, m) == if Held(s, args[1], m.now).Some? then WRONG_TYPE else Strings([])
  {
    if Spells(args[0], "HKEYS") {
      ReadsHKeys(args);
      NoFields(s, args, HKeys, m);
    } else if Spells(args[0], "HVALS") {
      ReadsHVals(args);
      NoFields(s, args, HVals, m);
    } else {
      ReadsHGetAll(args);
      NoFields(s, args, HGetAll, m);
    }
  }

  // ---------------------------------------------------------------- questions about keys

  /** How many mentions of keys that hold something. */
  function Mentions(s: State, keys: seq<Bytes>, t: int): nat {
    if keys == [] then 0 else (if Held(s, keys[0], t).Some? then 1 else 0) + Mentions(s, keys[1..], t)
  }

  lemma {:induction false} MentionsSnoc(s: State, keys: seq<Bytes>, t: int)
    requires keys != []
    ensures var i := |keys| - 1;
      Mentions(s, keys, t) == Mentions(s, keys[..i], t) + if Held(s, keys[i], t).Some? then 1 else 0
  {
    var i := |keys| - 1;
    if i > 0 {
      MentionsSnoc(s, keys[1..], t);
      assert keys[1..][..i - 1] == keys[..i][1..];
    }
  }

  lemma {:induction false} MentionsAre(s: State, keys: seq<Bytes>, t: int)
    ensures Occurrences(View(s.space, t), keys) == Mentions(s, keys, t)
  {
    if keys != [] {
      MentionsAre(s, keys[..|keys| - 1], t);
      MentionsSnoc(s, keys, t);
    }
  }

  lemma ExistsReply(s: State, args: Command, m: Moment)
    requires |args| >= 2 && Spells(args[0], "EXISTS")
    ensures ReplyTo(s, args, m) == Integer(Mentions(s, args[1..], m.now))
  {
    ReadsExists(args);
    ReplyIs(s, args, Exists(args[1..]), m);
    MentionsAre(s, args[1..], m.now);
  }

  /** KEYS lists, once each, exactly the keys that hold something and that the pattern loop accepts. */
  lemma KeysReply(s: State, args: Command, m: Moment) returns (keys: seq<Bytes>)
    requires |args| == 2 && Spells(args[0], "KEYS")
    ensures ReplyTo(s, args, m) == Strings(keys) && Distinct(keys)
    ensures forall k :: k in keys <==> Held(s, k, m.now).Some? && Glob.GlobVerdict(args[1], k)
  {
    ReadsKeys(args);
    SectionRefines(Keys, s, m.now);
    var live := View(s.space, m.now).Keys;
    keys := Enumerate(Accepted(args[1], live));
    EnumerateOnce(Accepted(args[1], live));
  }

  /** TTL: -2 for nothing there, -1 for no deadline, otherwise the nearest second to the time left, cut to
      milliseconds. */
  lemma TtlReply(s: State, args: Command, m: Moment) returns (r: int)
    requires |args| == 2 && Spells(args[0], "TTL")
    ensures ReplyTo(s, args, m) == Integer(r)
    ensures Held(s, args[1], m.now).None? ==> r == -2
    ensures Held(s, args[1], m.now).Some? ==>
      match s.space[args[1]].deadline
      case None => r == -1
      case Some(d) => 1000 * r - 500 <= (d - m.now) / 1_000_000 < 1000 * r + 500
  {
    ReadsTtl(args);
    ReplyIs(s, args, Ttl(args[1]), m);
    r := Apply(Ttl(args[1]), View(s.space, m.now), m.now).1.n;
  }
}
