/** What a client can rely on, command by command: laws that join Interpret, the store calls and the replies. */
module Commands {
  import opened Bytes
  import opened Decimal
  import opened Resp
  import opened Keyspace
  import opened CommandParser
  import opened Dispatcher
  import ListIndex

  /** The name of a command in any mix of cases. */
  predicate Spells(name: Bytes, upper: string) {
    |name| == |upper| && forall i | 0 <= i < |upper| ::
      'A' <= upper[i] <= 'Z' && (name[i] == upper[i] as int || name[i] == upper[i] as int + 32)
  }

  lemma SpelledUpper(name: Bytes, upper: string)
    requires Spells(name, upper)
    ensures ToUpper(name) == Ascii(upper)
  {
  }

  lemma UpperSpells(name: Bytes, upper: string)
    requires ToUpper(name) == Ascii(upper) && forall i | 0 <= i < |upper| :: 'A' <= upper[i] <= 'Z'
    ensures Spells(name, upper)
  {
    forall i | 0 <= i < |upper| ensures name[i] == upper[i] as int || name[i] == upper[i] as int + 32 {
      assert ToUpper(name)[i] == Ascii(upper)[i] == upper[i] as int;
    }
  }

  lemma SpellsExactly(name: Bytes, upper: string)
    requires forall i | 0 <= i < |upper| :: 'A' <= upper[i] <= 'Z'
    ensures Spells(name, upper) <==> ToUpper(name) == Ascii(upper)
  {
    if Spells(name, upper) {
      SpelledUpper(name, upper);
    } else if ToUpper(name) == Ascii(upper) {
      UpperSpells(name, upper);
    }
  }

  // ---------------------------------------------------------------- how commands are read

  lemma ReadsPing(args: Command)
    requires args != [] && Spells(args[0], "PING")
    ensures Interpret(args) == if |args| == 1 then Respond(SimpleString(Ascii("PONG")))
      else if |args| == 2 then Respond(BulkString(args[1]))
      else WrongArgs(args[0])
  {
    SpelledUpper(args[0], "PING");
  }

  lemma ReadsEcho(args: Command)
    requires args != [] && Spells(args[0], "ECHO")
    ensures Interpret(args) == if |args| == 2 then Respond(BulkString(args[1])) else WrongArgs(args[0])
  {
    SpelledUpper(args[0], "ECHO");
    assert Ascii("PING")[0] == 80 && Ascii("ECHO")[0] == 69;
  }

  lemma ReadsSet(args: Command)
    requires args != [] && Spells(args[0], "SET")
    ensures Interpret(args) == if |args| == 3 then Do(Call.Set(args[1], args[2]))
      else if |args| != 5 then WrongArgs(args[0])
      else if !Spells(args[3], "EX") then Respond(Error(Ascii("ERR syntax error")))
      else if ParseInt64Arg(args[4]).None? then Respond(Error(Ascii("ERR value is not an integer or out of range")))
      else SetEx(args[1], args[2], ParseInt64Arg(args[4]).value)
  {
    SpelledUpper(args[0], "SET");
    if |args| == 5 { SpellsExactly(args[3], "EX"); }
  }

  lemma ReadsGet(args: Command)
    requires args != [] && Spells(args[0], "GET")
    ensures Interpret(args) == if |args| == 2 then Do(Read(args[1], Get)) else WrongArgs(args[0])
  {
    SpelledUpper(args[0], "GET");
    assert Ascii("SET")[0] == 83 && Ascii("GET")[0] == 71;
  }

  lemma ReadsDel(args: Command)
    requires args != [] && Spells(args[0], "DEL")
    ensures Interpret(args) == if |args| >= 2 then Do(Del(args[1..])) else WrongArgs(args[0])
  {
    SpelledUpper(args[0], "DEL");
    assert Ascii("SET")[0] == 83 && Ascii("DEL")[0] == 68 && Ascii("GET")[0] == 71;
  }

  lemma ReadsExists(args: Command)
    requires args != [] && Spells(args[0], "EXISTS")
    ensures Interpret(args) == if |args| >= 2 then Do(Exists(args[1..])) else WrongArgs(args[0])
  {
    SpelledUpper(args[0], "EXISTS");
  }

  lemma ReadsKeys(args: Command)
    requires args != [] && Spells(args[0], "KEYS")
    ensures Interpret(args) == if |args| == 2 then Match(args[1]) else WrongArgs(args[0])
  {
    SpelledUpper(args[0], "KEYS");
    assert Ascii("PING")[0] == 80 && Ascii("KEYS")[0] == 75 && Ascii("ECHO")[0] == 69;
  }

  lemma ReadsFlushAll(args: Command)
    requires args != [] && Spells(args[0], "FLUSHALL")
    ensures Interpret(args) == if |args| == 1 then Do(FlushAll) else WrongArgs(args[0])
  {
    SpelledUpper(args[0], "FLUSHALL");
  }

  lemma ReadsExpire(args: Command)
    requires args != [] && Spells(args[0], "EXPIRE")
    ensures Interpret(args) == if |args| != 3 then WrongArgs(args[0])
      else if ParseInt64Arg(args[2]).None? then Respond(Error(Ascii("ERR value is not an integer or out of range")))
      else Do(Expire(args[1], ParseInt64Arg(args[2]).value))
  {
    SpelledUpper(args[0], "EXPIRE");
    assert Ascii("EXISTS")[2] == 73 && Ascii("EXPIRE")[2] == 80;
  }

  lemma ReadsTtl(args: Command)
    requires args != [] && Spells(args[0], "TTL")
    ensures Interpret(args) == if |args| == 2 then Do(Ttl(args[1])) else WrongArgs(args[0])
  {
    SpelledUpper(args[0], "TTL");
    assert Ascii("SET")[0] == 83 && Ascii("TTL")[0] == 84 && Ascii("GET")[0] == 71 && Ascii("DEL")[0] == 68;
  }

  lemma ReadsLPush(args: Command)
    requires args != [] && Spells(args[0], "LPUSH")
    ensures Interpret(args) == if |args| >= 3 then Do(LPush(args[1], args[2..])) else WrongArgs(args[0])
  {
    SpelledUpper(args[0], "LPUSH");
  }

  lemma ReadsRPush(args: Command)
    requires args != [] && Spells(args[0], "RPUSH")
    ensures Interpret(args) == if |args| >= 3 then Do(RPush(args[1], args[2..])) else WrongArgs(args[0])
  {
    SpelledUpper(args[0], "RPUSH");
    assert Ascii("LPUSH")[0] == 76 && Ascii("RPUSH")[0] == 82;
  }

  lemma ReadsLLen(args: Command)
    requires args != [] && Spells(args[0], "LLEN")
    ensures Interpret(args) == if |args| == 2 then Do(Read(args[1], LLen)) else WrongArgs(args[0])
  {
    SpelledUpper(args[0], "LLEN");
    assert Ascii("PING")[0] == 80 && Ascii("LLEN")[0] == 76 && Ascii("ECHO")[0] == 69 && Ascii("KEYS")[0] == 75;
  }

  lemma ReadsLRange(args: Command)
    requires args != [] && Spells(args[0], "LRANGE")
    ensures Interpret(args) == if |args| != 4 then WrongArgs(args[0])
      else if ParseInt64Arg(args[2]).None? || ParseInt64Arg(args[3]).None?
      then Respond(Error(Ascii("ERR value is not an integer or out of range")))
      else Do(Read(args[1], LRange(ListIndex.ClampToInt(ParseInt64Arg(args[2]).value),
                                   ListIndex.ClampToInt(ParseInt64Arg(args[3]).value))))
  {
    SpelledUpper(args[0], "LRANGE");
    assert Ascii("EXISTS")[0] == 69 && Ascii("LRANGE")[0] == 76 && Ascii("EXPIRE")[0] == 69;
  }

  lemma ReadsHSet(args: Command)
    requires args != [] && Spells(args[0], "HSET")
    ensures Interpret(args) == if |args| >= 4 && |args| % 2 == 0 then Do(HSet(args[1], PairsOf(args[2..])))
      else WrongArgs(args[0])
  {
    SpelledUpper(args[0], "HSET");
    assert Ascii("PING")[0] == 80 && Ascii("HSET")[0] == 72 && Ascii("ECHO")[0] == 69 && Ascii("KEYS")[0] == 75;
    assert Ascii("LLEN")[0] == 76;
  }

  lemma ReadsHGet(args: Command)
    requires args != [] && Spells(args[0], "HGET")
    ensures Interpret(args) == if |args| == 3 then Do(Read(args[1], HGet(args[2]))) else WrongArgs(args[0])
  {
    SpelledUpper(args[0], "HGET");
    assert Ascii("PING")[0] == 80 && Ascii("HGET")[0] == 72 && Ascii("ECHO")[0] == 69 && Ascii("KEYS")[0] == 75;
    assert Ascii("LLEN")[0] == 76 && Ascii("HSET")[1] == 83 && Ascii("HGET")[1] == 71;
  }

  lemma ReadsHDel(args: Command)
    requires args != [] && Spells(args[0], "HDEL")
    ensures Interpret(args) == if |args| >= 3 then Do(HDel(args[1], args[2..])) else WrongArgs(args[0])
  {
    SpelledUpper(args[0], "HDEL");
    assert Ascii("PING")[0] == 80 && Ascii("HDEL")[0] == 72 && Ascii("ECHO")[0] == 69 && Ascii("KEYS")[0] == 75;
    assert Ascii("LLEN")[0] == 76 && Ascii("HSET")[1] == 83 && Ascii("HDEL")[1] == 68 && Ascii("HGET")[1] == 71;
  }

  lemma ReadsHGetAll(args: Command)
    requires args != [] && Spells(args[0], "HGETALL")
    ensures Interpret(args) == if |args| == 2 then Do(Read(args[1], HGetAll)) else WrongArgs(args[0])
  {
    SpelledUpper(args[0], "HGETALL");
  }

  lemma ReadsHLen(args: Command)
    requires args != [] && Spells(args[0], "HLEN")
    ensures Interpret(args) == if |args| == 2 then Do(Read(args[1], HLen)) else WrongArgs(args[0])
  {
    SpelledUpper(args[0], "HLEN");
    assert Ascii("PING")[0] == 80 && Ascii("HLEN")[0] == 72 && Ascii("ECHO")[0] == 69 && Ascii("KEYS")[0] == 75;
    assert Ascii("LLEN")[0] == 76 && Ascii("HSET")[1] == 83 && Ascii("HLEN")[1] == 76 && Ascii("HGET")[1] == 71;
    assert Ascii("HDEL")[1] == 68;
  }

  lemma ReadsHExists(args: Command)
    requires args != [] && Spells(args[0], "HEXISTS")
    ensures Interpret(args) == if |args| == 3 then Do(Read(args[1], HExists(args[2]))) else WrongArgs(args[0])
  {
    SpelledUpper(args[0], "HEXISTS");
    assert Ascii("HGETALL")[1] == 71 && Ascii("HEXISTS")[1] == 69;
  }

  lemma ReadsHKeys(args: Command)
    requires args != [] && Spells(args[0], "HKEYS")
    ensures Interpret(args) == if |args| == 2 then Do(Read(args[1], HKeys)) else WrongArgs(args[0])
  {
    SpelledUpper(args[0], "HKEYS");
    assert Ascii("LPUSH")[0] == 76 && Ascii("HKEYS")[0] == 72 && Ascii("RPUSH")[0] == 82;
  }

  lemma ReadsHVals(args: Command)
    requires args != [] && Spells(args[0], "HVALS")
    ensures Interpret(args) == if |args| == 2 then Do(Read(args[1], HVals)) else WrongArgs(args[0])
  {
    SpelledUpper(args[0], "HVALS");
    assert Ascii("LPUSH")[0] == 76 && Ascii("HVALS")[0] == 72 && Ascii("RPUSH")[0] == 82;
    assert Ascii("HKEYS")[1] == 75 && Ascii("HVALS")[1] == 86;
  }

  /** The pairs of an HSET, in order. */
  lemma {:induction false} PairsAre(args: Command, i: nat)
    requires 2 * i + 1 < |args|
    ensures |PairsOf(args)| == |args| / 2 && PairsOf(args)[i] == (args[2 * i], args[2 * i + 1])
  {
    PairCount(args);
    if i > 0 {
      PairsAre(args[2..], i - 1);
      assert args[2..][2 * (i - 1)] == args[2 * i] && args[2..][2 * (i - 1) + 1] == args[2 * i + 1];
    }
  }

  lemma {:induction false} PairCount(args: Command)
    ensures |PairsOf(args)| == |args| / 2
  {
    if |args| >= 2 { PairCount(args[2..]); }
  }

  /** The text of a refused number of arguments: the name in lower case, whatever case it came in. */
  lemma WrongArgsText(name: Bytes, upper: string, i: nat)
    requires Spells(name, upper) && i < |upper|
    ensures WrongArgs(name)
         == Respond(Error(Ascii("ERR wrong number of arguments for '") + ToLower(name) + Ascii("' command")))
    ensures |ToLower(name)| == |upper| && ToLower(name)[i] == upper[i] as int + 32
  {
  }

  /** A name that is none of the server's. */
  predicate Unknown(name: Bytes) {
    forall i | 0 <= i < |NAMES| :: !Spells(name, NAMES[i])
  }

  const NAMES: seq<string> := [
    "PING", "ECHO", "SET", "GET", "DEL", "EXISTS", "KEYS", "FLUSHALL", "EXPIRE", "TTL", "LPUSH", "RPUSH", "LLEN",
    "LRANGE", "HSET", "HGET", "HDEL", "HGETALL", "HLEN", "HEXISTS", "HKEYS", "HVALS"]

  lemma NotNamed(name: Bytes, k: nat)
    requires Unknown(name) && k < |NAMES|
    ensures ToUpper(name) != Ascii(NAMES[k])
  {
    if ToUpper(name) == Ascii(NAMES[k]) { UpperSpells(name, NAMES[k]); }
  }

  lemma NoneOfThem(name: Bytes)
    requires Unknown(name)
    ensures var up := ToUpper(name);
      && up != Ascii("PING") && up != Ascii("ECHO") && up != Ascii("SET") && up != Ascii("GET") && up != Ascii("DEL")
      && up != Ascii("EXISTS") && up != Ascii("KEYS") && up != Ascii("FLUSHALL") && up != Ascii("EXPIRE")
      && up != Ascii("TTL") && up != Ascii("LPUSH") && up != Ascii("RPUSH") && up != Ascii("LLEN")
      && up != Ascii("LRANGE") && up != Ascii("HSET") && up != Ascii("HGET") && up != Ascii("HDEL")
      && up != Ascii("HGETALL") && up != Ascii("HLEN") && up != Ascii("HEXISTS") && up != Ascii("HKEYS")
      && up != Ascii("HVALS")
  {
    NotNamed(name, 0); NotNamed(name, 1); NotNamed(name, 2); NotNamed(name, 3); NotNamed(name, 4);
    NotNamed(name, 5); NotNamed(name, 6); NotNamed(name, 7); NotNamed(name, 8); NotNamed(name, 9);
    NotNamed(name, 10); NotNamed(name, 11); NotNamed(name, 12); NotNamed(name, 13); NotNamed(name, 14);
    NotNamed(name, 15); NotNamed(name, 16); NotNamed(name, 17); NotNamed(name, 18); NotNamed(name, 19);
    NotNamed(name, 20); NotNamed(name, 21);
  }

  lemma UnknownCommand(args: Command)
    requires args != [] && Unknown(args[0])
    ensures Interpret(args) == Respond(Error(Ascii("ERR unknown command '") + args[0] + Ascii("'")))
  {
    NoneOfThem(args[0]);
  }

  ghost function After(s: State, args: Command, m: Moment): State {
    Dispatch(Interpret, s, Issued(args, m)).state
  }

  ghost function ReplyTo(s: State, args: Command, m: Moment): RespValue {
    Render(Dispatch(Interpret, s, Issued(args, m)).answer)
  }

  // ---------------------------------------------------------------- which commands are logged

  /** The commands that change data. */
  predicate Writes(name: Bytes) {
    || Spells(name, "SET") || Spells(name, "DEL") || Spells(name, "FLUSHALL") || Spells(name, "EXPIRE")
    || Spells(name, "LPUSH") || Spells(name, "RPUSH") || Spells(name, "HSET") || Spells(name, "HDEL")
  }

  predicate AsksForWrite(req: Request) {
    req.SetEx? || (req.Do? && IsWrite(req.call))
  }

  lemma LoggedIs(s: State, args: Command, m: Moment)
    ensures Dispatch(Interpret, s, Issued(args, m)).logged
       <==> AsksForWrite(Interpret(args)) && !ReplyTo(s, args, m).Error?
  {
  }

  lemma WriteHasName(args: Command)
    requires args != [] && AsksForWrite(Interpret(args))
    ensures var up := ToUpper(args[0]);
      || up == Ascii("SET") || up == Ascii("DEL") || up == Ascii("FLUSHALL") || up == Ascii("EXPIRE")
      || up == Ascii("LPUSH") || up == Ascii("RPUSH") || up == Ascii("HSET") || up == Ascii("HDEL")
  {
  }

  lemma WriteIsNamed(args: Command)
    requires args != [] && AsksForWrite(Interpret(args))
    ensures Writes(args[0])
  {
    WriteHasName(args);
    SpellsExactly(args[0], "SET");
    SpellsExactly(args[0], "DEL");
    SpellsExactly(args[0], "FLUSHALL");
    SpellsExactly(args[0], "EXPIRE");
    SpellsExactly(args[0], "LPUSH");
    SpellsExactly(args[0], "RPUSH");
    SpellsExactly(args[0], "HSET");
    SpellsExactly(args[0], "HDEL");
  }

  lemma NamedWrites(args: Command)
    requires args != [] && Writes(args[0])
    ensures AsksForWrite(Interpret(args)) || (Interpret(args).Respond? && Interpret(args).reply.Error?)
  {
    if Spells(args[0], "SET") { ReadsSet(args); }
    else if Spells(args[0], "DEL") { ReadsDel(args); }
    else if Spells(args[0], "FLUSHALL") { ReadsFlushAll(args); }
    else if Spells(args[0], "EXPIRE") { ReadsExpire(args); }
    else if Spells(args[0], "LPUSH") { ReadsLPush(args); }
    else if Spells(args[0], "RPUSH") { ReadsRPush(args); }
    else if Spells(args[0], "HSET") { ReadsHSet(args); }
    else { ReadsHDel(args); }
  }

  /** A command goes to the log iff it is one of the eight that change data and is not answered with an error. */
  lemma LoggedExactly(s: State, args: Command, m: Moment)
    requires args != []
    ensures Dispatch(Interpret, s, Issued(args, m)).logged <==> Writes(args[0]) && !ReplyTo(s, args, m).Error?
  {
    LoggedIs(s, args, m);
    if AsksForWrite(Interpret(args)) {
      WriteIsNamed(args);
    } else if Writes(args[0]) {
      NamedWrites(args);
    }
  }

  // ---------------------------------------------------------------- commands in sequence

  /** SET stores over anything that was there, expired or not; a GET at any time later finds the value. */
  lemma SetThenGet(s: State, store: Bytes, get: Bytes, key: Bytes, value: Bytes, m: Moment, n: Moment)
    requires Spells(store, "SET") && Spells(get, "GET")
    ensures ReplyTo(s, [store, key, value], m) == SimpleString(Ascii("OK"))
    ensures ReplyTo(After(s, [store, key, value], m), [get, key], n) == BulkString(value)
  {
    ReadsSet([store, key, value]);
    ReadsGet([get, key]);
  }

  lemma PrintedReads(n: int)
    requires INT64_MIN <= n <= INT64_MAX
    ensures ParseInt64Arg(ToDecimal(n)) == Some(n)
  {
    ParseUndoesPrint(ToDecimal(n), 0, n);
  }

  lemma ReadsSetEx(args: Command, seconds: int)
    requires |args| == 5 && Spells(args[0], "SET") && Spells(args[3], "EX") && args[4] == ToDecimal(seconds)
    requires INT64_MIN <= seconds <= INT64_MAX
    ensures Interpret(args) == SetEx(args[1], args[2], seconds)
  {
    ReadsSet(args);
    PrintedReads(seconds);
  }

  lemma GetAfterSetEx(s: State, key: Bytes, value: Bytes, seconds: int, m: Moment, n: Moment)
    ensures var t := Perform(SetEx(key, value, seconds), s, m.now, m.later).state;
      Perform(Do(Read(key, Get)), t, n.now, n.later).answer ==
        Given(if seconds > 0 && n.now < m.now + seconds * 1_000_000_000 then Text(value) else Nil)
  {
    var t := Put(s, key, Str(value), None);
    assert Exec(Call.Set(key, value), s, m.now, m.later).0 == t;
    assert Exec(Expire(key, seconds), t, m.now, m.later).0 == ExpireSection(t, key, seconds, m.now).state;
  }

  /** SET with EX: the value is there until the deadline and not a moment longer; with no seconds to live, never. */
  lemma SetExThenGet(s: State, args: Command, seconds: int, get: Bytes, m: Moment, n: Moment)
    requires |args| == 5 && Spells(args[0], "SET") && Spells(args[3], "EX") && args[4] == ToDecimal(seconds)
    requires INT64_MIN <= seconds <= INT64_MAX && Spells(get, "GET")
    ensures ReplyTo(s, args, m) == SimpleString(Ascii("OK"))
    ensures ReplyTo(After(s, args, m), [get, args[1]], n) ==
        if seconds > 0 && n.now < m.now + seconds * 1_000_000_000 then BulkString(args[2]) else NilBulkString
  {
    ReadsSetEx(args, seconds);
    ReadsGet([get, args[1]]);
    GetAfterSetEx(s, args[1], args[2], seconds, m, n);
  }

  /** The list that a key holds for a client at `now`. */
  function ListAt(s: State, key: Bytes, now: int): seq<Bytes>
    requires key in s.space && !Expired(s.space[key], now) ==> s.space[key].value.List?
  {
    if key in s.space && !Expired(s.space[key], now) then s.space[key].value.items else []
  }

  lemma RangeAfterPush(s: State, key: Bytes, values: seq<Bytes>, m: Moment, n: Moment)
    requires key in s.space && !Expired(s.space[key], m.now) ==> s.space[key].value.List?
    requires key in s.space && !Expired(s.space[key], m.now) ==> !Expired(s.space[key], n.now)
    ensures var t := Perform(Do(RPush(key, values)), s, m.now, m.later).state;
      Perform(Do(Read(key, LRange(0, -1))), t, n.now, n.later).answer == Given(Texts(ListAt(s, key, m.now) + values))
  {
    var t := GetOrCreate(s, key, List([]), m.now);
    var grown := ListAt(s, key, m.now) + values;
    assert t.space[key].value == List(ListAt(s, key, m.now));
    assert Exec(RPush(key, values), s, m.now, m.later).0 == Put(t, key, List(grown), t.space[key].deadline);
    assert Slice(grown, 0, -1) == grown;
  }

  /** RPUSH appends: LRANGE 0 -1 then gives what was there, and the new values in order behind it. */
  lemma PushThenRange(s: State, args: Command, range: Command, m: Moment, n: Moment)
    requires |args| >= 3 && Spells(args[0], "RPUSH")
    requires |range| == 4 && Spells(range[0], "LRANGE") && range[1] == args[1]
    requires range[2] == ToDecimal(0) && range[3] == ToDecimal(-1)
    requires var key := args[1]; key in s.space && !Expired(s.space[key], m.now) ==>
      s.space[key].value.List? && !Expired(s.space[key], n.now)
    ensures ReplyTo(After(s, args, m), range, n) == Strings(ListAt(s, args[1], m.now) + args[2..])
  {
    ReadsRPush(args);
    ReadsLRange(range);
    PrintedReads(0);
    PrintedReads(-1);
    RangeAfterPush(s, args[1], args[2..], m, n);
  }
}
