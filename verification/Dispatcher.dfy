/** Dispatch of src/server/dispatcher.cpp: how a command becomes store calls, and which commands are logged. */
module Dispatcher {
  import opened Bytes
  import opened Decimal
  import opened Resp
  import opened Glob
  import opened Keyspace
  import opened CommandParser
  import ListIndex

  // ---------------------------------------------------------------- reading a command

  /** What a command asks for. */
  datatype Request =
    | Respond(reply: RespValue)                              // answered without the store
    | Do(call: Call)
    | SetEx(key: Bytes, value: Bytes, seconds: int)          // SET key value EX seconds
    | Match(pattern: Bytes)                                  // KEYS pattern

  function ToUpper(s: Bytes): Bytes {
    seq(|s|, i requires 0 <= i < |s| => if 97 <= s[i] <= 122 then s[i] - 32 else s[i])
  }

  function ToLower(s: Bytes): Bytes {
    seq(|s|, i requires 0 <= i < |s| => if 65 <= s[i] <= 90 then s[i] + 32 else s[i])
  }

  function WrongArgs(name: Bytes): Request {
    Respond(Error(Ascii("ERR wrong number of arguments for '") + ToLower(name) + Ascii("' command")))
  }

  const NOT_AN_INTEGER: Request := Respond(Error(Ascii("ERR value is not an integer or out of range")))
  const SYNTAX_ERROR: Request := Respond(Error(Ascii("ERR syntax error")))

  function ParseInt64Arg(s: Bytes): Option<int> {
    ParseInt64(s, 0, |s|)
  }

  /** The field/value pairs from index 2 on. */
  function PairsOf(args: Command): seq<(Bytes, Bytes)> {
    if |args| < 2 then [] else [(args[0], args[1])] + PairsOf(args[2..])
  }

  function ReadOf(args: Command, arity: nat, q: Query): Request
    requires args != [] && 2 <= arity
  {
    if |args| != arity then WrongArgs(args[0]) else Do(Read(args[1], q))
  }

  /** The parser never hands over a command without a name (see CompleteHasName); here it would be unknown. */
  function Interpret(args: Command): Request {
    if args == [] then Respond(Error(Ascii("ERR unknown command ''"))) else InterpretNamed(args)
  }

  function InterpretNamed(args: Command): Request
    requires args != []
  {
    var cmd, n := ToUpper(args[0]), |args|;
    var wrong := WrongArgs(args[0]);
    if cmd == Ascii("PING") then
      if n == 1 then Respond(SimpleString(Ascii("PONG"))) else if n == 2 then Respond(BulkString(args[1])) else wrong
    else if cmd == Ascii("ECHO") then if n != 2 then wrong else Respond(BulkString(args[1]))
    else if cmd == Ascii("SET") then InterpretSet(args)
    else if cmd == Ascii("GET") then ReadOf(args, 2, Get)
    else if cmd == Ascii("DEL") then if n < 2 then wrong else Do(Del(args[1..]))
    else if cmd == Ascii("EXISTS") then if n < 2 then wrong else Do(Exists(args[1..]))
    else if cmd == Ascii("KEYS") then if n != 2 then wrong else Match(args[1])
    else if cmd == Ascii("FLUSHALL") then if n != 1 then wrong else Do(FlushAll)
    else if cmd == Ascii("EXPIRE") then
      if n != 3 then wrong
      else match ParseInt64Arg(args[2]) case None => NOT_AN_INTEGER case Some(s) => Do(Expire(args[1], s))
    else if cmd == Ascii("TTL") then if n != 2 then wrong else Do(Ttl(args[1]))
    else if cmd == Ascii("LPUSH") then if n < 3 then wrong else Do(LPush(args[1], args[2..]))
    else if cmd == Ascii("RPUSH") then if n < 3 then wrong else Do(RPush(args[1], args[2..]))
    else if cmd == Ascii("LLEN") then ReadOf(args, 2, LLen)
    else if cmd == Ascii("LRANGE") then InterpretLRange(args)
    else if cmd == Ascii("HSET") then if n < 4 || n % 2 != 0 then wrong else Do(HSet(args[1], PairsOf(args[2..])))
    else if cmd == Ascii("HGET") then if n != 3 then wrong else ReadOf(args, 3, HGet(args[2]))
    else if cmd == Ascii("HDEL") then if n < 3 then wrong else Do(HDel(args[1], args[2..]))
    else if cmd == Ascii("HGETALL") then ReadOf(args, 2, HGetAll)
    else if cmd == Ascii("HLEN") then ReadOf(args, 2, HLen)
    else if cmd == Ascii("HEXISTS") then if n != 3 then wrong else ReadOf(args, 3, HExists(args[2]))
    else if cmd == Ascii("HKEYS") then ReadOf(args, 2, HKeys)
    else if cmd == Ascii("HVALS") then ReadOf(args, 2, HVals)
    else Respond(Error(Ascii("ERR unknown command '") + args[0] + Ascii("'")))
  }

  function InterpretSet(args: Command): Request
    requires args != []
  {
    if |args| == 3 then Do(Call.Set(args[1], args[2]))
    else if |args| != 5 then WrongArgs(args[0])
    else if ToUpper(args[3]) != Ascii("EX") then SYNTAX_ERROR
    else match ParseInt64Arg(args[4]) case None => NOT_AN_INTEGER case Some(s) => SetEx(args[1], args[2], s)
  }

  /** The indices are saturated to int before they reach the store. */
  function InterpretLRange(args: Command): Request
    requires args != []
  {
    if |args| != 4 then WrongArgs(args[0])
    else
      match (ParseInt64Arg(args[2]), ParseInt64Arg(args[3]))
      case (Some(start), Some(stop)) =>
        Do(Read(args[1], LRange(ListIndex.ClampToInt(start), ListIndex.ClampToInt(stop))))
      case _ => NOT_AN_INTEGER
  }

  // ---------------------------------------------------------------- performing it

  /** The calls that AofWriter logs when they do not fail. */
  predicate IsWrite(call: Call) {
    call.Set? || call.Del? || call.FlushAll? || call.Expire? || call.LPush? || call.RPush? || call.HSet? || call.HDel?
  }

  /** A call on its own: the first section, then the deferred deletes at a later reading. */
  ghost function Exec(call: Call, s: State, now: int, later: int): (State, Reply) {
    var f := FirstSection(call, s, now);
    (DropAllExpired(f.state, f.stale, later), f.reply)
  }

  ghost function Strings(items: seq<Bytes>): RespValue {
    Array(seq(|items|, i requires 0 <= i < |items| => BulkString(items[i])))
  }

  ghost function Alternate(fields: map<Bytes, Bytes>, names: seq<Bytes>): seq<Bytes>
    requires forall f | f in names :: f in fields
  {
    if names == [] then [] else [names[0], fields[names[0]]] + Alternate(fields, names[1..])
  }

  ghost function ToResp(r: Reply): RespValue {
    match r
    case Ok => SimpleString(Ascii("OK"))
    case Nil => NilBulkString
    case WrongType => Error(Ascii("WRONGTYPE Operation against a key holding the wrong kind of value"))
    case Number(n) => Integer(n)
    case Text(s) => BulkString(s)
    case Texts(xs) => Strings(xs)
    case KeySet(ks) => Strings(Enumerate(ks))
    case Fields(m) => Strings(Alternate(m, Enumerate(m.Keys)))
    case Values(m) =>
      var names := Enumerate(m.Keys);
      Strings(seq(|names|, i requires 0 <= i < |names| => m[names[i]]))
  }

  datatype Answer = Said(reply: RespValue) | Given(result: Reply) | Matched(keys: set<Bytes>)

  /** What goes back to the client. */
  ghost function Render(a: Answer): RespValue {
    match a
    case Said(reply) => reply
    case Given(result) => ToResp(result)
    case Matched(keys) => Strings(Enumerate(keys))
  }

  /** Of the given keys, those the pattern loop accepts. */
  function Accepted(pattern: Bytes, keys: set<Bytes>): set<Bytes> {
    set k | k in keys && GlobVerdict(pattern, k)
  }

  /** The state after a command, its answer, and whether the command goes to the log. */
  datatype Outcome = Outcome(state: State, answer: Answer, logged: bool)

  ghost function Perform(req: Request, s: State, now: int, later: int): Outcome {
    match req
    case Respond(reply) => Outcome(s, Said(reply), false)
    case Do(call) =>
      var (t, r) := Exec(call, s, now, later);
      Outcome(t, Given(r), IsWrite(call) && !r.WrongType?)
    case SetEx(key, value, seconds) =>
      var t := Exec(Call.Set(key, value), s, now, later).0;
      Outcome(Exec(Expire(key, seconds), t, now, later).0, Given(Ok), true)
    case Match(pattern) =>
      var (t, r) := Exec(Keys, s, now, later);
      Outcome(t, Matched(Accepted(pattern, if r.KeySet? then r.keys else {})), false)
  }

  /** How commands are read.  What is proved of runs and logs holds for every reading; Interpret is the server's. */
  type Reading = Command -> Request

  /** The two clock readings of a call: in its first section, and at its deferred deletes. */
  datatype Moment = Moment(now: int, later: int)

  /** A command of a client, and when it ran. */
  datatype Issued = Issued(args: Command, at: Moment)

  ghost function Dispatch(read: Reading, s: State, c: Issued): Outcome {
    Perform(read(c.args), s, c.at.now, c.at.later)
  }
}
