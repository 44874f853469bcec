/** The incremental request parser of src/resp/command_parser.cpp: RESP multibulk frames and inline lines. */
module CommandParser {
  import opened Bytes
  import opened Decimal

  const MAX_ARGS: int := 1024
  const MAX_BULK_LEN: int := 64 * 1024 * 1024

  type Command = seq<Bytes>

  datatype Reason =
    InvalidMultibulkLength | ExpectedDollar | InvalidBulkLength | ExpectedCrlf | InlineTooLong

  /** The three statuses, each with what is left in the buffer. */
  datatype Parse =
    | Incomplete(rest: Bytes)
    | Complete(args: Command, rest: Bytes)
    | ProtocolError(reason: Reason, rest: Bytes)

  // ---------------------------------------------------------------- multibulk frames

  /** `find("\r\n", pos)`: the first line break at or after `pos`. */
  function FindCrlf(s: Bytes, pos: nat): (r: Option<nat>)
    requires pos <= |s|
    ensures r.Some? ==> pos <= r.value < |s| - 1 && s[r.value] == CR && s[r.value + 1] == LF
    decreases |s| - pos
  {
    if pos + 2 > |s| then None
    else if s[pos] == CR && s[pos + 1] == LF then Some(pos)
    else FindCrlf(s, pos + 1)
  }

  /** One `$len` argument; `next` is the cursor behind it. */
  datatype Bulk = More | Arg(arg: Bytes, next: nat) | Bad(reason: Reason)

  function ParseBulk(s: Bytes, pos: nat): (r: Bulk)
    requires pos <= |s|
    ensures r.Arg? ==> pos < r.next <= |s|
  {
    if pos == |s| then More
    else if s[pos] != DOLLAR then Bad(ExpectedDollar)
    else
      var e := FindCrlf(s, pos);
      if e.None? then More else
        var len := ParseInt64(s, pos + 1, e.value);
        if len.None? || len.value < 0 || len.value > MAX_BULK_LEN then Bad(InvalidBulkLength) else
          var data := e.value + 2;
          var end := data + len.value;
          if end + 2 > |s| then More
          else if s[end] != CR || s[end + 1] != LF then Bad(ExpectedCrlf)
          else Arg(s[data..end], end + 2)
  }

  /** The argument loop; only a complete frame is taken off the buffer. */
  function ParseBulks(s: Bytes, pos: nat, n: nat, args: Command): (r: Parse)
    requires pos <= |s|
    ensures r.Complete? ==> |r.rest| <= |s| - pos
    ensures !r.Complete? ==> r.rest == s
    decreases n
  {
    if n == 0 then Complete(args, s[pos..]) else
      match ParseBulk(s, pos)
      case More => Incomplete(s)
      case Bad(reason) => ProtocolError(reason, s)
      case Arg(arg, next) => ParseBulks(s, next, n - 1, args + [arg])
  }

  /** The first `i` rounds of the argument loop lead from `start` to `pos` and collect `args`. */
  ghost predicate Reaches(s: Bytes, start: nat, i: nat, pos: nat, args: Command)
    requires pos <= |s|
    decreases i
  {
    if i == 0 then pos == start && args == []
    else
      && |args| == i
      && exists prev: nat :: prev <= |s| && Reaches(s, start, i - 1, prev, args[..i - 1])
                             && ParseBulk(s, prev) == Arg(args[i - 1], pos)
  }

  lemma {:induction false} ReachesAgrees(s: Bytes, start: nat, i: nat, pos: nat, args: Command, n: nat)
    requires start <= |s| && pos <= |s| && i <= n && Reaches(s, start, i, pos, args)
    ensures ParseBulks(s, start, n, []) == ParseBulks(s, pos, n - i, args)
    decreases i
  {
    if i > 0 {
      var prev: nat :| prev <= |s| && Reaches(s, start, i - 1, prev, args[..i - 1])
                       && ParseBulk(s, prev) == Arg(args[i - 1], pos);
      ReachesAgrees(s, start, i - 1, prev, args[..i - 1], n);
      assert args[..i - 1] + [args[i - 1]] == args;
    }
  }

  function ParseMultibulk(s: Bytes): (r: Parse)
    requires s != [] && s[0] == STAR
    ensures r.Complete? ==> |r.rest| < |s|
    ensures !r.Complete? ==> r.rest == s
  {
    var e := FindCrlf(s, 0);
    if e.None? then Incomplete(s) else
      var argc := ParseInt64(s, 1, e.value);
      if argc.None? || argc.value <= 0 || argc.value > MAX_ARGS then ProtocolError(InvalidMultibulkLength, s)
      else ParseBulks(s, e.value + 2, argc.value, [])
  }

  // ---------------------------------------------------------------- inline lines

  /** `std::isspace` in the C locale. */
  predicate IsSpace(b: Byte) {
    b == 32 || 9 <= b <= 13
  }

  function FindLf(s: Bytes, pos: nat): (r: Option<nat>)
    requires pos <= |s|
    ensures r.Some? ==> pos <= r.value < |s| && s[r.value] == LF
    decreases |s| - pos
  {
    if pos == |s| then None else if s[pos] == LF then Some(pos) else FindLf(s, pos + 1)
  }

  function TokenEnd(line: Bytes, i: nat): (e: nat)
    requires i <= |line|
    ensures i <= e <= |line| && (i < |line| && !IsSpace(line[i]) ==> i < e)
    decreases |line| - i
  {
    if i == |line| || IsSpace(line[i]) then i else TokenEnd(line, i + 1)
  }

  /** The maximal runs of non-space bytes, from index `i` on. */
  function TokensFrom(line: Bytes, i: nat): (r: Command)
    requires i <= |line|
    decreases |line| - i
  {
    if i == |line| then []
    else if IsSpace(line[i]) then TokensFrom(line, i + 1)
    else [line[i..TokenEnd(line, i)]] + TokensFrom(line, TokenEnd(line, i))
  }

  function Tokens(line: Bytes): Command {
    TokensFrom(line, 0)
  }

  function StripCr(line: Bytes): Bytes {
    if line != [] && line[|line| - 1] == CR then line[..|line| - 1] else line
  }

  /** Blank lines are consumed inside the loop, so what follows one is read as inline text. */
  function ParseInline(buf: Bytes): (r: Parse)
    ensures r.Complete? ==> |r.rest| < |buf|
    decreases |buf|
  {
    var e := FindLf(buf, 0);
    if e.None? then
      if |buf| > MAX_BULK_LEN then ProtocolError(InlineTooLong, buf) else Incomplete(buf)
    else
      var args := Tokens(StripCr(buf[..e.value]));
      var rest := buf[e.value + 1..];
      if args == [] then ParseInline(rest) else Complete(args, rest)
  }

  function ParseCommand(buf: Bytes): (r: Parse)
    ensures r.Complete? ==> |r.rest| < |buf|
  {
    if buf == [] then Incomplete(buf)
    else if buf[0] == STAR then ParseMultibulk(buf)
    else ParseInline(buf)
  }

  lemma {:induction false} BulksCount(s: Bytes, pos: nat, n: nat, args: Command)
    requires pos <= |s| && ParseBulks(s, pos, n, args).Complete?
    ensures |ParseBulks(s, pos, n, args).args| == |args| + n
    decreases n
  {
    if n > 0 {
      var b := ParseBulk(s, pos);
      BulksCount(s, b.next, n - 1, args + [b.arg]);
    }
  }

  lemma {:induction false} InlineHasWords(buf: Bytes)
    requires ParseInline(buf).Complete?
    ensures ParseInline(buf).args != []
    decreases |buf|
  {
    var e := FindLf(buf, 0);
    if Tokens(StripCr(buf[..e.value])) == [] { InlineHasWords(buf[e.value + 1..]); }
  }

  /** A complete command always has a name, so the dispatcher may read its first word. */
  lemma CompleteHasName(buf: Bytes)
    requires ParseCommand(buf).Complete?
    ensures ParseCommand(buf).args != []
  {
    if buf[0] == STAR {
      var e := FindCrlf(buf, 0);
      var argc := ParseInt64(buf, 1, e.value);
      BulksCount(buf, e.value + 2, argc.value, []);
    } else {
      InlineHasWords(buf);
    }
  }

  // ---------------------------------------------------------------- the class

  class Parser {
    var buffer: Bytes

    constructor ()
      ensures buffer == []
    {
      buffer := [];
    }

    method Feed(data: Bytes)
      modifies this
      ensures buffer == old(buffer) + data
    {
      buffer := buffer + data;
    }

    method TryParseCommand() returns (r: Parse)
      modifies this
      ensures r == ParseCommand(old(buffer)) && buffer == r.rest
    {
      if buffer == [] {
        r := Incomplete(buffer);
      } else if buffer[0] == STAR {
        r := TryParseMultibulk();
      } else {
        r := TryParseInline();
      }
    }

    method TryParseMultibulk() returns (r: Parse)
      requires buffer != [] && buffer[0] == STAR
      modifies this
      ensures r == ParseMultibulk(old(buffer)) && buffer == r.rest
    {
      var lineEnd := FindCrlf(buffer, 0);
      if lineEnd.None? { return Incomplete(buffer); }
      var argc := ParseInt64(buffer, 1, lineEnd.value);
      if argc.None? || argc.value <= 0 || argc.value > MAX_ARGS {
        return ProtocolError(InvalidMultibulkLength, buffer);
      }
      r := ParseArguments(buffer, lineEnd.value + 2, argc.value);
      buffer := r.rest;
    }

    /** The argument loop, from the cursor behind the count line. */
    static method ParseArguments(buffer: Bytes, start: nat, argc: nat) returns (r: Parse)
      requires start <= |buffer|
      ensures r == ParseBulks(buffer, start, argc, [])
    {
      var pos: nat, args: Command := start, [];
      for i := 0 to argc
        invariant pos <= |buffer| && Reaches(buffer, start, i, pos, args)
      {
        var bulk := TryParseBulk(buffer, pos);
        if !bulk.Arg? {
          ReachesAgrees(buffer, start, i, pos, args, argc);
          return if bulk.More? then Incomplete(buffer) else ProtocolError(bulk.reason, buffer);
        }
        assert (args + [bulk.arg])[..i] == args;
        args, pos := args + [bulk.arg], bulk.next;
      }
      ReachesAgrees(buffer, start, argc, pos, args, argc);
      r := Complete(args, buffer[pos..]);
    }

    /** One round of the argument loop. */
    static method TryParseBulk(buffer: Bytes, pos: nat) returns (r: Bulk)
      requires pos <= |buffer|
      ensures r == ParseBulk(buffer, pos)
    {
      if pos >= |buffer| { return More; }
      if buffer[pos] != DOLLAR { return Bad(ExpectedDollar); }
      var lineEnd := FindCrlf(buffer, pos);
      if lineEnd.None? { return More; }
      var len := ParseInt64(buffer, pos + 1, lineEnd.value);
      if len.None? || len.value < 0 || len.value > MAX_BULK_LEN { return Bad(InvalidBulkLength); }
      var data := lineEnd.value + 2;
      if data + len.value + 2 > |buffer| { return More; }
      var arg := buffer[data..data + len.value];
      if buffer[data + len.value] != CR || buffer[data + len.value + 1] != LF { return Bad(ExpectedCrlf); }
      r := Arg(arg, data + len.value + 2);
    }

    method TryParseInline() returns (r: Parse)
      modifies this
      ensures r == ParseInline(old(buffer)) && buffer == r.rest
    {
      while true
        invariant ParseInline(buffer) == ParseInline(old(buffer))
        decreases |buffer|
      {
        var newline := FindLf(buffer, 0);
        if newline.None? {
          return if |buffer| > MAX_BULK_LEN then ProtocolError(InlineTooLong, buffer) else Incomplete(buffer);
        }
        var line := buffer[..newline.value];
        if line != [] && line[|line| - 1] == CR { line := line[..|line| - 1]; }
        buffer := buffer[newline.value + 1..];
        var args := SplitTokens(line);
        if args != [] { return Complete(args, buffer); }
      }
    }

    static method SplitTokens(line: Bytes) returns (args: Command)
      ensures args == Tokens(line)
    {
      args := [];
      var i: nat := 0;
      while i < |line|
        invariant i <= |line| && args + TokensFrom(line, i) == Tokens(line)
      {
        while i < |line| && IsSpace(line[i])
          invariant i <= |line| && args + TokensFrom(line, i) == Tokens(line)
        {
          i := i + 1;
        }
        if i >= |line| { break; }
        var start := i;
        while i < |line| && !IsSpace(line[i])
          invariant start <= i <= |line| && TokenEnd(line, start) == TokenEnd(line, i)
        {
          i := i + 1;
        }
        Assoc(args, [line[start..i]], TokensFrom(line, i));
        args := args + [line[start..i]];
      }
    }
  }
}
