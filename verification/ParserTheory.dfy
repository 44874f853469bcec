/** What the request parser does with encoded commands, whole, torn or cut into chunks. */
module ParserTheory {
  import opened Bytes
  import opened Decimal
  import opened Resp
  import opened CommandParser

  // ---------------------------------------------------------------- commands on the wire

  function Bulks(cmd: Command): seq<RespValue> {
    seq(|cmd|, i requires 0 <= i < |cmd| => BulkString(cmd[i]))
  }

  /** The frame a client sends and AofWriter::Append logs: an array of bulk strings. */
  function FrameOf(cmd: Command): Bytes {
    Encode(Array(Bulks(cmd)))
  }

  predicate ArgsFit(cmd: Command) {
    forall i | 0 <= i < |cmd| :: |cmd[i]| <= MAX_BULK_LEN
  }

  predicate WithinLimits(cmd: Command) {
    1 <= |cmd| <= MAX_ARGS && ArgsFit(cmd)
  }

  lemma ArgsFitCons(cmd: Command)
    requires cmd != []
    ensures ArgsFit(cmd) <==> |cmd[0]| <= MAX_BULK_LEN && ArgsFit(cmd[1..])
  {
    assert cmd == [cmd[0]] + cmd[1..];
  }

  lemma BulksCons(cmd: Command)
    requires cmd != []
    ensures EncodeItems(Bulks(cmd)) == Encode(BulkString(cmd[0])) + EncodeItems(Bulks(cmd[1..]))
  {
    assert Bulks(cmd)[1..] == Bulks(cmd[1..]);
  }

  // ---------------------------------------------------------------- reading a frame

  lemma {:induction false} FindCrlfIs(s: Bytes, pos: nat, e: nat)
    requires pos <= e < |s| - 1 && s[e] == CR && s[e + 1] == LF
    requires forall j | pos <= j < e :: s[j] != CR
    ensures FindCrlf(s, pos) == Some(e)
    decreases e - pos
  {
    if pos < e { FindCrlfIs(s, pos + 1, e); }
  }

  /** A tag, a number and a line break are read back as that number. */
  lemma HeaderReads(s: Bytes, pos: nat, tag: Byte, n: int)
    requires tag != CR && At(s, pos, [tag] + ToDecimal(n) + CRLF)
    ensures s[pos] == tag
    ensures FindCrlf(s, pos) == Some(pos + 1 + |ToDecimal(n)|)
    ensures ParseInt64(s, pos + 1, pos + 1 + |ToDecimal(n)|)
         == if INT64_MIN <= n <= INT64_MAX then Some(n) else None
  {
    var d := ToDecimal(n);
    var w := [tag] + d + CRLF;
    var e := pos + 1 + |d|;
    DecimalBytes(n);
    assert s[pos] == w[0] && s[pos + (1 + |d|)] == w[1 + |d|] && s[pos + (2 + |d|)] == w[2 + |d|];
    forall i | 0 <= i < |d| ensures s[pos + 1 + i] == d[i] { assert s[pos + (1 + i)] == w[1 + i]; }
    forall j | pos <= j < e ensures s[j] != CR { if j > pos { assert s[pos + 1 + (j - pos - 1)] == d[j - pos - 1]; } }
    FindCrlfIs(s, pos, e);
    ParseUndoesPrint(s, pos + 1, n);
  }

  lemma BulkReads(s: Bytes, pos: nat, arg: Bytes)
    requires At(s, pos, Encode(BulkString(arg)))
    ensures ParseBulk(s, pos) ==
      if |arg| <= MAX_BULK_LEN then Arg(arg, pos + |Encode(BulkString(arg))|) else Bad(InvalidBulkLength)
  {
    var head := [DOLLAR] + ToDecimal(|arg|) + CRLF;
    assert Encode(BulkString(arg)) == head + (arg + CRLF);
    AtSplit(s, pos, head, arg + CRLF);
    AtSplit(s, pos + |head|, arg, CRLF);
    HeaderReads(s, pos, DOLLAR, |arg|);
    var end := pos + |head| + |arg|;
    assert s[end] == CRLF[0] && s[end + 1] == CRLF[1];
    if |arg| <= MAX_BULK_LEN { assert s[end - |arg|..end] == arg; }
  }

  lemma BulkFirst(s: Bytes, pos: nat, cmd: Command) returns (next: nat)
    requires cmd != [] && At(s, pos, EncodeItems(Bulks(cmd)))
    ensures |cmd[0]| <= MAX_BULK_LEN ==> ParseBulk(s, pos) == Arg(cmd[0], next)
    ensures |cmd[0]| > MAX_BULK_LEN ==> ParseBulk(s, pos) == Bad(InvalidBulkLength)
    ensures At(s, next, EncodeItems(Bulks(cmd[1..])))
    ensures next + |EncodeItems(Bulks(cmd[1..]))| == pos + |EncodeItems(Bulks(cmd))|
  {
    next := pos + |Encode(BulkString(cmd[0]))|;
    BulksCons(cmd);
    AtSplit(s, pos, Encode(BulkString(cmd[0])), EncodeItems(Bulks(cmd[1..])));
    BulkReads(s, pos, cmd[0]);
  }

  /** The argument reader finds `cmd`, one argument after the other, between `pos` and `end`. */
  ghost predicate Arguments(s: Bytes, pos: nat, cmd: Command, end: nat)
    requires pos <= |s|
    decreases |cmd|
  {
    if cmd == [] then pos == end
    else
      var b := ParseBulk(s, pos);
      if |cmd[0]| <= MAX_BULK_LEN then b.Arg? && b.arg == cmd[0] && Arguments(s, b.next, cmd[1..], end) else b.Bad?
  }

  lemma {:induction false} ArgumentsAt(s: Bytes, pos: nat, cmd: Command, end: nat)
    requires At(s, pos, EncodeItems(Bulks(cmd))) && end == pos + |EncodeItems(Bulks(cmd))|
    ensures Arguments(s, pos, cmd, end)
    decreases |cmd|
  {
    if cmd != [] {
      var next := BulkFirst(s, pos, cmd);
      ArgumentsAt(s, next, cmd[1..], end);
      ArgumentsCons(s, pos, cmd, next, end);
    }
  }

  lemma OneMoreBulk(s: Bytes, pos: nat, n: nat, args: Command, arg: Bytes, next: nat)
    requires pos <= |s| && n > 0 && ParseBulk(s, pos) == Arg(arg, next)
    ensures ParseBulks(s, pos, n, args) == ParseBulks(s, next, n - 1, args + [arg])
  {
  }

  lemma ArgumentsCons(s: Bytes, pos: nat, cmd: Command, next: nat, end: nat)
    requires pos <= |s| && cmd != []
    requires |cmd[0]| <= MAX_BULK_LEN ==> ParseBulk(s, pos) == Arg(cmd[0], next) && Arguments(s, next, cmd[1..], end)
    requires |cmd[0]| > MAX_BULK_LEN ==> ParseBulk(s, pos) == Bad(InvalidBulkLength)
    ensures Arguments(s, pos, cmd, end)
  {
  }

  lemma {:induction false} ArgumentsParse(s: Bytes, pos: nat, cmd: Command, end: nat, args: Command)
    requires pos <= |s| && end <= |s| && Arguments(s, pos, cmd, end)
    ensures ArgsFit(cmd) ==> ParseBulks(s, pos, |cmd|, args) == Complete(args + cmd, s[end..])
    ensures !ArgsFit(cmd) ==> ParseBulks(s, pos, |cmd|, args).ProtocolError?
    decreases |cmd|
  {
    if cmd == [] {
      assert args + cmd == args;
    } else {
      ArgsFitCons(cmd);
      if |cmd[0]| <= MAX_BULK_LEN {
        var next := ParseBulk(s, pos).next;
        ArgumentsParse(s, next, cmd[1..], end, args + [cmd[0]]);
        assert [cmd[0]] + cmd[1..] == cmd;
        Assoc(args, [cmd[0]], cmd[1..]);
        OneMoreBulk(s, pos, |cmd|, args, cmd[0], next);
      }
    }
  }

  /** The count line of a frame counts `cmd`, and the arguments of `cmd` fill the bytes after it up to `end`. */
  ghost predicate Counted(s: Bytes, cmd: Command, end: nat) {
    && s != [] && s[0] == STAR && FindCrlf(s, 0).Some? && end <= |s|
    && var e := FindCrlf(s, 0);
       && ParseInt64(s, 1, e.value) == (if |cmd| <= INT64_MAX then Some(|cmd|) else None)
       && Arguments(s, e.value + 2, cmd, end)
  }

  lemma FrameCounted(cmd: Command, s: Bytes)
    requires At(s, 0, FrameOf(cmd))
    ensures Counted(s, cmd, |FrameOf(cmd)|)
  {
    var head, body := [STAR] + ToDecimal(|cmd|) + CRLF, EncodeItems(Bulks(cmd));
    assert FrameOf(cmd) == head + body;
    AtSplit(s, 0, head, body);
    HeaderReads(s, 0, STAR, |cmd|);
    assert |FrameOf(cmd)| == |head| + |body|;
    ArgumentsAt(s, FindCrlf(s, 0).value + 2, cmd, |FrameOf(cmd)|);
  }

  lemma CountedParse(s: Bytes, cmd: Command, end: nat)
    requires Counted(s, cmd, end)
    ensures WithinLimits(cmd) ==> ParseCommand(s) == Complete(cmd, s[end..])
    ensures !WithinLimits(cmd) ==> ParseCommand(s).ProtocolError?
  {
    if 1 <= |cmd| <= MAX_ARGS {
      var none: Command := [];
      ArgumentsParse(s, FindCrlf(s, 0).value + 2, cmd, end, none);
      assert none + cmd == cmd;
    }
  }

  /** A frame within the limits is read back whole; any other frame is a protocol error. */
  lemma FrameReads(cmd: Command, rest: Bytes)
    ensures WithinLimits(cmd) ==> ParseCommand(FrameOf(cmd) + rest) == Complete(cmd, rest)
    ensures !WithinLimits(cmd) ==> ParseCommand(FrameOf(cmd) + rest).ProtocolError?
  {
    var w := FrameOf(cmd);
    FrameCounted(cmd, w + rest);
    CountedParse(w + rest, cmd, |w|);
    DropAppend(w, rest);
  }

  // ---------------------------------------------------------------- more bytes change no verdict

  lemma {:induction false} FindCrlfStable(s: Bytes, more: Bytes, pos: nat)
    requires pos <= |s| && FindCrlf(s, pos).Some?
    ensures FindCrlf(s + more, pos) == FindCrlf(s, pos)
    decreases |s| - pos
  {
    if !(s[pos] == CR && s[pos + 1] == LF) { FindCrlfStable(s, more, pos + 1); }
  }

  lemma {:induction false} ReadDigitsStable(s: Bytes, more: Bytes, i: nat, hi: nat, acc: nat)
    requires i <= hi <= |s|
    ensures ReadDigits(s + more, i, hi, acc) == ReadDigits(s, i, hi, acc)
    decreases hi - i
  {
    if i < hi && IsDigit(s[i]) { ReadDigitsStable(s, more, i + 1, hi, 10 * acc + (s[i] - 48)); }
  }

  lemma ParseInt64Stable(s: Bytes, more: Bytes, lo: nat, hi: nat)
    requires lo <= hi <= |s|
    ensures ParseInt64(s + more, lo, hi) == ParseInt64(s, lo, hi)
  {
    ReadDigitsStable(s, more, lo, hi, 0);
    if lo < hi { ReadDigitsStable(s, more, lo + 1, hi, 0); }
  }

  lemma ParseBulkStable(s: Bytes, more: Bytes, pos: nat)
    requires pos <= |s| && !ParseBulk(s, pos).More?
    ensures ParseBulk(s + more, pos) == ParseBulk(s, pos)
  {
    if s[pos] == DOLLAR {
      FindCrlfStable(s, more, pos);
      var e := FindCrlf(s, pos).value;
      ParseInt64Stable(s, more, pos + 1, e);
      var b := ParseBulk(s, pos);
      if b.Arg? { assert (s + more)[e + 2..b.next - 2] == s[e + 2..b.next - 2]; }
    }
  }

  /** The same verdict, with the new bytes left behind whatever was consumed. */
  function Later(r: Parse, more: Bytes): Parse {
    match r
    case Incomplete(rest) => Incomplete(rest + more)
    case Complete(args, rest) => Complete(args, rest + more)
    case ProtocolError(reason, rest) => ProtocolError(reason, rest + more)
  }

  lemma {:induction false} ParseBulksStable(s: Bytes, more: Bytes, pos: nat, n: nat, args: Command)
    requires pos <= |s| && !ParseBulks(s, pos, n, args).Incomplete?
    ensures ParseBulks(s + more, pos, n, args) == Later(ParseBulks(s, pos, n, args), more)
    decreases n
  {
    if n == 0 {
      assert (s + more)[pos..] == s[pos..] + more;
    } else {
      ParseBulkStable(s, more, pos);
      var b := ParseBulk(s, pos);
      if b.Arg? { ParseBulksStable(s, more, b.next, n - 1, args + [b.arg]); }
    }
  }

  /** For a buffer that starts a frame, Complete and ProtocolError are final: more input changes neither. */
  lemma VerdictIsFinal(s: Bytes, more: Bytes)
    requires s != [] && s[0] == STAR && !ParseCommand(s).Incomplete?
    ensures ParseCommand(s + more) == Later(ParseCommand(s), more)
  {
    FindCrlfStable(s, more, 0);
    var e := FindCrlf(s, 0).value;
    ParseInt64Stable(s, more, 1, e);
    var argc := ParseInt64(s, 1, e);
    if argc.Some? && 0 < argc.value <= MAX_ARGS { ParseBulksStable(s, more, e + 2, argc.value, []); }
  }

  /** Every strict prefix of a frame is incomplete, and stays in the buffer untouched. */
  lemma TornFrame(cmd: Command, k: nat)
    requires WithinLimits(cmd) && k < |FrameOf(cmd)|
    ensures ParseCommand(FrameOf(cmd)[..k]) == Incomplete(FrameOf(cmd)[..k])
  {
    var w := FrameOf(cmd);
    var s, more := w[..k], w[k..];
    assert s + more == w && w + [] == w;
    FrameReads(cmd, []);
    if s != [] && !ParseCommand(s).Incomplete? {
      assert s[0] == w[0];
      VerdictIsFinal(s, more);
    }
  }
}
