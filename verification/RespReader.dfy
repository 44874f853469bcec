/** A reader of RESP2 replies, written from the grammar of the protocol: a type byte, a line, and what the line
    announces.  It gives back every value that the server encodes. */
module RespReader {
  import opened Bytes
  import opened Decimal
  import opened Resp

  datatype Parsed = NoValue | Value(value: RespValue, next: nat)
  datatype ParsedItems = NoItems | Items(items: seq<RespValue>, next: nat)

  /** The first carriage return and line feed from `pos` on. */
  function LineEnd(s: Bytes, pos: nat): (e: Option<nat>)
    ensures e.Some? ==> pos <= e.value && e.value + 2 <= |s|
    decreases |s| - pos
  {
    if pos + 2 > |s| then None
    else if s[pos] == 13 && s[pos + 1] == 10 then Some(pos)
    else LineEnd(s, pos + 1)
  }

  /** The number that the digits spell, most significant first. */
  function Spelled(digits: Bytes): int {
    if digits == [] then 0 else 10 * Spelled(digits[..|digits| - 1]) + digits[|digits| - 1] - 48
  }

  function Number(line: Bytes): int {
    if line != [] && line[0] == 45 then 0 - Spelled(line[1..]) else Spelled(line)
  }

  /** The value that starts at `pos`. */
  function ReadValue(s: Bytes, pos: nat): (p: Parsed)
    ensures p.Value? ==> p.next > pos
    decreases |s| - pos, 0
  {
    if pos >= |s| then NoValue
    else
      match LineEnd(s, pos + 1)
      case None => NoValue
      case Some(e) =>
        var line, tag := s[pos + 1..e], s[pos];
        if tag == 43 then Value(SimpleString(line), e + 2)                    // +
        else if tag == 45 then Value(Error(line), e + 2)                      // -
        else if tag == 58 then Value(Integer(Number(line)), e + 2)            // :
        else if tag == 36 then ReadBulk(s, e + 2, Number(line))               // $
        else if tag == 42 then ReadArray(s, e + 2, Number(line))              // *
        else NoValue
  }

  function ReadBulk(s: Bytes, pos: nat, n: int): (p: Parsed)
    requires pos > 0
    ensures p.Value? ==> p.next >= pos
  {
    if n == -1 then Value(NilBulkString, pos)
    else if n >= 0 && pos + n + 2 <= |s| && s[pos + n] == 13 && s[pos + n + 1] == 10 then
      Value(BulkString(s[pos..pos + n]), pos + n + 2)
    else NoValue
  }

  function ReadArray(s: Bytes, pos: nat, n: int): (p: Parsed)
    ensures p.Value? ==> p.next >= pos
    decreases |s| - pos, 2
  {
    if n == -1 then Value(NilArray, pos)
    else if n < 0 then NoValue
    else
      match ReadItems(s, pos, n)
      case NoItems => NoValue
      case Items(items, next) => Value(Array(items), next)
  }

  function ReadItems(s: Bytes, pos: nat, n: nat): (p: ParsedItems)
    ensures p.Items? ==> p.next >= pos
    decreases |s| - pos, 1
  {
    if n == 0 then Items([], pos)
    else
      match ReadValue(s, pos)
      case NoValue => NoItems
      case Value(v, next) =>
        if next > |s| then NoItems
        else
          match ReadItems(s, next, n - 1)
          case NoItems => NoItems
          case Items(rest, end) => Items([v] + rest, end)
  }

  // ---------------------------------------------------------------- it reads what the server writes

  lemma {:induction false} DigitsSpell(n: nat)
    ensures Spelled(DigitsOf(n)) == n
  {
    var d := DigitsOf(n);
    if n < 10 {
      assert d[..0] == [] && Spelled(d[..0]) == 0;
    } else {
      DigitsSpell(n / 10);
      assert d[..|d| - 1] == DigitsOf(n / 10);
    }
  }

  lemma PrintedNumber(n: int)
    ensures Number(ToDecimal(n)) == n
  {
    DecimalBytes(n);
    if n < 0 {
      DigitsSpell(-n);
      assert ToDecimal(n)[1..] == DigitsOf(-n);
    } else {
      DigitsSpell(n);
    }
  }

  lemma {:induction false} LineEnds(s: Bytes, pos: nat, e: nat)
    requires pos <= e && e + 2 <= |s| && s[e] == 13 && s[e + 1] == 10
    requires forall j | pos <= j < e :: !(s[j] == 13 && s[j + 1] == 10)
    ensures LineEnd(s, pos) == Some(e)
    decreases e - pos
  {
    if pos < e { LineEnds(s, pos + 1, e); }
  }

  lemma NoBreakInside(s: Bytes, pos: nat, line: Bytes)
    requires OneLine(line) && At(s, pos, line) && At(s, pos + |line|, CRLF)
    ensures LineEnd(s, pos) == Some(pos + |line|)
  {
    var e := pos + |line|;
    assert s[e + 0] == CRLF[0] && s[e + 1] == CRLF[1];
    forall j | pos <= j < e ensures !(s[j] == 13 && s[j + 1] == 10) {
      assert s[pos + (j - pos)] == line[j - pos];
      if j + 1 < e { assert s[pos + (j + 1 - pos)] == line[j + 1 - pos]; }
    }
    LineEnds(s, pos, e);
  }

  /** A tag and a line: both are found, and the cursor ends behind them. */
  lemma LineReads(s: Bytes, pos: nat, tag: Byte, line: Bytes)
    requires At(s, pos, [tag] + line + CRLF) && OneLine(line)
    ensures pos < |s| && s[pos] == tag
    ensures LineEnd(s, pos + 1) == Some(pos + 1 + |line|) && s[pos + 1..pos + 1 + |line|] == line
  {
    AtSplit(s, pos, [tag] + line, CRLF);
    AtSplit(s, pos, [tag], line);
    assert s[pos + 0] == [tag][0];
    AtSlice(s, pos + 1, line);
    NoBreakInside(s, pos + 1, line);
  }

  lemma NumberReads(s: Bytes, pos: nat, tag: Byte, n: int)
    requires At(s, pos, [tag] + ToDecimal(n) + CRLF)
    ensures var e := pos + 1 + |ToDecimal(n)|;
      pos < |s| && s[pos] == tag && LineEnd(s, pos + 1) == Some(e) && Number(s[pos + 1..e]) == n
  {
    DecimalIsOneLine(n);
    LineReads(s, pos, tag, ToDecimal(n));
    PrintedNumber(n);
  }

  lemma BulkReads(s: Bytes, pos: nat, str: Bytes)
    requires pos > 0 && At(s, pos, str + CRLF)
    ensures ReadBulk(s, pos, |str|) == Value(BulkString(str), pos + |str| + 2)
  {
    AtSplit(s, pos, str, CRLF);
    AtSlice(s, pos, str);
    assert s[pos + |str| + 0] == CRLF[0] && s[pos + |str| + 1] == CRLF[1];
  }

  lemma TextReads(s: Bytes, pos: nat, v: RespValue)
    requires (v.SimpleString? || v.Error?) && OneLine(v.str) && At(s, pos, Encode(v))
    ensures ReadValue(s, pos) == Value(v, pos + |Encode(v)|)
  {
    LineReads(s, pos, if v.SimpleString? then 43 else 45, v.str);
  }

  lemma IntegerReads(s: Bytes, pos: nat, n: int)
    requires At(s, pos, Encode(Integer(n)))
    ensures ReadValue(s, pos) == Value(Integer(n), pos + |Encode(Integer(n))|)
  {
    NumberReads(s, pos, 58, n);
  }

  lemma NilReads(s: Bytes, pos: nat, v: RespValue)
    requires (v.NilBulkString? || v.NilArray?) && At(s, pos, Encode(v))
    ensures ReadValue(s, pos) == Value(v, pos + |Encode(v)|)
  {
    NumberReads(s, pos, if v.NilBulkString? then 36 else 42, -1);
  }

  lemma StringReads(s: Bytes, pos: nat, str: Bytes)
    requires At(s, pos, Encode(BulkString(str)))
    ensures ReadValue(s, pos) == Value(BulkString(str), pos + |Encode(BulkString(str))|)
  {
    var head := [DOLLAR] + ToDecimal(|str|) + CRLF;
    assert Encode(BulkString(str)) == head + (str + CRLF);
    AtSplit(s, pos, head, str + CRLF);
    NumberReads(s, pos, 36, |str|);
    BulkReads(s, pos + |head|, str);
  }

  lemma ArrayReads(s: Bytes, pos: nat, items: seq<RespValue>, body: nat, end: nat)
    requires At(s, pos, [STAR] + ToDecimal(|items|) + CRLF) && body == pos + |[STAR] + ToDecimal(|items|) + CRLF|
    requires ReadItems(s, body, |items|) == Items(items, end)
    ensures ReadValue(s, pos) == Value(Array(items), end)
  {
    NumberReads(s, pos, 42, |items|);
  }

  lemma OneMoreItem(s: Bytes, pos: nat, items: seq<RespValue>, next: nat, end: nat)
    requires items != [] && ReadValue(s, pos) == Value(items[0], next) && next <= |s|
    requires ReadItems(s, next, |items| - 1) == Items(items[1..], end)
    ensures ReadItems(s, pos, |items|) == Items(items, end)
  {
    assert [items[0]] + items[1..] == items;
  }

  /** Wherever an encoding stands, the reader finds its value and stops behind it. */
  lemma {:induction false} ReadsBack(s: Bytes, pos: nat, v: RespValue)
    requires WellFormed(v) && At(s, pos, Encode(v))
    ensures ReadValue(s, pos) == Value(v, pos + |Encode(v)|)
    decreases v, 1
  {
    match v
    case SimpleString(_) => TextReads(s, pos, v);
    case Error(_) => TextReads(s, pos, v);
    case Integer(n) => IntegerReads(s, pos, n);
    case NilBulkString => NilReads(s, pos, v);
    case NilArray => NilReads(s, pos, v);
    case BulkString(str) => StringReads(s, pos, str);
    case Array(items) =>
      var head := [STAR] + ToDecimal(|items|) + CRLF;
      AtSplit(s, pos, head, EncodeItems(items));
      ItemsReadBack(s, pos + |head|, items);
      ArrayReads(s, pos, items, pos + |head|, pos + |head| + |EncodeItems(items)|);
  }

  lemma {:induction false} ItemsReadBack(s: Bytes, pos: nat, items: seq<RespValue>)
    requires (forall i | 0 <= i < |items| :: WellFormed(items[i])) && At(s, pos, EncodeItems(items))
    ensures ReadItems(s, pos, |items|) == Items(items, pos + |EncodeItems(items)|)
    decreases items, 0
  {
    if items != [] {
      var next := pos + |Encode(items[0])|;
      AtSplit(s, pos, Encode(items[0]), EncodeItems(items[1..]));
      ReadsBack(s, pos, items[0]);
      ItemsReadBack(s, next, items[1..]);
      OneMoreItem(s, pos, items, next, next + |EncodeItems(items[1..])|);
    }
  }

  /** A client that knows RESP2 reads every reply of the server as the value it was. */
  lemma ClientReads(v: RespValue, rest: Bytes)
    requires WellFormed(v)
    ensures ReadValue(Encode(v) + rest, 0) == Value(v, |Encode(v)|)
  {
    assert At(Encode(v) + rest, 0, Encode(v));
    ReadsBack(Encode(v) + rest, 0, v);
  }
}
