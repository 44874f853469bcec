/** RESP2 values and their wire form (src/resp/resp_value.cpp). */
module Resp {
  import opened Bytes
  import opened Decimal

  datatype RespValue =
    | SimpleString(str: Bytes)
    | Error(str: Bytes)
    | Integer(integer: int)
    | BulkString(str: Bytes)
    | NilBulkString
    | Array(items: seq<RespValue>)
    | NilArray

  function Encode(v: RespValue): (r: Bytes)
    ensures r != []
    decreases v, 1
  {
    match v
    case SimpleString(s) => [PLUS] + s + CRLF
    case Error(s) => [MINUS] + s + CRLF
    case Integer(n) => [COLON] + ToDecimal(n) + CRLF
    case BulkString(s) => [DOLLAR] + ToDecimal(|s|) + CRLF + s + CRLF
    case NilBulkString => [DOLLAR] + ToDecimal(-1) + CRLF
    case Array(items) => [STAR] + ToDecimal(|items|) + CRLF + EncodeItems(items)
    case NilArray => [STAR] + ToDecimal(-1) + CRLF
  }

  /** The encodings of the items, one after the other. */
  function EncodeItems(items: seq<RespValue>): Bytes
    decreases items, 0
  {
    if items == [] then [] else Encode(items[0]) + EncodeItems(items[1..])
  }

  lemma {:induction false} EncodeItemsSnoc(items: seq<RespValue>, v: RespValue)
    ensures EncodeItems(items + [v]) == EncodeItems(items) + Encode(v)
  {
    if items == [] {
      assert items + [v] == [v] && EncodeItems([v][1..]) == [];
    } else {
      assert (items + [v])[1..] == items[1..] + [v];
      EncodeItemsSnoc(items[1..], v);
    }
  }

  /** The source's switch, with its string-accumulating loop for arrays. */
  method EncodeValue(v: RespValue) returns (out: Bytes)
    ensures out == Encode(v)
  {
    match v
    case SimpleString(s) => out := [PLUS] + s + CRLF;
    case Error(s) => out := [MINUS] + s + CRLF;
    case Integer(n) => out := [COLON] + ToDecimal(n) + CRLF;
    case BulkString(s) => out := [DOLLAR] + ToDecimal(|s|) + CRLF + s + CRLF;
    case NilBulkString => out := [DOLLAR] + ToDecimal(-1) + CRLF;
    case NilArray => out := [STAR] + ToDecimal(-1) + CRLF;
    case Array(items) =>
      var head := [STAR] + ToDecimal(|items|) + CRLF;
      out := head;
      for i := 0 to |items|
        invariant out == head + EncodeItems(items[..i])
      {
        var item := EncodeValue(items[i]);
        assert items[..i + 1] == items[..i] + [items[i]];
        EncodeItemsSnoc(items[..i], items[i]);
        out := out + item;
      }
      assert items[..|items|] == items;
  }

  // ---------------------------------------------------------------- unambiguous decoding

  /** No line break inside: exactly what a simple string or an error line must not hold. */
  predicate OneLine(s: Bytes) {
    forall i | 0 <= i < |s| - 1 :: !(s[i] == CR && s[i + 1] == LF)
  }

  /** Every simple string and error, at any depth, is one line. */
  predicate WellFormed(v: RespValue) {
    match v
    case SimpleString(s) => OneLine(s)
    case Error(s) => OneLine(s)
    case Array(items) => forall i | 0 <= i < |items| :: WellFormed(items[i])
    case _ => true
  }

  /** A line is determined by the stream it starts. */
  lemma LineUnique(s: Bytes, t: Bytes, x: Bytes, y: Bytes)
    requires OneLine(s) && OneLine(t) && s + CRLF + x == t + CRLF + y
    ensures s == t && x == y
  {
    if |s| < |t| {
      LongerLineBreaks(s, t, x, y);
    } else if |t| < |s| {
      LongerLineBreaks(t, s, y, x);
    } else {
      var a, b := s + CRLF + x, t + CRLF + y;
      assert s == a[..|s|] && t == b[..|t|];
      assert x == a[|s| + 2..] && y == b[|t| + 2..];
    }
  }

  lemma LongerLineBreaks(s: Bytes, t: Bytes, x: Bytes, y: Bytes)
    requires |s| < |t| && s + CRLF + x == t + CRLF + y
    ensures !OneLine(t)
  {
    var a, b := s + CRLF + x, t + CRLF + y;
    assert a[|s|] == CR && a[|s| + 1] == LF && b[|t|] == CR;
    assert b[|s|] == t[|s|] && b[|s| + 1] == t[|s| + 1];
  }

  lemma DecimalIsOneLine(n: int)
    ensures OneLine(ToDecimal(n))
  {
    DecimalBytes(n);
  }

  /** A tag and a length line are determined by the stream they start. */
  lemma HeaderUnique(tag: Byte, m: int, n: int, x: Bytes, y: Bytes)
    requires [tag] + ToDecimal(m) + CRLF + x == [tag] + ToDecimal(n) + CRLF + y
    ensures m == n && x == y
  {
    var a, b := [tag] + ToDecimal(m) + CRLF + x, [tag] + ToDecimal(n) + CRLF + y;
    assert a[1..] == ToDecimal(m) + CRLF + x && b[1..] == ToDecimal(n) + CRLF + y;
    DecimalIsOneLine(m);
    DecimalIsOneLine(n);
    LineUnique(ToDecimal(m), ToDecimal(n), x, y);
    ToDecimalInjective(m, n);
  }

  lemma TextLineUnique(tag: Byte, s: Bytes, t: Bytes, x: Bytes, y: Bytes)
    requires OneLine(s) && OneLine(t) && [tag] + s + CRLF + x == [tag] + t + CRLF + y
    ensures s == t && x == y
  {
    var a, b := [tag] + s + CRLF + x, [tag] + t + CRLF + y;
    assert a[1..] == s + CRLF + x && b[1..] == t + CRLF + y;
    LineUnique(s, t, x, y);
  }

  /** The part of an encoding that follows its tag and length line. */
  function Body(v: RespValue): Bytes
    requires v.BulkString? || v.NilBulkString? || v.Array? || v.NilArray?
  {
    match v
    case BulkString(s) => s + CRLF
    case Array(items) => EncodeItems(items)
    case _ => []
  }

  function Count(v: RespValue): int
    requires v.BulkString? || v.NilBulkString? || v.Array? || v.NilArray?
  {
    match v
    case BulkString(s) => |s|
    case Array(items) => |items|
    case _ => -1
  }

  lemma EncodeCounted(v: RespValue, x: Bytes)
    requires v.BulkString? || v.NilBulkString? || v.Array? || v.NilArray?
    ensures Encode(v) + x == [Encode(v)[0]] + ToDecimal(Count(v)) + CRLF + (Body(v) + x)
    ensures Encode(v)[0] == if v.BulkString? || v.NilBulkString? then DOLLAR else STAR
  {
  }

  /** Encoding is prefix-free and injective: a stream determines its first value and what follows it. */
  lemma {:induction false} Unambiguous(a: RespValue, b: RespValue, x: Bytes, y: Bytes)
    requires WellFormed(a) && WellFormed(b) && Encode(a) + x == Encode(b) + y
    ensures a == b && x == y
    decreases a, 1
  {
    assert (Encode(a) + x)[0] == Encode(a)[0] && (Encode(b) + y)[0] == Encode(b)[0];
    match a {
      case SimpleString(s) => TextLineUnique(PLUS, s, b.str, x, y);
      case Error(s) => TextLineUnique(MINUS, s, b.str, x, y);
      case Integer(n) => HeaderUnique(COLON, n, b.integer, x, y);
      case _ =>
        EncodeCounted(a, x);
        EncodeCounted(b, y);
        HeaderUnique(Encode(a)[0], Count(a), Count(b), Body(a) + x, Body(b) + y);
        BodyUnique(a, b, x, y);
    }
  }

  lemma {:induction false} BodyUnique(a: RespValue, b: RespValue, x: Bytes, y: Bytes)
    requires WellFormed(a) && WellFormed(b)
    requires a.BulkString? || a.NilBulkString? || a.Array? || a.NilArray?
    requires b.BulkString? || b.NilBulkString? || b.Array? || b.NilArray?
    requires Encode(a)[0] == Encode(b)[0] && Count(a) == Count(b) && Body(a) + x == Body(b) + y
    ensures a == b && x == y
    decreases a, 0
  {
    match a {
      case BulkString(s) =>
        var u, v := Body(a) + x, Body(b) + y;
        assert s == u[..|s|] && b.str == v[..|s|];
        assert x == u[|s| + 2..] && y == v[|s| + 2..];
      case Array(items) => ItemsUnique(items, b.items, x, y);
      case NilBulkString => assert Body(a) + x == x && Body(b) + y == y;
      case NilArray => assert Body(a) + x == x && Body(b) + y == y;
    }
  }

  lemma {:induction false} ItemsUnique(us: seq<RespValue>, vs: seq<RespValue>, x: Bytes, y: Bytes)
    requires |us| == |vs| && EncodeItems(us) + x == EncodeItems(vs) + y
    requires forall i | 0 <= i < |us| :: WellFormed(us[i]) && WellFormed(vs[i])
    ensures us == vs && x == y
    decreases us, 0
  {
    if us == [] {
      assert EncodeItems(us) + x == x && EncodeItems(vs) + y == y;
    } else {
      var p, q := EncodeItems(us[1..]) + x, EncodeItems(vs[1..]) + y;
      assert EncodeItems(us) + x == Encode(us[0]) + p && EncodeItems(vs) + y == Encode(vs[0]) + q;
      Unambiguous(us[0], vs[0], p, q);
      ItemsUnique(us[1..], vs[1..], x, y);
      assert us == [us[0]] + us[1..] && vs == [vs[0]] + vs[1..];
    }
  }

  /** A simple string can be told from every other well-formed value exactly when it is one line. */
  lemma SimpleStringExact(s: Bytes)
    ensures OneLine(s) <==>
      (forall b: RespValue, x: Bytes, y: Bytes ::
         WellFormed(b) && Encode(SimpleString(s)) + x == Encode(b) + y ==> b == SimpleString(s) && x == y)
  {
    var a := SimpleString(s);
    if OneLine(s) {
      forall b: RespValue, x: Bytes, y: Bytes | WellFormed(b) && Encode(a) + x == Encode(b) + y
        ensures b == a && x == y
      {
        Unambiguous(a, b, x, y);
      }
    } else {
      var i := FirstBreak(s);
      var b, y := SimpleString(s[..i]), s[i + 2..] + CRLF;
      assert s == s[..i] + CRLF + s[i + 2..];
      var none: Bytes := [];
      assert Encode(a) + none == Encode(b) + y;
    }
  }

  lemma FirstBreak(s: Bytes) returns (i: nat)
    requires !OneLine(s)
    ensures i + 1 < |s| && s[i] == CR && s[i + 1] == LF && OneLine(s[..i])
  {
    i := 0;
    while !(s[i] == CR && s[i + 1] == LF)
      invariant i + 1 < |s|
      invariant forall j | 0 <= j < i :: !(s[j] == CR && s[j + 1] == LF)
      decreases |s| - i
    {
      i := i + 1;
    }
  }
}
