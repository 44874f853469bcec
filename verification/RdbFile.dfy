/** ByteWriter, ByteReader, SaveRdb and LoadRdb as the source runs them: a growing buffer and a moving cursor. */
module RdbFile {
  import opened Bytes
  import opened Machine
  import Fnv
  import opened Rdb

  // ---------------------------------------------------------------- writing

  class ByteWriter {
    var buf: Bytes

    constructor ()
      ensures buf == []
    {
      buf := [];
    }

    method WriteBytes(data: Bytes)
      modifies this
      ensures buf == old(buf) + data
    {
      buf := buf + data;
    }

    /** WriteU32 and WriteU64: one byte per round, least significant first. */
    method WriteWord(v: nat, n: nat)
      modifies this
      ensures buf == old(buf) + LittleEndian(v, n)
    {
      var rest := v;
      for i := 0 to n
        invariant buf + LittleEndian(rest, n - i) == old(buf) + LittleEndian(v, n)
      {
        Assoc(buf, [rest % 256], LittleEndian(rest / 256, n - i - 1));
        buf := buf + [rest % 256];
        rest := rest / 256;
      }
      assert buf + [] == buf;
    }

    method WriteString(s: Bytes)
      modifies this
      ensures buf == old(buf) + EncodeString(s)
    {
      WriteWord(|s|, 4);
      Assoc(old(buf), LittleEndian(|s|, 4), s);
      buf := buf + s;
    }

    method WriteStrings(xs: seq<Bytes>)
      modifies this
      ensures buf == old(buf) + EncodeStrings(xs)
    {
      assert xs[0..] == xs;
      for i := 0 to |xs|
        invariant buf + EncodeStrings(xs[i..]) == old(buf) + EncodeStrings(xs)
      {
        assert xs[i..][1..] == xs[i + 1..] && xs[i..][0] == xs[i];
        Assoc(buf, EncodeString(xs[i]), EncodeStrings(xs[i + 1..]));
        WriteString(xs[i]);
      }
      assert xs[|xs|..] == [] && buf + [] == buf;
    }

    method WritePairs(ps: seq<(Bytes, Bytes)>)
      modifies this
      ensures buf == old(buf) + EncodeStrings(Flatten(ps))
    {
      assert ps[0..] == ps;
      for i := 0 to |ps|
        invariant buf + EncodeStrings(Flatten(ps[i..])) == old(buf) + EncodeStrings(Flatten(ps))
      {
        assert ps[i..][1..] == ps[i + 1..] && ps[i..][0] == ps[i];
        TwoStrings(ps[i..]);
        var rest := EncodeStrings(Flatten(ps[i + 1..]));
        Assoc(buf, EncodeString(ps[i].0), EncodeString(ps[i].1) + rest);
        Assoc(buf + EncodeString(ps[i].0), EncodeString(ps[i].1), rest);
        WriteString(ps[i].0);
        WriteString(ps[i].1);
      }
      assert ps[|ps|..] == [] && buf + [] == buf;
    }

    method WriteContent(c: Content)
      modifies this
      ensures buf == old(buf) + EncodeContent(c)
    {
      match c
      case Text(s) => WriteString(s);
      case Items(xs) =>
        WriteWord(|xs|, 4);
        Assoc(old(buf), LittleEndian(|xs|, 4), EncodeStrings(xs));
        WriteStrings(xs);
      case Pairs(ps) =>
        WriteWord(|ps|, 4);
        Assoc(old(buf), LittleEndian(|ps|, 4), EncodeStrings(Flatten(ps)));
        WritePairs(ps);
    }

    method WriteDeadline(d: Option<int>)
      modifies this
      ensures buf == old(buf) + EncodeDeadline(d)
    {
      WriteBytes([if d.Some? then 1 else 0]);
      if d.Some? {
        Assoc(old(buf), [1], LittleEndian(ToMilliseconds(d.value) % TWO64, 8));
        WriteWord(ToMilliseconds(d.value) % TWO64, 8);
      }
    }

    method WriteEntry(e: SnapshotEntry)
      modifies this
      ensures buf == old(buf) + EncodeEntry(e)
    {
      WriteString(e.key);
      WriteBytes([TypeByte(e.content)]);
      WriteDeadline(e.expiresWall);
      WriteContent(e.content);
      FourParts(old(buf), EncodeString(e.key), [TypeByte(e.content)], EncodeDeadline(e.expiresWall),
                EncodeContent(e.content));
    }
  }

  lemma TwoStrings(ps: seq<(Bytes, Bytes)>)
    requires ps != []
    ensures EncodeStrings(Flatten(ps))
         == EncodeString(ps[0].0) + (EncodeString(ps[0].1) + EncodeStrings(Flatten(ps[1..])))
  {
    var xs := Flatten(ps);
    assert xs[1..][0] == ps[0].1 && xs[1..][1..] == Flatten(ps[1..]);
  }

  lemma FourParts(a: Bytes, b: Bytes, c: Bytes, d: Bytes, e: Bytes)
    ensures a + b + c + d + e == a + (b + (c + (d + e)))
  {
    Assoc(a + b + c, d, e);
    Assoc(a + b, c, d + e);
    Assoc(a, b, c + (d + e));
  }

  /** The bytes SaveRdb puts into the file. */
  method SaveRdb(entries: seq<SnapshotEntry>) returns (file: Bytes)
    ensures file == FileOf(entries)
  {
    var w := new ByteWriter();
    w.WriteBytes(MAGIC);
    w.WriteWord(FORMAT_VERSION, 4);
    w.WriteWord(|entries|, 8);
    var head := w.buf;
    assert entries[0..] == entries;
    for i := 0 to |entries|
      invariant fresh(w) && w.buf + EncodeEntries(entries[i..]) == head + EncodeEntries(entries)
    {
      assert entries[i..][1..] == entries[i + 1..] && entries[i..][0] == entries[i];
      Assoc(w.buf, EncodeEntry(entries[i]), EncodeEntries(entries[i + 1..]));
      w.WriteEntry(entries[i]);
    }
    assert entries[|entries|..] == [] && w.buf + [] == w.buf;
    FourParts([], MAGIC, LittleEndian(FORMAT_VERSION, 4), LittleEndian(|entries|, 8), EncodeEntries(entries));
    assert [] + MAGIC == MAGIC && [] + PayloadOf(entries) == PayloadOf(entries);
    var sum := Fnv.Fnv1a64(w.buf);
    w.WriteWord(sum, 8);
    file := w.buf;
  }

  // ---------------------------------------------------------------- reading

  /** What a read gives once `out` has been collected before it. */
  function After<T>(out: seq<T>, r: Read<seq<T>>): Option<seq<T>> {
    match r
    case Unreadable => None
    case Got(xs, _) => Some(out + xs)
  }

  lemma AfterNothing<T>(r: Read<seq<T>>)
    ensures After([], r) == Value(r)
  {
    if r.Got? { assert [] + r.value == r.value; }
  }

  lemma ReadOnStrings(out: seq<Bytes>, s: Bytes, pos: nat, n: nat)
    requires pos <= |s| && n > 0
    ensures ReadString(s, pos).Unreadable? ==> ReadStrings(s, pos, n).Unreadable?
    ensures ReadString(s, pos).Got? ==> var next := ReadString(s, pos).next;
      && After(out, ReadStrings(s, pos, n)) == After(out + [ReadString(s, pos).value], ReadStrings(s, next, n - 1))
      && (ReadStrings(s, pos, n).Got? ==> ReadStrings(s, pos, n).next == ReadStrings(s, next, n - 1).next)
  {
    var r := ReadString(s, pos);
    if r.Got? {
      var rest := ReadStrings(s, r.next, n - 1);
      if rest.Got? { Assoc(out, [r.value], rest.value); }
    }
  }

  lemma ReadOnEntries(out: seq<SnapshotEntry>, s: Bytes, pos: nat, n: nat, wallNow: int)
    requires pos <= |s| && n > 0
    ensures ReadEntry(s, pos).Unreadable? ==> ReadEntries(s, pos, n, wallNow).Unreadable?
    ensures ReadEntry(s, pos).Got? ==>
      var e := ReadEntry(s, pos).value;
      After(out, ReadEntries(s, pos, n, wallNow))
        == After(if AlreadyExpired(e, wallNow) then out else out + [e],
                 ReadEntries(s, ReadEntry(s, pos).next, n - 1, wallNow))
  {
    var r := ReadEntry(s, pos);
    if r.Got? {
      var rest := ReadEntries(s, r.next, n - 1, wallNow);
      if rest.Got? { Assoc(out, [r.value], rest.value); }
    }
  }

  lemma Weighted(w: nat, b: nat, rest: nat)
    ensures w * (b + 256 * rest) == w * b + w * 256 * rest && w * b >= 0
  {
  }

  class ByteReader {
    const buf: Bytes
    var pos: nat

    constructor (buf: Bytes)
      ensures this.buf == buf && pos == 0
    {
      this.buf, pos := buf, 0;
    }

    /** Moves the cursor behind what was read; a failed read may leave it anywhere. */
    method ReadWord(n: nat) returns (r: Option<nat>)
      modifies this
      ensures r == Value(Rdb.ReadWord(buf, old(pos), n)) && (r.Some? ==> pos == Rdb.ReadWord(buf, old(pos), n).next)
    {
      if pos + n > |buf| { return None; }
      var v := Assemble(buf, pos, n);
      pos := pos + n;
      return Some(v);
    }

    /** The shift-and-or loop: the bytes are disjoint, so or-ing them in is adding them. */
    static method Assemble(buf: Bytes, pos: nat, n: nat) returns (v: nat)
      requires pos + n <= |buf|
      ensures v == FromLittleEndian(buf, pos, pos + n)
    {
      v := 0;
      var weight: nat := 1;
      for i := 0 to n
        invariant v + weight * FromLittleEndian(buf, pos + i, pos + n) == FromLittleEndian(buf, pos, pos + n)
      {
        Weighted(weight, buf[pos + i], FromLittleEndian(buf, pos + i + 1, pos + n));
        v := v + weight * buf[pos + i];
        weight := weight * 256;
      }
    }

    method ReadString() returns (r: Option<Bytes>)
      modifies this
      ensures r == Value(Rdb.ReadString(buf, old(pos))) && (r.Some? ==> pos == Rdb.ReadString(buf, old(pos)).next)
    {
      var len := ReadWord(4);
      if len.None? || pos + len.value > |buf| { return None; }
      r := Some(buf[pos..pos + len.value]);
      pos := pos + len.value;
    }

    method ReadStrings(n: nat) returns (r: Option<seq<Bytes>>)
      requires pos <= |buf|
      modifies this
      ensures r == Value(Rdb.ReadStrings(buf, old(pos), n))
      ensures r.Some? ==> pos == Rdb.ReadStrings(buf, old(pos), n).next
    {
      var xs: seq<Bytes> := [];
      ghost var whole := Rdb.ReadStrings(buf, pos, n);
      AfterNothing(whole);
      for i := 0 to n
        invariant pos <= |buf| && After(xs, Rdb.ReadStrings(buf, pos, n - i)) == Value(whole)
        invariant whole.Got? ==> whole.next == Rdb.ReadStrings(buf, pos, n - i).next
      {
        ReadOnStrings(xs, buf, pos, n - i);
        var x := ReadString();
        if x.None? { return None; }
        xs := xs + [x.value];
      }
      assert xs + [] == xs;
      return Some(xs);
    }

    method ReadContent(kind: Byte) returns (r: Option<Content>)
      requires pos <= |buf|
      modifies this
      ensures r == Value(Rdb.ReadContent(buf, old(pos), kind))
      ensures r.Some? ==> pos == Rdb.ReadContent(buf, old(pos), kind).next
    {
      if kind == TYPE_LIST || kind == TYPE_HASH {
        var n := ReadWord(4);
        if n.None? { return None; }
        var xs := ReadStrings(if kind == TYPE_LIST then n.value else 2 * n.value);
        if xs.None? { return None; }
        return Some(if kind == TYPE_LIST then Items(xs.value) else Pairs(Pair(xs.value)));
      }
      var x := ReadString();
      if x.None? { return None; }
      return Some(Text(x.value));
    }

    method ReadDeadline() returns (r: Option<Option<int>>)
      modifies this
      ensures r == Value(Rdb.ReadDeadline(buf, old(pos))) && (r.Some? ==> pos == Rdb.ReadDeadline(buf, old(pos)).next)
    {
      if pos + 1 > |buf| { return None; }
      var flag := buf[pos];
      pos := pos + 1;
      if flag == 0 { return Some(None); }
      var u := ReadWord(8);
      if u.None? { return None; }
      return Some(Some(Signed(u.value) * MILLISECOND));
    }

    method ReadEntry() returns (r: Option<SnapshotEntry>)
      modifies this
      ensures r == Value(Rdb.ReadEntry(buf, old(pos))) && (r.Some? ==> pos == Rdb.ReadEntry(buf, old(pos)).next)
    {
      var key := ReadString();
      if key.None? || pos + 1 > |buf| { return None; }
      var kind := buf[pos];
      pos := pos + 1;
      var d := ReadDeadline();
      if d.None? { return None; }
      var c := ReadContent(kind);
      if c.None? { return None; }
      return Some(SnapshotEntry(key.value, c.value, d.value));
    }

    method ReadEntries(n: nat, wallNow: int) returns (r: Option<seq<SnapshotEntry>>)
      requires pos <= |buf|
      modifies this
      ensures r == Value(Rdb.ReadEntries(buf, old(pos), n, wallNow))
    {
      var entries: seq<SnapshotEntry> := [];
      ghost var whole := Value(Rdb.ReadEntries(buf, pos, n, wallNow));
      AfterNothing(Rdb.ReadEntries(buf, pos, n, wallNow));
      for i := 0 to n
        invariant pos <= |buf| && After(entries, Rdb.ReadEntries(buf, pos, n - i, wallNow)) == whole
      {
        ReadOnEntries(entries, buf, pos, n - i, wallNow);
        var e := ReadEntry();
        if e.None? { return None; }
        if !AlreadyExpired(e.value, wallNow) { entries := entries + [e.value]; }
      }
      assert entries + [] == entries;
      return Some(entries);
    }
  }

  function Value<T>(r: Read<T>): Option<T> {
    match r
    case Unreadable => None
    case Got(v, _) => Some(v)
  }

  /** Checksum first, then magic, version, count and entries; any failure makes the file unusable. */
  method LoadRdb(file: Bytes, wallNow: int) returns (r: Option<seq<SnapshotEntry>>)
    ensures r == Load(file, wallNow)
  {
    if |file| < MIN_SIZE { return None; }
    var payload := file[..|file| - 8];
    var stored := ByteReader.Assemble(file, |file| - 8, 8);
    var sum := Fnv.Fnv1a64(payload);
    if stored != sum { return None; }
    r := LoadPayload(payload, wallNow);
  }

  method LoadPayload(payload: Bytes, wallNow: int) returns (r: Option<seq<SnapshotEntry>>)
    ensures r == Value(ReadPayload(payload, wallNow))
  {
    var reader := new ByteReader(payload);
    if !At(payload, 0, MAGIC) { return None; }
    reader.pos := 4;
    var version := reader.ReadWord(4);
    if version != Some(FORMAT_VERSION) { return None; }
    var count := reader.ReadWord(8);
    if count.None? { return None; }
    r := reader.ReadEntries(count.value, wallNow);
  }
}
