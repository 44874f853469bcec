/** The snapshot file format of src/persistence/rdb.cpp: writer, reader and checksum. */
module Rdb {
  import opened Bytes
  import opened Machine
  import Fnv

  // ---------------------------------------------------------------- snapshot entries

  datatype Content = Text(text: Bytes) | Items(items: seq<Bytes>) | Pairs(pairs: seq<(Bytes, Bytes)>)

  /** One key as Snapshot captures it; the deadline is in wall-clock nanoseconds since the epoch. */
  datatype SnapshotEntry = SnapshotEntry(key: Bytes, content: Content, expiresWall: Option<int>)

  const MAGIC: Bytes := [71, 82, 68, 66]
  const FORMAT_VERSION: nat := 2
  const TYPE_STRING: Byte := 0
  const TYPE_LIST: Byte := 1
  const TYPE_HASH: Byte := 2
  const MIN_SIZE: nat := 24

  // ---------------------------------------------------------------- writer

  /** The low `n` bytes of `v`, least significant first. */
  function LittleEndian(v: nat, n: nat): (r: Bytes)
    ensures |r| == n
  {
    if n == 0 then [] else [v % 256] + LittleEndian(v / 256, n - 1)
  }

  function EncodeString(s: Bytes): Bytes {
    LittleEndian(|s|, 4) + s
  }

  function EncodeStrings(xs: seq<Bytes>): Bytes {
    if xs == [] then [] else EncodeString(xs[0]) + EncodeStrings(xs[1..])
  }

  /** Fields and values, alternating. */
  function Flatten(pairs: seq<(Bytes, Bytes)>): (xs: seq<Bytes>)
    ensures |xs| == 2 * |pairs|
  {
    if pairs == [] then [] else [pairs[0].0, pairs[0].1] + Flatten(pairs[1..])
  }

  function EncodeContent(c: Content): Bytes {
    match c
    case Text(s) => EncodeString(s)
    case Items(xs) => LittleEndian(|xs|, 4) + EncodeStrings(xs)
    case Pairs(ps) => LittleEndian(|ps|, 4) + EncodeStrings(Flatten(ps))
  }

  function TypeByte(c: Content): Byte {
    match c
    case Text(_) => TYPE_STRING
    case Items(_) => TYPE_LIST
    case Pairs(_) => TYPE_HASH
  }

  /** The flag byte and, behind a set flag, the deadline in milliseconds as a two's complement word. */
  function EncodeDeadline(d: Option<int>): Bytes {
    match d
    case None => [0]
    case Some(ns) => [1] + LittleEndian(ToMilliseconds(ns) % TWO64, 8)
  }

  function EncodeEntry(e: SnapshotEntry): Bytes {
    EncodeString(e.key) + ([TypeByte(e.content)] + (EncodeDeadline(e.expiresWall) + EncodeContent(e.content)))
  }

  function EncodeEntries(es: seq<SnapshotEntry>): Bytes {
    if es == [] then [] else EncodeEntry(es[0]) + EncodeEntries(es[1..])
  }

  function PayloadOf(es: seq<SnapshotEntry>): Bytes {
    MAGIC + (LittleEndian(FORMAT_VERSION, 4) + (LittleEndian(|es|, 8) + EncodeEntries(es)))
  }

  function FileOf(es: seq<SnapshotEntry>): Bytes {
    PayloadOf(es) + LittleEndian(Fnv.Hash(PayloadOf(es)), 8)
  }

  // ---------------------------------------------------------------- reader

  datatype Read<+T> = Unreadable | Got(value: T, next: nat)

  function FromLittleEndian(s: Bytes, pos: nat, end: nat): nat
    requires pos <= end <= |s|
    decreases end - pos
  {
    if pos == end then 0 else s[pos] + 256 * FromLittleEndian(s, pos + 1, end)
  }

  function ReadWord(s: Bytes, pos: nat, n: nat): (r: Read<nat>)
    ensures r.Got? ==> r.next == pos + n <= |s|
  {
    if pos + n > |s| then Unreadable else Got(FromLittleEndian(s, pos, pos + n), pos + n)
  }

  function ReadString(s: Bytes, pos: nat): (r: Read<Bytes>)
    ensures r.Got? ==> pos < r.next <= |s|
  {
    match ReadWord(s, pos, 4)
    case Unreadable => Unreadable
    case Got(len, data) => if data + len > |s| then Unreadable else Got(s[data..data + len], data + len)
  }

  function ReadStrings(s: Bytes, pos: nat, n: nat): (r: Read<seq<Bytes>>)
    requires pos <= |s|
    ensures r.Got? ==> pos <= r.next <= |s| && |r.value| == n
    decreases n
  {
    if n == 0 then Got([], pos)
    else
      match ReadString(s, pos)
      case Unreadable => Unreadable
      case Got(x, next) =>
        match ReadStrings(s, next, n - 1)
        case Unreadable => Unreadable
        case Got(xs, end) => Got([x] + xs, end)
  }

  function Pair(xs: seq<Bytes>): seq<(Bytes, Bytes)>
    requires |xs| % 2 == 0
  {
    if xs == [] then [] else [(xs[0], xs[1])] + Pair(xs[2..])
  }

  /** An unknown type byte is read as a string. */
  function ReadContent(s: Bytes, pos: nat, kind: Byte): (r: Read<Content>)
    requires pos <= |s|
    ensures r.Got? ==> pos <= r.next <= |s|
  {
    if kind == TYPE_LIST || kind == TYPE_HASH then
      match ReadWord(s, pos, 4)
      case Unreadable => Unreadable
      case Got(n, at) =>
        match ReadStrings(s, at, if kind == TYPE_LIST then n else 2 * n)
        case Unreadable => Unreadable
        case Got(xs, end) => Got(if kind == TYPE_LIST then Items(xs) else Pairs(Pair(xs)), end)
    else
      match ReadString(s, pos)
      case Unreadable => Unreadable
      case Got(x, end) => Got(Text(x), end)
  }

  function Signed(u: nat): int {
    if u < TWO63 then u else u - TWO64
  }

  /** The deadline in nanoseconds; any non-zero flag announces one. */
  function ReadDeadline(s: Bytes, pos: nat): (r: Read<Option<int>>)
    ensures r.Got? ==> pos < r.next <= |s|
  {
    if pos + 1 > |s| then Unreadable
    else if s[pos] == 0 then Got(None, pos + 1)
    else
      match ReadWord(s, pos + 1, 8)
      case Unreadable => Unreadable
      case Got(u, next) => Got(Some(Signed(u) * MILLISECOND), next)
  }

  function ReadEntry(s: Bytes, pos: nat): (r: Read<SnapshotEntry>)
    ensures r.Got? ==> pos < r.next <= |s|
  {
    match ReadString(s, pos)
    case Unreadable => Unreadable
    case Got(key, at) =>
      if at + 1 > |s| then Unreadable
      else
        match ReadDeadline(s, at + 1)
        case Unreadable => Unreadable
        case Got(d, body) =>
          match ReadContent(s, body, s[at])
          case Unreadable => Unreadable
          case Got(c, end) => Got(SnapshotEntry(key, c, d), end)
  }

  predicate AlreadyExpired(e: SnapshotEntry, wallNow: int) {
    e.expiresWall.Some? && e.expiresWall.value <= wallNow
  }

  /** An expired entry is read over, to keep the cursor in step, and dropped. */
  function ReadEntries(s: Bytes, pos: nat, n: nat, wallNow: int): (r: Read<seq<SnapshotEntry>>)
    requires pos <= |s|
    ensures r.Got? ==> r.next <= |s|
    decreases n
  {
    if n == 0 then Got([], pos)
    else
      match ReadEntry(s, pos)
      case Unreadable => Unreadable
      case Got(e, next) =>
        match ReadEntries(s, next, n - 1, wallNow)
        case Unreadable => Unreadable
        case Got(es, end) => Got(if AlreadyExpired(e, wallNow) then es else [e] + es, end)
  }

  predicate ChecksumMatches(file: Bytes)
    requires |file| >= 8
  {
    FromLittleEndian(file, |file| - 8, |file|) == Fnv.Hash(file[..|file| - 8])
  }

  function ReadPayload(s: Bytes, wallNow: int): (r: Read<seq<SnapshotEntry>>) {
    if !At(s, 0, MAGIC) then Unreadable
    else
      match ReadWord(s, 4, 4)
      case Unreadable => Unreadable
      case Got(version, _) =>
        if version != FORMAT_VERSION then Unreadable
        else
          match ReadWord(s, 8, 8)
          case Unreadable => Unreadable
          case Got(count, at) => ReadEntries(s, at, count, wallNow)
  }

  /** The entries of a file, or nothing if it is unusable. */
  function Load(file: Bytes, wallNow: int): Option<seq<SnapshotEntry>> {
    if |file| < MIN_SIZE || !ChecksumMatches(file) then None
    else
      match ReadPayload(file[..|file| - 8], wallNow)
      case Unreadable => None
      case Got(es, _) => Some(es)
  }
}
