/** The snapshot file: reading undoes writing, and no single corrupted byte gets through. */
module RdbTheory {
  import opened Bytes
  import opened Machine
  import Fnv
  import opened Rdb

  // ---------------------------------------------------------------- words

  function Pow256(n: nat): (r: nat)
    ensures r >= 1
  {
    if n == 0 then 1 else 256 * Pow256(n - 1)
  }

  lemma Pow256Values()
    ensures Pow256(4) == TWO32 && Pow256(8) == TWO64
  {
    assert Pow256(2) == 0x1_0000;
    assert Pow256(4) == 0x1_0000_0000;
    assert Pow256(6) == 0x1_0000_0000_0000;
  }

  lemma {:induction false} WordReads(s: Bytes, pos: nat, v: nat, n: nat)
    requires At(s, pos, LittleEndian(v, n)) && v < Pow256(n)
    ensures FromLittleEndian(s, pos, pos + n) == v
    decreases n
  {
    if n > 0 {
      var rest := LittleEndian(v / 256, n - 1);
      AtSplit(s, pos, [v % 256], rest);
      assert s[pos] == [v % 256][0];
      WordReads(s, pos + 1, v / 256, n - 1);
    }
  }

  lemma Word4(s: Bytes, pos: nat, v: nat)
    requires At(s, pos, LittleEndian(v, 4)) && v < TWO32
    ensures ReadWord(s, pos, 4) == Got(v, pos + 4)
  {
    Pow256Values();
    WordReads(s, pos, v, 4);
  }

  lemma Word8(s: Bytes, pos: nat, v: nat)
    requires At(s, pos, LittleEndian(v, 8)) && v < TWO64
    ensures ReadWord(s, pos, 8) == Got(v, pos + 8)
  {
    Pow256Values();
    WordReads(s, pos, v, 8);
  }

  // ---------------------------------------------------------------- strings

  predicate Short(xs: seq<Bytes>) {
    forall i | 0 <= i < |xs| :: |xs[i]| < TWO32
  }

  lemma StringReads(s: Bytes, pos: nat, x: Bytes)
    requires At(s, pos, EncodeString(x)) && |x| < TWO32
    ensures ReadString(s, pos) == Got(x, pos + |EncodeString(x)|)
  {
    AtSplit(s, pos, LittleEndian(|x|, 4), x);
    Word4(s, pos, |x|);
    AtSlice(s, pos + 4, x);
  }

  /** Reading strings one after the other from `pos` gives `xs` and ends at `end`. */
  predicate StringsFrom(s: Bytes, pos: nat, xs: seq<Bytes>, end: nat)
    decreases |xs|
  {
    if xs == [] then pos == end
    else
      var r := ReadString(s, pos);
      r.Got? && r.value == xs[0] && StringsFrom(s, r.next, xs[1..], end)
  }

  lemma {:induction false} StringsAt(s: Bytes, pos: nat, xs: seq<Bytes>)
    requires At(s, pos, EncodeStrings(xs)) && Short(xs)
    ensures StringsFrom(s, pos, xs, pos + |EncodeStrings(xs)|)
    decreases |xs|
  {
    if xs != [] {
      AtSplit(s, pos, EncodeString(xs[0]), EncodeStrings(xs[1..]));
      StringReads(s, pos, xs[0]);
      StringsAt(s, pos + |EncodeString(xs[0])|, xs[1..]);
    }
  }

  lemma {:induction false} StringsRead(s: Bytes, pos: nat, xs: seq<Bytes>, end: nat)
    requires pos <= |s| && StringsFrom(s, pos, xs, end)
    ensures ReadStrings(s, pos, |xs|) == Got(xs, end)
    decreases |xs|
  {
    if xs != [] {
      StringsRead(s, ReadString(s, pos).next, xs[1..], end);
      assert [xs[0]] + xs[1..] == xs;
    }
  }

  lemma {:induction false} PairUndoesFlatten(ps: seq<(Bytes, Bytes)>)
    ensures Pair(Flatten(ps)) == ps
  {
    if ps != [] {
      PairUndoesFlatten(ps[1..]);
      assert Flatten(ps)[2..] == Flatten(ps[1..]);
      assert [(ps[0].0, ps[0].1)] + ps[1..] == ps;
    }
  }

  // ---------------------------------------------------------------- entries

  predicate ContentFits(c: Content) {
    match c
    case Text(s) => |s| < TWO32
    case Items(xs) => |xs| < TWO32 && Short(xs)
    case Pairs(ps) => |ps| < TWO32 && Short(Flatten(ps))
  }

  predicate DeadlineFits(d: Option<int>) {
    d.Some? ==> 0 - TWO63 <= ToMilliseconds(d.value) < TWO63
  }

  /** Every length and count fits its 32-bit field, and the deadline its 64-bit one. */
  predicate Fits(e: SnapshotEntry) {
    |e.key| < TWO32 && ContentFits(e.content) && DeadlineFits(e.expiresWall)
  }

  lemma ListReads(s: Bytes, pos: nat, n: nat, xs: seq<Bytes>)
    requires At(s, pos, LittleEndian(n, 4) + EncodeStrings(xs)) && n < TWO32 && Short(xs)
    ensures ReadWord(s, pos, 4) == Got(n, pos + 4)
    ensures ReadStrings(s, pos + 4, |xs|) == Got(xs, pos + |LittleEndian(n, 4) + EncodeStrings(xs)|)
  {
    AtSplit(s, pos, LittleEndian(n, 4), EncodeStrings(xs));
    Word4(s, pos, n);
    StringsAt(s, pos + 4, xs);
    StringsRead(s, pos + 4, xs, pos + 4 + |EncodeStrings(xs)|);
  }

  lemma ContentReads(s: Bytes, pos: nat, c: Content)
    requires At(s, pos, EncodeContent(c)) && ContentFits(c)
    ensures ReadContent(s, pos, TypeByte(c)) == Got(c, pos + |EncodeContent(c)|)
  {
    match c
    case Text(x) => StringReads(s, pos, x);
    case Items(xs) => ListReads(s, pos, |xs|, xs);
    case Pairs(ps) =>
      ListReads(s, pos, |ps|, Flatten(ps));
      PairUndoesFlatten(ps);
  }

  /** The deadline as the file keeps it: whole milliseconds. */
  function StoredDeadline(d: Option<int>): Option<int> {
    match d
    case None => None
    case Some(ns) => Some(ToMilliseconds(ns) * MILLISECOND)
  }

  lemma SignedUndoes(v: int)
    requires 0 - TWO63 <= v < TWO63
    ensures Signed(v % TWO64) == v
  {
  }

  lemma DeadlineReads(s: Bytes, pos: nat, d: Option<int>)
    requires At(s, pos, EncodeDeadline(d)) && DeadlineFits(d)
    ensures ReadDeadline(s, pos) == Got(StoredDeadline(d), pos + |EncodeDeadline(d)|)
  {
    assert s[pos] == EncodeDeadline(d)[0];
    if d.Some? {
      var ms := ToMilliseconds(d.value);
      AtSplit(s, pos, [1], LittleEndian(ms % TWO64, 8));
      Word8(s, pos + 1, ms % TWO64);
      SignedUndoes(ms);
    }
  }

  function Stored(e: SnapshotEntry): SnapshotEntry {
    e.(expiresWall := StoredDeadline(e.expiresWall))
  }

  /** Where the four parts of an entry lie. */
  lemma EntryParts(s: Bytes, pos: nat, key: Bytes, tag: Byte, deadline: Bytes, content: Bytes)
    requires At(s, pos, key + ([tag] + (deadline + content)))
    ensures At(s, pos, key) && pos + |key| < |s| && s[pos + |key|] == tag
    ensures At(s, pos + |key| + 1, deadline) && At(s, pos + |key| + 1 + |deadline|, content)
  {
    AtSplit(s, pos, key, [tag] + (deadline + content));
    AtSplit(s, pos + |key|, [tag], deadline + content);
    assert s[pos + |key|] == [tag][0];
    AtSplit(s, pos + |key| + 1, deadline, content);
  }

  lemma EntryFrom(s: Bytes, pos: nat, e: SnapshotEntry, at: nat, body: nat, end: nat)
    requires ReadString(s, pos) == Got(e.key, at) && at < |s|
    requires ReadDeadline(s, at + 1) == Got(e.expiresWall, body) && ReadContent(s, body, s[at]) == Got(e.content, end)
    ensures ReadEntry(s, pos) == Got(e, end)
  {
  }

  lemma EntryReads(s: Bytes, pos: nat, e: SnapshotEntry)
    requires At(s, pos, EncodeEntry(e)) && Fits(e)
    ensures ReadEntry(s, pos) == Got(Stored(e), pos + |EncodeEntry(e)|)
  {
    var key, deadline, content := EncodeString(e.key), EncodeDeadline(e.expiresWall), EncodeContent(e.content);
    EntryParts(s, pos, key, TypeByte(e.content), deadline, content);
    var at := pos + |key|;
    StringReads(s, pos, e.key);
    DeadlineReads(s, at + 1, e.expiresWall);
    ContentReads(s, at + 1 + |deadline|, e.content);
    EntryFrom(s, pos, Stored(e), at, at + 1 + |deadline|, at + 1 + |deadline| + |content|);
  }

  function StoredAll(es: seq<SnapshotEntry>): seq<SnapshotEntry> {
    seq(|es|, i requires 0 <= i < |es| => Stored(es[i]))
  }

  /** The entries that a load at `wallNow` keeps. */
  function Kept(es: seq<SnapshotEntry>, wallNow: int): seq<SnapshotEntry> {
    if es == [] then []
    else
      var rest := Kept(es[1..], wallNow);
      if AlreadyExpired(es[0], wallNow) then rest else [es[0]] + rest
  }

  predicate AllFit(es: seq<SnapshotEntry>) {
    forall i | 0 <= i < |es| :: Fits(es[i])
  }

  /** Reading entries one after the other from `pos` gives `es` and ends at `end`. */
  predicate EntriesFrom(s: Bytes, pos: nat, es: seq<SnapshotEntry>, end: nat)
    decreases |es|
  {
    if es == [] then pos == end
    else
      var r := ReadEntry(s, pos);
      r.Got? && r.value == es[0] && EntriesFrom(s, r.next, es[1..], end)
  }

  lemma FirstEntry(s: Bytes, pos: nat, es: seq<SnapshotEntry>) returns (next: nat)
    requires es != [] && At(s, pos, EncodeEntries(es)) && Fits(es[0])
    ensures ReadEntry(s, pos) == Got(Stored(es[0]), next)
    ensures At(s, next, EncodeEntries(es[1..]))
    ensures next + |EncodeEntries(es[1..])| == pos + |EncodeEntries(es)|
  {
    next := pos + |EncodeEntry(es[0])|;
    AtSplit(s, pos, EncodeEntry(es[0]), EncodeEntries(es[1..]));
    EntryReads(s, pos, es[0]);
  }

  lemma {:induction false} EntriesAt(s: Bytes, pos: nat, es: seq<SnapshotEntry>, end: nat)
    requires At(s, pos, EncodeEntries(es)) && AllFit(es) && end == pos + |EncodeEntries(es)|
    ensures EntriesFrom(s, pos, StoredAll(es), end)
    decreases |es|
  {
    if es != [] {
      var next := FirstEntry(s, pos, es);
      EntriesAt(s, next, es[1..], end);
      StoredTail(es);
      EntriesCons(s, pos, StoredAll(es), next, end);
    }
  }

  lemma StoredTail(es: seq<SnapshotEntry>)
    requires es != []
    ensures StoredAll(es)[1..] == StoredAll(es[1..]) && StoredAll(es)[0] == Stored(es[0])
  {
  }

  lemma EntriesCons(s: Bytes, pos: nat, es: seq<SnapshotEntry>, next: nat, end: nat)
    requires es != [] && ReadEntry(s, pos) == Got(es[0], next) && EntriesFrom(s, next, es[1..], end)
    ensures EntriesFrom(s, pos, es, end)
  {
  }

  lemma ReadOneMore(s: Bytes, pos: nat, n: nat, wallNow: int,
                    e: SnapshotEntry, next: nat, rest: seq<SnapshotEntry>, end: nat)
    requires pos <= |s| && n > 0 && ReadEntry(s, pos) == Got(e, next)
    requires ReadEntries(s, next, n - 1, wallNow) == Got(rest, end)
    ensures ReadEntries(s, pos, n, wallNow) == Got(if AlreadyExpired(e, wallNow) then rest else [e] + rest, end)
  {
  }

  lemma {:induction false} EntriesRead(s: Bytes, pos: nat, es: seq<SnapshotEntry>, end: nat, wallNow: int)
    requires pos <= |s| && EntriesFrom(s, pos, es, end)
    ensures ReadEntries(s, pos, |es|, wallNow) == Got(Kept(es, wallNow), end)
    decreases |es|
  {
    if es != [] {
      var next := ReadEntry(s, pos).next;
      EntriesRead(s, next, es[1..], end, wallNow);
      ReadOneMore(s, pos, |es|, wallNow, es[0], next, Kept(es[1..], wallNow), end);
    }
  }

  // ---------------------------------------------------------------- the file

  lemma PayloadParts(es: seq<SnapshotEntry>, s: Bytes)
    requires s == PayloadOf(es)
    ensures At(s, 0, MAGIC) && At(s, 4, LittleEndian(FORMAT_VERSION, 4)) && At(s, 8, LittleEndian(|es|, 8))
    ensures At(s, 16, EncodeEntries(es)) && |s| == 16 + |EncodeEntries(es)|
  {
    var version, count, body := LittleEndian(FORMAT_VERSION, 4), LittleEndian(|es|, 8), EncodeEntries(es);
    assert At(s, 0, MAGIC + (version + (count + body)));
    AtSplit(s, 0, MAGIC, version + (count + body));
    AtSplit(s, 4, version, count + body);
    AtSplit(s, 8, count, body);
  }

  lemma PayloadReads(es: seq<SnapshotEntry>, wallNow: int)
    requires AllFit(es) && |es| < TWO64
    ensures ReadPayload(PayloadOf(es), wallNow) == Got(Kept(StoredAll(es), wallNow), |PayloadOf(es)|)
  {
    var s := PayloadOf(es);
    PayloadParts(es, s);
    Word4(s, 4, FORMAT_VERSION);
    Word8(s, 8, |es|);
    EntriesAt(s, 16, es, |s|);
    EntriesRead(s, 16, StoredAll(es), |s|, wallNow);
  }

  lemma TrailerReads(p: Bytes, v: nat, n: nat)
    requires v < Pow256(n)
    ensures |p + LittleEndian(v, n)| == |p| + n && (p + LittleEndian(v, n))[..|p|] == p
    ensures FromLittleEndian(p + LittleEndian(v, n), |p|, |p| + n) == v
  {
    var sum := LittleEndian(v, n);
    DropAppend(p, sum);
    assert At(p + sum, |p|, sum);
    WordReads(p + sum, |p|, v, n);
  }

  lemma ChecksumWritten(es: seq<SnapshotEntry>)
    ensures |FileOf(es)| >= MIN_SIZE && ChecksumMatches(FileOf(es)) && FileOf(es)[..|FileOf(es)| - 8] == PayloadOf(es)
  {
    Pow256Values();
    TrailerReads(PayloadOf(es), Fnv.Hash(PayloadOf(es)), 8);
  }

  /** A saved file loads: exactly the entries not expired at load time come back, in order,
      and the reader ends exactly at the end of the payload. */
  lemma LoadUndoesSave(es: seq<SnapshotEntry>, wallNow: int)
    requires AllFit(es) && |es| < TWO64
    ensures Load(FileOf(es), wallNow) == Some(Kept(StoredAll(es), wallNow))
  {
    ChecksumWritten(es);
    PayloadReads(es, wallNow);
  }

  lemma {:induction false} AllKept(es: seq<SnapshotEntry>, wallNow: int)
    requires forall i | 0 <= i < |es| :: !AlreadyExpired(es[i], wallNow)
    ensures Kept(es, wallNow) == es
  {
    if es != [] {
      AllKept(es[1..], wallNow);
      assert [es[0]] + es[1..] == es;
    }
  }

  /** With whole-millisecond deadlines, all after load time, the very entries come back. */
  lemma SameEntriesBack(es: seq<SnapshotEntry>, wallNow: int)
    requires AllFit(es) && |es| < TWO64
    requires forall i | 0 <= i < |es| && es[i].expiresWall.Some? ::
      wallNow < es[i].expiresWall.value && es[i].expiresWall.value % MILLISECOND == 0
    ensures Load(FileOf(es), wallNow) == Some(es)
  {
    LoadUndoesSave(es, wallNow);
    forall i | 0 <= i < |es| ensures Stored(es[i]) == es[i] {
      if es[i].expiresWall.Some? { WholeMilliseconds(es[i].expiresWall.value); }
    }
    assert StoredAll(es) == es;
    AllKept(es, wallNow);
  }

  lemma WholeMilliseconds(ns: int)
    requires ns % MILLISECOND == 0
    ensures ToMilliseconds(ns) * MILLISECOND == ns
  {
  }

  // ---------------------------------------------------------------- corruption

  lemma {:induction false} WordChanges(s: Bytes, pos: nat, end: nat, i: nat, c: Byte)
    requires pos <= i < end <= |s| && c != s[i]
    ensures FromLittleEndian(s[i := c], pos, end) != FromLittleEndian(s, pos, end)
    decreases end - pos
  {
    if i == pos {
      WordKept(s, pos + 1, end, i, c);
    } else {
      WordChanges(s, pos + 1, end, i, c);
    }
  }

  lemma {:induction false} WordKept(s: Bytes, pos: nat, end: nat, i: nat, c: Byte)
    requires pos <= end <= |s| && i < |s| && (i < pos || i >= end)
    ensures FromLittleEndian(s[i := c], pos, end) == FromLittleEndian(s, pos, end)
    decreases end - pos
  {
    if pos < end { WordKept(s, pos + 1, end, i, c); }
  }

  /** Change exactly one byte of a file whose checksum is right, anywhere, and the checksum is wrong. */
  lemma OneByteBreaksChecksum(file: Bytes, i: nat, c: Byte)
    requires |file| >= 8 && i < |file| && c != file[i] && ChecksumMatches(file)
    ensures !ChecksumMatches(file[i := c])
  {
    var n := |file| - 8;
    var p := file[..n];
    if i < n {
      assert file[i := c][..n] == p[i := c];
      Fnv.OneByteChangesHash(p, i, c);
      WordKept(file, n, |file|, i, c);
    } else {
      assert file[i := c][..n] == p;
      WordChanges(file, n, |file|, i, c);
    }
  }

  /** No load accepts a saved file with exactly one byte changed. */
  lemma OneByteIsRejected(es: seq<SnapshotEntry>, i: nat, c: Byte, wallNow: int)
    requires i < |FileOf(es)| && c != FileOf(es)[i]
    ensures Load(FileOf(es)[i := c], wallNow) == None
  {
    ChecksumWritten(es);
    OneByteBreaksChecksum(FileOf(es), i, c);
  }
}
