/** Bytes and numbers written out: what the formats look like on the wire and on disk. */
module KnownBytes {
  import opened Bytes
  import opened Machine
  import opened Bitwise
  import opened Decimal
  import opened Resp
  import opened CommandParser
  import opened ParserTheory
  import Fnv
  import opened Rdb

  // ---------------------------------------------------------------- the hash

  lemma XorBits(a: nat, b: nat, x: nat, y: nat)
    requires x < 2 && y < 2
    ensures Xor(2 * a + x, 2 * b + y) == BitXor(x, y) + 2 * Xor(a, b)
  {
    XorStep(2 * a + x, 2 * b + y);
    assert (2 * a + x) % 2 == x && (2 * b + y) % 2 == y && (2 * a + x) / 2 == a && (2 * b + y) / 2 == b;
  }

  /** The number with `k` zero bits behind it. */
  function Padded(h: nat, k: nat): nat {
    if k == 0 then h else 2 * Padded(h, k - 1)
  }

  /** High bits that only one side has stay as they are. */
  lemma {:induction false} XorHigh(h: nat, lo: nat, c: nat, k: nat)
    requires lo < Pow2(k) && c < Pow2(k)
    ensures Xor(Padded(h, k) + lo, c) == Padded(h, k) + Xor(lo, c)
    decreases k
  {
    if k == 0 {
      XorWithZero(h);
    } else {
      var a, b, x, y := lo / 2, c / 2, lo % 2, c % 2;
      XorHigh(h, a, b, k - 1);
      XorBits(Padded(h, k - 1) + a, b, x, y);
      XorBits(a, b, x, y);
      assert 2 * a + x == lo && 2 * b + y == c;
    }
  }

  lemma PaddedByEight(h: nat)
    ensures Padded(h, 8) == 256 * h && Pow2(8) == 256
  {
    assert Padded(h, 0) == h;
    assert Padded(h, 1) == 2 * h;
    assert Padded(h, 2) == 4 * h;
    assert Padded(h, 3) == 8 * h;
    assert Padded(h, 4) == 16 * h;
    assert Padded(h, 5) == 32 * h;
    assert Padded(h, 6) == 64 * h;
    assert Pow2(2) == 4 && Pow2(4) == 16 && Pow2(6) == 64;
  }

  lemma {:induction false} XorWithZero(a: nat)
    ensures Xor(a, 0) == a
  {
    if a > 0 { XorWithZero(a / 2); }
  }

  /** 0x25 xor 0x61 is 0x44. */
  lemma LowBytes()
    ensures Xor(0x25, 0x61) == 0x44
  {
    assert Xor(0, 1) == 1;
    assert Xor(1, 3) == 2;
    assert Xor(2, 6) == 4;
    assert Xor(4, 12) == 8;
    assert Xor(9, 24) == 17;
    assert Xor(18, 48) == 34;
  }

  lemma StepOfA(hash: Fnv.Word, h: nat)
    requires hash == 256 * h + 0x25
    ensures Fnv.Step(hash, 97) == (256 * h + 0x44) * 1099511628211 % 0x1_0000_0000_0000_0000
  {
    PaddedByEight(h);
    XorHigh(h, 0x25, 0x61, 8);
    LowBytes();
  }

  lemma HashOfOne(c: Byte)
    ensures Fnv.Hash([c]) == Fnv.Step(Fnv.OFFSET_BASIS, c)
  {
    var none: Bytes, one: Bytes := [], [c];
    assert one[1..] == none;
    assert Fnv.Fold(Fnv.Step(Fnv.OFFSET_BASIS, c), none) == Fnv.Step(Fnv.OFFSET_BASIS, c);
  }

  lemma Product()
    ensures 0xcbf2_9ce4_8422_2344 * 1099511628211 % 0x1_0000_0000_0000_0000 == 0xaf63_dc4c_8601_ec8c
  {
    assert 0xcbf2_9ce4_8422_2344 * 1099511628211 == 875948729822 * 0x1_0000_0000_0000_0000 + 0xaf63_dc4c_8601_ec8c;
  }

  /** The published 64-bit FNV-1a hashes of the empty string and of "a". */
  lemma KnownHashes()
    ensures Fnv.Hash([]) == 0xcbf2_9ce4_8422_2325
    ensures Fnv.Hash([97]) == 0xaf63_dc4c_8601_ec8c
  {
    var h: nat := 0xcb_f29c_e484_2223;
    HashOfOne(97);
    StepOfA(Fnv.OFFSET_BASIS, h);
    Product();
  }

  // ---------------------------------------------------------------- the snapshot file

  lemma SmallWord(n: nat)
    requires n < 256
    ensures LittleEndian(n, 4) == [n, 0, 0, 0] && LittleEndian(n, 8) == [n, 0, 0, 0, 0, 0, 0, 0]
  {
    var none: Bytes := [];
    assert LittleEndian(0, 0) == none;
    assert LittleEndian(0, 1) == [0];
    assert LittleEndian(0, 2) == [0, 0];
    assert LittleEndian(0, 3) == [0, 0, 0];
    assert LittleEndian(0, 4) == [0, 0, 0, 0];
    assert LittleEndian(0, 5) == [0, 0, 0, 0, 0];
    assert LittleEndian(0, 6) == [0, 0, 0, 0, 0, 0];
    assert LittleEndian(0, 7) == [0, 0, 0, 0, 0, 0, 0];
    assert n / 256 == 0 && n % 256 == n;
  }

  /** The number without its lowest `i` bytes. */
  function Shifted(v: nat, i: nat): nat {
    if i == 0 then v else Shifted(v / 256, i - 1)
  }

  /** Byte by byte, least significant first. */
  lemma {:induction false} WordBytes(v: nat, n: nat, i: nat)
    requires i < n
    ensures LittleEndian(v, n)[i] == Shifted(v, i) % 256
  {
    if i > 0 { WordBytes(v / 256, n - 1, i - 1); }
  }

  /** The file of one string without a deadline: magic, version 2, one entry, key, type 0, flag 0, value, checksum. */
  lemma StringFile(key: Bytes, text: Bytes)
    requires |key| < 256 && |text| < 256
    ensures var payload :=
        [71, 82, 68, 66] + [2, 0, 0, 0] + [1, 0, 0, 0, 0, 0, 0, 0]
        + ([|key|, 0, 0, 0] + key + [0] + [0] + ([|text|, 0, 0, 0] + text));
      FileOf([SnapshotEntry(key, Text(text), None)]) == payload + LittleEndian(Fnv.Hash(payload), 8)
  {
    var e := SnapshotEntry(key, Text(text), None);
    SmallWord(|key|);
    SmallWord(|text|);
    SmallWord(1);
    SmallWord(2);
    OneEntry(e);
    assert EncodeEntry(e) == [|key|, 0, 0, 0] + key + [0] + [0] + ([|text|, 0, 0, 0] + text);
    assert PayloadOf([e]) == [71, 82, 68, 66] + [2, 0, 0, 0] + [1, 0, 0, 0, 0, 0, 0, 0] + EncodeEntry(e);
  }

  lemma OneEntry(e: SnapshotEntry)
    ensures EncodeEntries([e]) == EncodeEntry(e)
  {
    var none: seq<SnapshotEntry> := [];
    assert [e][1..] == none && EncodeEntries(none) == [];
  }

  /** A list of one element: type 1, and its length before the element. */
  lemma ListEntry(key: Bytes, x: Bytes)
    requires |key| < 256 && |x| < 256
    ensures EncodeEntry(SnapshotEntry(key, Items([x]), None))
         == [|key|, 0, 0, 0] + key + [1] + [0] + ([1, 0, 0, 0] + ([|x|, 0, 0, 0] + x))
  {
    SmallWord(|key|);
    SmallWord(|x|);
    SmallWord(1);
    var none: seq<Bytes> := [];
    assert [x][1..] == none && EncodeStrings(none) == [];
    assert EncodeStrings([x]) == [|x|, 0, 0, 0] + x;
  }

  /** A hash of one field: type 2, and the field before its value. */
  lemma HashEntry(key: Bytes, f: Bytes, v: Bytes)
    requires |key| < 256 && |f| < 256 && |v| < 256
    ensures EncodeEntry(SnapshotEntry(key, Pairs([(f, v)]), None))
         == [|key|, 0, 0, 0] + key + [2] + [0] + ([1, 0, 0, 0] + (([|f|, 0, 0, 0] + f) + ([|v|, 0, 0, 0] + v)))
  {
    SmallWord(|key|);
    SmallWord(1);
    OneFieldStrings(f, v);
  }

  lemma OneFieldStrings(f: Bytes, v: Bytes)
    requires |f| < 256 && |v| < 256
    ensures EncodeStrings(Flatten([(f, v)])) == ([|f|, 0, 0, 0] + f) + ([|v|, 0, 0, 0] + v)
  {
    SmallWord(|f|);
    SmallWord(|v|);
    var ps, none: seq<Bytes>, nothing: seq<(Bytes, Bytes)> := [(f, v)], [], [];
    assert ps[1..] == nothing && Flatten(nothing) == none && Flatten(ps) == [f, v] + none == [f, v];
    assert [f, v][1..] == [v] && [v][1..] == none && EncodeStrings(none) == [];
    assert EncodeStrings([v]) == [|v|, 0, 0, 0] + v;
  }

  /** A deadline: flag 1, then its milliseconds since the epoch, least significant byte first. */
  lemma DeadlineBytes(ms: nat, i: nat)
    requires ms < 0x8000_0000_0000_0000 && i < 8
    ensures EncodeDeadline(Some(ms * 1_000_000))[0] == 1 && |EncodeDeadline(Some(ms * 1_000_000))| == 9
    ensures EncodeDeadline(Some(ms * 1_000_000))[1 + i] == Shifted(ms, i) % 256
  {
    assert ToMilliseconds(ms * 1_000_000) == ms && ms % TWO64 == ms;
    WordBytes(ms, 8, i);
  }

  // ---------------------------------------------------------------- the wire

  /** The limits of a request, in numbers. */
  lemma Limits(cmd: Command)
    ensures WithinLimits(cmd) <==> 1 <= |cmd| <= 1024 && forall i | 0 <= i < |cmd| :: |cmd[i]| <= 67_108_864
  {
  }

  lemma LastArgument(x: Bytes)
    ensures EncodeItems(Bulks([x])) == Encode(BulkString(x))
  {
    var cmd: Command, none: Command := [x], [];
    BulksCons(cmd);
    assert cmd[1..] == none && EncodeItems(Bulks(none)) == [];
  }

  lemma ShortString(x: Bytes)
    requires |x| < 10
    ensures Encode(BulkString(x)) == [36, 48 + |x|, 13, 10] + x + [13, 10]
  {
    assert ToDecimal(|x|) == [48 + |x|];
  }

  /** A request of two short words, as a client sends it. */
  lemma TwoWordFrame(name: Bytes, k: Bytes)
    requires |name| < 10 && |k| < 10
    ensures FrameOf([name, k])
         == [42, 50, 13, 10] + ([36, 48 + |name|, 13, 10] + name + [13, 10] + ([36, 48 + |k|, 13, 10] + k + [13, 10]))
  {
    var cmd: Command := [name, k];
    BulksCons(cmd);
    assert cmd[1..] == [k];
    LastArgument(k);
    ShortString(name);
    ShortString(k);
    assert ToDecimal(2) == [50];
  }
}
