/** 64-bit FNV-1a (draft-eastlake-fnv, section 2), as HashTable::HashKey and the RDB checksum compute it. */
module Fnv {
  import opened Bytes
  import opened Bitwise
  import opened Machine

  const OFFSET_BASIS: nat := 14695981039346656037
  const PRIME: nat := 1099511628211

  // The inverse of the prime modulo 2^64, and the quotient that shows it.
  const INVERSE: nat := 14886173955864302971
  const QUOTIENT: nat := (PRIME * INVERSE - 1) / TWO64

  type Word = w: int | 0 <= w < TWO64

  lemma Pow2Of64()
    ensures Pow2(64) == TWO64
  {
    assert Pow2(8) == 256;
    assert Pow2(16) == 0x1_0000;
    assert Pow2(24) == 0x100_0000;
    assert Pow2(32) == 0x1_0000_0000;
    assert Pow2(40) == 0x100_0000_0000;
    assert Pow2(48) == 0x1_0000_0000_0000;
    assert Pow2(56) == 0x100_0000_0000_0000;
  }

  /** One byte: exclusive or, then multiply, wrapping at 64 bits. */
  function Step(hash: Word, c: Byte): Word {
    Xor(hash, c) * PRIME % TWO64
  }

  function Fold(hash: Word, data: Bytes): Word
    decreases |data|
  {
    if data == [] then hash else Fold(Step(hash, data[0]), data[1..])
  }

  function Hash(data: Bytes): Word {
    Fold(OFFSET_BASIS, data)
  }

  /** The source's loop over the bytes. */
  method Fnv1a64(data: Bytes) returns (hash: Word)
    ensures hash == Hash(data)
  {
    hash := OFFSET_BASIS;
    assert data[0..] == data;
    for i := 0 to |data|
      invariant Fold(hash, data[i..]) == Hash(data)
    {
      assert data[i..][1..] == data[i + 1..];
      hash := Step(hash, data[i]);
    }
  }

  /** Multiplying by the prime loses nothing: it is odd, so it has an inverse. */
  lemma PrimeInjective(x: Word, y: Word)
    requires x * PRIME % TWO64 == y * PRIME % TWO64
    ensures x == y
  {
    assert PRIME * INVERSE == 1 + QUOTIENT * TWO64;
    var d := x * PRIME / TWO64 - y * PRIME / TWO64;
    assert (x - y) * PRIME == d * TWO64;
    assert (x - y) * PRIME * INVERSE == d * INVERSE * TWO64;
    var e := d * INVERSE - (x - y) * QUOTIENT;
    assert x - y == e * TWO64;
  }

  lemma XorInRange(hash: Word, c: Byte)
    ensures Xor(hash, c) < TWO64
  {
    Pow2Of64();
    XorBound(hash, c, 64);
  }

  /** For a fixed byte the step is injective on words; for a fixed word it is injective on bytes. */
  lemma StepInjective(h1: Word, h2: Word, c1: Byte, c2: Byte)
    requires Step(h1, c1) == Step(h2, c2)
    ensures c1 == c2 ==> h1 == h2
    ensures h1 == h2 ==> c1 == c2
  {
    XorInRange(h1, c1);
    XorInRange(h2, c2);
    PrimeInjective(Xor(h1, c1), Xor(h2, c2));
    XorUndoes(h1, c1);
    XorUndoes(h2, c2);
    XorCommutes(h1, c1);
    XorCommutes(h2, c2);
    XorUndoes(c1, h1);
    XorUndoes(c2, h2);
  }

  lemma {:induction false} FoldInjective(h1: Word, h2: Word, data: Bytes)
    requires Fold(h1, data) == Fold(h2, data)
    ensures h1 == h2
    decreases |data|
  {
    if data != [] {
      FoldInjective(Step(h1, data[0]), Step(h2, data[0]), data[1..]);
      StepInjective(h1, h2, data[0], data[0]);
    }
  }

  lemma {:induction false} FoldSplit(hash: Word, a: Bytes, b: Bytes)
    ensures Fold(hash, a + b) == Fold(Fold(hash, a), b)
    decreases |a|
  {
    if a == [] {
      assert a + b == b;
    } else {
      assert (a + b)[1..] == a[1..] + b;
      FoldSplit(Step(hash, a[0]), a[1..], b);
    }
  }

  /** Two strings that differ in exactly one byte never share a hash. */
  lemma OneByteChangesHash(data: Bytes, i: nat, c: Byte)
    requires i < |data| && c != data[i]
    ensures Hash(data[i := c]) != Hash(data)
  {
    var a, b := data[..i], data[i + 1..];
    assert data == a + ([data[i]] + b) && data[i := c] == a + ([c] + b);
    FoldSplit(OFFSET_BASIS, a, [data[i]] + b);
    FoldSplit(OFFSET_BASIS, a, [c] + b);
    var h := Fold(OFFSET_BASIS, a);
    assert ([data[i]] + b)[1..] == b && ([c] + b)[1..] == b;
    if Hash(data[i := c]) == Hash(data) {
      FoldInjective(Step(h, data[i]), Step(h, c), b);
      StepInjective(h, h, data[i], c);
    }
  }
}
