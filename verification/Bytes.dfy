/** Byte strings, shared by every other module.  A `std::string` of the source is a `Bytes`. */
module Bytes {

  type Byte = b: int | 0 <= b < 256

  type Bytes = seq<Byte>

  datatype Option<+T> = None | Some(value: T)

  const CR: Byte := 13
  const LF: Byte := 10
  const STAR: Byte := 42
  const QUESTION: Byte := 63
  const PLUS: Byte := 43
  const MINUS: Byte := 45
  const COLON: Byte := 58
  const DOLLAR: Byte := 36

  const CRLF: Bytes := [CR, LF]

  /** The bytes of an ASCII literal. */
  function Ascii(s: string): Bytes {
    seq(|s|, i requires 0 <= i < |s| => s[i] as int % 256)
  }

  // Sequence facts, each proved once so that larger proofs need not look inside the sequences.

  lemma Assoc<T>(a: seq<T>, b: seq<T>, c: seq<T>)
    ensures a + b + c == a + (b + c)
  {
  }

  lemma PrefixCancel<T>(a: seq<T>, b: seq<T>, c: seq<T>)
    requires a + b <= a + c
    ensures b <= c
  {
    assert forall i | 0 <= i < |b| :: b[i] == (a + b)[|a| + i] && c[i] == (a + c)[|a| + i];
  }

  lemma DropAppend<T>(a: seq<T>, b: seq<T>)
    ensures (a + b)[|a|..] == b && (a + b)[..|a|] == a
  {
  }

  lemma TakeAppend<T>(a: seq<T>, b: seq<T>, k: nat)
    requires |a| <= k <= |a| + |b|
    ensures (a + b)[..k] == a + b[..k - |a|]
  {
  }

  /** `w` stands in `s` at index `lo`. */
  predicate At(s: Bytes, lo: nat, w: Bytes) {
    lo + |w| <= |s| && forall i | 0 <= i < |w| :: s[lo + i] == w[i]
  }

  lemma AtSplit(s: Bytes, pos: nat, a: Bytes, b: Bytes)
    requires At(s, pos, a + b)
    ensures At(s, pos, a) && At(s, pos + |a|, b)
  {
    forall i | 0 <= i < |a| ensures s[pos + i] == a[i] { assert s[pos + i] == (a + b)[i]; }
    forall i | 0 <= i < |b| ensures s[pos + |a| + i] == b[i] { assert s[pos + (|a| + i)] == (a + b)[|a| + i]; }
  }

  lemma AtSlice(s: Bytes, pos: nat, w: Bytes)
    requires At(s, pos, w)
    ensures s[pos..pos + |w|] == w
  {
  }
}
