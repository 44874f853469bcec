/** Decimal text: `std::to_string` and the strict `std::from_chars` wrapper ParseInt64. */
module Decimal {
  import opened Bytes

  const INT64_MIN: int := -0x8000_0000_0000_0000
  const INT64_MAX: int := 0x7FFF_FFFF_FFFF_FFFF

  predicate IsDigit(b: Byte) {
    48 <= b <= 57
  }

  function DigitsOf(n: nat): (s: Bytes)
    ensures s != []
  {
    if n < 10 then [48 + n] else DigitsOf(n / 10) + [48 + n % 10]
  }

  /** `std::to_string` of an integer. */
  function ToDecimal(n: int): (s: Bytes)
    ensures s != []
  {
    if n < 0 then [MINUS] + DigitsOf(-n) else DigitsOf(n)
  }

  /** Reads the digits `s[i..hi]`; nothing if some byte is not a digit. */
  function ReadDigits(s: Bytes, i: nat, hi: nat, acc: nat): Option<nat>
    requires i <= hi <= |s|
    decreases hi - i
  {
    if i == hi then Some(acc)
    else if IsDigit(s[i]) then ReadDigits(s, i + 1, hi, 10 * acc + (s[i] - 48))
    else None
  }

  /** All of `s[lo..hi]` must be an optional minus and at least one digit, and the value must fit 64 bits. */
  function ParseInt64(s: Bytes, lo: nat, hi: nat): Option<int>
    requires lo <= hi <= |s|
  {
    var first := if lo < hi && s[lo] == MINUS then lo + 1 else lo;
    if first == hi then None
    else
      match ReadDigits(s, first, hi, 0)
      case None => None
      case Some(magnitude) =>
        var v: int := if first > lo then 0 - magnitude else magnitude;
        if INT64_MIN <= v <= INT64_MAX then Some(v) else None
  }

  lemma {:induction false} ReadDigitsSnoc(s: Bytes, i: nat, hi: nat, acc: nat)
    requires i <= hi < |s| && IsDigit(s[hi]) && ReadDigits(s, i, hi, acc).Some?
    ensures ReadDigits(s, i, hi + 1, acc) == Some(10 * ReadDigits(s, i, hi, acc).value + (s[hi] - 48))
    decreases hi - i
  {
    if i < hi { ReadDigitsSnoc(s, i + 1, hi, 10 * acc + (s[i] - 48)); }
  }

  lemma {:induction false} ReadDigitsUndoes(s: Bytes, lo: nat, n: nat)
    requires At(s, lo, DigitsOf(n))
    ensures ReadDigits(s, lo, lo + |DigitsOf(n)|, 0) == Some(n)
  {
    var d := DigitsOf(n);
    var last := lo + |d| - 1;
    assert s[last] == d[|d| - 1];
    if n >= 10 {
      forall i | 0 <= i < |DigitsOf(n / 10)| ensures s[lo + i] == DigitsOf(n / 10)[i] { assert s[lo + i] == d[i]; }
      ReadDigitsUndoes(s, lo, n / 10);
      ReadDigitsSnoc(s, lo, last, 0);
    }
  }

  /** Only digits and a leading minus sign are printed. */
  lemma {:induction false} DigitsAreDigits(n: nat)
    ensures forall i | 0 <= i < |DigitsOf(n)| :: IsDigit(DigitsOf(n)[i])
  {
    if n >= 10 { DigitsAreDigits(n / 10); }
  }

  lemma DecimalBytes(n: int)
    ensures ToDecimal(n)[0] == MINUS <==> n < 0
    ensures forall i | 0 <= i < |ToDecimal(n)| :: ToDecimal(n)[i] == MINUS || IsDigit(ToDecimal(n)[i])
  {
    if n < 0 { DigitsAreDigits(-n); } else { DigitsAreDigits(n); }
  }

  /** Reading back a printed number gives it again, exactly when it fits 64 bits. */
  lemma ParseUndoesPrint(s: Bytes, lo: nat, n: int)
    requires At(s, lo, ToDecimal(n))
    ensures ParseInt64(s, lo, lo + |ToDecimal(n)|) == if INT64_MIN <= n <= INT64_MAX then Some(n) else None
  {
    var d := ToDecimal(n);
    DecimalBytes(n);
    assert s[lo] == d[0];
    if n < 0 {
      var m := DigitsOf(-n);
      forall i | 0 <= i < |m| ensures s[lo + 1 + i] == m[i] { assert s[lo + (1 + i)] == d[1 + i]; }
      ReadDigitsUndoes(s, lo + 1, -n);
    } else {
      ReadDigitsUndoes(s, lo, n);
    }
  }

  lemma ToDecimalInjective(m: int, n: int)
    requires ToDecimal(m) == ToDecimal(n)
    ensures m == n
  {
    var d := ToDecimal(m);
    DecimalBytes(m);
    DecimalBytes(n);
    if m < 0 {
      var a, b := DigitsOf(-m), DigitsOf(-n);
      assert forall i | 0 <= i < |a| :: d[1 + i] == a[i];
      assert forall i | 0 <= i < |b| :: d[1 + i] == b[i];
      ReadDigitsUndoes(d, 1, -m);
      ReadDigitsUndoes(d, 1, -n);
    } else {
      ReadDigitsUndoes(d, 0, m);
      ReadDigitsUndoes(d, 0, n);
    }
  }

  /** A number holds nothing but digits. */
  lemma {:induction false} DigitsOnly(s: Bytes, i: nat, hi: nat, acc: nat, p: nat)
    requires i <= p < hi <= |s| && !IsDigit(s[p])
    ensures ReadDigits(s, i, hi, acc) == None
    decreases hi - i
  {
    if i < p && IsDigit(s[i]) { DigitsOnly(s, i + 1, hi, 10 * acc + (s[i] - 48), p); }
  }
}
