/** LRANGE indices in machine arithmetic: saturation to int, sign normalisation and clamping. */
module ListIndex {
  import opened Bytes
  import opened Keyspace

  const INT_MAX: int := 0x7FFF_FFFF
  const INT_MIN: int := -0x8000_0000

  /** C++ `int`: every value of this type is checked to fit. */
  type Int32 = i: int | -0x8000_0000 <= i <= 0x7FFF_FFFF
  type Int64 = i: int | -0x8000_0000_0000_0000 <= i <= 0x7FFF_FFFF_FFFF_FFFF

  function ClampToInt(v: Int64): Int32 {
    if v > INT_MAX then INT_MAX else if v < INT_MIN then INT_MIN else v
  }

  function NormalizeIndex(index: Int32, n: Int32): Int32
    requires n >= 0
  {
    if index < 0 then n + index else index
  }

  /** The slice as the store computes it, from the 64-bit arguments on; no intermediate leaves its type. */
  function MachineSlice(items: seq<Bytes>, start: Int64, stop: Int64): seq<Bytes>
    requires |items| <= INT_MAX
  {
    var n: Int32 := |items|;
    var s: Int32 := NormalizeIndex(ClampToInt(start), n);
    var e: Int32 := NormalizeIndex(ClampToInt(stop), n);
    var normStart: Int32 := if s < 0 then 0 else s;
    var normStop: Int32 := if e < n - 1 then e else n - 1;
    if normStart > normStop || n == 0 then [] else items[normStart..normStop + 1]
  }

  /** What a range holds, element by element: both ends included, a negative index counted from the end, a start before
      the list taken for its first element and a stop behind it for its last. */
  lemma SliceElements(items: seq<Bytes>, start: int, stop: int)
    ensures var n, r := |items|, Slice(items, start, stop);
      var i := if start < -n then 0 else if start < 0 then n + start else start;
      var j := if stop >= n then n - 1 else if stop < 0 then n + stop else stop;
      if i <= j then |r| == j - i + 1 && forall k | 0 <= k < |r| :: r[k] == items[i + k] else r == []
  {
  }

  /** Saturating first changes nothing: the slice is the one defined over unbounded integers. */
  lemma MachineSliceIsSlice(items: seq<Bytes>, start: Int64, stop: Int64)
    requires |items| <= INT_MAX
    ensures MachineSlice(items, start, stop) == Slice(items, start, stop)
  {
  }

  lemma ClampIsHarmless(items: seq<Bytes>, start: Int64, stop: Int64)
    requires |items| <= INT_MAX
    ensures Slice(items, ClampToInt(start), ClampToInt(stop)) == Slice(items, start, stop)
  {
    MachineSliceIsSlice(items, start, stop);
    MachineSliceIsSlice(items, ClampToInt(start), ClampToInt(stop));
  }
}
