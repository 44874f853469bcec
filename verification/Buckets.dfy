/** The chains and buckets of src/store/hash_table.h, and the map they stand for.
    A bucket's chain is owned by unique pointers, so it is a value: a list of nodes. */
module Buckets {
  import opened Bytes
  import opened Bitwise
  import Fnv

  const INITIAL_CAPACITY: nat := 16

  datatype Chain<V> = Nil | Node(key: Bytes, value: V, next: Chain<V>)

  // ---------------------------------------------------------------- capacity and bucket index

  /** Sixteen, doubled any number of times. */
  predicate IsCapacity(cap: nat) {
    cap == 16 || (cap > 16 && cap % 2 == 0 && IsCapacity(cap / 2))
  }

  lemma {:induction false} CapacityIsPowerOfTwo(cap: nat) returns (k: nat)
    requires IsCapacity(cap)
    ensures k >= 4 && cap == Pow2(k)
  {
    if cap == 16 {
      k := 4;
      assert Pow2(2) == 4;
    } else {
      k := CapacityIsPowerOfTwo(cap / 2);
      k := k + 1;
    }
  }

  lemma {:induction false} CapacityBySixteen(cap: nat)
    requires IsCapacity(cap)
    ensures cap >= 16 && cap % 16 == 0 && (cap > 16 ==> cap % 32 == 0)
  {
    if cap > 16 { CapacityBySixteen(cap / 2); }
  }

  /** `HashKey(key) & (capacity - 1)`. */
  function Index(key: Bytes, cap: nat): nat {
    if cap == 0 then 0 else And(Fnv.Hash(key), cap - 1)
  }

  /** The mask form is the remainder, because the capacity is a power of two. */
  lemma IndexIsRemainder(key: Bytes, cap: nat)
    requires IsCapacity(cap)
    ensures Index(key, cap) == Fnv.Hash(key) % cap < cap
  {
    var k := CapacityIsPowerOfTwo(cap);
    MaskIsMod(Fnv.Hash(key), k);
  }

  // ---------------------------------------------------------------- chains

  function Find<V>(c: Chain<V>, key: Bytes): Option<V> {
    match c
    case Nil => None
    case Node(k, v, next) => if k == key then Some(v) else Find(next, key)
  }

  function Len<V>(c: Chain<V>): nat {
    match c
    case Nil => 0
    case Node(_, _, next) => 1 + Len(next)
  }

  /** Assigns the value of the node that holds `key`. */
  function Replace<V>(c: Chain<V>, key: Bytes, value: V): Chain<V> {
    match c
    case Nil => Nil
    case Node(k, v, next) => if k == key then Node(k, value, next) else Node(k, v, Replace(next, key, value))
  }

  /** Takes the node that holds `key` out of the chain. */
  function Unlink<V>(c: Chain<V>, key: Bytes): Chain<V> {
    match c
    case Nil => Nil
    case Node(k, v, next) => if k == key then next else Node(k, v, Unlink(next, key))
  }

  /** Every key belongs to bucket `i`, and no key stands twice. */
  predicate ChainOk<V>(c: Chain<V>, i: nat, cap: nat)
    requires cap > 0
  {
    match c
    case Nil => true
    case Node(k, _, next) => Index(k, cap) == i && Find(next, k).None? && ChainOk(next, i, cap)
  }

  lemma {:induction false} FindHasIndex<V>(c: Chain<V>, i: nat, cap: nat, key: Bytes)
    requires cap > 0 && ChainOk(c, i, cap) && Find(c, key).Some?
    ensures Index(key, cap) == i
  {
    if c.key != key { FindHasIndex(c.next, i, cap, key); }
  }

  lemma {:induction false} ReplaceFinds<V>(c: Chain<V>, key: Bytes, value: V, k: Bytes)
    ensures Find(Replace(c, key, value), k) == if k == key && Find(c, key).Some? then Some(value) else Find(c, k)
  {
    if c.Node? { ReplaceFinds(c.next, key, value, k); }
  }

  lemma {:induction false} ReplaceOk<V>(c: Chain<V>, i: nat, cap: nat, key: Bytes, value: V)
    requires cap > 0 && ChainOk(c, i, cap)
    ensures ChainOk(Replace(c, key, value), i, cap) && Len(Replace(c, key, value)) == Len(c)
  {
    if c.Node? {
      ReplaceOk(c.next, i, cap, key, value);
      ReplaceFinds(c.next, key, value, c.key);
    }
  }

  lemma {:induction false} UnlinkFinds<V>(c: Chain<V>, i: nat, cap: nat, key: Bytes, k: Bytes)
    requires cap > 0 && ChainOk(c, i, cap)
    ensures Find(Unlink(c, key), k) == if k == key then None else Find(c, k)
  {
    if c.Node? { UnlinkFinds(c.next, i, cap, key, k); }
  }

  lemma {:induction false} UnlinkOk<V>(c: Chain<V>, i: nat, cap: nat, key: Bytes)
    requires cap > 0 && ChainOk(c, i, cap)
    ensures ChainOk(Unlink(c, key), i, cap)
    ensures Len(Unlink(c, key)) == if Find(c, key).Some? then Len(c) - 1 else Len(c)
  {
    if c.Node? {
      UnlinkOk(c.next, i, cap, key);
      UnlinkFinds(c.next, i, cap, key, c.key);
    }
  }

  // ---------------------------------------------------------------- buckets

  /** The number of nodes in all chains. */
  function Total<V>(bs: seq<Chain<V>>): nat {
    if bs == [] then 0 else Total(bs[..|bs| - 1]) + Len(bs[|bs| - 1])
  }

  lemma {:induction false} TotalUpdate<V>(bs: seq<Chain<V>>, i: nat, c: Chain<V>)
    requires i < |bs|
    ensures Total(bs[i := c]) == Total(bs) - Len(bs[i]) + Len(c)
  {
    var last := |bs| - 1;
    if i == last {
      assert bs[i := c][..last] == bs[..last];
    } else {
      TotalUpdate(bs[..last], i, c);
      assert bs[i := c][..last] == bs[..last][i := c];
    }
  }

  lemma {:induction false} TotalEmpty<V>(bs: seq<Chain<V>>)
    requires forall i | 0 <= i < |bs| :: bs[i].Nil?
    ensures Total(bs) == 0
  {
    if bs != [] { TotalEmpty(bs[..|bs| - 1]); }
  }

  /** The chain a key belongs to. */
  function Slot<V>(bs: seq<Chain<V>>, key: Bytes): Chain<V>
    requires IsCapacity(|bs|)
  {
    IndexIsRemainder(key, |bs|);
    bs[Index(key, |bs|)]
  }

  /** The buckets hold exactly the map: each key once, in its own bucket, with its value. */
  ghost predicate Represents<V>(bs: seq<Chain<V>>, m: map<Bytes, V>) {
    && IsCapacity(|bs|)
    && (forall i | 0 <= i < |bs| :: ChainOk(bs[i], i, |bs|))
    && (forall k: Bytes {:trigger Slot(bs, k)} :: Find(Slot(bs, k), k) == if k in m then Some(m[k]) else None)
  }

  lemma SlotUpdate<V>(bs: seq<Chain<V>>, i: nat, c: Chain<V>, k: Bytes)
    requires IsCapacity(|bs|) && i < |bs|
    ensures Slot(bs[i := c], k) == if Index(k, |bs|) == i then c else Slot(bs, k)
  {
    IndexIsRemainder(k, |bs|);
  }

  /** Changing one chain changes the represented map as the chain changed. */
  lemma RepresentsUpdate<V>(bs: seq<Chain<V>>, m: map<Bytes, V>, i: nat, c: Chain<V>, m': map<Bytes, V>)
    requires Represents(bs, m) && i < |bs| && ChainOk(c, i, |bs|)
    requires forall k: Bytes | Index(k, |bs|) == i :: Find(c, k) == if k in m' then Some(m'[k]) else None
    requires forall k: Bytes | Index(k, |bs|) != i :: (k in m <==> k in m') && (k in m ==> m[k] == m'[k])
    ensures Represents(bs[i := c], m')
  {
    var bs' := bs[i := c];
    forall k: Bytes ensures Find(Slot(bs', k), k) == if k in m' then Some(m'[k]) else None {
      SlotUpdate(bs, i, c, k);
      assert Find(Slot(bs, k), k) == if k in m then Some(m[k]) else None;
    }
    forall j | 0 <= j < |bs'| ensures ChainOk(bs'[j], j, |bs'|) {
      if j != i { assert bs'[j] == bs[j]; }
    }
  }

  lemma PushRepresents<V>(bs: seq<Chain<V>>, m: map<Bytes, V>, key: Bytes, value: V)
    requires Represents(bs, m) && key !in m
    ensures Index(key, |bs|) < |bs|
    ensures var i := Index(key, |bs|); var bs' := bs[i := Node(key, value, bs[i])];
      Represents(bs', m[key := value]) && Total(bs') == Total(bs) + 1
  {
    IndexIsRemainder(key, |bs|);
    var i := Index(key, |bs|);
    var c := Node(key, value, bs[i]);
    assert Slot(bs, key) == bs[i];
    forall k: Bytes | Index(k, |bs|) == i
      ensures Find(c, k) == if k in m[key := value] then Some(m[key := value][k]) else None
    {
      assert Slot(bs, k) == bs[i];
    }
    RepresentsUpdate(bs, m, i, c, m[key := value]);
    TotalUpdate(bs, i, c);
  }

  lemma ReplaceRepresents<V>(bs: seq<Chain<V>>, m: map<Bytes, V>, key: Bytes, value: V)
    requires Represents(bs, m) && key in m
    ensures Index(key, |bs|) < |bs|
    ensures var i := Index(key, |bs|); var bs' := bs[i := Replace(bs[i], key, value)];
      Represents(bs', m[key := value]) && Total(bs') == Total(bs)
  {
    IndexIsRemainder(key, |bs|);
    var i := Index(key, |bs|);
    var c := Replace(bs[i], key, value);
    assert Slot(bs, key) == bs[i];
    ReplaceOk(bs[i], i, |bs|, key, value);
    forall k: Bytes | Index(k, |bs|) == i
      ensures Find(c, k) == if k in m[key := value] then Some(m[key := value][k]) else None
    {
      assert Slot(bs, k) == bs[i];
      ReplaceFinds(bs[i], key, value, k);
    }
    RepresentsUpdate(bs, m, i, c, m[key := value]);
    TotalUpdate(bs, i, c);
  }

  lemma UnlinkRepresents<V>(bs: seq<Chain<V>>, m: map<Bytes, V>, key: Bytes)
    requires Represents(bs, m) && key in m
    ensures Index(key, |bs|) < |bs|
    ensures var i := Index(key, |bs|); var bs' := bs[i := Unlink(bs[i], key)];
      Represents(bs', m - {key}) && Total(bs') == Total(bs) - 1
  {
    IndexIsRemainder(key, |bs|);
    var i := Index(key, |bs|);
    var c := Unlink(bs[i], key);
    assert Slot(bs, key) == bs[i];
    UnlinkOk(bs[i], i, |bs|, key);
    forall k: Bytes | Index(k, |bs|) == i
      ensures Find(c, k) == if k in m - {key} then Some((m - {key})[k]) else None
    {
      assert Slot(bs, k) == bs[i];
      UnlinkFinds(bs[i], i, |bs|, key, k);
    }
    RepresentsUpdate(bs, m, i, c, m - {key});
    TotalUpdate(bs, i, c);
  }

  function EmptyBuckets<V>(cap: nat): (bs: seq<Chain<V>>)
    ensures |bs| == cap
  {
    seq(cap, _ => Nil)
  }

  lemma EmptyRepresents<V>(cap: nat)
    requires IsCapacity(cap)
    ensures Represents<V>(EmptyBuckets(cap), map[]) && Total<V>(EmptyBuckets(cap)) == 0
  {
    TotalEmpty<V>(EmptyBuckets(cap));
    var bs := EmptyBuckets<V>(cap);
    forall k: Bytes ensures Find(Slot(bs, k), k).None? { IndexIsRemainder(k, cap); }
  }

  // ---------------------------------------------------------------- walking all nodes

  /** A walk stands in bucket `i` with `cur` of its chain still to come: exactly the keys behind it are in `seen`. */
  ghost predicate Walked<V>(m: map<Bytes, V>, cap: nat, i: nat, cur: Chain<V>, seen: set<Bytes>)
    requires cap > 0
  {
    forall k: Bytes ::
      k in seen <==> k in m && (Index(k, cap) < i || (Index(k, cap) == i && Find(cur, k).None?))
  }

  /** At the end of a chain the walk stands at the start of the next one. */
  lemma WalkNextBucket<V>(bs: seq<Chain<V>>, m: map<Bytes, V>, i: nat, seen: set<Bytes>)
    requires Represents(bs, m) && i < |bs| && Walked(m, |bs|, i, Nil, seen)
    ensures i + 1 < |bs| ==> Walked(m, |bs|, i + 1, bs[i + 1], seen)
    ensures i + 1 == |bs| ==> seen == m.Keys
  {
    forall k: Bytes | k in m ensures Index(k, |bs|) < |bs| { IndexIsRemainder(k, |bs|); }
    if i + 1 < |bs| {
      forall k: Bytes | k in m && Index(k, |bs|) == i + 1 ensures Find(bs[i + 1], k).Some? {
        assert Slot(bs, k) == bs[i + 1];
      }
    }
  }

  lemma WalkStart<V>(bs: seq<Chain<V>>, m: map<Bytes, V>)
    requires Represents(bs, m)
    ensures |bs| > 0 && Walked(m, |bs|, 0, bs[0], {})
  {
    CapacityBySixteen(|bs|);
    forall k: Bytes | k in m && Index(k, |bs|) == 0 ensures Find(bs[0], k).Some? {
      assert Slot(bs, k) == bs[0];
    }
  }

  /** A chain that is the rest of bucket `i`: its nodes are entries of the map, all of that bucket. */
  ghost predicate RestOf<V>(m: map<Bytes, V>, cap: nat, i: nat, cur: Chain<V>)
    requires cap > 0
  {
    ChainOk(cur, i, cap) && forall k: Bytes | Find(cur, k).Some? :: k in m && m[k] == Find(cur, k).value
  }

  lemma BucketIsRest<V>(bs: seq<Chain<V>>, m: map<Bytes, V>, i: nat)
    requires Represents(bs, m) && i < |bs|
    ensures RestOf(m, |bs|, i, bs[i])
  {
    forall k: Bytes | Find(bs[i], k).Some? ensures k in m && m[k] == Find(bs[i], k).value {
      FindHasIndex(bs[i], i, |bs|, k);
      assert Slot(bs, k) == bs[i];
    }
  }

  /** Passing one node adds exactly its key. */
  lemma WalkPassesNode<V>(m: map<Bytes, V>, cap: nat, i: nat, cur: Chain<V>, seen: set<Bytes>)
    requires cap > 0 && cur.Node? && RestOf(m, cap, i, cur) && Walked(m, cap, i, cur, seen)
    ensures cur.key !in seen && cur.key in m && m[cur.key] == cur.value
    ensures RestOf(m, cap, i, cur.next) && Walked(m, cap, i, cur.next, seen + {cur.key})
  {
    assert Find(cur, cur.key) == Some(cur.value);
    forall k: Bytes | Find(cur.next, k).Some? ensures k in m && m[k] == Find(cur.next, k).value {
      assert k != cur.key;
      assert Find(cur, k) == Find(cur.next, k);
    }
    forall k: Bytes
      ensures k in seen + {cur.key}
         <==> k in m && (Index(k, cap) < i || (Index(k, cap) == i && Find(cur.next, k).None?))
    {
      if k != cur.key { assert Find(cur, k) == Find(cur.next, k); }
    }
  }
}
