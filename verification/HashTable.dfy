/** The hash table class of src/store/hash_table.h: it is a map, kept in the buckets that its edits lead to. */
module HashTable {
  import opened Bytes
  import opened Buckets
  import opened Layout

  // ---------------------------------------------------------------- rehashing

  /** Moves the nodes of one chain to the front of their new chains; `moves` counts them. */
  method MoveChain<V>(chain: Chain<V>, given: seq<Chain<V>>) returns (bs: seq<Chain<V>>, ghost moves: nat)
    requires IsCapacity(|given|)
    ensures bs == MoveNodes(chain, given) && moves == Len(chain)
  {
    bs, moves := given, 0;
    var cur := chain;
    while cur.Node?
      invariant |bs| == |given| && MoveNodes(cur, bs) == MoveNodes(chain, given) && moves + Len(cur) == Len(chain)
      decreases cur
    {
      IndexIsRemainder(cur.key, |bs|);
      var index := Index(cur.key, |bs|);
      bs := bs[index := Node(cur.key, cur.value, bs[index])];
      cur, moves := cur.next, moves + 1;
    }
  }

  /** Relinks every node once into a fresh vector of buckets. */
  method Relink<V>(buckets: seq<Chain<V>>, newCapacity: nat) returns (bs: seq<Chain<V>>, ghost moves: nat)
    requires IsCapacity(newCapacity)
    ensures bs == Rehash(buckets, newCapacity) && moves == Total(buckets)
  {
    bs, moves := EmptyBuckets(newCapacity), 0;
    for i := 0 to |buckets|
      invariant |bs| == newCapacity && MoveBuckets(buckets, i, bs) == Rehash(buckets, newCapacity)
      invariant moves == Total(buckets[..i])
    {
      assert buckets[..i + 1][..i] == buckets[..i];
      ghost var more;
      bs, more := MoveChain(buckets[i], bs);
      moves := moves + more;
    }
    assert buckets[..|buckets|] == buckets;
  }

  // ---------------------------------------------------------------- listing

  method ListNodes<V>(chain: Chain<V>, given: seq<(Bytes, V)>) returns (out: seq<(Bytes, V)>)
    ensures out == given + ChainListing(chain)
  {
    out := given;
    var cur := chain;
    while cur.Node?
      invariant out + ChainListing(cur) == given + ChainListing(chain)
      decreases cur
    {
      Assoc(out, [(cur.key, cur.value)], ChainListing(cur.next));
      out := out + [(cur.key, cur.value)];
      cur := cur.next;
    }
    assert out + [] == out;
  }

  method ListAll<V>(bs: seq<Chain<V>>) returns (out: seq<(Bytes, V)>)
    ensures out == Listing(bs)
  {
    out := [];
    for i := 0 to |bs|
      invariant out == Listing(bs[..i])
    {
      assert bs[..i + 1][..i] == bs[..i];
      out := ListNodes(bs[i], out);
    }
    assert bs[..|bs|] == bs;
  }

  /** Draws buckets until `count` heads are found or the attempts run out. */
  method DrawHeads<V>(bs: seq<Chain<V>>, count: nat, draws: Draws) returns (out: seq<(Bytes, V)>)
    requires bs != []
    ensures out == Sample(bs, draws, count)
  {
    out := [];
    var attempts := 0;
    while |out| < count && attempts < count * ATTEMPTS
      invariant Heads(bs, draws, count, attempts, out) == Sample(bs, draws, count)
      decreases count * ATTEMPTS - attempts
    {
      var head := bs[draws(attempts) % |bs|];
      attempts := attempts + 1;
      if head.Node? { out := out + [(head.key, head.value)]; }
    }
  }

  // ---------------------------------------------------------------- the class

  class Table<V> {
    var buckets: seq<Chain<V>>
    var numEntries: nat

    ghost var contents: map<Bytes, V>  // the map the table stands for
    ghost var edits: Edits<V>          // how it came about
    ghost var relinked: nat            // nodes moved by all rehashes so far

    /** The buckets hold the map and the count is right. */
    ghost predicate Sound()
      reads `buckets, `numEntries, `contents
    {
      Represents(buckets, contents) && numEntries == Total(buckets) == |contents|
    }

    /** Every node stands where the edits put it. */
    ghost predicate Valid()
      reads `buckets, `numEntries, `contents, `edits
    {
      Layout(buckets, numEntries) == After(edits) && contents == Contents(edits)
    }

    /** So the buckets hold the map, the count is right and the capacity fits. */
    lemma ValidHolds()
      requires Valid()
      ensures Sound() && Balanced(numEntries, |buckets|)
    {
      AfterHolds(edits);
    }

    constructor ()
      ensures Valid() && contents == map[] && edits == NoEdit && relinked == 0 && |buckets| == 16
    {
      buckets, numEntries := EmptyBuckets(INITIAL_CAPACITY), 0;
      contents, edits, relinked := map[], NoEdit, 0;
    }

    /** Inserts or updates; tells whether the key was there. */
    method Set(key: Bytes, value: V) returns (updated: bool)
      requires Valid()
      modifies this
      ensures Valid() && contents == old(contents)[key := value] && updated == (key in old(contents))
      ensures edits == Save(old(edits), key, value)
      ensures |buckets| == if updated then old(|buckets|) else Grown(|contents|, old(|buckets|))
      ensures relinked == old(relinked) + if |buckets| == old(|buckets|) then 0 else |contents|
    {
      ValidHolds();
      var found := Get(key);
      if found.Some? {
        Assign(key, value);
        return true;
      }
      Insert(key, value);
      return false;
    }

    /** A new key: prepended to its chain, then the growth check. */
    method Insert(key: Bytes, value: V)
      requires Valid() && key !in contents
      modifies this
      ensures Valid() && contents == old(contents)[key := value] && edits == Save(old(edits), key, value)
      ensures |buckets| == Grown(|contents|, old(|buckets|))
      ensures |buckets| == if 4 * |contents| > 3 * old(|buckets|) then 2 * old(|buckets|) else old(|buckets|)
      ensures relinked == old(relinked) + if |buckets| == old(|buckets|) then 0 else |contents|
    {
      ValidHolds();
      FoundIffThere(buckets, contents, key);
      Prepend(key, value);
      if Overfull(numEntries, |buckets|) {
        Resize();
      }
      edits := Save(edits, key, value);
    }

    /** Doubles the capacity. */
    method Resize()
      requires Sound() && numEntries > 0 && Overfull(numEntries, |buckets|) && Balanced(numEntries - 1, |buckets|)
      modifies `buckets, `relinked
      ensures Sound() && Balanced(numEntries, |buckets|)
      ensures buckets == Rehash(old(buckets), 2 * old(|buckets|)) && relinked == old(relinked) + numEntries
    {
      GrowthFits(numEntries, |buckets|);
      RehashTo(2 * |buckets|);
    }

    /** Walks the key's chain. */
    method Get(key: Bytes) returns (r: Option<V>)
      requires Valid()
      ensures r == if key in contents then Some(contents[key]) else None
    {
      ValidHolds();
      IndexIsRemainder(key, |buckets|);
      var cur := buckets[Index(key, |buckets|)];
      assert Slot(buckets, key) == cur;
      while cur.Node?
        invariant Find(cur, key) == Find(Slot(buckets, key), key)
        decreases cur
      {
        if cur.key == key { return Some(cur.value); }
        cur := cur.next;
      }
      return None;
    }

    /** A write through the node that Get hands out: the node stays where it is. */
    method Assign(key: Bytes, value: V)
      requires Valid() && key in contents
      modifies `buckets, `contents, `edits
      ensures Valid() && contents == old(contents)[key := value] && edits == Save(old(edits), key, value)
      ensures |buckets| == old(|buckets|)
    {
      ValidHolds();
      FoundIffThere(buckets, contents, key);
      var index := Index(key, |buckets|);
      buckets := buckets[index := Replace(buckets[index], key, value)];
      contents, edits := contents[key := value], Save(edits, key, value);
    }

    method Prepend(key: Bytes, value: V)
      requires Sound() && key !in contents
      modifies `buckets, `numEntries, `contents
      ensures Sound() && contents == old(contents)[key := value]
      ensures buckets == Link(old(buckets), key, value) && numEntries == old(numEntries) + 1
    {
      PushRepresents(buckets, contents, key, value);
      assert contents[key := value].Keys == contents.Keys + {key};
      var index := Index(key, |buckets|);
      buckets := buckets[index := Node(key, value, buckets[index])];
      contents, numEntries := contents[key := value], numEntries + 1;
    }

    method Splice(key: Bytes)
      requires Sound() && key in contents
      modifies `buckets, `numEntries, `contents
      ensures Sound() && contents == old(contents) - {key}
      ensures buckets == Cut(old(buckets), key) && numEntries == old(numEntries) - 1
    {
      UnlinkRepresents(buckets, contents, key);
      assert (contents - {key}).Keys == contents.Keys - {key};
      var index := Index(key, |buckets|);
      buckets := buckets[index := Unlink(buckets[index], key)];
      contents, numEntries := contents - {key}, numEntries - 1;
    }

    method Delete(key: Bytes) returns (removed: bool)
      requires Valid()
      modifies this
      ensures Valid() && contents == old(contents) - {key} && removed == (key in old(contents))
      ensures edits == if removed then Erase(old(edits), key) else old(edits)
      ensures |buckets| == if removed then Shrunk(|contents|, old(|buckets|)) else old(|buckets|)
      ensures relinked == old(relinked) + if |buckets| == old(|buckets|) then 0 else |contents|
    {
      var found := Get(key);
      if found.None? {
        assert contents - {key} == contents;
        return false;
      }
      Remove(key);
      return true;
    }

    /** A key that is there: spliced out of its chain, then the shrink check. */
    method Remove(key: Bytes)
      requires Valid() && key in contents
      modifies this
      ensures Valid() && contents == old(contents) - {key} && edits == Erase(old(edits), key)
      ensures |buckets| == Shrunk(|contents|, old(|buckets|))
      ensures |buckets| == (if old(|buckets|) > 16 && 16 * |contents| < 3 * old(|buckets|) then old(|buckets|) / 2
                           else old(|buckets|))
      ensures relinked == old(relinked) + if |buckets| == old(|buckets|) then 0 else |contents|
    {
      ValidHolds();
      FoundIffThere(buckets, contents, key);
      ShrunkPlainly(numEntries - 1, |buckets|);
      Splice(key);
      MaybeShrink();
      edits := Erase(edits, key);
    }

    /** Halves the capacity if the loss of an entry has left the table sparse. */
    method MaybeShrink()
      requires Sound() && Balanced(numEntries + 1, |buckets|)
      modifies `buckets, `relinked
      ensures Sound() && Balanced(numEntries, |buckets|)
      ensures Layout(buckets, numEntries) == Fit(Layout(old(buckets), numEntries), Shrunk(numEntries, old(|buckets|)))
      ensures relinked == old(relinked) + if |buckets| == old(|buckets|) then 0 else numEntries
    {
      if |buckets| <= INITIAL_CAPACITY { return; }
      if 16 * numEntries >= 3 * |buckets| { return; }
      ShrinkFits(numEntries, |buckets|);
      var half := |buckets| / 2;
      RehashTo(if half >= INITIAL_CAPACITY then half else INITIAL_CAPACITY);
    }

    method RehashTo(newCapacity: nat)
      requires Sound() && IsCapacity(newCapacity)
      modifies `buckets, `relinked
      ensures Sound() && buckets == Rehash(old(buckets), newCapacity) && relinked == old(relinked) + numEntries
    {
      RehashRepresents(buckets, contents, newCapacity);
      var bs, moves := Relink(buckets, newCapacity);
      buckets, relinked := bs, relinked + moves;
    }

    function Length(): (n: nat)
      requires Valid()
      reads this
      ensures n == |contents|
    {
      ValidHolds();
      numEntries
    }

    method Clear()
      requires Valid()
      modifies this
      ensures Valid() && contents == map[] && edits == Reset(old(edits))
      ensures |buckets| == 16 && relinked == old(relinked)
    {
      buckets, numEntries := EmptyBuckets(INITIAL_CAPACITY), 0;
      contents, edits := map[], Reset(edits);
    }

    /** ForEach and Keys: every entry exactly once, in bucket order. */
    method Entries() returns (out: seq<(Bytes, V)>)
      requires Valid()
      ensures Listed(out, contents, contents.Keys) && out == Listing(After(edits).bs)
    {
      ValidHolds();
      ListingIsAll(buckets, contents);
      out := ListAll(buckets);
    }

    /** The heads of the buckets that the draws hit, up to `count` of them. */
    method SampleKeys(count: nat, draws: Draws) returns (out: seq<(Bytes, V)>)
      requires Valid()
      ensures out == if contents == map[] then [] else Sample(After(edits).bs, draws, count)
      ensures AreEntries(out, contents)
      ensures contents != map[] ==> FirstHeads(out, buckets, draws, count)
    {
      ValidHolds();
      SampleIsFirst(buckets, draws, count);
      out := [];
      if numEntries == 0 { return; }
      CapacityBySixteen(|buckets|);
      HeadsAreEntries(buckets, contents, draws, count, 0, []);
      out := DrawHeads(buckets, count, draws);
    }
  }
}
