/** Where the nodes of src/store/hash_table.h stand: the buckets after any sequence of edits, as pure functions.
    The map does not depend on it, but the order of Keys and the bucket heads that are sampled do. */
module Layout {
  import opened Bytes
  import opened Buckets

  // ---------------------------------------------------------------- the resize rule

  /** Load factor above 3/4. */
  predicate Overfull(n: int, cap: nat) {
    4 * n > 3 * cap
  }

  /** Load factor below 3/16, above the smallest capacity. */
  predicate Sparse(n: int, cap: nat) {
    cap > INITIAL_CAPACITY && 16 * n < 3 * cap
  }

  /** Capacity follows size: linear in it both ways. */
  predicate Balanced(n: int, cap: nat) {
    !Overfull(n, cap) && !Sparse(n, cap)
  }

  /** The capacity once a new entry has made it `n`. */
  function Grown(n: int, cap: nat): nat {
    if Overfull(n, cap) then 2 * cap else cap
  }

  /** The capacity once the loss of an entry has left `n`. */
  function Shrunk(n: int, cap: nat): nat {
    if !Sparse(n, cap) then cap else if cap / 2 >= INITIAL_CAPACITY then cap / 2 else INITIAL_CAPACITY
  }

  // ---------------------------------------------------------------- edits

  /** What was done to a table since it was made, latest edit outermost. */
  datatype Edits<V> =
    | NoEdit
    | Save(past: Edits<V>, key: Bytes, value: V)   // Set, or a write through the node that Get hands out
    | Erase(past: Edits<V>, key: Bytes)
    | Reset(past: Edits<V>)

  /** The buckets and the entry count. */
  datatype Layout<V> = Layout(bs: seq<Chain<V>>, n: int)

  /** The node goes to the front of its chain. */
  function Link<V>(bs: seq<Chain<V>>, key: Bytes, value: V): (r: seq<Chain<V>>)
    ensures |r| == |bs|
  {
    var i := Index(key, |bs|);
    if i < |bs| then bs[i := Node(key, value, bs[i])] else bs
  }

  function MoveNodes<V>(c: Chain<V>, bs: seq<Chain<V>>): (r: seq<Chain<V>>)
    ensures |r| == |bs|
    decreases c
  {
    match c
    case Nil => bs
    case Node(k, v, next) => MoveNodes(next, Link(bs, k, v))
  }

  function MoveBuckets<V>(given: seq<Chain<V>>, i: nat, bs: seq<Chain<V>>): (r: seq<Chain<V>>)
    requires i <= |given|
    ensures |r| == |bs|
    decreases |given| - i
  {
    if i == |given| then bs else MoveBuckets(given, i + 1, MoveNodes(given[i], bs))
  }

  /** Every node, bucket by bucket, to the front of its new chain. */
  function Rehash<V>(bs: seq<Chain<V>>, cap: nat): (r: seq<Chain<V>>)
    ensures |r| == cap
  {
    MoveBuckets(bs, 0, EmptyBuckets(cap))
  }

  function Fit<V>(l: Layout<V>, cap: nat): Layout<V> {
    if cap == |l.bs| then l else Layout(Rehash(l.bs, cap), l.n)
  }

  predicate Has<V>(bs: seq<Chain<V>>, key: Bytes) {
    Index(key, |bs|) < |bs| && Find(bs[Index(key, |bs|)], key).Some?
  }

  function Overwrite<V>(bs: seq<Chain<V>>, key: Bytes, value: V): seq<Chain<V>> {
    var i := Index(key, |bs|);
    if i < |bs| then bs[i := Replace(bs[i], key, value)] else bs
  }

  function Cut<V>(bs: seq<Chain<V>>, key: Bytes): seq<Chain<V>> {
    var i := Index(key, |bs|);
    if i < |bs| then bs[i := Unlink(bs[i], key)] else bs
  }

  function Saved<V>(l: Layout<V>, key: Bytes, value: V): Layout<V> {
    if Has(l.bs, key) then l.(bs := Overwrite(l.bs, key, value))
    else Fit(Layout(Link(l.bs, key, value), l.n + 1), Grown(l.n + 1, |l.bs|))
  }

  function Erased<V>(l: Layout<V>, key: Bytes): Layout<V> {
    if !Has(l.bs, key) then l
    else Fit(Layout(Cut(l.bs, key), l.n - 1), Shrunk(l.n - 1, |l.bs|))
  }

  /** The layout that the edits lead to. */
  function After<V>(e: Edits<V>): Layout<V> {
    match e
    case NoEdit => Layout(EmptyBuckets(INITIAL_CAPACITY), 0)
    case Save(past, key, value) => Saved(After(past), key, value)
    case Erase(past, key) => Erased(After(past), key)
    case Reset(_) => Layout(EmptyBuckets(INITIAL_CAPACITY), 0)
  }

  // ---------------------------------------------------------------- the map it holds

  function Contents<V>(e: Edits<V>): map<Bytes, V> {
    match e
    case NoEdit => map[]
    case Save(past, key, value) => Contents(past)[key := value]
    case Erase(past, key) => Contents(past) - {key}
    case Reset(_) => map[]
  }

  /** The layout holds the map, its count is right and its capacity fits. */
  ghost predicate Holds<V>(l: Layout<V>, m: map<Bytes, V>) {
    Represents(l.bs, m) && l.n == Total(l.bs) == |m| && Balanced(l.n, |l.bs|)
  }

  /** New buckets on the way: they hold the part `moved` of `m`. */
  ghost predicate Moved<V>(bs: seq<Chain<V>>, moved: map<Bytes, V>, m: map<Bytes, V>) {
    && Represents(bs, moved) && Total(bs) == |moved|
    && forall k | k in moved :: k in m && moved[k] == m[k]
  }

  lemma LinkMoves<V>(cur: Chain<V>, bs: seq<Chain<V>>, m: map<Bytes, V>, cap: nat, i: nat, before: map<Bytes, V>)
    returns (moved: map<Bytes, V>)
    requires cap > 0 && cur.Node? && Moved(bs, before, m)
    requires RestOf(m, cap, i, cur) && Walked(m, cap, i, cur, before.Keys)
    ensures Moved(Link(bs, cur.key, cur.value), moved, m)
    ensures RestOf(m, cap, i, cur.next) && Walked(m, cap, i, cur.next, moved.Keys)
  {
    WalkPassesNode(m, cap, i, cur, before.Keys);
    PushRepresents(bs, before, cur.key, cur.value);
    moved := before[cur.key := cur.value];
    assert moved.Keys == before.Keys + {cur.key};
  }

  lemma {:induction false} NodesMove<V>(c: Chain<V>, bs: seq<Chain<V>>, m: map<Bytes, V>, cap: nat, i: nat,
                                        before: map<Bytes, V>)
    returns (moved: map<Bytes, V>)
    requires cap > 0 && Moved(bs, before, m)
    requires RestOf(m, cap, i, c) && Walked(m, cap, i, c, before.Keys)
    ensures Moved(MoveNodes(c, bs), moved, m) && Walked<V>(m, cap, i, Nil, moved.Keys)
    decreases c
  {
    moved := before;
    if c.Node? {
      moved := LinkMoves(c, bs, m, cap, i, before);
      moved := NodesMove(c.next, Link(bs, c.key, c.value), m, cap, i, moved);
    }
  }

  lemma {:induction false} BucketsMove<V>(given: seq<Chain<V>>, i: nat, bs: seq<Chain<V>>, m: map<Bytes, V>,
                                          before: map<Bytes, V>)
    requires Represents(given, m) && i <= |given| && Moved(bs, before, m)
    requires i < |given| ==> Walked(m, |given|, i, given[i], before.Keys)
    requires i == |given| ==> before.Keys == m.Keys
    ensures Represents(MoveBuckets(given, i, bs), m) && Total(MoveBuckets(given, i, bs)) == |m|
    decreases |given| - i
  {
    if i == |given| {
      assert before == m;
    } else {
      BucketIsRest(given, m, i);
      var moved := NodesMove(given[i], bs, m, |given|, i, before);
      WalkNextBucket(given, m, i, moved.Keys);
      BucketsMove(given, i + 1, MoveNodes(given[i], bs), m, moved);
    }
  }

  /** A rehash to any capacity keeps the map. */
  lemma RehashRepresents<V>(bs: seq<Chain<V>>, m: map<Bytes, V>, cap: nat)
    requires Represents(bs, m) && IsCapacity(cap)
    ensures Represents(Rehash(bs, cap), m) && Total(Rehash(bs, cap)) == |m|
  {
    EmptyRepresents<V>(cap);
    WalkStart(bs, m);
    BucketsMove(bs, 0, EmptyBuckets(cap), m, map[]);
  }

  lemma FoundIffThere<V>(bs: seq<Chain<V>>, m: map<Bytes, V>, key: Bytes)
    requires Represents(bs, m)
    ensures Has(bs, key) <==> key in m
  {
    IndexIsRemainder(key, |bs|);
    assert Slot(bs, key) == bs[Index(key, |bs|)];
  }

  lemma GrowthFits(n: nat, cap: nat)
    requires IsCapacity(cap) && n > 0 && Overfull(n, cap) && Balanced(n - 1, cap)
    ensures IsCapacity(2 * cap) && Balanced(n, 2 * cap)
  {
    CapacityBySixteen(cap);
  }

  lemma ShrinkFits(n: nat, cap: nat)
    requires IsCapacity(cap) && Sparse(n, cap) && Balanced(n + 1, cap)
    ensures IsCapacity(cap / 2) && cap / 2 >= INITIAL_CAPACITY && Balanced(n, cap / 2)
  {
    CapacityBySixteen(cap);
  }

  lemma ShrunkPlainly(n: int, cap: nat)
    requires IsCapacity(cap) && Balanced(n + 1, cap)
    ensures Shrunk(n, cap) == if cap > 16 && 16 * n < 3 * cap then cap / 2 else cap
  {
    if Sparse(n, cap) { ShrinkFits(n, cap); }
  }

  lemma FitHolds<V>(l: Layout<V>, m: map<Bytes, V>, cap: nat)
    requires Represents(l.bs, m) && l.n == Total(l.bs) == |m| && IsCapacity(cap) && Balanced(l.n, cap)
    ensures Holds(Fit(l, cap), m)
  {
    if cap != |l.bs| { RehashRepresents(l.bs, m, cap); }
  }

  lemma SavedHolds<V>(l: Layout<V>, m: map<Bytes, V>, key: Bytes, value: V)
    requires Holds(l, m)
    ensures Holds(Saved(l, key, value), m[key := value])
  {
    FoundIffThere(l.bs, m, key);
    if key in m {
      ReplaceRepresents(l.bs, m, key, value);
      assert m[key := value].Keys == m.Keys;
    } else {
      PushRepresents(l.bs, m, key, value);
      assert m[key := value].Keys == m.Keys + {key};
      if Overfull(l.n + 1, |l.bs|) { GrowthFits(l.n + 1, |l.bs|); }
      FitHolds(Layout(Link(l.bs, key, value), l.n + 1), m[key := value], Grown(l.n + 1, |l.bs|));
    }
  }

  lemma ErasedHolds<V>(l: Layout<V>, m: map<Bytes, V>, key: Bytes)
    requires Holds(l, m)
    ensures Holds(Erased(l, key), m - {key})
  {
    FoundIffThere(l.bs, m, key);
    if key in m {
      UnlinkRepresents(l.bs, m, key);
      assert (m - {key}).Keys == m.Keys - {key};
      if Sparse(l.n - 1, |l.bs|) { ShrinkFits(l.n - 1, |l.bs|); }
      FitHolds(Layout(Cut(l.bs, key), l.n - 1), m - {key}, Shrunk(l.n - 1, |l.bs|));
    } else {
      assert m - {key} == m;
    }
  }

  /** Whatever the edits, the layout they lead to holds the map they lead to. */
  lemma {:induction false} AfterHolds<V>(e: Edits<V>)
    ensures Holds(After(e), Contents(e))
  {
    match e
    case NoEdit => EmptyRepresents<V>(INITIAL_CAPACITY);
    case Reset(_) => EmptyRepresents<V>(INITIAL_CAPACITY);
    case Save(past, key, value) =>
      AfterHolds(past);
      SavedHolds(After(past), Contents(past), key, value);
    case Erase(past, key) =>
      AfterHolds(past);
      ErasedHolds(After(past), Contents(past), key);
  }

  // ---------------------------------------------------------------- listing

  function ChainListing<V>(c: Chain<V>): seq<(Bytes, V)> {
    match c
    case Nil => []
    case Node(k, v, next) => [(k, v)] + ChainListing(next)
  }

  /** The order of Keys and ForEach. */
  function Listing<V>(bs: seq<Chain<V>>): seq<(Bytes, V)> {
    if bs == [] then [] else Listing(bs[..|bs| - 1]) + ChainListing(bs[|bs| - 1])
  }

  function KeySet<V>(out: seq<(Bytes, V)>): set<Bytes> {
    if out == [] then {} else KeySet(out[..|out| - 1]) + {out[|out| - 1].0}
  }

  /** `out` lists entries of `m`, each once; `seen` are its keys. */
  ghost predicate Listed<V>(out: seq<(Bytes, V)>, m: map<Bytes, V>, seen: set<Bytes>) {
    && |out| == |seen| && KeySet(out) == seen
    && (forall i | 0 <= i < |out| :: out[i].0 in seen && out[i].0 in m && out[i].1 == m[out[i].0])
    && (forall i, j | 0 <= i < j < |out| :: out[i].0 != out[j].0)
  }

  lemma ListOne<V>(out: seq<(Bytes, V)>, m: map<Bytes, V>, seen: set<Bytes>, key: Bytes, value: V)
    requires Listed(out, m, seen) && key !in seen && key in m && m[key] == value
    ensures Listed(out + [(key, value)], m, seen + {key})
  {
    assert (out + [(key, value)])[..|out|] == out;
  }

  lemma {:induction false} ListChain<V>(c: Chain<V>, out: seq<(Bytes, V)>, m: map<Bytes, V>, cap: nat, i: nat,
                                        before: set<Bytes>)
    returns (seen: set<Bytes>)
    requires cap > 0 && Listed(out, m, before) && RestOf(m, cap, i, c) && Walked(m, cap, i, c, before)
    ensures Listed(out + ChainListing(c), m, seen) && Walked<V>(m, cap, i, Nil, seen)
    decreases c
  {
    seen := before;
    if c.Nil? {
      assert out + [] == out;
    } else {
      WalkPassesNode(m, cap, i, c, before);
      ListOne(out, m, before, c.key, c.value);
      seen := ListChain(c.next, out + [(c.key, c.value)], m, cap, i, before + {c.key});
      Assoc(out, [(c.key, c.value)], ChainListing(c.next));
    }
  }

  lemma ListingSnoc<V>(bs: seq<Chain<V>>, i: nat)
    requires i < |bs|
    ensures Listing(bs[..i + 1]) == Listing(bs[..i]) + ChainListing(bs[i])
  {
    assert bs[..i + 1][..i] == bs[..i];
  }

  lemma {:induction false} ListBuckets<V>(bs: seq<Chain<V>>, m: map<Bytes, V>, i: nat) returns (seen: set<Bytes>)
    requires Represents(bs, m) && i <= |bs|
    ensures Listed(Listing(bs[..i]), m, seen)
    ensures i < |bs| ==> Walked(m, |bs|, i, bs[i], seen)
    ensures i == |bs| ==> seen == m.Keys
  {
    if i == 0 {
      seen := {};
      WalkStart(bs, m);
    } else {
      var before := ListBuckets(bs, m, i - 1);
      BucketIsRest(bs, m, i - 1);
      seen := ListChain(bs[i - 1], Listing(bs[..i - 1]), m, |bs|, i - 1, before);
      ListingSnoc(bs, i - 1);
      WalkNextBucket(bs, m, i - 1, seen);
    }
  }

  /** Bucket order visits every entry exactly once. */
  lemma ListingIsAll<V>(bs: seq<Chain<V>>, m: map<Bytes, V>)
    requires Represents(bs, m)
    ensures Listed(Listing(bs), m, m.Keys)
  {
    var seen := ListBuckets(bs, m, |bs|);
    assert bs[..|bs|] == bs;
  }

  // ---------------------------------------------------------------- sampling

  /** What the generator gives, attempt by attempt. */
  type Draws = nat -> nat

  /** Twenty attempts per entry wanted. */
  const ATTEMPTS: nat := 20

  function Drawn<V>(bs: seq<Chain<V>>, draw: nat): Chain<V> {
    if bs == [] then Nil else bs[draw % |bs|]
  }

  /** From attempt `a` on: the heads of the buckets that are hit, until `count` are found or the attempts run out. */
  function Heads<V>(bs: seq<Chain<V>>, draws: Draws, count: nat, a: nat, out: seq<(Bytes, V)>): seq<(Bytes, V)>
    decreases count * ATTEMPTS - a
  {
    if |out| >= count || a >= count * ATTEMPTS then out
    else
      var c := Drawn(bs, draws(a));
      Heads(bs, draws, count, a + 1, if c.Node? then out + [(c.key, c.value)] else out)
  }

  function Sample<V>(bs: seq<Chain<V>>, draws: Draws, count: nat): seq<(Bytes, V)> {
    Heads(bs, draws, count, 0, [])
  }

  /** No attempt hits a bucket that holds anything. */
  predicate Misses<V>(bs: seq<Chain<V>>, draws: Draws, count: nat) {
    forall a: nat | a < count * ATTEMPTS :: Drawn(bs, draws(a)).Nil?
  }

  lemma {:induction false} HeadsGrow<V>(bs: seq<Chain<V>>, draws: Draws, count: nat, a: nat, out: seq<(Bytes, V)>)
    ensures out <= Heads(bs, draws, count, a, out)
    ensures |out| <= count ==> |Heads(bs, draws, count, a, out)| <= count
    decreases count * ATTEMPTS - a
  {
    if |out| < count && a < count * ATTEMPTS {
      var c := Drawn(bs, draws(a));
      HeadsGrow(bs, draws, count, a + 1, if c.Node? then out + [(c.key, c.value)] else out);
    }
  }

  /** Every pair is an entry of the map. */
  ghost predicate AreEntries<V>(out: seq<(Bytes, V)>, m: map<Bytes, V>) {
    forall i | 0 <= i < |out| :: out[i].0 in m && out[i].1 == m[out[i].0]
  }

  lemma HeadIsEntry<V>(bs: seq<Chain<V>>, m: map<Bytes, V>, draw: nat)
    requires Represents(bs, m) && Drawn(bs, draw).Node?
    ensures var c := Drawn(bs, draw); c.key in m && m[c.key] == c.value
  {
    var c := Drawn(bs, draw);
    BucketIsRest(bs, m, draw % |bs|);
    assert Find(c, c.key) == Some(c.value);
  }

  /** Heads are entries of the map. */
  lemma {:induction false} HeadsAreEntries<V>(bs: seq<Chain<V>>, m: map<Bytes, V>, draws: Draws, count: nat, a: nat,
                                              out: seq<(Bytes, V)>)
    requires Represents(bs, m) && AreEntries(out, m)
    ensures AreEntries(Heads(bs, draws, count, a, out), m)
    decreases count * ATTEMPTS - a
  {
    if |out| < count && a < count * ATTEMPTS {
      var c := Drawn(bs, draws(a));
      var next := if c.Node? then out + [(c.key, c.value)] else out;
      if c.Node? { HeadIsEntry(bs, m, draws(a)); }
      assert AreEntries(next, m);
      HeadsAreEntries(bs, m, draws, count, a + 1, next);
    }
  }

  lemma {:induction false} NoHeads<V>(bs: seq<Chain<V>>, draws: Draws, count: nat, a: nat)
    requires count > 0 && a <= count * ATTEMPTS
    ensures Heads(bs, draws, count, a, []) == []
       <==> forall b: nat | a <= b < count * ATTEMPTS :: Drawn(bs, draws(b)).Nil?
    decreases count * ATTEMPTS - a
  {
    if a < count * ATTEMPTS {
      var c := Drawn(bs, draws(a));
      if c.Node? {
        HeadsGrow(bs, draws, count, a + 1, [] + [(c.key, c.value)]);
      } else {
        NoHeads(bs, draws, count, a + 1);
      }
    }
  }

  /** A sample comes back empty exactly if every attempt hits an empty bucket. */
  lemma EmptySample<V>(bs: seq<Chain<V>>, draws: Draws, count: nat)
    requires count > 0
    ensures Sample(bs, draws, count) == [] <==> Misses(bs, draws, count)
  {
    NoHeads(bs, draws, count, 0);
  }

  // ---------------------------------------------------------------- what a sample is, attempt by attempt

  predicate Hits<V>(bs: seq<Chain<V>>, draw: nat) {
    bs != [] && bs[draw % |bs|].Node?
  }

  /** The attempts among the first `n` that hit a bucket with something in it, in order. */
  function HitsUpTo<V>(bs: seq<Chain<V>>, draws: Draws, n: nat): seq<nat> {
    if n == 0 then []
    else HitsUpTo(bs, draws, n - 1) + if Hits(bs, draws(n - 1)) then [n - 1] else []
  }

  lemma {:induction false} HitsExact<V>(bs: seq<Chain<V>>, draws: Draws, n: nat)
    ensures forall a: nat :: a in HitsUpTo(bs, draws, n) <==> a < n && Hits(bs, draws(a))
    ensures forall i, j | 0 <= i < j < |HitsUpTo(bs, draws, n)| ::
      HitsUpTo(bs, draws, n)[i] < HitsUpTo(bs, draws, n)[j]
  {
    if n > 0 {
      HitsExact(bs, draws, n - 1);
      var front := HitsUpTo(bs, draws, n - 1);
      forall j | 0 <= j < |front| ensures front[j] < n - 1 { assert front[j] in front; }
    }
  }

  lemma {:induction false} HitsPrefix<V>(bs: seq<Chain<V>>, draws: Draws, a: nat, b: nat)
    requires a <= b
    ensures HitsUpTo(bs, draws, a) <= HitsUpTo(bs, draws, b)
  {
    if a < b { HitsPrefix(bs, draws, a, b - 1); }
  }

  /** The pairs at the heads of the buckets hit by these attempts. */
  ghost predicate AtHeads<V>(out: seq<(Bytes, V)>, bs: seq<Chain<V>>, draws: Draws, hits: seq<nat>) {
    && |out| <= |hits|
    && forall j | 0 <= j < |out| :: Hits(bs, draws(hits[j])) &&
         var c := bs[draws(hits[j]) % |bs|]; out[j] == (c.key, c.value)
  }

  /** The heads of the first `count` hits among the first 20 * `count` attempts, or of all if there are fewer. */
  ghost predicate FirstHeads<V>(out: seq<(Bytes, V)>, bs: seq<Chain<V>>, draws: Draws, count: nat) {
    var hits := HitsUpTo(bs, draws, 20 * count);
    |out| == (if |hits| < count then |hits| else count) && AtHeads(out, bs, draws, hits)
  }

  lemma AtHeadsOfMore<V>(out: seq<(Bytes, V)>, bs: seq<Chain<V>>, draws: Draws, hits: seq<nat>, more: seq<nat>)
    requires AtHeads(out, bs, draws, hits) && hits <= more
    ensures AtHeads(out, bs, draws, more)
  {
    assert forall j | 0 <= j < |out| :: hits[j] == more[j];
  }

  lemma OneMoreHead<V>(out: seq<(Bytes, V)>, bs: seq<Chain<V>>, draws: Draws, a: nat)
    requires |out| == |HitsUpTo(bs, draws, a)| && AtHeads(out, bs, draws, HitsUpTo(bs, draws, a))
    ensures var c := Drawn(bs, draws(a)); var next := if c.Node? then out + [(c.key, c.value)] else out;
      |next| == |HitsUpTo(bs, draws, a + 1)| && AtHeads(next, bs, draws, HitsUpTo(bs, draws, a + 1))
  {
    var hits := HitsUpTo(bs, draws, a);
    assert Drawn(bs, draws(a)).Node? <==> Hits(bs, draws(a));
    if !Hits(bs, draws(a)) { assert hits + [] == hits; }
  }

  lemma AllPicked<V>(bs: seq<Chain<V>>, draws: Draws, count: nat, a: nat, out: seq<(Bytes, V)>)
    requires a <= 20 * count && |out| == |HitsUpTo(bs, draws, a)| <= count && (|out| == count || a == 20 * count)
    requires AtHeads(out, bs, draws, HitsUpTo(bs, draws, a))
    ensures FirstHeads(out, bs, draws, count)
  {
    HitsPrefix(bs, draws, a, 20 * count);
    AtHeadsOfMore(out, bs, draws, HitsUpTo(bs, draws, a), HitsUpTo(bs, draws, 20 * count));
  }

  lemma HeadsStep<V>(bs: seq<Chain<V>>, draws: Draws, count: nat, a: nat, out: seq<(Bytes, V)>)
    returns (next: seq<(Bytes, V)>)
    requires a < 20 * count && |out| == |HitsUpTo(bs, draws, a)| < count
    requires AtHeads(out, bs, draws, HitsUpTo(bs, draws, a))
    ensures Heads(bs, draws, count, a, out) == Heads(bs, draws, count, a + 1, next)
    ensures |next| == |HitsUpTo(bs, draws, a + 1)| <= count && AtHeads(next, bs, draws, HitsUpTo(bs, draws, a + 1))
  {
    OneMoreHead(out, bs, draws, a);
    var c := Drawn(bs, draws(a));
    next := if c.Node? then out + [(c.key, c.value)] else out;
  }

  lemma {:induction false} HeadsAreFirst<V>(bs: seq<Chain<V>>, draws: Draws, count: nat, a: nat, out: seq<(Bytes, V)>)
    requires a <= 20 * count && |out| == |HitsUpTo(bs, draws, a)| <= count
    requires AtHeads(out, bs, draws, HitsUpTo(bs, draws, a))
    ensures FirstHeads(Heads(bs, draws, count, a, out), bs, draws, count)
    decreases 20 * count - a
  {
    if |out| == count || a == 20 * count {
      AllPicked(bs, draws, count, a, out);
    } else {
      var next := HeadsStep(bs, draws, count, a, out);
      HeadsAreFirst(bs, draws, count, a + 1, next);
    }
  }

  lemma SampleIsFirst<V>(bs: seq<Chain<V>>, draws: Draws, count: nat)
    ensures FirstHeads(Sample(bs, draws, count), bs, draws, count)
  {
    HeadsAreFirst(bs, draws, count, 0, []);
  }
}
