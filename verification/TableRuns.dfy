/** Whole runs of the hash table, from construction on: it is a map, and its resizing is amortised and spaced out. */
module TableRuns {
  import opened Bytes
  import opened Buckets
  import opened Layout
  import opened HashTable

  datatype Op<V> = Put(key: Bytes, value: V) | Remove(key: Bytes) | Wipe

  // ---------------------------------------------------------------- one call, as map, capacity and cost

  function MapAfter<V>(m: map<Bytes, V>, op: Op<V>): map<Bytes, V> {
    match op
    case Put(k, v) => m[k := v]
    case Remove(k) => m - {k}
    case Wipe => map[]
  }

  function CapacityAfter<V>(m: map<Bytes, V>, cap: nat, op: Op<V>): nat {
    match op
    case Put(k, _) => if k in m then cap else Grown(|m| + 1, cap)
    case Remove(k) => if k in m then Shrunk(|m| - 1, cap) else cap
    case Wipe => INITIAL_CAPACITY
  }

  /** Set and Delete rehash exactly if they change the capacity; Clear only makes a fresh vector. */
  predicate Resizes<V>(m: map<Bytes, V>, cap: nat, op: Op<V>) {
    !op.Wipe? && CapacityAfter(m, cap, op) != cap
  }

  /** A rehash moves every entry. */
  function Moves<V>(m: map<Bytes, V>, cap: nat, op: Op<V>): nat {
    if Resizes(m, cap, op) then |MapAfter(m, op)| else 0
  }

  // ---------------------------------------------------------------- runs

  /** Where a run stands: the map, the capacity, the nodes moved so far, and the Set and Delete calls so far. */
  datatype Point<V> = Point(m: map<Bytes, V>, cap: nat, moves: nat, calls: nat)

  function Next<V>(p: Point<V>, op: Op<V>): Point<V> {
    Point(MapAfter(p.m, op), CapacityAfter(p.m, p.cap, op), p.moves + Moves(p.m, p.cap, op),
          if op.Wipe? then p.calls else p.calls + 1)
  }

  /** After the first `i` calls. */
  function At<V>(ops: seq<Op<V>>, i: nat): Point<V>
    requires i <= |ops|
  {
    if i == 0 then Point(map[], INITIAL_CAPACITY, 0, 0) else Next(At(ops, i - 1), ops[i - 1])
  }

  predicate ResizesAt<V>(ops: seq<Op<V>>, i: nat)
    requires i < |ops|
  {
    Resizes(At(ops, i).m, At(ops, i).cap, ops[i])
  }

  // ---------------------------------------------------------------- the amortised bound

  /** Eight times the distance from the load just after a resize, three eighths of the capacity;
      growing weighs twice as much as shrinking. */
  function Potential(n: nat, cap: nat): nat {
    (if 8 * n > 3 * cap then 2 * (8 * n - 3 * cap) else 0)
    + (if cap > INITIAL_CAPACITY && 8 * n < 3 * cap then 3 * cap - 8 * n else 0)
  }

  lemma PutSize<V>(m: map<Bytes, V>, k: Bytes, v: V)
    ensures |m[k := v]| == |m| + if k in m then 0 else 1
  {
    var grown := m[k := v];
    assert grown.Keys == m.Keys + {k};
    assert |grown| == |grown.Keys| && |m| == |m.Keys|;
  }

  lemma RemoveSize<V>(m: map<Bytes, V>, k: Bytes)
    ensures |m - {k}| == |m| - if k in m then 1 else 0
  {
    var rest := m - {k};
    assert rest.Keys == m.Keys - {k};
    assert |rest| == |rest.Keys| && |m| == |m.Keys|;
  }

  lemma SizeAfter<V>(m: map<Bytes, V>, op: Op<V>)
    ensures op.Put? ==> |MapAfter(m, op)| == |m| + if op.key in m then 0 else 1
    ensures op.Remove? ==> |MapAfter(m, op)| == |m| - if op.key in m then 1 else 0
    ensures op.Wipe? ==> |MapAfter(m, op)| == 0
  {
    match op
    case Put(k, v) => PutSize(m, k, v);
    case Remove(k) => RemoveSize(m, k);
    case Wipe =>
  }

  lemma GrowPays(n: nat, cap: nat)
    requires IsCapacity(cap) && Balanced(n, cap) && Overfull(n + 1, cap)
    ensures IsCapacity(2 * cap) && Balanced(n + 1, 2 * cap)
    ensures 8 * (n + 1) + Potential(n + 1, 2 * cap) <= 24 + Potential(n, cap)
  {
    CapacityBySixteen(cap);
    var d := cap / 16;
    assert cap == 16 * d && n == 12 * d;
    assert Potential(n, cap) == 96 * d && Potential(n + 1, 2 * cap) == 16;
  }

  lemma ShrinkPays(n: nat, cap: nat)
    requires IsCapacity(cap) && n > 0 && Balanced(n, cap) && Sparse(n - 1, cap)
    ensures IsCapacity(Shrunk(n - 1, cap)) && Balanced(n - 1, Shrunk(n - 1, cap))
    ensures 8 * (n - 1) + Potential(n - 1, Shrunk(n - 1, cap)) <= 24 + Potential(n, cap)
  {
    CapacityBySixteen(cap);
    var d := cap / 32;
    assert cap == 32 * d && n == 6 * d && Shrunk(n - 1, cap) == 16 * d;
    assert Potential(n, cap) == 48 * d;
  }

  /** Three units per call pay for the moves and for the change of potential. */
  lemma CallPays<V>(m: map<Bytes, V>, cap: nat, op: Op<V>)
    requires IsCapacity(cap) && Balanced(|m|, cap)
    ensures var m', cap' := MapAfter(m, op), CapacityAfter(m, cap, op);
      && IsCapacity(cap') && Balanced(|m'|, cap')
      && 8 * Moves(m, cap, op) + Potential(|m'|, cap') <= (if op.Wipe? then 0 else 24) + Potential(|m|, cap)
  {
    SizeAfter(m, op);
    CapacityBySixteen(cap);
    if op.Put? && op.key !in m && Overfull(|m| + 1, cap) {
      GrowPays(|m|, cap);
    } else if op.Remove? && op.key in m && Sparse(|m| - 1, cap) {
      ShrinkPays(|m|, cap);
    }
  }

  /** The capacity is a power of two that fits the size, and the calls have paid. */
  ghost predicate Paid<V>(p: Point<V>) {
    IsCapacity(p.cap) && Balanced(|p.m|, p.cap) && 8 * p.moves + Potential(|p.m|, p.cap) <= 24 * p.calls
  }

  lemma NextPaid<V>(p: Point<V>, op: Op<V>)
    requires Paid(p)
    ensures Paid(Next(p, op))
  {
    CallPays(p.m, p.cap, op);
  }

  /** So in every state of every run. */
  lemma {:induction false} AllPaid<V>(ops: seq<Op<V>>, i: nat)
    requires i <= |ops|
    ensures Paid(At(ops, i))
  {
    if i > 0 {
      AllPaid(ops, i - 1);
      NextPaid(At(ops, i - 1), ops[i - 1]);
    }
  }

  /** Over any run, rehashing moves at most three nodes per Set and Delete. */
  lemma Amortised<V>(ops: seq<Op<V>>)
    ensures At(ops, |ops|).moves <= 3 * At(ops, |ops|).calls
  {
    AllPaid(ops, |ops|);
  }

  // ---------------------------------------------------------------- the distance between resizes

  /** `since` calls after a resize, the load is still that close to three eighths. */
  predicate Near(n: nat, cap: nat, since: nat) {
    3 * cap - 8 * (since + 1) <= 8 * n <= 3 * cap + 8 * (since + 1)
  }

  lemma NearAfterResize<V>(m: map<Bytes, V>, cap: nat, op: Op<V>)
    requires IsCapacity(cap) && Balanced(|m|, cap) && Resizes(m, cap, op)
    ensures Near(|MapAfter(m, op)|, CapacityAfter(m, cap, op), 0)
  {
    SizeAfter(m, op);
    CapacityBySixteen(cap);
    if op.Put? {
      GrowPays(|m|, cap);
      assert cap == 16 * (cap / 16) && |m| == 12 * (cap / 16);
    } else {
      assert cap == 32 * (cap / 32) && |m| == 6 * (cap / 32);
    }
  }

  /** `since` calls after a resize to capacity `cap`. */
  predicate Since<V>(p: Point<V>, cap: nat, since: nat) {
    p.cap == cap && Near(|p.m|, cap, since)
  }

  lemma SinceResize<V>(p: Point<V>, op: Op<V>)
    requires Paid(p) && Resizes(p.m, p.cap, op)
    ensures Since(Next(p, op), Next(p, op).cap, 0)
  {
    NearAfterResize(p.m, p.cap, op);
  }

  lemma SinceCall<V>(p: Point<V>, op: Op<V>, cap: nat, since: nat)
    requires Since(p, cap, since) && !op.Wipe? && !Resizes(p.m, p.cap, op)
    ensures Since(Next(p, op), cap, since + 1)
  {
    SizeAfter(p.m, op);
  }

  /** No Clear from call `i` on and before call `k`. */
  predicate NoWipe<V>(ops: seq<Op<V>>, i: nat, k: nat)
    requires k <= |ops|
  {
    forall t: nat {:trigger ops[t].Wipe?} | i <= t < k :: !ops[t].Wipe?
  }

  /** No resize either. */
  predicate NoResize<V>(ops: seq<Op<V>>, i: nat, k: nat)
    requires k <= |ops|
  {
    forall t: nat {:trigger ResizesAt(ops, t)} | i <= t < k :: !ResizesAt(ops, t)
  }

  /** Until the next resize, the load moves away from three eighths by one entry per call. */
  lemma {:induction false} NearSince<V>(ops: seq<Op<V>>, i: nat, k: nat)
    requires i < k <= |ops| && ResizesAt(ops, i) && NoWipe(ops, i + 1, k) && NoResize(ops, i + 1, k)
    ensures Since(At(ops, k), At(ops, i + 1).cap, k - (i + 1))
    decreases k
  {
    if k == i + 1 {
      AllPaid(ops, i);
      SinceResize(At(ops, i), ops[i]);
    } else {
      NearSince(ops, i, k - 1);
      assert !ops[k - 1].Wipe? && !ResizesAt(ops, k - 1);
      SinceCall(At(ops, k - 1), ops[k - 1], At(ops, i + 1).cap, k - 1 - (i + 1));
    }
  }

  lemma FarEnough<V>(m: map<Bytes, V>, cap: nat, op: Op<V>, since: nat)
    requires IsCapacity(cap) && Near(|m|, cap, since) && Resizes(m, cap, op)
    ensures 16 * (since + 1) >= 3 * cap
  {
    CapacityBySixteen(cap);
    var d := cap / 16;
    assert cap == 16 * d;
  }

  /** Two resizes of a run, the first to capacity c, are at least 3c/16 calls apart unless a Clear comes between. */
  lemma {:induction false} ResizesAreSpaced<V>(ops: seq<Op<V>>, i: nat, j: nat)
    requires i < j < |ops| && ResizesAt(ops, i) && ResizesAt(ops, j) && NoWipe(ops, i + 1, j + 1)
    ensures 16 * (j - i) >= 3 * At(ops, i + 1).cap
    decreases j
  {
    if between: nat :| i < between < j && ResizesAt(ops, between) {
      ResizesAreSpaced(ops, i, between);
    } else {
      NearSince(ops, i, j);
      AllPaid(ops, j);
      FarEnough(At(ops, j).m, At(ops, j).cap, ops[j], j - (i + 1));
    }
  }

  // ---------------------------------------------------------------- the table

  /** The table is where the run stands. */
  ghost predicate Follows<V>(table: Table<V>, p: Point<V>)
    reads table
  {
    table.Valid() && table.contents == p.m && |table.buckets| == p.cap && table.relinked == p.moves
  }

  lemma NextByPut<V>(p: Point<V>, k: Bytes, v: V, cap: nat)
    requires cap == if k in p.m then p.cap else Grown(|p.m[k := v]|, p.cap)
    ensures Next(p, Put(k, v)).m == p.m[k := v] && Next(p, Put(k, v)).cap == cap
    ensures Next(p, Put(k, v)).moves == p.moves + if cap == p.cap then 0 else |p.m[k := v]|
  {
    PutSize(p.m, k, v);
  }

  lemma NextByRemove<V>(p: Point<V>, k: Bytes, cap: nat)
    requires cap == if k in p.m then Shrunk(|p.m - {k}|, p.cap) else p.cap
    ensures Next(p, Remove(k)).m == p.m - {k} && Next(p, Remove(k)).cap == cap
    ensures Next(p, Remove(k)).moves == p.moves + if cap == p.cap then 0 else |p.m - {k}|
  {
    RemoveSize(p.m, k);
  }

  method Perform<V>(table: Table<V>, op: Op<V>, ghost p: Point<V>)
    requires Follows(table, p)
    modifies table
    ensures Follows(table, Next(p, op))
  {
    match op
    case Put(k, v) =>
      var _ := table.Set(k, v);
      NextByPut(p, k, v, |table.buckets|);
    case Remove(k) =>
      var _ := table.Delete(k);
      NextByRemove(p, k, |table.buckets|);
    case Wipe => table.Clear();
  }

  /** After any run of the table: lookups and listing are those of the plain map, capacity and relinked nodes are
      those of the run, so the capacity is linear in the size and three nodes per call are the most. */
  method Exercise<V>(ops: seq<Op<V>>, probe: Bytes)
    returns (found: Option<V>, listing: seq<(Bytes, V)>, capacity: nat, ghost relinked: nat)
    ensures var p := At(ops, |ops|);
      && found == (if probe in p.m then Some(p.m[probe]) else None)
      && Listed(listing, p.m, p.m.Keys)
      && capacity == p.cap && relinked == p.moves
    ensures IsCapacity(capacity) && relinked <= 3 * At(ops, |ops|).calls
    ensures 4 * |listing| <= 3 * capacity && (capacity > 16 ==> 16 * |listing| >= 3 * capacity)
  {
    var table := new Table<V>();
    for i := 0 to |ops|
      invariant fresh(table) && Follows(table, At(ops, i))
    {
      Perform(table, ops[i], At(ops, i));
    }
    AllPaid(ops, |ops|);
    found := table.Get(probe);
    listing := table.Entries();
    capacity, relinked := |table.buckets|, table.relinked;
  }
}
