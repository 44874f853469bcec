/** Exactly when a section that reads the clock key by key still answers as of one instant between its first and its
    last reading. */
module Instants {
  import opened Bytes
  import opened Keyspace
  import opened Atomic
  import opened Readings
  import L = Layout

  /** One reading up to index `i`, another one from then on. */
  function Turn(i: nat, t: int, u: int): Clock {
    n => if n <= i then t else u
  }

  lemma TurnIsSteady(i: nat, n: nat, t: int, u: int)
    requires t <= u
    ensures Steady(Turn(i, t, u)) && Within(Turn(i, t, u), n, t, u)
  {
  }

  // ---------------------------------------------------------------- EXISTS

  ghost predicate CountedAtOnce(space: Space, keys: seq<Bytes>, clock: Clock, t: int, u: int) {
    exists at :: t <= at <= u && CountBy(space, keys, clock).0 == CountLive(space, keys, at).0
  }

  lemma CountTwice(space: Space, k: Bytes, clock: Clock, at: int)
    requires k in space
    ensures CountBy(space, [k, k], clock).0
         == (if Expired(space[k], clock(0)) then 0 else 1) + (if Expired(space[k], clock(1)) then 0 else 1)
    ensures CountLive(space, [k, k], at).0 == if Expired(space[k], at) then 0 else 2
  {
    var one, none: seq<Bytes> := [k], [];
    assert [k, k][..1] == one && one[..0] == none;
    assert CountBy(space, none, clock) == (0, []) && CountLive(space, none, at) == (0, []);
    assert CountBy(space, one, clock).0 == if Expired(space[k], clock(0)) then 0 else 1;
    assert CountLive(space, one, at).0 == if Expired(space[k], at) then 0 else 1;
  }

  /** EXISTS counts as of one instant, whatever it is asked, exactly if no deadline passes meanwhile. */
  lemma ExistsExact(space: Space, t: int, u: int)
    requires t <= u
    ensures (forall keys: seq<Bytes>, clock: Clock | Steady(clock) && Within(clock, |keys|, t, u) ::
               CountedAtOnce(space, keys, clock, t, u))
       <==> forall k | k in space :: !Passes(space[k], t, u)
  {
    if k :| k in space && Passes(space[k], t, u) {
      var clock := Turn(0, t, u);
      TurnIsSteady(0, |[k, k]|, t, u);
      forall at | t <= at <= u ensures CountBy(space, [k, k], clock).0 != CountLive(space, [k, k], at).0 {
        CountTwice(space, k, clock, at);
      }
      assert !CountedAtOnce(space, [k, k], clock, t, u);
    } else {
      forall keys: seq<Bytes>, clock: Clock | Steady(clock) && Within(clock, |keys|, t, u)
        ensures CountedAtOnce(space, keys, clock, t, u)
      {
        QuietCount(space, keys, clock, t, u);
      }
    }
  }

  // ---------------------------------------------------------------- KEYS

  ghost predicate ListedAtOnce(s: State, clock: Clock, t: int, u: int) {
    exists at :: t <= at <= u && ListedAt(s, clock, at)
  }

  ghost predicate ListedAt(s: State, clock: Clock, at: int) {
    forall k :: k in AmongBy(Physical(s), s.space, clock, false) <==> k in s.space && !Expired(s.space[k], at)
  }

  /** The walk meets the keys that run out meanwhile latest deadline first. */
  ghost predicate LatestFirst(walk: seq<(Bytes, Entry)>, t: int, u: int) {
    forall i, j | 0 <= i < j < |walk| && Passes(walk[i].1, t, u) && Passes(walk[j].1, t, u) ::
      walk[i].1.deadline.value > walk[j].1.deadline.value
  }

  /** Of the keys that run out meanwhile, the first that is found expired; every later one is, too. */
  lemma FirstGone(walk: seq<(Bytes, Entry)>, clock: Clock, t: int, u: int) returns (at: int)
    requires t <= u && Steady(clock) && Within(clock, |walk|, t, u) && LatestFirst(walk, t, u)
    ensures t <= at <= u
    ensures forall i | 0 <= i < |walk| :: Expired(walk[i].1, clock(i)) == Expired(walk[i].1, at)
  {
    var n := 0;
    while n < |walk| && !(Passes(walk[n].1, t, u) && Expired(walk[n].1, clock(n)))
      invariant n <= |walk|
      invariant forall i | 0 <= i < n :: !(Passes(walk[i].1, t, u) && Expired(walk[i].1, clock(i)))
    {
      n := n + 1;
    }
    at := if n < |walk| then walk[n].1.deadline.value else t;
    forall i | 0 <= i < |walk| ensures Expired(walk[i].1, clock(i)) == Expired(walk[i].1, at) {
      if Passes(walk[i].1, t, u) {
        if n < i { assert clock(n) <= clock(i); }
      }
    }
  }

  lemma ListedFrom(s: State, walk: seq<(Bytes, Entry)>, clock: Clock, at: int)
    requires walk == Physical(s) && OneEach(walk) && L.AreEntries(walk, s.space) && L.KeySet(walk) == s.space.Keys
    requires forall i | 0 <= i < |walk| :: Expired(walk[i].1, clock(i)) == Expired(walk[i].1, at)
    ensures ListedAt(s, clock, at)
  {
    forall k: Bytes ensures k in AmongBy(walk, s.space, clock, false) <==> k in s.space && !Expired(s.space[k], at) {
      if k in s.space {
        var i := PlaceOf(walk, k);
        AmongByAt(walk, s.space, clock, false, i);
      } else if k in AmongBy(walk, s.space, clock, false) {
        AmongByMember(walk, s.space, clock, false, k);
      }
    }
  }

  lemma NotListed(s: State, walk: seq<(Bytes, Entry)>, i: nat, j: nat, t: int, u: int)
    requires walk == Physical(s) && OneEach(walk) && L.AreEntries(walk, s.space) && t <= u
    requires i < j < |walk| && Passes(walk[i].1, t, u) && Passes(walk[j].1, t, u)
    requires walk[i].1.deadline.value <= walk[j].1.deadline.value
    ensures !ListedAtOnce(s, Turn(i, t, u), t, u)
  {
    var clock := Turn(i, t, u);
    AmongByAt(walk, s.space, clock, false, i);
    AmongByAt(walk, s.space, clock, false, j);
    assert walk[i].0 in s.space && walk[j].0 in s.space;
  }

  /** KEYS lists as of one instant, whenever it reads the clock, exactly if the walk meets the keys that run out
      meanwhile latest deadline first. */
  lemma KeysExact(s: State, t: int, u: int)
    requires Consistent(s) && t <= u
    ensures (forall clock: Clock | Steady(clock) && Within(clock, |Physical(s)|, t, u) :: ListedAtOnce(s, clock, t, u))
       <==> LatestFirst(Physical(s), t, u)
  {
    var walk := WalkOf(s);
    if LatestFirst(walk, t, u) {
      forall clock: Clock | Steady(clock) && Within(clock, |walk|, t, u) ensures ListedAtOnce(s, clock, t, u) {
        var at := FirstGone(walk, clock, t, u);
        ListedFrom(s, walk, clock, at);
      }
    } else {
      var i, j :| 0 <= i < j < |walk| && Passes(walk[i].1, t, u) && Passes(walk[j].1, t, u)
                  && walk[i].1.deadline.value <= walk[j].1.deadline.value;
      TurnIsSteady(i, |walk|, t, u);
      NotListed(s, walk, i, j, t, u);
    }
  }

  // ---------------------------------------------------------------- DEL

  ghost predicate RemovedAtOnce(s: State, keys: seq<Bytes>, clock: Clock, t: int, u: int) {
    exists at :: t <= at <= u && DropBy(s, keys, clock) == DropKeys(s, keys, at)
  }

  /** Whatever the readings, the same keys go, and the count lies between those of the two ends. */
  lemma {:induction false} DropBetween(s: State, keys: seq<Bytes>, clock: Clock, t: int, u: int)
    requires Within(clock, |keys|, t, u)
    ensures DropKeys(s, keys, u).1 <= DropBy(s, keys, clock).1 <= DropKeys(s, keys, t).1
  {
    if keys != [] {
      var front := keys[..|keys| - 1];
      DropBetween(s, front, clock, t, u);
      DropBySameState(s, front, clock, t);
      DropBySameState(s, front, clock, u);
    }
  }

  lemma AlmostAll<T>(a: set<T>, b: set<T>, x: T)
    requires a <= b + {x}
    ensures |a| <= |b| + 1
  {
    if x in a {
      assert a - {x} <= b;
      SubsetSize(a - {x}, b);
    } else {
      assert a <= b;
      SubsetSize(a, b);
    }
  }

  lemma {:induction false} SubsetSize<T>(a: set<T>, b: set<T>)
    requires a <= b
    ensures |a| <= |b|
  {
    if a != {} {
      var x :| x in a;
      SubsetSize(a - {x}, b - {x});
    }
  }

  /** No two keys run out at the same moment meanwhile. */
  ghost predicate OneByOne(space: Space, t: int, u: int) {
    forall a, b | a in space && b in space && a != b && Passes(space[a], t, u) && Passes(space[b], t, u) ::
      space[a].deadline != space[b].deadline
  }

  lemma OneGoes(space: Space, t: int, u: int, at: int, k: Bytes, j: Bytes)
    requires t <= at < u && OneByOne(space, t, u)
    requires k in View(space, at) && k !in View(space, at + 1) && j in View(space, at) && j !in View(space, at + 1)
    ensures j == k
  {
    assert space[k].deadline == Some(at + 1) && space[j].deadline == Some(at + 1);
    assert Passes(space[k], t, u) && Passes(space[j], t, u);
  }

  lemma SmallStep(s: State, keys: seq<Bytes>, t: int, u: int, at: int)
    requires t <= at < u && OneByOne(s.space, t, u)
    ensures DropKeys(s, keys, at).1 <= DropKeys(s, keys, at + 1).1 + 1
  {
    DropKeysMeaning(s, keys, at);
    DropKeysMeaning(s, keys, at + 1);
    var now, next, named := View(s.space, at).Keys, View(s.space, at + 1).Keys, KeysOf(keys);
    if k :| k in now * named && k !in next {
      forall j | j in now * named ensures j in next * named + {k} {
        if j !in next { OneGoes(s.space, t, u, at, k, j); }
      }
      AlmostAll(now * named, next * named, k);
    } else {
      SubsetSize(now * named, next * named);
    }
  }

  /** The count falls one by one, so it takes every value in between. */
  lemma SomeInstant(s: State, keys: seq<Bytes>, t: int, u: int, n: nat) returns (at: int)
    requires t <= u && OneByOne(s.space, t, u) && DropKeys(s, keys, u).1 <= n <= DropKeys(s, keys, t).1
    ensures t <= at <= u && DropKeys(s, keys, at).1 == n
  {
    at := t;
    while at < u && DropKeys(s, keys, at).1 != n
      invariant t <= at <= u && n <= DropKeys(s, keys, at).1
      decreases u - at
    {
      SmallStep(s, keys, t, u, at);
      at := at + 1;
    }
  }

  lemma DropTwo(s: State, a: Bytes, b: Bytes, clock: Clock, at: int)
    requires a in s.space && b in s.space && a != b
    ensures DropBy(s, [a, b], clock).1
         == (if Expired(s.space[a], clock(0)) then 0 else 1) + (if Expired(s.space[b], clock(1)) then 0 else 1)
    ensures DropKeys(s, [a, b], at).1
         == (if Expired(s.space[a], at) then 0 else 1) + (if Expired(s.space[b], at) then 0 else 1)
  {
    var one, none: seq<Bytes> := [a], [];
    assert [a, b][..1] == one && one[..0] == none;
    assert DropBy(s, none, clock) == (s, 0) && DropKeys(s, none, at) == (s, 0);
    assert DropBy(s, one, clock) == (Drop(s, a), if Expired(s.space[a], clock(0)) then 0 else 1);
    assert DropKeys(s, one, at) == (Drop(s, a), if Expired(s.space[a], at) then 0 else 1);
  }

  /** DEL acts as of one instant, whatever it is asked, exactly if no two keys run out at the same moment meanwhile. */
  lemma DelExact(s: State, t: int, u: int)
    requires t <= u
    ensures (forall keys: seq<Bytes>, clock: Clock | Steady(clock) && Within(clock, |keys|, t, u) ::
               RemovedAtOnce(s, keys, clock, t, u))
       <==> OneByOne(s.space, t, u)
  {
    if OneByOne(s.space, t, u) {
      forall keys: seq<Bytes>, clock: Clock | Steady(clock) && Within(clock, |keys|, t, u)
        ensures RemovedAtOnce(s, keys, clock, t, u)
      {
        DropBetween(s, keys, clock, t, u);
        var at := SomeInstant(s, keys, t, u, DropBy(s, keys, clock).1);
        DropBySameState(s, keys, clock, at);
      }
    } else {
      var a, b :| a in s.space && b in s.space && a != b && Passes(s.space[a], t, u) && Passes(s.space[b], t, u)
                  && s.space[a].deadline == s.space[b].deadline;
      var clock := Turn(0, t, u);
      TurnIsSteady(0, |[a, b]|, t, u);
      forall at | t <= at <= u ensures DropBy(s, [a, b], clock) != DropKeys(s, [a, b], at) {
        DropTwo(s, a, b, clock, at);
      }
      assert !RemovedAtOnce(s, [a, b], clock, t, u);
    }
  }
}
