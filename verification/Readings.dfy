/** Sections that read the clock more than once.  IsExpired of src/store/store.cpp takes a reading of its own for every
    key, and EXPIRE and TTL take another one; here is when all of them amount to one instant, and when not. */
module Readings {
  import opened Bytes
  import opened Machine
  import opened Keyspace
  import L = Layout

  /** The readings of one section, in order; the steady clock never runs backwards. */
  type Clock = nat -> int

  ghost predicate Steady(clock: Clock) {
    forall i: nat, j: nat | i <= j :: clock(i) <= clock(j)
  }

  function Fixed(now: int): Clock {
    _ => now
  }

  // ---------------------------------------------------------------- sections, reading by reading

  function CountBy(space: Space, keys: seq<Bytes>, clock: Clock): (nat, seq<Bytes>) {
    if keys == [] then (0, [])
    else
      var i := |keys| - 1;
      var (n, stale) := CountBy(space, keys[..i], clock);
      if keys[i] !in space then (n, stale)
      else if Expired(space[keys[i]], clock(i)) then (n, stale + [keys[i]])
      else (n + 1, stale)
  }

  function DropBy(s: State, keys: seq<Bytes>, clock: Clock): (State, nat) {
    if keys == [] then (s, 0)
    else
      var i := |keys| - 1;
      var (t, n) := DropBy(s, keys[..i], clock);
      if keys[i] !in t.space then (t, n)
      else (Drop(t, keys[i]), if Expired(t.space[keys[i]], clock(i)) then n else n + 1)
  }

  function AmongBy(listing: seq<(Bytes, Entry)>, space: Space, clock: Clock, expired: bool): seq<Bytes> {
    if listing == [] then []
    else
      var i := |listing| - 1;
      var rest, k := AmongBy(listing[..i], space, clock, expired), listing[i].0;
      if k in space && Expired(space[k], clock(i)) == expired then rest + [k] else rest
  }

  /** The second phase of a sweep, with a reading for every key. */
  function SweepBy(s: State, keys: seq<Bytes>, clock: Clock): State {
    if keys == [] then s
    else
      var i := |keys| - 1;
      DropIfExpired(SweepBy(s, keys[..i], clock), keys[i], clock(i))
  }

  /** EXPIRE checks at one reading and counts from the next. */
  function ExpireBy(s: State, key: Bytes, seconds: int, clock: Clock): Section {
    if key !in s.space then Section(s, Number(0), [])
    else if Expired(s.space[key], clock(0)) then Section(Drop(s, key), Number(0), [])
    else if seconds <= 0 then Section(Drop(s, key), Number(1), [])
    else
      var e := s.space[key].(deadline := Some(clock(1) + seconds * SECOND));
      Section(s.(space := s.space[key := e], edits := L.Save(s.edits, key, e)), Number(1), [])
  }

  /** The first section of a call, with a reading wherever the source takes one. */
  ghost function SectionBy(call: Call, s: State, clock: Clock): Section {
    match call
    case Ttl(key) => TtlSection(s, key, clock(0), clock(1))
    case Exists(keys) =>
      var (n, stale) := CountBy(s.space, keys, clock);
      Section(s, Number(n), stale)
    case Keys =>
      Section(s, KeySet(set k | k in AmongBy(Physical(s), s.space, clock, false)),
              AmongBy(Physical(s), s.space, clock, true))
    case Del(keys) =>
      var (t, n) := DropBy(s, keys, clock);
      Section(t, Number(n), [])
    case Expire(key, seconds) => ExpireBy(s, key, seconds, clock)
    case _ => FirstSection(call, s, clock(0))
  }

  function LastOf(n: nat): nat {
    if n == 0 then 0 else n - 1
  }

  /** The number of the section's last reading. */
  function LastReading(call: Call, s: State): nat {
    match call
    case Ttl(_) => 1
    case Expire(_, _) => 1
    case Exists(keys) => LastOf(|keys|)
    case Del(keys) => LastOf(|keys|)
    case Keys => LastOf(|Physical(s)|)
    case _ => 0
  }

  // ---------------------------------------------------------------- quiet sections

  /** The deadline passes after `t` and not after `u`. */
  predicate Passes(e: Entry, t: int, u: int) {
    e.deadline.Some? && t < e.deadline.value <= u
  }

  predicate Concerns(call: Call, key: Bytes) {
    match call
    case Ttl(k) => key == k
    case Expire(k, _) => key == k
    case Exists(keys) => key in keys
    case Del(keys) => key in keys
    case Keys => true
    case _ => false
  }

  /** No key that the section looks at runs out between its first and its last reading. */
  ghost predicate Quiet(call: Call, s: State, clock: Clock) {
    forall k | k in s.space && Concerns(call, k) :: !Passes(s.space[k], clock(0), clock(LastReading(call, s)))
  }

  lemma SameFate(e: Entry, t: int, now: int, u: int)
    requires t <= now <= u && !Passes(e, t, u)
    ensures Expired(e, now) == Expired(e, u)
  {
  }

  ghost predicate AllQuiet(space: Space, keys: seq<Bytes>, t: int, u: int) {
    forall i | 0 <= i < |keys| && keys[i] in space :: !Passes(space[keys[i]], t, u)
  }

  ghost predicate Within(clock: Clock, n: nat, t: int, u: int) {
    forall i | 0 <= i < n :: t <= clock(i) <= u
  }

  lemma {:induction false} QuietCount(space: Space, keys: seq<Bytes>, clock: Clock, t: int, u: int)
    requires Within(clock, |keys|, t, u) && AllQuiet(space, keys, t, u)
    ensures CountBy(space, keys, clock) == CountLive(space, keys, u)
  {
    if keys != [] {
      var i := |keys| - 1;
      QuietCount(space, keys[..i], clock, t, u);
      if keys[i] in space { SameFate(space[keys[i]], t, clock(i), u); }
    }
  }

  lemma {:induction false} DropByKeeps(s: State, keys: seq<Bytes>, clock: Clock, k: Bytes)
    ensures k in DropBy(s, keys, clock).0.space ==> k in s.space && DropBy(s, keys, clock).0.space[k] == s.space[k]
  {
    if keys != [] { DropByKeeps(s, keys[..|keys| - 1], clock, k); }
  }

  lemma {:induction false} QuietDrop(s: State, keys: seq<Bytes>, clock: Clock, t: int, u: int)
    requires Within(clock, |keys|, t, u) && AllQuiet(s.space, keys, t, u)
    ensures DropBy(s, keys, clock) == DropKeys(s, keys, u)
  {
    if keys != [] {
      var i := |keys| - 1;
      QuietDrop(s, keys[..i], clock, t, u);
      DropByKeeps(s, keys[..i], clock, keys[i]);
      if keys[i] in s.space { SameFate(s.space[keys[i]], t, clock(i), u); }
    }
  }

  lemma {:induction false} QuietAmong(listing: seq<(Bytes, Entry)>, space: Space, clock: Clock, expired: bool,
                                      t: int, u: int)
    requires Within(clock, |listing|, t, u) && forall k | k in space :: !Passes(space[k], t, u)
    ensures AmongBy(listing, space, clock, expired) == Among(listing, space, u, expired)
  {
    if listing != [] {
      var i := |listing| - 1;
      QuietAmong(listing[..i], space, clock, expired, t, u);
      if listing[i].0 in space { SameFate(space[listing[i].0], t, clock(i), u); }
    }
  }

  lemma SteadyWithin(clock: Clock, n: nat)
    requires Steady(clock)
    ensures Within(clock, n, clock(0), clock(LastOf(n)))
  {
  }

  lemma QuietKeys(s: State, clock: Clock)
    requires Consistent(s) && Steady(clock) && Quiet(Keys, s, clock)
    ensures SectionBy(Keys, s, clock) == FirstSection(Keys, s, clock(LastReading(Keys, s)))
  {
    var listing, t, u := Physical(s), clock(0), clock(LastReading(Keys, s));
    SteadyWithin(clock, |listing|);
    QuietAmong(listing, s.space, clock, false, t, u);
    QuietAmong(listing, s.space, clock, true, t, u);
    WalkFindsAll(s, u);
    assert (set k | k in LiveKeys(s, u)) == (set k | k in s.space && !Expired(s.space[k], u));
  }

  /** A quiet section, however often it reads the clock, is the section of one instant: that of its last reading. */
  lemma QuietSection(call: Call, s: State, clock: Clock)
    requires Consistent(s) && Steady(clock) && Quiet(call, s, clock)
    ensures SectionBy(call, s, clock) == FirstSection(call, s, clock(LastReading(call, s)))
  {
    var t, u := clock(0), clock(LastReading(call, s));
    match call
    case Exists(keys) =>
      SteadyWithin(clock, |keys|);
      QuietCount(s.space, keys, clock, t, u);
    case Del(keys) =>
      SteadyWithin(clock, |keys|);
      QuietDrop(s, keys, clock, t, u);
    case Keys => QuietKeys(s, clock);
    case Ttl(key) => if key in s.space { SameFate(s.space[key], t, t, u); }
    case Expire(key, _) => if key in s.space { SameFate(s.space[key], t, t, u); }
    case _ =>
  }

  // ---------------------------------------------------------------- whatever the readings

  lemma {:induction false} DropBySameState(s: State, keys: seq<Bytes>, clock: Clock, at: int)
    ensures DropBy(s, keys, clock).0 == DropKeys(s, keys, at).0
  {
    if keys != [] { DropBySameState(s, keys[..|keys| - 1], clock, at); }
  }

  lemma {:induction false} AmongByMember(listing: seq<(Bytes, Entry)>, space: Space, clock: Clock, expired: bool,
                                         k: Bytes)
    requires k in AmongBy(listing, space, clock, expired)
    ensures k in L.KeySet(listing)
  {
    var i := |listing| - 1;
    if k != listing[i].0 { AmongByMember(listing[..i], space, clock, expired, k); }
  }

  predicate OneEach(listing: seq<(Bytes, Entry)>) {
    forall i, j | 0 <= i < j < |listing| :: listing[i].0 != listing[j].0
  }

  lemma {:induction false} PlaceOf(listing: seq<(Bytes, Entry)>, k: Bytes) returns (i: nat)
    requires k in L.KeySet(listing)
    ensures i < |listing| && listing[i].0 == k
  {
    i := |listing| - 1;
    if listing[i].0 != k { i := PlaceOf(listing[..i], k); }
  }

  /** A key is sorted by the reading at its own place. */
  lemma {:induction false} AmongByAt(listing: seq<(Bytes, Entry)>, space: Space, clock: Clock, expired: bool, i: nat)
    requires OneEach(listing) && i < |listing| && listing[i].0 in space
    ensures listing[i].0 in AmongBy(listing, space, clock, expired)
       <==> Expired(space[listing[i].0], clock(i)) == expired
  {
    var last := |listing| - 1;
    var front := listing[..last];
    if i < last {
      AmongByAt(front, space, clock, expired, i);
      assert front[i] == listing[i] && listing[i].0 != listing[last].0;
    } else if listing[i].0 in AmongBy(front, space, clock, expired) {
      AmongByMember(front, space, clock, expired, listing[i].0);
      var j := PlaceOf(front, listing[i].0);
    }
  }

  lemma WalkOf(s: State) returns (walk: seq<(Bytes, Entry)>)
    requires Consistent(s)
    ensures walk == Physical(s) && OneEach(walk) && L.AreEntries(walk, s.space) && L.KeySet(walk) == s.space.Keys
  {
    walk := Physical(s);
    L.AfterHolds(s.edits);
    L.ListingIsAll(L.After(s.edits).bs, s.space);
  }

  lemma {:induction false} AmongByDistinct(listing: seq<(Bytes, Entry)>, space: Space, clock: Clock, expired: bool)
    requires forall i, j | 0 <= i < j < |listing| :: listing[i].0 != listing[j].0
    ensures Distinct(AmongBy(listing, space, clock, expired))
  {
    if listing != [] {
      var front, k := listing[..|listing| - 1], listing[|listing| - 1].0;
      AmongByDistinct(front, space, clock, expired);
      NotAmong(front, k);
      if k in AmongBy(front, space, clock, expired) { AmongByMember(front, space, clock, expired, k); }
    }
  }

  /** KEYS lists no key twice. */
  lemma WalkIsDistinct(s: State, clock: Clock)
    requires Consistent(s)
    ensures Distinct(AmongBy(Physical(s), s.space, clock, false))
  {
    L.AfterHolds(s.edits);
    L.ListingIsAll(L.After(s.edits).bs, s.space);
    AmongByDistinct(Physical(s), s.space, clock, false);
  }

  lemma SectionByConsistent(call: Call, s: State, clock: Clock)
    requires Consistent(s)
    ensures Consistent(SectionBy(call, s, clock).state)
  {
    match call
    case Del(keys) =>
      DropBySameState(s, keys, clock, clock(0));
      DropKeysConsistent(s, keys, clock(0));
    case _ => SectionConsistent(call, s, clock(0));
  }

  // ---------------------------------------------------------------- the sweeper

  /** What the first phase finds. */
  function FoundBy(s: State, clock: Clock): seq<Bytes> {
    AmongBy(Physical(s), s.space, clock, true)
  }

  lemma {:induction false} SweepConsistent(s: State, keys: seq<Bytes>, clock: Clock)
    requires Consistent(s)
    ensures Consistent(SweepBy(s, keys, clock))
  {
    if keys != [] { SweepConsistent(s, keys[..|keys| - 1], clock); }
  }

  lemma {:induction false} DropAllSnoc(s: State, keys: seq<Bytes>, now: int)
    requires keys != []
    ensures DropAllExpired(s, keys, now)
         == DropIfExpired(DropAllExpired(s, keys[..|keys| - 1], now), keys[|keys| - 1], now)
    decreases |keys|
  {
    if |keys| > 1 {
      var rest, front := keys[1..], keys[..|keys| - 1];
      DropAllSnoc(DropIfExpired(s, keys[0], now), rest, now);
      assert rest[..|rest| - 1] == front[1..] && front[0] == keys[0];
    }
  }

  lemma {:induction false} FixedSweep(s: State, keys: seq<Bytes>, now: int)
    ensures SweepBy(s, keys, Fixed(now)) == DropAllExpired(s, keys, now)
  {
    if keys != [] {
      FixedSweep(s, keys[..|keys| - 1], now);
      DropAllSnoc(s, keys, now);
    }
  }

  /** The entry's deadline is at or before `t`. */
  predicate Due(e: Entry, t: int) {
    e.deadline.Some? && e.deadline.value <= t
  }

  /** The sweep takes out `k` at some mention of it. */
  ghost predicate Taken(e: Entry, k: Bytes, keys: seq<Bytes>, clock: Clock) {
    exists i: nat :: i < |keys| && keys[i] == k && Due(e, clock(i))
  }

  /** What the second phase leaves: exactly the entries that are not due at any mention of their key, unchanged. */
  lemma {:induction false} SweepExact(s: State, keys: seq<Bytes>, clock: Clock, k: Bytes)
    ensures k in SweepBy(s, keys, clock).space <==> k in s.space && !Taken(s.space[k], k, keys, clock)
    ensures k in SweepBy(s, keys, clock).space ==> SweepBy(s, keys, clock).space[k] == s.space[k]
  {
    if keys != [] {
      var i := |keys| - 1;
      SweepExact(s, keys[..i], clock, k);
      if k in s.space { TakenMore(s.space[k], k, keys, clock); }
    }
  }

  lemma TakenMore(e: Entry, k: Bytes, keys: seq<Bytes>, clock: Clock)
    requires keys != []
    ensures var i := |keys| - 1;
      Taken(e, k, keys, clock) <==> Taken(e, k, keys[..i], clock) || (keys[i] == k && Due(e, clock(i)))
  {
    var i := |keys| - 1;
    if Taken(e, k, keys, clock) {
      var j: nat :| j < |keys| && keys[j] == k && Due(e, clock(j));
      assert j < i ==> keys[..i][j] == k;
    }
    if Taken(e, k, keys[..i], clock) {
      var j: nat :| j < |keys[..i]| && keys[..i][j] == k && Due(e, clock(j));
      assert keys[j] == k;
    }
  }

  /** After a sweep nothing is left that was due before its first reading, and what was not due at its last is
      unchanged. */
  lemma SweepLeaves(s: State, clock: Clock, later: Clock, k: Bytes, now: int)
    requires Consistent(s) && k in s.space
    ensures var after := SweepBy(s, FoundBy(s, clock), later).space;
      && (k in after ==> after[k] == s.space[k])
      && (Due(s.space[k], now) && Precedes(now, clock, later) ==> k !in after)
      && (k !in after ==> exists i: nat :: Due(s.space[k], later(i)))
  {
    var walk := WalkOf(s);
    var found := FoundBy(s, clock);
    var i := PlaceOf(walk, k);
    AmongByAt(walk, s.space, clock, true, i);
    SweepExact(s, found, later, k);
    if Due(s.space[k], now) && Precedes(now, clock, later) {
      assert now <= clock(i);
      var j: nat :| j < |found| && found[j] == k;
      assert now <= later(j);
      assert Taken(s.space[k], k, found, later);
    }
  }

  /** Nothing is left that was due before the first reading; what was not due at any of the later ones is unchanged. */
  ghost predicate Swept(before: Space, after: Space, clock: Clock, later: Clock) {
    && (forall k | k in after :: k in before && after[k] == before[k])
    && (forall k | k in before && k !in after :: exists i: nat :: Due(before[k], later(i)))
    && (forall k, now | k in before && Due(before[k], now) && Precedes(now, clock, later) :: k !in after)
  }

  ghost predicate Precedes(now: int, clock: Clock, later: Clock) {
    forall i: nat :: now <= clock(i) && now <= later(i)
  }

  lemma IsSwept(s: State, clock: Clock, later: Clock)
    requires Consistent(s)
    ensures Swept(s.space, SweepBy(s, FoundBy(s, clock), later).space, clock, later)
  {
    var after := SweepBy(s, FoundBy(s, clock), later).space;
    forall k | k in after ensures k in s.space { SweepExact(s, FoundBy(s, clock), later, k); }
    forall k | k in s.space
      ensures k in after ==> after[k] == s.space[k]
      ensures k !in after ==> exists i: nat :: Due(s.space[k], later(i))
    {
      SweepLeaves(s, clock, later, k, 0);
    }
    forall k, now | k in s.space && Due(s.space[k], now) && Precedes(now, clock, later) ensures k !in after {
      SweepLeaves(s, clock, later, k, now);
    }
  }

  /** At one instant, a sweep leaves exactly the entries that are not due. */
  lemma SweepAtOnce(s: State, now: int)
    requires Consistent(s)
    ensures SweepBy(s, FoundBy(s, Fixed(now)), Fixed(now)).space
         == map k | k in s.space && !(s.space[k].deadline.Some? && s.space[k].deadline.value <= now) :: s.space[k]
  {
    var after := SweepBy(s, FoundBy(s, Fixed(now)), Fixed(now)).space;
    forall k ensures k in after ==> k in s.space { SweepExact(s, FoundBy(s, Fixed(now)), Fixed(now), k); }
    forall k | k in s.space ensures (k in after <==> !Due(s.space[k], now)) && (k in after ==> after[k] == s.space[k]) {
      SweepLeaves(s, Fixed(now), Fixed(now), k, now);
    }
  }
}
