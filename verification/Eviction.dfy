/** EvictIfOverBudget of src/store/store.cpp as a function of the table and of the samples drawn from it. */
module Eviction {
  import opened Bytes
  import opened MapSum
  import opened Keyspace
  import opened Stamps
  import L = Layout
  import B = Buckets

  // ---------------------------------------------------------------- the account

  lemma BytesWithout(space: Space, key: Bytes)
    ensures SpaceBytes(space) == SpaceBytes(space - {key}) + if key in space then EntryBytes(key, space[key]) else 0
  {
    if key in space {
      SumOut(space, EntryBytes, key);
    } else {
      assert space - {key} == space;
    }
  }

  lemma NothingHeld(space: Space)
    ensures |space| == 0 ==> SpaceBytes(space) == 0
  {
    if |space| == 0 { assert space == map[]; }
  }

  // ---------------------------------------------------------------- one pass

  /** The sample of a table that a round draws. */
  type Sampler = (State, nat) -> seq<(Bytes, Entry)>

  /** Samples of a table hold entries of it. */
  ghost predicate Honest(draw: Sampler) {
    forall s: State, r: nat {:trigger L.AreEntries(draw(s, r), s.space)} ::
      Consistent(s) ==> L.AreEntries(draw(s, r), s.space)
  }

  /** One eviction: the sample that was drawn and the key that went. */
  datatype Eviction = Eviction(sample: seq<(Bytes, Entry)>, victim: Bytes)

  /** The table and the account after a pass, what was evicted, and whether an empty sample ended it. */
  datatype Pass = Pass(state: State, used: int, log: seq<Eviction>, stalled: bool)

  function Cons(v: Eviction, p: Pass): Pass {
    p.(log := [v] + p.log)
  }

  /** From round `round` on, with `left` entries in the table. */
  ghost function EvictFrom(draw: Sampler, s: State, used: int, max: nat, round: nat, left: nat): Pass
    decreases left
  {
    if used <= max || left == 0 then Pass(s, used, [], false)
    else
      var sample := draw(s, round);
      if sample == [] then Pass(s, used, [], true)
      else
        var (key, e) := sample[Oldest(sample)];
        var rest := EvictFrom(draw, Drop(s, key), used - EntryBytes(key, e), max, round + 1, left - 1);
        Cons(Eviction(sample, key), rest)
  }

  /** A budget of zero is none. */
  ghost function Evict(draw: Sampler, s: State, used: int, max: nat): Pass {
    if max == 0 then Pass(s, used, [], false) else EvictFrom(draw, s, used, max, 0, |s.space|)
  }

  lemma DropSize(space: Space, key: Bytes)
    requires key in space
    ensures |space - {key}| == |space| - 1
  {
    assert (space - {key}).Keys == space.Keys - {key};
  }

  // ---------------------------------------------------------------- the account and the budget

  function Victims(log: seq<Eviction>): set<Bytes> {
    if log == [] then {} else {log[0].victim} + Victims(log[1..])
  }

  /** What is left of `s`: everything but the victims, and an account that is off by `surplus` as before. */
  ghost predicate Remains(p: Pass, s: State, surplus: int) {
    && Consistent(p.state) && p.state.clock == s.clock
    && p.state.space == s.space - Victims(p.log)
    && p.used == SpaceBytes(p.state.space) + surplus
    && |p.state.space| + |p.log| == |s.space|
  }

  /** One round, and the rest of the pass. */
  lemma EvictOnce(draw: Sampler, s: State, used: int, max: nat, round: nat, left: nat, key: Bytes, e: Entry)
    requires used > max && left > 0 && draw(s, round) != [] && draw(s, round)[Oldest(draw(s, round))] == (key, e)
    ensures EvictFrom(draw, s, used, max, round, left)
         == Cons(Eviction(draw(s, round), key),
                 EvictFrom(draw, Drop(s, key), used - EntryBytes(key, e), max, round + 1, left - 1))
  {
  }

  lemma RemainsCons(p: Pass, s: State, surplus: int, v: Eviction)
    requires Remains(p, Drop(s, v.victim), surplus) && v.victim in s.space
    ensures Remains(Cons(v, p), s, surplus)
  {
    DropSize(s.space, v.victim);
    assert ([v] + p.log)[1..] == p.log;
    assert s.space - {v.victim} - Victims(p.log) == s.space - ({v.victim} + Victims(p.log));
  }

  lemma DropAccounts(s: State, key: Bytes, surplus: int, used: int)
    requires Consistent(s) && key in s.space && used == SpaceBytes(s.space) + surplus
    ensures Consistent(Drop(s, key)) && |Drop(s, key).space| == |s.space| - 1
    ensures used - EntryBytes(key, s.space[key]) == SpaceBytes(Drop(s, key).space) + surplus
  {
    BytesWithout(s.space, key);
    DropSize(s.space, key);
  }

  lemma RemainsOnce(draw: Sampler, s: State, used: int, max: nat, round: nat, left: nat,
                    key: Bytes, e: Entry, surplus: int)
    requires used > max && left > 0 && draw(s, round) != [] && draw(s, round)[Oldest(draw(s, round))] == (key, e)
    requires key in s.space
    requires var q := EvictFrom(draw, Drop(s, key), used - EntryBytes(key, e), max, round + 1, left - 1);
      Remains(q, Drop(s, key), surplus)
    ensures Remains(EvictFrom(draw, s, used, max, round, left), s, surplus)
  {
    EvictOnce(draw, s, used, max, round, left, key, e);
    RemainsCons(EvictFrom(draw, Drop(s, key), used - EntryBytes(key, e), max, round + 1, left - 1), s, surplus,
                Eviction(draw(s, round), key));
  }

  lemma RemainsAll(s: State, used: int, surplus: int, stalled: bool)
    requires Consistent(s) && used == SpaceBytes(s.space) + surplus
    ensures Remains(Pass(s, used, [], stalled), s, surplus)
  {
    assert s.space - {} == s.space;
  }

  /** A pass takes out exactly its victims and their bytes; each of them was there. */
  lemma {:induction false} PassRemains(draw: Sampler, s: State, used: int, max: nat, round: nat, left: nat,
                                       surplus: int)
    requires Honest(draw) && Consistent(s) && used == SpaceBytes(s.space) + surplus && left == |s.space|
    ensures Remains(EvictFrom(draw, s, used, max, round, left), s, surplus)
    decreases left
  {
    var sample := draw(s, round);
    if used <= max || left == 0 || sample == [] {
      RemainsAll(s, used, surplus, used > max && left > 0);
    } else {
      var (key, e) := sample[Oldest(sample)];
      assert L.AreEntries(draw(s, round), s.space);
      DropAccounts(s, key, surplus, used);
      PassRemains(draw, Drop(s, key), used - EntryBytes(key, e), max, round + 1, left - 1, surplus);
      RemainsOnce(draw, s, used, max, round, left, key, e, surplus);
    }
  }

  /** The pass ends within the budget or with an empty table, or its last sample is empty: it stalls exactly then. */
  predicate EndsRight(p: Pass, draw: Sampler, max: nat, round: nat, left: nat) {
    && |p.log| <= left
    && (p.stalled <==> p.used > max && |p.log| < left && draw(p.state, round + |p.log|) == [])
    && (!p.stalled ==> p.used <= max || |p.log| == left)
  }

  lemma {:induction false} StallsExactly(draw: Sampler, s: State, used: int, max: nat, round: nat, left: nat)
    ensures EndsRight(EvictFrom(draw, s, used, max, round, left), draw, max, round, left)
    decreases left
  {
    var sample := draw(s, round);
    if used > max && left > 0 && sample != [] {
      var (key, e) := sample[Oldest(sample)];
      EvictOnce(draw, s, used, max, round, left, key, e);
      StallsExactly(draw, Drop(s, key), used - EntryBytes(key, e), max, round + 1, left - 1);
    }
  }

  /** The pass stalls exactly if its last sample is empty while the table is not and the budget is exceeded;
      otherwise it ends within the budget, or with nothing left but the surplus. */
  ghost predicate Settled(p: Pass, draw: Sampler, max: nat, surplus: int) {
    && (p.stalled <==> p.used > max && p.state.space != map[] && draw(p.state, |p.log|) == [])
    && (!p.stalled ==> p.used <= max || p.used <= surplus)
  }

  lemma EndsSettled(p: Pass, draw: Sampler, max: nat, left: nat, surplus: int)
    requires EndsRight(p, draw, max, 0, left) && |p.state.space| + |p.log| == left
    requires p.used == SpaceBytes(p.state.space) + surplus
    ensures Settled(p, draw, max, surplus)
  {
    NothingHeld(p.state.space);
    assert |p.state.space| == 0 <==> p.state.space == map[];
  }

  /** With a budget: the victims and their bytes are gone, and nothing else; then usage is within the budget, or
      within what is counted twice, unless a sample was empty. */
  lemma BudgetHolds(draw: Sampler, s: State, used: int, max: nat, surplus: int)
    requires Honest(draw) && Consistent(s) && max > 0 && used == SpaceBytes(s.space) + surplus
    ensures Remains(Evict(draw, s, used, max), s, surplus) && Settled(Evict(draw, s, used, max), draw, max, surplus)
  {
    PassRemains(draw, s, used, max, 0, |s.space|, surplus);
    StallsExactly(draw, s, used, max, 0, |s.space|);
    EndsSettled(Evict(draw, s, used, max), draw, max, |s.space|, surplus);
  }

  // ---------------------------------------------------------------- who is evicted

  /** Every other key of the sample was touched after the victim. */
  ghost predicate OnlyOldest(v: Eviction, space: Space) {
    && v.victim in space && L.AreEntries(v.sample, space)
    && forall i | 0 <= i < |v.sample| :: v.sample[i].0 == v.victim || v.sample[i].1.stamp > space[v.victim].stamp
  }

  ghost predicate IsLatest(key: Bytes, space: Space) {
    key in space && forall k | k in space :: space[k].stamp <= space[key].stamp
  }

  predicate AllSlots(sample: seq<(Bytes, Entry)>, key: Bytes) {
    forall i | 0 <= i < |sample| :: sample[i].0 == key
  }

  /** The key touched last of all goes only if the sample holds no other. */
  ghost predicate SparesLatest(v: Eviction, space: Space) {
    forall k | IsLatest(k, space) :: v.victim == k <==> AllSlots(v.sample, k)
  }

  ghost predicate Fair(log: seq<Eviction>, space: Space) {
    log == [] || (OnlyOldest(log[0], space) && SparesLatest(log[0], space) && Fair(log[1..], space - {log[0].victim}))
  }

  lemma RoundIsFair(sample: seq<(Bytes, Entry)>, s: State)
    requires sample != [] && Stamped(s) && L.AreEntries(sample, s.space)
    ensures var v := Eviction(sample, sample[Oldest(sample)].0);
      OnlyOldest(v, s.space) && SparesLatest(v, s.space)
  {
    var i := Oldest(sample);
    OldestIsLeast(sample);
    assert LeastRecent(sample, sample[i].0, s.space[sample[i].0].stamp);
    forall j | 0 <= j < |sample| ensures sample[j].0 == sample[i].0 || sample[j].1.stamp > s.space[sample[i].0].stamp {
      VictimIsUnique(sample, sample[i].0, s, j);
    }
    forall k | IsLatest(k, s.space) ensures sample[i].0 == k <==> AllSlots(sample, k) {
      MostRecentIsSpared(sample, sample[i].0, s, k);
    }
  }

  lemma FairCons(v: Eviction, log: seq<Eviction>, space: Space)
    requires OnlyOldest(v, space) && SparesLatest(v, space) && Fair(log, space - {v.victim})
    ensures Fair([v] + log, space)
  {
    assert ([v] + log)[1..] == log;
  }

  /** Each round of a pass evicts the one least recent key of the sample it drew. */
  lemma {:induction false} PassIsFair(draw: Sampler, s: State, used: int, max: nat, round: nat, left: nat)
    requires Honest(draw) && Consistent(s) && Stamped(s)
    ensures Fair(EvictFrom(draw, s, used, max, round, left).log, s.space)
    ensures Stamped(EvictFrom(draw, s, used, max, round, left).state)
    decreases left
  {
    var sample := draw(s, round);
    if used > max && left > 0 && sample != [] {
      var (key, e) := sample[Oldest(sample)];
      assert L.AreEntries(draw(s, round), s.space);
      RoundIsFair(sample, s);
      DropKeepsStamps(s, {key});
      EvictOnce(draw, s, used, max, round, left, key, e);
      PassIsFair(draw, Drop(s, key), used - EntryBytes(key, e), max, round + 1, left - 1);
      FairCons(Eviction(sample, key),
               EvictFrom(draw, Drop(s, key), used - EntryBytes(key, e), max, round + 1, left - 1).log,
               s.space);
    }
  }

  // ---------------------------------------------------------------- the store as a whole

  /** The table, the budget, the bytes counted twice, and whether the last eviction stalled. */
  datatype World = World(state: State, max: nat, surplus: nat, stalled: bool)

  /** The tail of every write that can grow the store. */
  ghost function Balance(draw: Sampler, w: World): World {
    var p := Evict(draw, w.state, SpaceBytes(w.state.space) + w.surplus, w.max);
    w.(state := p.state, stalled := p.stalled)
  }

  // ---------------------------------------------------------------- the sampler of the store

  const SAMPLE_SIZE: nat := 5

  /** What the random generator gives, round by round. */
  type Rounds = nat -> L.Draws

  /** The bucket heads that the draws of a round pick. */
  function HeadsOf(s: State, draws: L.Draws): seq<(Bytes, Entry)> {
    L.Sample(L.After(s.edits).bs, draws, SAMPLE_SIZE)
  }

  /** Each round draws bucket heads. */
  function Drawing(rounds: Rounds): Sampler {
    (s: State, r: nat) => HeadsOf(s, rounds(r))
  }

  /** A write that can grow the store: its section, then the eviction; nothing at all on the wrong type. */
  ghost function Land(w: World, f: Section, rounds: Rounds): World {
    if f.reply.WrongType? then w else Balance(Drawing(rounds), w.(state := f.state))
  }

  lemma HeadsAreEntries(s: State, draws: L.Draws)
    requires Consistent(s)
    ensures L.AreEntries(HeadsOf(s, draws), s.space)
  {
    L.AfterHolds(s.edits);
    L.HeadsAreEntries(L.After(s.edits).bs, s.space, draws, SAMPLE_SIZE, 0, []);
  }

  lemma DrawingIsHonest(rounds: Rounds)
    ensures Honest(Drawing(rounds))
  {
    forall s: State, r: nat | Consistent(s) ensures L.AreEntries(Drawing(rounds)(s, r), s.space) {
      HeadsAreEntries(s, rounds(r));
    }
  }

  /** All there is to say of a pass: the victims are gone and nothing else, the budget holds unless a sample was
      empty, and each victim was the one least recent key of its sample. */
  ghost predicate Explained(p: Pass, draw: Sampler, s: State, max: nat, surplus: int) {
    && Remains(p, s, surplus) && Settled(p, draw, max, surplus)
    && (Stamped(s) ==> Fair(p.log, s.space) && Stamped(p.state))
  }

  /** Whatever the generator draws, every pass over the table is explained. */
  lemma EveryPass(rounds: Rounds, s: State, used: int, max: nat, surplus: int)
    requires Consistent(s) && max > 0 && used == SpaceBytes(s.space) + surplus
    ensures Explained(Evict(Drawing(rounds), s, used, max), Drawing(rounds), s, max, surplus)
  {
    DrawingIsHonest(rounds);
    HonestPass(Drawing(rounds), s, used, max, surplus);
  }

  lemma HonestPass(draw: Sampler, s: State, used: int, max: nat, surplus: int)
    requires Honest(draw) && Consistent(s) && max > 0 && used == SpaceBytes(s.space) + surplus
    ensures Explained(Evict(draw, s, used, max), draw, s, max, surplus)
  {
    BudgetHolds(draw, s, used, max, surplus);
    if Stamped(s) { PassIsFair(draw, s, used, max, 0, |s.space|); }
  }

  // ---------------------------------------------------------------- which key, attempt by attempt

  const SAMPLE_ATTEMPTS: nat := 100

  /** The key at the head of the bucket that an attempt hits. */
  function HeadKey(bs: seq<B.Chain<Entry>>, draw: nat): Bytes
    requires L.Hits(bs, draw)
  {
    bs[draw % |bs|].key
  }

  /** Of the buckets hit first, at most five within a hundred attempts, `key` heads one, and no other head is less
      recent. */
  ghost predicate OldestOfFive(bs: seq<B.Chain<Entry>>, draws: L.Draws, space: Space, key: Bytes) {
    var hits := L.HitsUpTo(bs, draws, SAMPLE_ATTEMPTS);
    && key in space
    && (exists j :: 0 <= j < 5 && j < |hits| && L.Hits(bs, draws(hits[j])) && HeadKey(bs, draws(hits[j])) == key)
    && (forall j | 0 <= j < 5 && j < |hits| ::
          L.Hits(bs, draws(hits[j])) &&
          var k := HeadKey(bs, draws(hits[j])); k in space && space[key].stamp <= space[k].stamp)
  }

  lemma VictimOfFive(s: State, draws: L.Draws)
    requires Consistent(s) && HeadsOf(s, draws) != []
    ensures OldestOfFive(L.After(s.edits).bs, draws, s.space, HeadsOf(s, draws)[Oldest(HeadsOf(s, draws))].0)
  {
    var bs, sample := L.After(s.edits).bs, HeadsOf(s, draws);
    L.SampleIsFirst(bs, draws, SAMPLE_SIZE);
    HeadsAreEntries(s, draws);
    OldestIsLeast(sample);
    FromSample(sample, bs, draws, s.space, Oldest(sample));
  }

  lemma FromSample(sample: seq<(Bytes, Entry)>, bs: seq<B.Chain<Entry>>, draws: L.Draws, space: Space, i: nat)
    requires L.FirstHeads(sample, bs, draws, 5) && L.AreEntries(sample, space) && i < |sample|
    requires forall j | 0 <= j < |sample| :: sample[j].1.stamp >= sample[i].1.stamp
    ensures OldestOfFive(bs, draws, space, sample[i].0)
  {
    var hits := L.HitsUpTo(bs, draws, SAMPLE_ATTEMPTS);
    assert HeadKey(bs, draws(hits[i])) == sample[i].0;
    forall j | 0 <= j < 5 && j < |hits|
      ensures L.Hits(bs, draws(hits[j]))
      ensures var k := HeadKey(bs, draws(hits[j])); k in space && space[sample[i].0].stamp <= space[k].stamp
    {
      assert HeadKey(bs, draws(hits[j])) == sample[j].0;
    }
  }

  /** Which key may go from a table in a round. */
  type Choice = (State, nat, Bytes) -> bool

  /** What the sampler picks may go. */
  ghost predicate Follows(draw: Sampler, may: Choice, s: State, r: nat) {
    Consistent(s) && draw(s, r) != [] ==> may(s, r, draw(s, r)[Oldest(draw(s, r))].0)
  }

  /** Each victim went while the budget was exceeded, and might go in its own round. */
  ghost predicate Chosen(log: seq<Eviction>, s: State, may: Choice, round: nat, max: nat, surplus: int)
    decreases |log|
  {
    log == [] ||
    (&& SpaceBytes(s.space) + surplus > max && may(s, round, log[0].victim)
     && Chosen(log[1..], Drop(s, log[0].victim), may, round + 1, max, surplus))
  }

  lemma ChosenCons(v: Eviction, log: seq<Eviction>, s: State, may: Choice, round: nat, max: nat, surplus: int)
    requires SpaceBytes(s.space) + surplus > max && may(s, round, v.victim)
    requires Chosen(log, Drop(s, v.victim), may, round + 1, max, surplus)
    ensures Chosen([v] + log, s, may, round, max, surplus)
  {
    assert ([v] + log)[1..] == log;
  }

  lemma ChosenOnce(draw: Sampler, may: Choice, s: State, used: int, max: nat, round: nat, left: nat,
                   key: Bytes, e: Entry, surplus: int)
    requires used > max && left > 0 && draw(s, round) != [] && draw(s, round)[Oldest(draw(s, round))] == (key, e)
    requires used == SpaceBytes(s.space) + surplus && may(s, round, key)
    requires var q := EvictFrom(draw, Drop(s, key), used - EntryBytes(key, e), max, round + 1, left - 1);
      Chosen(q.log, Drop(s, key), may, round + 1, max, surplus)
    ensures Chosen(EvictFrom(draw, s, used, max, round, left).log, s, may, round, max, surplus)
  {
    EvictOnce(draw, s, used, max, round, left, key, e);
    ChosenCons(Eviction(draw(s, round), key),
               EvictFrom(draw, Drop(s, key), used - EntryBytes(key, e), max, round + 1, left - 1).log,
               s, may, round, max, surplus);
  }

  lemma {:induction false} PassChooses(draw: Sampler, may: Choice, s: State, used: int, max: nat, round: nat, left: nat,
                                       surplus: int)
    requires Honest(draw) && forall t: State, r: nat :: Follows(draw, may, t, r)
    requires Consistent(s) && used == SpaceBytes(s.space) + surplus
    ensures Chosen(EvictFrom(draw, s, used, max, round, left).log, s, may, round, max, surplus)
    decreases left
  {
    var sample := draw(s, round);
    if used > max && left > 0 && sample != [] {
      var (key, e) := sample[Oldest(sample)];
      assert Follows(draw, may, s, round);
      assert L.AreEntries(draw(s, round), s.space);
      SumOut(s.space, EntryBytes, key);
      PassChooses(draw, may, Drop(s, key), used - EntryBytes(key, e), max, round + 1, left - 1, surplus);
      ChosenOnce(draw, may, s, used, max, round, left, key, e, surplus);
    }
  }

  /** The oldest of the first five heads that the draws of the round hit. */
  ghost function OldestHeads(rounds: Rounds): Choice {
    (s: State, r: nat, key: Bytes) => OldestOfFive(L.After(s.edits).bs, rounds(r), s.space, key)
  }

  lemma DrawingFollows(rounds: Rounds)
    ensures forall s: State, r: nat :: Follows(Drawing(rounds), OldestHeads(rounds), s, r)
  {
    forall s: State, r: nat ensures Follows(Drawing(rounds), OldestHeads(rounds), s, r) {
      if Consistent(s) && Drawing(rounds)(s, r) != [] { VictimOfFive(s, rounds(r)); }
    }
  }

  /** Whatever the generator draws, every victim of every pass went while the budget was exceeded, and was the oldest of
      the first five heads that the draws of its own round hit. */
  lemma EveryPassChooses(rounds: Rounds, s: State, used: int, max: nat, surplus: int, p: Pass)
    requires Consistent(s) && used == SpaceBytes(s.space) + surplus && p == Evict(Drawing(rounds), s, used, max)
    ensures Chosen(p.log, s, OldestHeads(rounds), 0, max, surplus)
  {
    DrawingIsHonest(rounds);
    DrawingFollows(rounds);
    if max > 0 { PassChooses(Drawing(rounds), OldestHeads(rounds), s, used, max, 0, |s.space|, surplus); }
  }

  /** A sample is empty exactly if all its hundred draws hit empty buckets. */
  lemma EmptyDrawing(rounds: Rounds, s: State, r: nat)
    ensures Drawing(rounds)(s, r) == [] <==> AllMiss(s, rounds(r))
  {
    L.EmptySample(L.After(s.edits).bs, rounds(r), SAMPLE_SIZE);
  }

  ghost predicate AllMiss(s: State, draws: L.Draws) {
    forall a: nat | a < 100 :: L.Drawn(L.After(s.edits).bs, draws(a)).Nil?
  }

  lemma BalanceStalls(draw: Sampler, w: World, used: int, p: Pass)
    requires Honest(draw) && Consistent(w.state) && w.max > 0
    requires used == SpaceBytes(w.state.space) + w.surplus && p == Evict(draw, w.state, used, w.max)
    ensures Balance(draw, w).stalled <==> p.used > w.max && p.state.space != map[] && draw(p.state, |p.log|) == []
  {
    PassSettles(draw, w.state, used, w.max, w.surplus, p);
    BalanceIsPass(draw, w, used, p);
  }

  lemma PassSettles(draw: Sampler, s: State, used: int, max: nat, surplus: int, p: Pass)
    requires Honest(draw) && Consistent(s) && max > 0 && used == SpaceBytes(s.space) + surplus
    requires p == Evict(draw, s, used, max)
    ensures Settled(p, draw, max, surplus)
  {
    BudgetHolds(draw, s, used, max, surplus);
  }

  lemma BalanceIsPass(draw: Sampler, w: World, used: int, p: Pass)
    requires used == SpaceBytes(w.state.space) + w.surplus && p == Evict(draw, w.state, used, w.max)
    ensures Balance(draw, w).stalled == p.stalled && Balance(draw, w).state == p.state
  {
  }

  /** The pass ends with entries left, the budget exceeded and a round whose every draw hits an empty bucket. */
  ghost predicate EndsInMiss(p: Pass, max: nat, rounds: Rounds) {
    p.used > max && p.state.space != map[] && AllMiss(p.state, rounds(|p.log|))
  }

  /** A write leaves the store stalled exactly if its pass ends so. */
  lemma StallsOnMiss(w: World, rounds: Rounds, used: int, p: Pass)
    requires Consistent(w.state) && w.max > 0
    requires used == SpaceBytes(w.state.space) + w.surplus && p == Evict(Drawing(rounds), w.state, used, w.max)
    ensures Balance(Drawing(rounds), w).stalled <==> EndsInMiss(p, w.max, rounds)
  {
    DrawingIsHonest(rounds);
    BalanceStalls(Drawing(rounds), w, used, p);
    EmptyDrawing(rounds, p.state, |p.log|);
  }
}
