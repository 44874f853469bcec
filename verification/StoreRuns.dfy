/** Whole runs of a Store: calls, budget changes, sweeps and loads in any order, with any clock readings and draws. */
module StoreRuns {
  import opened Bytes
  import opened Keyspace
  import opened Readings
  import opened Dispatcher
  import opened Persistence
  import opened Stamps
  import opened Eviction
  import L = Layout
  import S = Store
  import R = Rdb
  import Calls

  datatype Op =
    | Invoke(call: Call, clock: Clock, later: Clock, rounds: Rounds)
    | SetBudget(bytes: nat, rounds: Rounds)
    | Sweep(clock: Clock, later: Clock)
    | Load(entries: seq<R.SnapshotEntry>, clocks: Clocks, rounds: Rounds)

  ghost function Next(w: World, op: Op): World {
    match op
    case Invoke(call, clock, later, rounds) => Calls.InvokeBy(w, call, clock, later, rounds).0
    case SetBudget(bytes, rounds) => Balance(Drawing(rounds), w.(max := bytes))
    case Sweep(clock, later) => w.(state := SweepBy(w.state, FoundBy(w.state, clock), later))
    case Load(entries, clocks, rounds) => S.Loaded(w, entries, clocks, rounds)
  }

  const START := World(State(map[], 0, L.NoEdit), 0, 0, false)

  type Stepping = (World, Op) -> World

  ghost function RunBy(step: Stepping, ops: seq<Op>, i: nat): World
    requires i <= |ops|
  {
    if i == 0 then START else step(RunBy(step, ops, i - 1), ops[i - 1])
  }

  /** After the first `i` operations: a function of them, of the clock and of the draws. */
  ghost function At(ops: seq<Op>, i: nat): World
    requires i <= |ops|
  {
    RunBy(Next, ops, i)
  }

  /** Operation `i` carries a property of the runs on. */
  ghost predicate Carries(step: Stepping, keep: World -> bool, ops: seq<Op>, i: nat)
    requires i < |ops|
  {
    keep(RunBy(step, ops, i)) ==> keep(step(RunBy(step, ops, i), ops[i]))
  }

  lemma {:induction false} RunKeeps(step: Stepping, keep: World -> bool, ops: seq<Op>, i: nat)
    requires i <= |ops| && keep(START) && forall j | 0 <= j < |ops| :: Carries(step, keep, ops, j)
    ensures keep(RunBy(step, ops, i))
  {
    if i > 0 {
      RunKeeps(step, keep, ops, i - 1);
      assert Carries(step, keep, ops, i - 1);
    }
  }

  // ---------------------------------------------------------------- what every operation keeps

  /** The table is the one its edits lead to, and its stamps are distinct and below the clock. */
  ghost predicate Good(s: State) {
    Consistent(s) && Stamped(s)
  }

  lemma SectionGood(call: Call, s: State, clock: Clock)
    requires Good(s)
    ensures Good(SectionBy(call, s, clock).state)
  {
    SectionByConsistent(call, s, clock);
    SectionByKeepsStamps(call, s, clock);
  }

  lemma SweepGood(s: State, keys: seq<Bytes>, clock: Clock)
    requires Good(s)
    ensures Good(SweepBy(s, keys, clock))
  {
    SweepConsistent(s, keys, clock);
    SweepKeepsStamps(s, keys, clock);
  }

  lemma HonestBalanceGood(draw: Sampler, w: World)
    requires Honest(draw) && Good(w.state)
    ensures Good(Balance(draw, w).state)
  {
    if w.max > 0 { HonestPass(draw, w.state, SpaceBytes(w.state.space) + w.surplus, w.max, w.surplus); }
  }

  lemma BalanceGood(w: World, rounds: Rounds)
    requires Good(w.state)
    ensures Good(Balance(Drawing(rounds), w).state)
  {
    DrawingIsHonest(rounds);
    HonestBalanceGood(Drawing(rounds), w);
  }

  lemma {:induction false} LoadGood(start: State, es: seq<R.SnapshotEntry>, at: Clocks)
    requires Good(start)
    ensures Good(RestoreAll(start, es, at))
  {
    if es != [] {
      var n := |es| - 1;
      LoadGood(start, es[..n], at);
      if !R.AlreadyExpired(es[n], at.wall) {
        PutKeepsStamps(RestoreAll(start, es[..n], at), es[n].key, ValueOf(es[n].content),
                       SteadyDeadline(es[n].expiresWall, at));
      }
    }
  }

  lemma InvokeGood(w: World, call: Call, clock: Clock, later: Clock, rounds: Rounds)
    requires Good(w.state)
    ensures Good(Calls.InvokeBy(w, call, clock, later, rounds).0.state)
  {
    var f := SectionBy(call, w.state, clock);
    SectionGood(call, w.state, clock);
    if Calls.Grows(call) {
      BalanceGood(w.(state := f.state), rounds);
    } else {
      SweepGood(f.state, f.stale, later);
    }
  }

  lemma NextGood(w: World, op: Op)
    requires Good(w.state)
    ensures Good(Next(w, op).state)
  {
    match op
    case Invoke(call, clock, later, rounds) => InvokeGood(w, call, clock, later, rounds);
    case SetBudget(bytes, rounds) => BalanceGood(w.(max := bytes), rounds);
    case Sweep(clock, later) => SweepGood(w.state, FoundBy(w.state, clock), later);
    case Load(entries, clocks, rounds) => LoadedGood(w, entries, clocks, rounds);
  }

  lemma LoadedGood(w: World, es: seq<R.SnapshotEntry>, at: Clocks, rounds: Rounds)
    requires Good(w.state)
    ensures Good(S.Loaded(w, es, at, rounds).state)
  {
    LoadGood(Clear(w.state), es, at);
    BalanceGood(S.Replaced(w, es, at), rounds);
  }

  /** In every state of every run, stamps are distinct and below the clock. */
  lemma RunGood(ops: seq<Op>, i: nat)
    requires i <= |ops|
    ensures Good(At(ops, i).state)
  {
    var keep := (w: World) => Good(w.state);
    forall j | 0 <= j < |ops| ensures Carries(Next, keep, ops, j) {
      if keep(At(ops, j)) { NextGood(At(ops, j), ops[j]); }
    }
    RunKeeps(Next, keep, ops, i);
  }

  // ---------------------------------------------------------------- the evictions of a run

  /** Where the eviction of an operation starts, if it has one. */
  ghost function Brink(w: World, op: Op): Option<World> {
    match op
    case Invoke(call, clock, _, _) =>
      var f := SectionBy(call, w.state, clock);
      if Calls.Grows(call) && !f.reply.WrongType? then Some(w.(state := f.state)) else None
    case SetBudget(bytes, _) => Some(w.(max := bytes))
    case Sweep(_, _) => None
    case Load(entries, clocks, _) => Some(S.Replaced(w, entries, clocks))
  }

  lemma NextIsBalance(w: World, op: Op)
    ensures Brink(w, op).Some? ==> !op.Sweep? && Next(w, op) == Balance(Drawing(op.rounds), Brink(w, op).value)
    ensures Brink(w, op).None? ==> Next(w, op).stalled == w.stalled
  {
  }

  lemma BrinkGood(w: World, op: Op)
    requires Good(w.state) && Brink(w, op).Some?
    ensures Good(Brink(w, op).value.state)
  {
    match op
    case Invoke(call, clock, _, _) => SectionGood(call, w.state, clock);
    case SetBudget(_, _) =>
    case Load(entries, clocks, _) => LoadGood(Clear(w.state), entries, clocks);
  }

  /** Operation `i` of the run ends in an eviction. */
  ghost predicate Evicts(ops: seq<Op>, i: nat)
    requires i < |ops|
  {
    !ops[i].Sweep? && Brink(At(ops, i), ops[i]).Some? && Brink(At(ops, i), ops[i]).value.max > 0
  }

  ghost function BrinkAt(ops: seq<Op>, i: nat): World
    requires i < |ops| && Evicts(ops, i)
  {
    Brink(At(ops, i), ops[i]).value
  }

  /** Operation `i` ends in the pass `p`, which starts at `w` with `used` bytes. */
  ghost predicate PassesAt(ops: seq<Op>, i: nat, w: World, used: int, p: Pass)
    requires i < |ops|
  {
    && Evicts(ops, i) && w == BrinkAt(ops, i)
    && used == SpaceBytes(w.state.space) + w.surplus && p == Evict(Drawing(ops[i].rounds), w.state, used, w.max)
  }

  lemma BrinkIsGood(ops: seq<Op>, i: nat)
    requires i < |ops| && Evicts(ops, i)
    ensures Good(BrinkAt(ops, i).state) && At(ops, i + 1) == Balance(Drawing(ops[i].rounds), BrinkAt(ops, i))
  {
    RunGood(ops, i);
    BrinkGood(At(ops, i), ops[i]);
    NextIsBalance(At(ops, i), ops[i]);
  }

  lemma FairPass(draw: Sampler, s: State, used: int, max: nat, surplus: int, p: Pass)
    requires Honest(draw) && Good(s) && max > 0
    requires used == SpaceBytes(s.space) + surplus && p == Evict(draw, s, used, max)
    ensures Fair(p.log, s.space) && Remains(p, s, surplus)
  {
    HonestPass(draw, s, used, max, surplus);
  }

  /** Every pass of every run takes, round by round, the one least recent key of the bucket heads drawn, and leaves
      everything else; it leaves the store stalled exactly if it ends in a round of misses. */
  lemma RunIsFair(ops: seq<Op>, i: nat, w: World, used: int, p: Pass)
    requires i < |ops| && PassesAt(ops, i, w, used, p)
    ensures Fair(p.log, w.state.space) && Remains(p, w.state, w.surplus) && At(ops, i + 1).state == p.state
    ensures At(ops, i + 1).stalled <==> EndsInMiss(p, w.max, ops[i].rounds)
    ensures Chosen(p.log, w.state, OldestHeads(ops[i].rounds), 0, w.max, w.surplus)
  {
    BrinkIsGood(ops, i);
    DrawingIsHonest(ops[i].rounds);
    FairPass(Drawing(ops[i].rounds), w.state, used, w.max, w.surplus, p);
    BalanceIsPass(Drawing(ops[i].rounds), w, used, p);
    StallsOnMiss(w, ops[i].rounds, used, p);
    EveryPassChooses(ops[i].rounds, w.state, used, w.max, w.surplus, p);
  }

  lemma PassOf(ops: seq<Op>, i: nat) returns (w: World, used: int, p: Pass)
    requires i < |ops| && Evicts(ops, i)
    ensures PassesAt(ops, i, w, used, p)
  {
    w := BrinkAt(ops, i);
    used := SpaceBytes(w.state.space) + w.surplus;
    p := Evict(Drawing(ops[i].rounds), w.state, used, w.max);
  }

  /** No pass of the run ends in a round of misses. */
  ghost predicate NoMisses(ops: seq<Op>) {
    forall i, w, used, p | 0 <= i < |ops| && PassesAt(ops, i, w, used, p) :: !EndsInMiss(p, w.max, ops[i].rounds)
  }

  lemma Unstalled(w: World, op: Op)
    requires !w.stalled && (Brink(w, op).Some? ==> Brink(w, op).value.max == 0)
    ensures !Next(w, op).stalled
  {
    NextIsBalance(w, op);
  }

  lemma StaysWithout(ops: seq<Op>, i: nat)
    requires i < |ops| && !Evicts(ops, i) && !At(ops, i).stalled
    ensures !Next(At(ops, i), ops[i]).stalled
  {
    Unstalled(At(ops, i), ops[i]);
  }

  lemma StaysWith(ops: seq<Op>, i: nat)
    requires i < |ops| && Evicts(ops, i) && NoMisses(ops)
    ensures !Next(At(ops, i), ops[i]).stalled
  {
    var w, used, p := PassOf(ops, i);
    RunIsFair(ops, i, w, used, p);
  }

  /** Then the run is never stalled. */
  lemma NeverStalled(ops: seq<Op>, i: nat)
    requires i <= |ops| && NoMisses(ops)
    ensures !At(ops, i).stalled
  {
    var keep := (w: World) => !w.stalled;
    forall j | 0 <= j < |ops| ensures Carries(Next, keep, ops, j) {
      if Evicts(ops, j) {
        StaysWith(ops, j);
      } else if keep(At(ops, j)) {
        StaysWithout(ops, j);
      }
    }
    RunKeeps(Next, keep, ops, i);
  }

  // ---------------------------------------------------------------- the account

  /** The loads of a run, if any, store every key once. */
  predicate CleanLoads(ops: seq<Op>) {
    forall i | 0 <= i < |ops| :: ops[i].Load? ==> DistinctStored(ops[i].entries, ops[i].clocks)
  }

  lemma NextSurplus(w: World, op: Op)
    ensures op.Load? ==> (Next(w, op).surplus == 0 <==> DistinctStored(op.entries, op.clocks))
    ensures !op.Load? && w.surplus == 0 ==> Next(w, op).surplus == 0
  {
    if op.Load? { LoadAccountExact(op.entries, op.clocks, Clear(w.state)); }
  }

  /** Nothing is counted twice as long as loads store every key once. */
  lemma NoSurplus(ops: seq<Op>, i: nat)
    requires i <= |ops| && CleanLoads(ops)
    ensures At(ops, i).surplus == 0
  {
    var keep := (w: World) => w.surplus == 0;
    forall j | 0 <= j < |ops| ensures Carries(Next, keep, ops, j) {
      NextSurplus(At(ops, j), ops[j]);
    }
    RunKeeps(Next, keep, ops, i);
  }

  // ---------------------------------------------------------------- the class

  method Step(store: S.Store, op: Op)
    requires store.Valid()
    modifies store`used, store`accessClock, store`stalled, store`surplus, store`maxMemory, store.data
    ensures store.Valid() && store.Here() == Next(old(store.Here()), op)
  {
    match op
    case Invoke(call, clock, later, rounds) => var _ := Calls.Execute(store, call, clock, later, rounds);
    case SetBudget(bytes, rounds) => store.SetMaxMemory(bytes, rounds);
    case Sweep(clock, later) => store.SweepExpired(clock, later);
    case Load(entries, clocks, rounds) => store.LoadSnapshot(entries, clocks, rounds);
  }

  /** After any run the store is where the run stands; its stamps are distinct; and if every load stored its keys once,
      the account is exactly the bytes of all entries, and within the budget unless the last eviction stalled: always,
      if no pass of the run ended in a round of misses. */
  method Exercise(ops: seq<Op>) returns (store: S.Store)
    ensures store.Valid() && store.Here() == At(ops, |ops|) && Stamped(store.Now())
    ensures CleanLoads(ops) ==>
      && store.used == SpaceBytes(store.data.contents)
      && (store.maxMemory == 0 || store.stalled || store.used <= store.maxMemory)
    ensures CleanLoads(ops) && NoMisses(ops) ==> store.maxMemory == 0 || store.used <= store.maxMemory
  {
    store := new S.Store();
    for i := 0 to |ops|
      invariant fresh(store) && fresh(store.data) && store.Valid() && store.Here() == At(ops, i)
    {
      Step(store, ops[i]);
    }
    RunGood(ops, |ops|);
    if CleanLoads(ops) { NoSurplus(ops, |ops|); }
    if NoMisses(ops) { NeverStalled(ops, |ops|); }
  }
}
