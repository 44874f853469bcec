/** The store under concurrent clients and its background sweeper, without a memory budget.
    A step is one critical section: the first section of a call, one deferred DeleteIfExpired of a call,
    or one of the two phases of a sweep.  Each reads the clock as often as the source does, and the steady clock never
    runs backwards.  In the section of a call no key that it looks at may run out between two of its readings, because
    then its reply need not be that of any instant (see Instants). */
module Interleaving {
  import opened Bytes
  import opened Keyspace
  import opened Atomic
  import opened Readings
  import L = Layout

  /** `pending` are the keys a thread saw expired and has still to delete; `candidates` are a sweep's findings. */
  datatype System = System(state: State, time: int, pending: map<nat, seq<Bytes>>, candidates: Option<seq<Bytes>>)

  datatype Step =
    | Begin(thread: nat, call: Call, clock: Clock)
    | Clean(thread: nat, clock: Clock)
    | Scan(clock: Clock)
    | Sweep(clock: Clock)

  /** The last reading of a step. */
  function End(y: System, step: Step): int {
    match step
    case Begin(_, call, clock) => clock(LastReading(call, y.state))
    case Clean(_, clock) => clock(0)
    case Scan(clock) => clock(LastOf(|Physical(y.state)|))
    case Sweep(clock) => clock(if y.candidates.Some? then LastOf(|y.candidates.value|) else 0)
  }

  ghost predicate Enabled(y: System, step: Step) {
    && y.time <= step.clock(0) && Steady(step.clock)
    && match step
       case Begin(thread, call, clock) => thread !in y.pending && Quiet(call, y.state, clock)
       case Clean(thread, _) => thread in y.pending && y.pending[thread] != []
       case Scan(_) => y.candidates.None?
       case Sweep(_) => y.candidates.Some?
  }

  /** A thread with nothing left to delete has returned its reply and may begin its next call. */
  function Wait(pending: map<nat, seq<Bytes>>, thread: nat, keys: seq<Bytes>): map<nat, seq<Bytes>> {
    if keys == [] then pending - {thread} else pending[thread := keys]
  }

  ghost function Next(y: System, step: Step): System
    requires Enabled(y, step)
  {
    var end := End(y, step);
    match step
    case Begin(thread, call, clock) =>
      var f := SectionBy(call, y.state, clock);
      System(f.state, end, Wait(y.pending, thread, f.stale), y.candidates)
    case Clean(thread, clock) =>
      var keys := y.pending[thread];
      System(DropIfExpired(y.state, keys[0], clock(0)), end, Wait(y.pending, thread, keys[1..]), y.candidates)
    case Scan(clock) =>
      var found := FoundBy(y.state, clock);
      y.(time := end, candidates := if found == [] then None else Some(found))
    case Sweep(clock) => System(SweepBy(y.state, y.candidates.value, clock), end, y.pending, None)
  }

  ghost predicate Schedule(y: System, steps: seq<Step>)
    decreases |steps|
  {
    steps == [] || (Enabled(y, steps[0]) && Schedule(Next(y, steps[0]), steps[1..]))
  }

  ghost function Final(y: System, steps: seq<Step>): System
    requires Schedule(y, steps)
    decreases |steps|
  {
    if steps == [] then y else Final(Next(y, steps[0]), steps[1..])
  }

  // ---------------------------------------------------------------- what the clients see

  /** A call, the time of the last reading in its first critical section, and its reply. */
  datatype Event = Event(call: Call, now: int, reply: Reply)

  /** The calls of a run with their replies, in the order of their first sections. */
  ghost function History(y: System, steps: seq<Step>): seq<Event>
    requires Schedule(y, steps)
    decreases |steps|
  {
    if steps == [] then []
    else
      var later := History(Next(y, steps[0]), steps[1..]);
      match steps[0]
      case Begin(_, call, clock) => [Event(call, End(y, steps[0]), SectionBy(call, y.state, clock).reply)] + later
      case _ => later
  }

  /** Run on the reference map, one after the other, the calls give exactly the recorded replies. */
  ghost predicate Explains(live: Live, history: seq<Event>)
    decreases |history|
  {
    history == [] ||
    var e := history[0];
    var (after, reply) := Apply(e.call, Purge(live, e.now), e.now);
    reply == e.reply && Explains(after, history[1..])
  }

  ghost function Outcome(live: Live, history: seq<Event>): Live
    decreases |history|
  {
    if history == [] then live
    else Outcome(Apply(history[0].call, Purge(live, history[0].now), history[0].now).0, history[1..])
  }

  // ---------------------------------------------------------------- linearizability

  lemma PurgeTwice(live: Live, t: int, u: int)
    requires t <= u
    ensures Purge(Purge(live, t), u) == Purge(live, u)
  {
  }

  /** The table shows, from now on, what the reference map shows. */
  ghost predicate Shows(y: System, live: Live) {
    Consistent(y.state) && View(y.state.space, y.time) == Purge(live, y.time)
  }

  lemma ShowsLater(space: Space, live: Live, t: int, u: int)
    requires t <= u && View(space, t) == Purge(live, t)
    ensures View(space, u) == Purge(live, u)
  {
    ViewLater(space, t, u);
    PurgeTwice(live, t, u);
  }

  lemma {:induction false} SweepIsInvisible(s: State, keys: seq<Bytes>, clock: Clock, t: int)
    requires forall i | 0 <= i < |keys| :: clock(i) <= t
    ensures View(SweepBy(s, keys, clock).space, t) == View(s.space, t)
  {
    if keys != [] {
      var i := |keys| - 1;
      SweepIsInvisible(s, keys[..i], clock, t);
      DropIsInvisible(SweepBy(s, keys[..i], clock), keys[i], clock(i), t);
    }
  }

  /** Deleting steps, of whichever thread, change the live view neither now nor later. */
  lemma DeletesAreInvisible(y: System, step: Step, t: int)
    requires Enabled(y, step) && !step.Begin? && End(y, step) <= t
    ensures View(Next(y, step).state.space, t) == View(y.state.space, t)
  {
    match step
    case Clean(thread, clock) => DropIsInvisible(y.state, y.pending[thread][0], clock(0), t);
    case Scan(_) =>
    case Sweep(clock) => SweepIsInvisible(y.state, y.candidates.value, clock, t);
  }

  lemma ViewIsPurged(space: Space, t: int)
    ensures Purge(View(space, t), t) == View(space, t)
  {
  }

  lemma StepConsistent(y: System, step: Step)
    requires Enabled(y, step) && Consistent(y.state)
    ensures Consistent(Next(y, step).state)
  {
    match step
    case Begin(_, call, clock) =>
      QuietSection(call, y.state, clock);
      SectionConsistent(call, y.state, End(y, step));
    case Sweep(clock) => SweepConsistent(y.state, y.candidates.value, clock);
    case _ =>
  }

  lemma CallShows(call: Call, s: State, clock: Clock, live: Live, end: int) returns (after: Live)
    requires Consistent(s) && Steady(clock) && Quiet(call, s, clock) && end == clock(LastReading(call, s))
    requires View(s.space, end) == Purge(live, end)
    ensures View(SectionBy(call, s, clock).state.space, end) == Purge(after, end)
    ensures Apply(call, Purge(live, end), end) == (after, SectionBy(call, s, clock).reply)
  {
    QuietSection(call, s, clock);
    SectionRefines(call, s, end);
    after := View(FirstSection(call, s, end).state.space, end);
    ViewIsPurged(FirstSection(call, s, end).state.space, end);
  }

  lemma StepShows(y: System, step: Step, live: Live) returns (after: Live)
    requires Enabled(y, step) && Shows(y, live)
    ensures Shows(Next(y, step), after)
    ensures !step.Begin? ==> after == live
    ensures step.Begin? ==>
      Apply(step.call, Purge(live, End(y, step)), End(y, step))
      == (after, SectionBy(step.call, y.state, step.clock).reply)
  {
    var end := End(y, step);
    ShowsLater(y.state.space, live, y.time, end);
    StepConsistent(y, step);
    if step.Begin? {
      after := CallShows(step.call, y.state, step.clock, live, end);
    } else {
      after := live;
      DeletesAreInvisible(y, step, end);
    }
  }

  /** Whatever the interleaving, every reply is that of the reference map at the last reading of the call's first
      section. */
  lemma {:induction false} Linearizable(y: System, steps: seq<Step>, live: Live)
    requires Schedule(y, steps) && Shows(y, live)
    ensures Explains(live, History(y, steps))
    ensures Shows(Final(y, steps), Outcome(live, History(y, steps)))
    decreases |steps|
  {
    if steps != [] {
      var next := Next(y, steps[0]);
      var after := StepShows(y, steps[0], live);
      Linearizable(next, steps[1..], after);
      if steps[0].Begin? {
        var h := History(y, steps);
        assert h[1..] == History(next, steps[1..]);
      }
    }
  }

  /** From an empty store: the whole history is explained by the empty reference map. */
  lemma LinearizableFromEmpty(start: int, clock: nat, steps: seq<Step>)
    requires Schedule(System(State(map[], clock, L.NoEdit), start, map[], None), steps)
    ensures Explains(map[], History(System(State(map[], clock, L.NoEdit), start, map[], None), steps))
  {
    Linearizable(System(State(map[], clock, L.NoEdit), start, map[], None), steps, map[]);
  }
}
