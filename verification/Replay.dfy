/** Replaying the log rebuilds the data: sequential runs of Dispatch, their log, and a restart from any crash point.
    Time appears only in deadlines: as long as none passes, the typed values and the set of keys with a deadline
    depend on the logged commands alone. */
module Replay {
  import opened Bytes
  import opened Keyspace
  import opened Atomic
  import opened CommandParser
  import opened ParserTheory
  import opened Framing
  import opened Dispatcher
  import opened Machine
  import Aof
  import L = Layout

  // ---------------------------------------------------------------- what a replay must rebuild

  datatype Facet = Facet(value: Value, timed: bool)

  /** The typed value of every key, and whether it carries a deadline. */
  function Shape(live: Live): map<Bytes, Facet> {
    map k | k in live :: Facet(live[k].value, live[k].deadline.Some?)
  }

  ghost predicate AllLive(s: State, now: int) {
    forall k | k in s.space :: !Expired(s.space[k], now)
  }

  function ShapeOf(space: Space): map<Bytes, Facet> {
    map k | k in space :: Facet(space[k].value, space[k].deadline.Some?)
  }

  lemma ShapeOfLive(s: State, now: int)
    requires AllLive(s, now)
    ensures ShapeOf(s.space) == Shape(View(s.space, now))
  {
  }

  // ---------------------------------------------------------------- calls depend on the shape only

  lemma ShapeKeys(a: Live, b: Live)
    requires Shape(a) == Shape(b)
    ensures a.Keys == b.Keys
    ensures forall k | k in a :: a[k].value == b[k].value && a[k].deadline.Some? == b[k].deadline.Some?
  {
    assert Shape(a).Keys == a.Keys && Shape(b).Keys == b.Keys;
    forall k | k in a ensures a[k].value == b[k].value && a[k].deadline.Some? == b[k].deadline.Some? {
      assert Shape(a)[k] == Shape(b)[k];
    }
  }

  lemma ShapePut(a: Live, b: Live, key: Bytes, x: Timed, y: Timed)
    requires Shape(a) == Shape(b) && x.value == y.value && x.deadline.Some? == y.deadline.Some?
    ensures Shape(a[key := x]) == Shape(b[key := y])
  {
    ShapeKeys(a, b);
  }

  lemma ShapeDrop(a: Live, b: Live, keys: set<Bytes>)
    requires Shape(a) == Shape(b)
    ensures Shape(a - keys) == Shape(b - keys)
  {
    ShapeKeys(a, b);
  }

  lemma SetKeepsShape(a: Live, b: Live, key: Bytes, value: Bytes)
    requires Shape(a) == Shape(b)
    ensures Shape(a[key := Timed(Str(value), None)]) == Shape(b[key := Timed(Str(value), None)])
  {
    ShapePut(a, b, key, Timed(Str(value), None), Timed(Str(value), None));
  }

  lemma ExpireKeepsShape(a: Live, b: Live, key: Bytes, seconds: int, now: int, then_: int)
    requires Shape(a) == Shape(b)
    ensures key in a <==> key in b
    ensures Shape(a - {key}) == Shape(b - {key})
    ensures key in a ==>
      Shape(a[key := a[key].(deadline := Some(now + seconds * SECOND))])
      == Shape(b[key := b[key].(deadline := Some(then_ + seconds * SECOND))])
  {
    ShapeKeys(a, b);
    ShapeDrop(a, b, {key});
    if key in a {
      ShapePut(a, b, key, a[key].(deadline := Some(now + seconds * SECOND)),
               b[key].(deadline := Some(then_ + seconds * SECOND)));
    }
  }

  lemma PushKeepsShape(a: Live, b: Live, key: Bytes, values: seq<Bytes>, front: bool)
    requires Shape(a) == Shape(b)
    ensures Shape(AtomicPush(a, key, values, front).0) == Shape(AtomicPush(b, key, values, front).0)
    ensures AtomicPush(a, key, values, front).1 == AtomicPush(b, key, values, front).1
  {
    ShapeKeys(a, b);
    var items := if key in a && a[key].value.List? then a[key].value.items else [];
    var grown := if front then Reverse(values) + items else items + values;
    ShapePut(a, b, key, Timed(List(grown), DeadlineAt(a, key)), Timed(List(grown), DeadlineAt(b, key)));
  }

  lemma HSetKeepsShape(a: Live, b: Live, key: Bytes, pairs: seq<(Bytes, Bytes)>)
    requires Shape(a) == Shape(b)
    ensures Shape(AtomicHSet(a, key, pairs).0) == Shape(AtomicHSet(b, key, pairs).0)
    ensures AtomicHSet(a, key, pairs).1 == AtomicHSet(b, key, pairs).1
  {
    ShapeKeys(a, b);
    var fields := if key in a && a[key].value.Hash? then a[key].value.fields else map[];
    var value := Hash(fields + MapOf(pairs));
    ShapePut(a, b, key, Timed(value, DeadlineAt(a, key)), Timed(value, DeadlineAt(b, key)));
  }

  lemma HDelKeepsShape(a: Live, b: Live, key: Bytes, dropped: seq<Bytes>)
    requires Shape(a) == Shape(b)
    ensures Shape(AtomicHDel(a, key, dropped).0) == Shape(AtomicHDel(b, key, dropped).0)
    ensures AtomicHDel(a, key, dropped).1 == AtomicHDel(b, key, dropped).1
  {
    ShapeKeys(a, b);
    ShapeDrop(a, b, {key});
    if key in a && a[key].value.Hash? {
      var value := Hash(a[key].value.fields - KeysOf(dropped));
      ShapePut(a, b, key, a[key].(value := value), b[key].(value := value));
    }
  }

  lemma KeyWriteKeepsShape(call: Call, a: Live, b: Live, now: int, then_: int)
    requires Shape(a) == Shape(b) && (call.Set? || call.Del? || call.FlushAll? || call.Expire?)
    ensures Shape(Apply(call, a, now).0) == Shape(Apply(call, b, then_).0)
    ensures !Apply(call, a, now).1.WrongType? && !Apply(call, b, then_).1.WrongType?
  {
    if call.Set? {
      SetKeepsShape(a, b, call.key, call.value);
    } else if call.Del? {
      ShapeDrop(a, b, KeysOf(call.keys));
    } else if call.Expire? {
      ExpireKeepsShape(a, b, call.key, call.seconds, now, then_);
    }
  }

  lemma TypedWriteKeepsShape(call: Call, a: Live, b: Live, now: int, then_: int)
    requires Shape(a) == Shape(b) && (call.LPush? || call.RPush? || call.HSet? || call.HDel?)
    ensures Shape(Apply(call, a, now).0) == Shape(Apply(call, b, then_).0)
    ensures Apply(call, a, now).1 == Apply(call, b, then_).1
  {
    if call.LPush? {
      PushKeepsShape(a, b, call.key, call.values, true);
    } else if call.RPush? {
      PushKeepsShape(a, b, call.key, call.values, false);
    } else if call.HSet? {
      HSetKeepsShape(a, b, call.key, call.pairs);
    } else {
      HDelKeepsShape(a, b, call.key, call.dropped);
    }
  }

  /** The same write on two maps of the same shape fails on both or leaves the same shape on both. */
  lemma WriteKeepsShape(call: Call, a: Live, b: Live, now: int, then_: int)
    requires IsWrite(call) && Shape(a) == Shape(b)
    ensures Shape(Apply(call, a, now).0) == Shape(Apply(call, b, then_).0)
    ensures Apply(call, a, now).1.WrongType? <==> Apply(call, b, then_).1.WrongType?
  {
    if call.Set? || call.Del? || call.FlushAll? || call.Expire? {
      KeyWriteKeepsShape(call, a, b, now, then_);
    } else {
      TypedWriteKeepsShape(call, a, b, now, then_);
    }
  }

  /** A call that is not a write, or a write that fails, changes nothing. */
  lemma UnloggedKeepsAll(call: Call, live: Live, now: int)
    requires !IsWrite(call) || Apply(call, live, now).1.WrongType?
    ensures Apply(call, live, now).0 == live
  {
  }

  // ---------------------------------------------------------------- a call of its own

  /** A call on a table without expired entries: the reference's step, and still nothing expired. */
  lemma {:induction false} ExecShape(call: Call, s: State, now: int, later: int)
    requires AllLive(s, now)
    ensures var (t, r) := Exec(call, s, now, later);
      AllLive(t, now) && Apply(call, View(s.space, now), now) == (View(t.space, now), r)
  {
    SectionRefines(call, s, now);
    var f := FirstSection(call, s, now);
    NothingStale(call, s, now);
    SectionStaysLive(call, s, now);
    assert DropAllExpired(f.state, [], later) == f.state;
  }

  lemma {:induction false} CountNothingStale(s: State, keys: seq<Bytes>, now: int)
    requires AllLive(s, now)
    ensures CountLive(s.space, keys, now).1 == []
  {
    if keys != [] { CountNothingStale(s, keys[..|keys| - 1], now); }
  }

  lemma NothingStale(call: Call, s: State, now: int)
    requires AllLive(s, now)
    ensures FirstSection(call, s, now).stale == []
  {
    match call
    case Exists(keys) => CountNothingStale(s, keys, now);
    case Keys => NoneAmong(Physical(s), s, now);
    case _ =>
  }

  lemma {:induction false} NoneAmong(listing: seq<(Bytes, Entry)>, s: State, now: int)
    requires AllLive(s, now)
    ensures Among(listing, s.space, now, true) == []
  {
    if listing != [] { NoneAmong(listing[..|listing| - 1], s, now); }
  }

  lemma SectionStaysLive(call: Call, s: State, now: int)
    requires AllLive(s, now)
    ensures AllLive(FirstSection(call, s, now).state, now)
  {
    match call
    case Del(keys) => DropKeysMeaning(s, keys, now);
    case LPush(key, values) => PushStaysLive(s, key, values, true, now);
    case RPush(key, values) => PushStaysLive(s, key, values, false, now);
    case HSet(key, pairs) => HSetStaysLive(s, key, pairs, now);
    case HDel(key, dropped) => HDelStaysLive(s, key, dropped, now);
    case _ =>
  }

  lemma PushStaysLive(s: State, key: Bytes, values: seq<Bytes>, front: bool, now: int)
    requires AllLive(s, now)
    ensures AllLive(PushSection(s, key, values, front, now).state, now)
  {
  }

  lemma HSetStaysLive(s: State, key: Bytes, pairs: seq<(Bytes, Bytes)>, now: int)
    requires AllLive(s, now)
    ensures AllLive(HSetSection(s, key, pairs, now).state, now)
  {
  }

  lemma HDelStaysLive(s: State, key: Bytes, dropped: seq<Bytes>, now: int)
    requires AllLive(s, now)
    ensures AllLive(HDelSection(s, key, dropped, now).state, now)
  {
  }

  // ---------------------------------------------------------------- a command

  /** Unlogged commands leave the shape alone, whatever they reply. */
  lemma UnloggedCommand(req: Dispatcher.Request, s: State, m: Moment)
    requires AllLive(s, m.now) && !Perform(req, s, m.now, m.later).logged
    ensures ShapeOf(Perform(req, s, m.now, m.later).state.space) == ShapeOf(s.space)
    ensures AllLive(Perform(req, s, m.now, m.later).state, m.now)
  {
    match req
    case Respond(_) =>
    case SetEx(_, _, _) =>
    case Do(call) => UnloggedCall(call, s, m);
    case Match(_) => UnloggedCall(Keys, s, m);
  }

  lemma UnloggedCall(call: Call, s: State, m: Moment)
    requires AllLive(s, m.now) && (!IsWrite(call) || Exec(call, s, m.now, m.later).1.WrongType?)
    ensures var t := Exec(call, s, m.now, m.later).0; ShapeOf(t.space) == ShapeOf(s.space) && AllLive(t, m.now)
  {
    ExecShape(call, s, m.now, m.later);
    UnloggedKeepsAll(call, View(s.space, m.now), m.now);
    ShapeOfLive(s, m.now);
    ShapeOfLive(Exec(call, s, m.now, m.later).0, m.now);
  }

  lemma LoggedCall(call: Call, s: State, m: Moment, s': State, m': Moment)
    requires AllLive(s, m.now) && AllLive(s', m'.now) && ShapeOf(s.space) == ShapeOf(s'.space) && IsWrite(call)
    ensures var (t, r) := Exec(call, s, m.now, m.later); var (t', r') := Exec(call, s', m'.now, m'.later);
      && ShapeOf(t.space) == ShapeOf(t'.space) && AllLive(t, m.now) && AllLive(t', m'.now)
      && (r.WrongType? <==> r'.WrongType?)
  {
    ExecShape(call, s, m.now, m.later);
    ExecShape(call, s', m'.now, m'.later);
    ShapeOfLive(s, m.now);
    ShapeOfLive(s', m'.now);
    WriteKeepsShape(call, View(s.space, m.now), View(s'.space, m'.now), m.now, m'.now);
    ShapeOfLive(Exec(call, s, m.now, m.later).0, m.now);
    ShapeOfLive(Exec(call, s', m'.now, m'.later).0, m'.now);
  }

  /** A logged command, run again on a table of the same shape at another time, gives the same shape again. */
  lemma LoggedCommand(req: Dispatcher.Request, s: State, m: Moment, s': State, m': Moment)
    requires AllLive(s, m.now) && AllLive(s', m'.now) && ShapeOf(s.space) == ShapeOf(s'.space)
    requires Perform(req, s, m.now, m.later).logged
    ensures ShapeOf(Perform(req, s, m.now, m.later).state.space)
         == ShapeOf(Perform(req, s', m'.now, m'.later).state.space)
    ensures AllLive(Perform(req, s, m.now, m.later).state, m.now)
    ensures AllLive(Perform(req, s', m'.now, m'.later).state, m'.now)
  {
    match req
    case Do(call) => LoggedCall(call, s, m, s', m');
    case SetEx(key, value, seconds) =>
      LoggedCall(Call.Set(key, value), s, m, s', m');
      LoggedCall(Expire(key, seconds), Exec(Call.Set(key, value), s, m.now, m.later).0, m,
                 Exec(Call.Set(key, value), s', m'.now, m'.later).0, m');
  }

  // ---------------------------------------------------------------- runs

  ghost function Run(read: Reading, s: State, cmds: seq<Issued>): State
    decreases |cmds|
  {
    if cmds == [] then s
    else Run(read, Dispatch(read, s, cmds[0]).state, cmds[1..])
  }

  /** The commands the run logs. */
  ghost function Logged(read: Reading, s: State, cmds: seq<Issued>): seq<Command>
    decreases |cmds|
  {
    if cmds == [] then []
    else
      var o := Dispatch(read, s, cmds[0]);
      (if o.logged then [cmds[0].args] else []) + Logged(read, o.state, cmds[1..])
  }

  /** No deadline passes while the run lasts: at every command, every entry is live. */
  ghost predicate NoDeadlinePasses(read: Reading, s: State, cmds: seq<Issued>)
    decreases |cmds|
  {
    cmds == [] ||
    (AllLive(s, cmds[0].at.now)
     && NoDeadlinePasses(read, Dispatch(read, s, cmds[0]).state, cmds[1..]))
  }

  ghost predicate WouldLog(read: Reading, s: State, c: Issued) {
    Dispatch(read, s, c).logged
  }

  lemma {:induction false} RunSnoc(read: Reading, s: State, cmds: seq<Issued>, c: Issued)
    ensures Run(read, s, cmds + [c]) == Dispatch(read, Run(read, s, cmds), c).state
    ensures Logged(read, s, cmds + [c]) == Logged(read, s, cmds)
      + (if WouldLog(read, Run(read, s, cmds), c) then [c.args] else [])
    decreases |cmds|
  {
    if cmds == [] {
      assert cmds + [c] == [c];
    } else {
      var o := Dispatch(read, s, cmds[0]);
      assert (cmds + [c])[1..] == cmds[1..] + [c];
      RunSnoc(read, o.state, cmds[1..], c);
    }
  }

  /** The logged commands, issued again at the given moments. */
  function Reissue(log: seq<Command>, at: seq<Moment>): seq<Issued>
    requires |log| == |at|
  {
    seq(|log|, i requires 0 <= i < |log| => Issued(log[i], at[i]))
  }

  /** One step of the run and, if it was logged, the step of the replay that repeats it. */
  lemma StepTogether(read: Reading, s: State, c: Issued, s': State, again: Moment)
    requires AllLive(s, c.at.now) && ShapeOf(s.space) == ShapeOf(s'.space)
    requires Dispatch(read, s, c).logged ==> AllLive(s', again.now)
    ensures var o := Dispatch(read, s, c);
      ShapeOf(o.state.space) ==
        ShapeOf(if o.logged then Dispatch(read, s', Issued(c.args, again)).state.space else s'.space)
  {
    if Dispatch(read, s, c).logged {
      LoggedCommand(read(c.args), s, c.at, s', again);
    } else {
      UnloggedCommand(read(c.args), s, c.at);
    }
  }

  lemma ReissueCons(args: Command, rest: seq<Command>, at: seq<Moment>)
    requires |at| == |rest| + 1
    ensures Reissue([args] + rest, at) == [Issued(args, at[0])] + Reissue(rest, at[1..])
  {
  }

  /** Replaying the log of a run, at whatever times, ends in the shape of the run. */
  lemma {:induction false} ReplayRebuilds(read: Reading, s: State, cmds: seq<Issued>, s': State, at: seq<Moment>)
    requires |at| == |Logged(read, s, cmds)| && ShapeOf(s.space) == ShapeOf(s'.space)
    requires NoDeadlinePasses(read, s, cmds) && NoDeadlinePasses(read, s', Reissue(Logged(read, s, cmds), at))
    ensures ShapeOf(Run(read, s, cmds).space) == ShapeOf(Run(read, s', Reissue(Logged(read, s, cmds), at)).space)
    decreases |cmds|
  {
    if cmds != [] {
      var c := cmds[0];
      var o := Dispatch(read, s, c);
      var rest := Logged(read, o.state, cmds[1..]);
      if o.logged {
        ReissueCons(c.args, rest, at);
        StepTogether(read, s, c, s', at[0]);
        var again := Reissue(Logged(read, s, cmds), at);
        assert again[0] == Issued(c.args, at[0]) && again[1..] == Reissue(rest, at[1..]);
        ReplayRebuilds(read, o.state, cmds[1..], Dispatch(read, s', Issued(c.args, at[0])).state, at[1..]);
      } else {
        assert [] + rest == rest;
        StepTogether(read, s, c, s', c.at);
        ReplayRebuilds(read, o.state, cmds[1..], s', at);
      }
    }
  }

  // ---------------------------------------------------------------- restart from a crash

  const EMPTY := State(map[], 0, L.NoEdit)

  /** Every prefix of the log is the log of a prefix of the run. */
  lemma {:induction false} LogPrefix(read: Reading, s: State, cmds: seq<Issued>, n: nat) returns (j: nat)
    requires n <= |Logged(read, s, cmds)|
    ensures j <= |cmds| && Logged(read, s, cmds[..j]) == Logged(read, s, cmds)[..n]
    decreases |cmds|
  {
    if n == 0 {
      j := 0;
    } else {
      var o := Dispatch(read, s, cmds[0]);
      var first := if o.logged then [cmds[0].args] else [];
      var rest := Logged(read, o.state, cmds[1..]);
      j := LogPrefix(read, o.state, cmds[1..], n - |first|);
      assert cmds[..j + 1][1..] == cmds[1..][..j] && cmds[..j + 1][0] == cmds[0];
      TakeAppend(first, rest, n);
      j := j + 1;
    }
  }

  lemma {:induction false} PrefixHasNoDeadlines(read: Reading, s: State, cmds: seq<Issued>, j: nat)
    requires NoDeadlinePasses(read, s, cmds) && j <= |cmds|
    ensures NoDeadlinePasses(read, s, cmds[..j])
    decreases |cmds|
  {
    if j > 0 {
      var o := Dispatch(read, s, cmds[0]);
      PrefixHasNoDeadlines(read, o.state, cmds[1..], j - 1);
      assert cmds[..j][1..] == cmds[1..][..j - 1];
    }
  }

  lemma TornLog(log: seq<Command>, k: nat) returns (n: nat)
    requires Aof.AllWithinLimits(log) && k <= |Aof.LogOf(log)|
    ensures n <= |log| && Drain(Aof.LogOf(log)[..k]).commands == log[..n] && !Drain(Aof.LogOf(log)[..k]).failed
    ensures k == |Aof.LogOf(log)| ==> n == |log|
  {
    if k == |Aof.LogOf(log)| {
      Aof.LogLoadsExactly(log);
      assert Aof.LogOf(log)[..k] == Aof.LogOf(log) && log[..|log|] == log;
      return |log|;
    }
    var items := Aof.Frames(log);
    Aof.LogIsStream(log);
    n := Whole(items, k);
    var torn := TornStream(items, k);
    assert items[..n] == Aof.Frames(log[..n]);
    Aof.FramesAsk(log[..n]);
  }

  /** A sequential run from an empty store with every command within the parser's limits, its log cut at any byte:
      the load succeeds, and replaying what it finds rebuilds the state the run had after some of its commands;
      with the whole log, the state after all of them. */
  lemma RestartAnywhere(read: Reading, cmds: seq<Issued>, k: nat, at: seq<Moment>) returns (j: nat)
    requires forall i | 0 <= i < |cmds| :: WithinLimits(cmds[i].args)
    requires NoDeadlinePasses(read, EMPTY, cmds) && k <= |Aof.LogOf(Logged(read, EMPTY, cmds))|
    requires var found := Drain(Aof.LogOf(Logged(read, EMPTY, cmds))[..k]).commands;
      |at| == |found| && NoDeadlinePasses(read, EMPTY, Reissue(found, at))
    ensures j <= |cmds| && !Drain(Aof.LogOf(Logged(read, EMPTY, cmds))[..k]).failed
    ensures var found := Drain(Aof.LogOf(Logged(read, EMPTY, cmds))[..k]).commands;
      && found == Logged(read, EMPTY, cmds[..j])
      && ShapeOf(Run(read, EMPTY, Reissue(found, at)).space) == ShapeOf(Run(read, EMPTY, cmds[..j]).space)
    ensures k == |Aof.LogOf(Logged(read, EMPTY, cmds))| ==>
      ShapeOf(Run(read, EMPTY, cmds[..j]).space) == ShapeOf(Run(read, EMPTY, cmds).space)
  {
    var log := Logged(read, EMPTY, cmds);
    LoggedWithinLimits(read, EMPTY, cmds);
    var n := TornLog(log, k);
    j := LogPrefix(read, EMPTY, cmds, n);
    if k == |Aof.LogOf(log)| {
      j := |cmds|;
      assert cmds[..j] == cmds && log[..n] == log;
    }
    PrefixHasNoDeadlines(read, EMPTY, cmds, j);
    ReplayRebuilds(read, EMPTY, cmds[..j], EMPTY, at);
  }

  lemma {:induction false} LoggedWithinLimits(read: Reading, s: State, cmds: seq<Issued>)
    requires forall i | 0 <= i < |cmds| :: WithinLimits(cmds[i].args)
    ensures Aof.AllWithinLimits(Logged(read, s, cmds))
    decreases |cmds|
  {
    if cmds != [] {
      LoggedWithinLimits(read, Dispatch(read, s, cmds[0]).state, cmds[1..]);
    }
  }

  /** The commands that a file holds in whole. */
  function Kept(cmds: seq<Issued>, last: Issued, w: nat): seq<Issued> {
    if w == |FrameOf(last.args)| then cmds + [last] else cmds
  }

  lemma CrashFile(read: Reading, cmds: seq<Issued>, last: Issued, w: nat)
    requires forall i | 0 <= i < |cmds| :: WithinLimits(cmds[i].args)
    requires WithinLimits(last.args) && WouldLog(read, Run(read, EMPTY, cmds), last) && w <= |FrameOf(last.args)|
    ensures var d := Drain(Aof.LogOf(Logged(read, EMPTY, cmds)) + FrameOf(last.args)[..w]);
      !d.failed && d.commands == Logged(read, EMPTY, Kept(cmds, last, w))
  {
    LoggedWithinLimits(read, EMPTY, cmds);
    RunSnoc(read, EMPTY, cmds, last);
    Aof.CrashFrame(Logged(read, EMPTY, cmds), last.args, w);
  }

  /** A crash while `last` is being logged: what was logged before survives it, and so does `last` itself
      once its frame is whole.  Loading the file and replaying it rebuilds exactly that much of the run. */
  lemma AcknowledgedSurvive(read: Reading, cmds: seq<Issued>, last: Issued, w: nat,
                            found: seq<Command>, at: seq<Moment>)
    requires forall i | 0 <= i < |cmds| :: WithinLimits(cmds[i].args)
    requires WithinLimits(last.args) && WouldLog(read, Run(read, EMPTY, cmds), last) && w <= |FrameOf(last.args)|
    requires found == Drain(Aof.LogOf(Logged(read, EMPTY, cmds)) + FrameOf(last.args)[..w]).commands
    requires |at| == |found| && NoDeadlinePasses(read, EMPTY, Reissue(found, at))
    requires NoDeadlinePasses(read, EMPTY, cmds) && AllLive(Run(read, EMPTY, cmds), last.at.now)
    ensures ShapeOf(Run(read, EMPTY, Reissue(found, at)).space) == ShapeOf(Run(read, EMPTY, Kept(cmds, last, w)).space)
  {
    CrashFile(read, cmds, last, w);
    NoDeadlineSnoc(read, EMPTY, cmds, last);
    ReplayRebuilds(read, EMPTY, Kept(cmds, last, w), EMPTY, at);
  }

  lemma {:induction false} NoDeadlineSnoc(read: Reading, s: State, cmds: seq<Issued>, last: Issued)
    requires NoDeadlinePasses(read, s, cmds) && AllLive(Run(read, s, cmds), last.at.now)
    ensures NoDeadlinePasses(read, s, cmds + [last])
    decreases |cmds|
  {
    if cmds == [] {
      assert cmds + [last] == [last];
    } else {
      assert (cmds + [last])[1..] == cmds[1..] + [last];
      NoDeadlineSnoc(read, Dispatch(read, s, cmds[0]).state, cmds[1..], last);
    }
  }
}
