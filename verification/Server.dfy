/** The mutable server: Dispatch on a Store, the append-only log behind it, LoadAof, and a restart after a crash. */
module Server {
  import opened Bytes
  import opened Keyspace
  import opened Readings
  import opened Eviction
  import opened Calls
  import opened Framing
  import opened Replay
  import opened CommandParser
  import opened Dispatcher
  import opened ParserTheory
  import Glob
  import Aof
  import S = Store

  // ---------------------------------------------------------------- commands

  /** What a request does to the store, its answer, and whether the command goes to the log. */
  ghost function PerformIn(w: World, req: Dispatcher.Request, m: Moment, rounds: Rounds): (World, Answer, bool) {
    match req
    case Respond(reply) => (w, Said(reply), false)
    case Do(call) =>
      var (w', r) := Invoke(w, call, m, rounds);
      (w', Given(r), IsWrite(call) && !r.WrongType?)
    case SetEx(key, value, seconds) =>
      var stored := Invoke(w, Call.Set(key, value), m, rounds).0;
      (Invoke(stored, Expire(key, seconds), m, rounds).0, Given(Ok), true)
    case Match(pattern) =>
      var (w', r) := Invoke(w, Keys, m, rounds);
      (w', Matched(Accepted(pattern, if r.KeySet? then r.keys else {})), false)
  }

  /** Without a budget this is what the dispatcher's function says. */
  lemma PerformsAlike(w: World, req: Dispatcher.Request, m: Moment, rounds: Rounds)
    requires w.max == 0
    ensures var (w', answer, logged) := PerformIn(w, req, m, rounds);
      w'.max == 0 && Outcome(w'.state, answer, logged) == Dispatcher.Perform(req, w.state, m.now, m.later)
  {
    match req
    case Respond(_) =>
    case Do(call) => NoBudget(w, call, m, rounds);
    case SetEx(key, value, seconds) =>
      NoBudget(w, Call.Set(key, value), m, rounds);
      NoBudget(Invoke(w, Call.Set(key, value), m, rounds).0, Expire(key, seconds), m, rounds);
    case Match(_) => NoBudget(w, Keys, m, rounds);
  }

  method Perform(store: S.Store, req: Dispatcher.Request, m: Moment, rounds: Rounds)
    returns (answer: Answer, logged: bool)
    requires store.Valid()
    modifies store`used, store`accessClock, store`stalled, store`surplus, store.data
    ensures store.Valid() && (store.Here(), answer, logged) == PerformIn(old(store.Here()), req, m, rounds)
  {
    match req
    case Respond(reply) => answer, logged := Said(reply), false;
    case Do(call) =>
      var reply := ExecuteAt(store, call, m, rounds);
      answer, logged := Given(reply), IsWrite(call) && !reply.WrongType?;
    case SetEx(key, value, seconds) =>
      var _ := ExecuteAt(store, Call.Set(key, value), m, rounds);
      var _ := ExecuteAt(store, Expire(key, seconds), m, rounds);
      answer, logged := Given(Ok), true;
    case Match(pattern) =>
      FixedInvoke(store.Here(), Keys, m, rounds);
      var live := ListKeys(store, Fixed(m.now), Fixed(m.later));
      var matched := Select(live, pattern);
      answer, logged := Matched(set k | k in matched), false;
  }

  /** Reads and performs one command, evicting as the draws determine. */
  method Dispatch(store: S.Store, read: Reading, c: Issued, rounds: Rounds) returns (answer: Answer, logged: bool)
    requires store.Valid()
    modifies store`used, store`accessClock, store`stalled, store`surplus, store.data
    ensures store.Valid() && (store.Here(), answer, logged) == PerformIn(old(store.Here()), read(c.args), c.at, rounds)
  {
    answer, logged := Perform(store, read(c.args), c.at, rounds);
  }

  /** Of the given keys, those the pattern loop accepts, in order. */
  function Chosen(pattern: Bytes, keys: seq<Bytes>): seq<Bytes> {
    if keys == [] then []
    else
      var rest, k := Chosen(pattern, keys[..|keys| - 1]), keys[|keys| - 1];
      if Glob.GlobVerdict(pattern, k) then rest + [k] else rest
  }

  lemma {:induction false} ChosenAre(pattern: Bytes, keys: seq<Bytes>)
    ensures forall k :: k in Chosen(pattern, keys) <==> k in keys && Glob.GlobVerdict(pattern, k)
    ensures Distinct(keys) ==> Distinct(Chosen(pattern, keys))
  {
    if keys != [] {
      var front, last := keys[..|keys| - 1], keys[|keys| - 1];
      ChosenAre(pattern, front);
      assert keys == front + [last];
      assert Distinct(keys) ==> Distinct(front);
      if Distinct(keys) { assert last !in front; }
    }
  }

  method Select(keys: seq<Bytes>, pattern: Bytes) returns (matched: seq<Bytes>)
    ensures matched == Chosen(pattern, keys) && (Distinct(keys) ==> Distinct(matched))
    ensures (set k | k in matched) == Accepted(pattern, set k | k in keys)
  {
    matched := [];
    ChosenAre(pattern, keys);
    for i := 0 to |keys|
      invariant matched == Chosen(pattern, keys[..i])
    {
      assert keys[..i + 1][..i] == keys[..i];
      var hit := Glob.GlobMatch(pattern, keys[i]);
      if hit { matched := matched + [keys[i]]; }
    }
    assert keys[..|keys|] == keys;
  }

  // ---------------------------------------------------------------- the log

  /** The commands of a log with the clock readings of their replay. */
  function Timed(commands: seq<Command>, at: nat -> Moment): seq<Issued> {
    Reissue(commands, Moments(at, |commands|))
  }

  function Moments(at: nat -> Moment, n: nat): (ms: seq<Moment>)
    ensures |ms| == n && forall i | 0 <= i < n :: ms[i] == at(i)
  {
    seq(n, i requires 0 <= i < n => at(i))
  }

  /** The first `n` commands of a run on a store with any budget; `rounds(i)` are the draws of the i-th. */
  ghost function RunIn(read: Reading, w: World, cmds: seq<Issued>, n: nat, rounds: nat -> Rounds): World
    requires n <= |cmds|
  {
    if n == 0 then w
    else PerformIn(RunIn(read, w, cmds, n - 1, rounds), read(cmds[n - 1].args), cmds[n - 1].at, rounds(n - 1)).0
  }

  /** Without a budget it is the run of the dispatcher's function. */
  lemma {:induction false} RunsAlike(read: Reading, w: World, cmds: seq<Issued>, n: nat, rounds: nat -> Rounds)
    requires w.max == 0 && n <= |cmds|
    ensures RunIn(read, w, cmds, n, rounds).max == 0
    ensures RunIn(read, w, cmds, n, rounds).state == Run(read, w.state, cmds[..n])
  {
    if n > 0 {
      RunsAlike(read, w, cmds, n - 1, rounds);
      var before, c := RunIn(read, w, cmds, n - 1, rounds), cmds[n - 1];
      PerformsAlike(before, read(c.args), c.at, rounds(n - 1));
      assert cmds[..n] == cmds[..n - 1] + [c];
      RunSnoc(read, w.state, cmds[..n - 1], c);
    }
  }

  /** What the parser still holds: the commands of the file behind the first `n`. */
  ghost predicate Holds(buffer: Bytes, commands: seq<Command>, all: Drained) {
    Prefixed(commands, Drain(buffer)) == all
  }

  lemma HeldNext(buffer: Bytes, commands: seq<Command>, all: Drained)
    requires Holds(buffer, commands, all)
    ensures commands <= all.commands
  {
  }

  /** The next command of the file; without one, all commands were taken. */
  method TakeOne(parser: Parser, ghost commands: seq<Command>, ghost all: Drained) returns (r: Parse)
    requires Holds(parser.buffer, commands, all)
    modifies parser
    ensures r.Complete? ==>
      |parser.buffer| < |old(parser.buffer)| && Holds(parser.buffer, commands + [r.args], all)
      && commands + [r.args] <= all.commands
    ensures !r.Complete? ==> commands == all.commands && r.ProtocolError? == all.failed
  {
    ghost var buffer := parser.buffer;
    r := parser.TryParseCommand();
    DrainStep(commands, buffer, r);
    if r.Complete? { HeldNext(parser.buffer, commands + [r.args], all); }
  }

  /** `run(n)` is the store after `n` commands. */
  ghost predicate Chained(run: nat -> World, read: Reading, cmds: seq<Issued>, rounds: nat -> Rounds) {
    forall n {:trigger PerformIn(run(n), read(cmds[n].args), cmds[n].at, rounds(n))} | 0 <= n < |cmds| ::
      PerformIn(run(n), read(cmds[n].args), cmds[n].at, rounds(n)).0 == run(n + 1)
  }

  lemma RunIsChained(read: Reading, w: World, cmds: seq<Issued>, rounds: nat -> Rounds) returns (run: nat -> World)
    ensures Chained(run, read, cmds, rounds) && forall n | 0 <= n <= |cmds| :: run(n) == RunIn(read, w, cmds, n, rounds)
  {
    run := (n: nat) => if n <= |cmds| then RunIn(read, w, cmds, n, rounds) else w;
  }

  method ReplayOne(store: S.Store, read: Reading, c: Issued, n: nat, draws: Rounds,
                   ghost run: nat -> World, ghost cmds: seq<Issued>, ghost rounds: nat -> Rounds)
    requires store.Valid() && Chained(run, read, cmds, rounds)
    requires n < |cmds| && c == cmds[n] && draws == rounds(n) && store.Here() == run(n)
    modifies store`used, store`accessClock, store`stalled, store`surplus, store.data
    ensures store.Valid() && store.Here() == run(n + 1)
  {
    var _, _ := Dispatch(store, read, c, draws);
  }

  method LoadLoop(store: S.Store, read: Reading, parser: Parser, at: nat -> Moment, rounds: nat -> Rounds,
                  ghost all: Drained, ghost cmds: seq<Issued>, ghost run: nat -> World)
    returns (ok: bool, commands: seq<Command>)
    requires store.Valid() && Chained(run, read, cmds, rounds) && store.Here() == run(0)
    requires Holds(parser.buffer, [], all) && |cmds| == |all.commands|
    requires forall i | 0 <= i < |cmds| :: cmds[i] == Issued(all.commands[i], at(i))
    modifies parser, store`used, store`accessClock, store`stalled, store`surplus, store.data
    ensures store.Valid() && store.Here() == run(|commands|)
    ensures ok == !all.failed && commands == all.commands
  {
    commands := [];
    while true
      invariant store.Valid() && store.Here() == run(|commands|)
      invariant Holds(parser.buffer, commands, all)
      decreases |parser.buffer|
    {
      var n := |commands|;
      var r := TakeOne(parser, commands, all);
      if !r.Complete? { return !r.ProtocolError?, commands; }
      commands := commands + [r.args];
      assert all.commands[n] == commands[n];
      ReplayOne(store, read, Issued(r.args, at(n)), n, rounds(n), run, cmds, rounds);
    }
  }

  /** Replays a log file into the store; `at(i)` and `rounds(i)` are the clock readings and the draws of the i-th
      replayed command. */
  method LoadAof(store: S.Store, read: Reading, file: Bytes, at: nat -> Moment, rounds: nat -> Rounds)
    returns (ok: bool, commands: seq<Command>)
    requires store.Valid()
    modifies store`used, store`accessClock, store`stalled, store`surplus, store.data
    ensures store.Valid()
    ensures ok == !Drain(file).failed && commands == Drain(file).commands
    ensures store.Here() == RunIn(read, old(store.Here()), Timed(commands, at), |commands|, rounds)
  {
    ghost var all := Drain(file);
    ghost var cmds := Timed(all.commands, at);
    ghost var run := RunIsChained(read, store.Here(), cmds, rounds);
    var parser := new Parser();
    parser.Feed(file);
    assert [] + file == file && [] + all.commands == all.commands;
    ok, commands := LoadLoop(store, read, parser, at, rounds, all, cmds, run);
  }

  // ---------------------------------------------------------------- a server, a crash, a restart

  /** The process dies while the command is being logged. */
  ghost predicate Lost(read: Reading, s: State, c: Issued, outcomes: seq<Aof.WriteOutcome>) {
    WouldLog(read, s, c) && Aof.Attempted(c.args, outcomes, true).status.None?
  }

  /** What a command adds to the log. */
  ghost function Entered(read: Reading, s: State, c: Issued, outcomes: seq<Aof.WriteOutcome>): Bytes {
    if WouldLog(read, s, c) then FrameOf(c.args)[..Aof.Attempted(c.args, outcomes, true).written] else []
  }

  /** A store and the file of its log. */
  datatype Site = Site(world: World, file: Bytes)

  /** One command: what becomes of store and file, and whether the process dies while it is being logged. */
  ghost function ServeIn(read: Reading, x: Site, c: Issued, outcomes: seq<Aof.WriteOutcome>, rounds: Rounds)
    : (Site, bool)
  {
    var (w, _, logged) := PerformIn(x.world, read(c.args), c.at, rounds);
    var a := Aof.Attempted(c.args, outcomes, true);
    if logged then (Site(w, x.file + FrameOf(c.args)[..a.written]), a.status.None?) else (Site(w, x.file), false)
  }

  /** One command, dispatched and then logged if it asks for it.  `outcomes` are the replies of write(). */
  method ServeOne(store: S.Store, read: Reading, aof: Aof.AofWriter, c: Issued,
                  outcomes: seq<Aof.WriteOutcome>, rounds: Rounds)
    returns (crashed: bool)
    requires store.Valid() && aof.open
    modifies store`used, store`accessClock, store`stalled, store`surplus, store.data, aof`file
    ensures store.Valid()
    ensures (Site(store.Here(), aof.file), crashed)
         == ServeIn(read, Site(old(store.Here()), old(aof.file)), c, outcomes, rounds)
  {
    var _, logged := Dispatch(store, read, c, rounds);
    crashed := false;
    if logged {
      var done, written := aof.Append(c.args, outcomes, true);
      crashed := done.None?;
    }
  }

  /** Store and file after the first `n` commands. */
  ghost function SiteAt(read: Reading, x: Site, cmds: seq<Issued>, outcomes: nat -> seq<Aof.WriteOutcome>,
                        rounds: nat -> Rounds, n: nat): Site
    requires n <= |cmds|
  {
    if n == 0 then x
    else ServeIn(read, SiteAt(read, x, cmds, outcomes, rounds, n - 1), cmds[n - 1], outcomes(n - 1), rounds(n - 1)).0
  }

  ghost predicate CrashesAt(read: Reading, x: Site, cmds: seq<Issued>, outcomes: nat -> seq<Aof.WriteOutcome>,
                            rounds: nat -> Rounds, n: nat)
    requires n < |cmds|
  {
    ServeIn(read, SiteAt(read, x, cmds, outcomes, rounds, n), cmds[n], outcomes(n), rounds(n)).1
  }

  /** `site(n)` is where the server is after `n` commands, and `dies(n)` says that the next one kills it. */
  ghost predicate Serves(site: nat -> Site, dies: nat -> bool, read: Reading, cmds: seq<Issued>,
                         outcomes: nat -> seq<Aof.WriteOutcome>, rounds: nat -> Rounds)
  {
    forall n {:trigger ServeIn(read, site(n), cmds[n], outcomes(n), rounds(n))} | 0 <= n < |cmds| ::
      ServeIn(read, site(n), cmds[n], outcomes(n), rounds(n)) == (site(n + 1), dies(n))
  }

  lemma SitesServe(read: Reading, x: Site, cmds: seq<Issued>, outcomes: nat -> seq<Aof.WriteOutcome>,
                   rounds: nat -> Rounds) returns (site: nat -> Site, dies: nat -> bool)
    ensures Serves(site, dies, read, cmds, outcomes, rounds) && site(0) == x
    ensures forall n | 0 <= n <= |cmds| :: site(n) == SiteAt(read, x, cmds, outcomes, rounds, n)
    ensures forall n | 0 <= n < |cmds| :: dies(n) == CrashesAt(read, x, cmds, outcomes, rounds, n)
  {
    site := (n: nat) => if n <= |cmds| then SiteAt(read, x, cmds, outcomes, rounds, n) else x;
    dies := (n: nat) => n < |cmds| && CrashesAt(read, x, cmds, outcomes, rounds, n);
  }

  /** The run stops at the first command that kills it, if any. */
  predicate Stops(dies: nat -> bool, n: nat, done: nat) {
    done <= n && (forall i | 0 <= i < done :: !dies(i)) && (done < n ==> dies(done))
  }

  method ServeNth(store: S.Store, read: Reading, aof: Aof.AofWriter, cmds: seq<Issued>, n: nat,
                  outcomes: nat -> seq<Aof.WriteOutcome>, rounds: nat -> Rounds,
                  ghost site: nat -> Site, ghost dies: nat -> bool)
    returns (crashed: bool)
    requires store.Valid() && aof.open && Serves(site, dies, read, cmds, outcomes, rounds)
    requires n < |cmds| && Site(store.Here(), aof.file) == site(n)
    modifies store`used, store`accessClock, store`stalled, store`surplus, store.data, aof`file
    ensures store.Valid() && Site(store.Here(), aof.file) == site(n + 1) && crashed == dies(n)
  {
    crashed := ServeOne(store, read, aof, cmds[n], outcomes(n), rounds(n));
  }

  method ServeLoop(store: S.Store, read: Reading, aof: Aof.AofWriter, cmds: seq<Issued>,
                   outcomes: nat -> seq<Aof.WriteOutcome>, rounds: nat -> Rounds,
                   ghost site: nat -> Site, ghost dies: nat -> bool)
    returns (done: nat)
    requires store.Valid() && aof.open && Serves(site, dies, read, cmds, outcomes, rounds)
    requires Site(store.Here(), aof.file) == site(0)
    modifies store`used, store`accessClock, store`stalled, store`surplus, store.data, aof`file
    ensures store.Valid() && Stops(dies, |cmds|, done)
    ensures Site(store.Here(), aof.file) == site(if done < |cmds| then done + 1 else done)
  {
    done := 0;
    while done < |cmds|
      invariant done <= |cmds| && store.Valid() && Site(store.Here(), aof.file) == site(done)
      invariant forall i | 0 <= i < done :: !dies(i)
    {
      var crashed := ServeNth(store, read, aof, cmds, done, outcomes, rounds, site, dies);
      if crashed { return; }
      done := done + 1;
    }
  }

  /** One command after another, until the process dies; for any budget and any replies of write(). */
  method ServeCommands(store: S.Store, read: Reading, aof: Aof.AofWriter, cmds: seq<Issued>,
                       outcomes: nat -> seq<Aof.WriteOutcome>, rounds: nat -> Rounds)
    returns (done: nat)
    requires store.Valid() && aof.open
    modifies store`used, store`accessClock, store`stalled, store`surplus, store.data, aof`file
    ensures store.Valid() && done <= |cmds|
    ensures var x := Site(old(store.Here()), old(aof.file));
      && (forall i | 0 <= i < done :: !CrashesAt(read, x, cmds, outcomes, rounds, i))
      && (done < |cmds| ==> CrashesAt(read, x, cmds, outcomes, rounds, done))
      && Site(store.Here(), aof.file)
         == SiteAt(read, x, cmds, outcomes, rounds, if done < |cmds| then done + 1 else done)
  {
    ghost var site, dies := SitesServe(read, Site(store.Here(), aof.file), cmds, outcomes, rounds);
    done := ServeLoop(store, read, aof, cmds, outcomes, rounds, site, dies);
  }

  // ---------------------------------------------------------------- without a budget and without failing writes

  /** The first `n` commands have run, and their log stands behind what the file held before. */
  ghost predicate Served(read: Reading, start: State, before: Bytes, cmds: seq<Issued>, n: nat, now: State, file: Bytes)
    requires n <= |cmds|
  {
    now == Run(read, start, cmds[..n]) && file == before + Aof.LogOf(Logged(read, start, cmds[..n]))
  }

  lemma ServedMore(read: Reading, start: State, before: Bytes, cmds: seq<Issued>, n: nat, now: State, file: Bytes)
    requires n < |cmds| && Served(read, start, before, cmds, n, now, file)
    ensures Served(read, start, before, cmds, n + 1, Dispatcher.Dispatch(read, now, cmds[n]).state,
                   file + (if WouldLog(read, now, cmds[n]) then FrameOf(cmds[n].args) else []))
  {
    var c, log := cmds[n], Logged(read, start, cmds[..n]);
    assert cmds[..n + 1] == cmds[..n] + [c];
    RunSnoc(read, start, cmds[..n], c);
    if WouldLog(read, now, c) {
      Aof.LogSnoc(log, c.args);
      Assoc(before, Aof.LogOf(log), FrameOf(c.args));
    } else {
      assert log + [] == log && file + [] == file;
    }
  }

  lemma ServedNone(read: Reading, start: State, before: Bytes, cmds: seq<Issued>)
    ensures Served(read, start, before, cmds, 0, start, before)
  {
    assert before + [] == before;
  }

  /** The first command from `n` on that is lost; the number of commands if none is. */
  ghost function CrashPoint(read: Reading, s: State, cmds: seq<Issued>,
                            outcomes: nat -> seq<Aof.WriteOutcome>, n: nat): (k: nat)
    requires n <= |cmds|
    ensures n <= k <= |cmds|
    decreases |cmds| - n
  {
    if n == |cmds| || Lost(read, Run(read, s, cmds[..n]), cmds[n], outcomes(n)) then n
    else CrashPoint(read, s, cmds, outcomes, n + 1)
  }

  /** Every command before the crash was acknowledged with its whole frame synced, or did not ask to be logged. */
  lemma {:induction false} AcknowledgedBefore(read: Reading, s: State, cmds: seq<Issued>,
                                              outcomes: nat -> seq<Aof.WriteOutcome>, n: nat, i: nat)
    requires n <= i < |cmds| && i < CrashPoint(read, s, cmds, outcomes, n) && Aof.Failed !in outcomes(i)
    ensures WouldLog(read, Run(read, s, cmds[..i]), cmds[i]) ==>
      Aof.Attempted(cmds[i].args, outcomes(i), true) == Aof.Attempt(|FrameOf(cmds[i].args)|, Some(true))
    decreases |cmds| - n
  {
    if n < i {
      AcknowledgedBefore(read, s, cmds, outcomes, n + 1, i);
    } else {
      Aof.WriteEnds(|FrameOf(cmds[i].args)|, 0, outcomes(i), 0, true);
    }
  }

  lemma NotLost(read: Reading, s: State, c: Issued, outcomes: seq<Aof.WriteOutcome>)
    requires Aof.Failed !in outcomes && !Lost(read, s, c, outcomes)
    ensures Entered(read, s, c, outcomes) == if WouldLog(read, s, c) then FrameOf(c.args) else []
  {
    Aof.WriteEnds(|FrameOf(c.args)|, 0, outcomes, 0, true);
    assert FrameOf(c.args)[..|FrameOf(c.args)|] == FrameOf(c.args);
  }

  /** Where a run ends: the log of the commands before the crash, and part of the frame of the lost one. */
  ghost predicate Left(read: Reading, start: State, before: Bytes, cmds: seq<Issued>, done: nat,
                       outcomes: nat -> seq<Aof.WriteOutcome>, file: Bytes)
    requires done <= |cmds|
  {
    var log := before + Aof.LogOf(Logged(read, start, cmds[..done]));
    file == if done == |cmds| then log
            else log + FrameOf(cmds[done].args)[..Aof.Attempted(cmds[done].args, outcomes(done), true).written]
  }

  lemma ServesAlike(read: Reading, x: Site, c: Issued, outcomes: seq<Aof.WriteOutcome>, rounds: Rounds)
    requires x.world.max == 0
    ensures var (y, crashed) := ServeIn(read, x, c, outcomes, rounds);
      && y.world.max == 0 && y.world.state == Dispatcher.Dispatch(read, x.world.state, c).state
      && y.file == x.file + Entered(read, x.world.state, c, outcomes)
      && crashed == Lost(read, x.world.state, c, outcomes)
  {
    PerformsAlike(x.world, read(c.args), c.at, rounds);
    assert x.file + [] == x.file;
  }

  lemma {:induction false} SitesAreServed(site: nat -> Site, dies: nat -> bool, read: Reading, cmds: seq<Issued>,
                                          outcomes: nat -> seq<Aof.WriteOutcome>, rounds: nat -> Rounds, n: nat)
    requires Serves(site, dies, read, cmds, outcomes, rounds) && site(0).world.max == 0 && n <= |cmds|
    requires forall i | 0 <= i < n :: Aof.Failed !in outcomes(i) && !dies(i)
    ensures site(n).world.max == 0
    ensures Served(read, site(0).world.state, site(0).file, cmds, n, site(n).world.state, site(n).file)
  {
    if n == 0 {
      ServedNone(read, site(0).world.state, site(0).file, cmds);
    } else {
      SitesAreServed(site, dies, read, cmds, outcomes, rounds, n - 1);
      var y := site(n - 1);
      ServesAlike(read, y, cmds[n - 1], outcomes(n - 1), rounds(n - 1));
      NotLost(read, y.world.state, cmds[n - 1], outcomes(n - 1));
      ServedMore(read, site(0).world.state, site(0).file, cmds, n - 1, y.world.state, y.file);
    }
  }

  lemma LostIfDies(site: nat -> Site, dies: nat -> bool, read: Reading, cmds: seq<Issued>,
                   outcomes: nat -> seq<Aof.WriteOutcome>, rounds: nat -> Rounds, n: nat)
    requires Serves(site, dies, read, cmds, outcomes, rounds) && site(0).world.max == 0 && n < |cmds|
    requires forall i | 0 <= i < n :: Aof.Failed !in outcomes(i) && !dies(i)
    ensures dies(n) <==> Lost(read, Run(read, site(0).world.state, cmds[..n]), cmds[n], outcomes(n))
    ensures dies(n) ==>
      site(n + 1).file == site(n).file + FrameOf(cmds[n].args)[..Aof.Attempted(cmds[n].args, outcomes(n), true).written]
  {
    SitesAreServed(site, dies, read, cmds, outcomes, rounds, n);
    ServesAlike(read, site(n), cmds[n], outcomes(n), rounds(n));
  }

  lemma {:induction false} SameCrash(site: nat -> Site, dies: nat -> bool, read: Reading, cmds: seq<Issued>,
                                     outcomes: nat -> seq<Aof.WriteOutcome>, rounds: nat -> Rounds, n: nat, done: nat)
    requires Serves(site, dies, read, cmds, outcomes, rounds) && site(0).world.max == 0
    requires n <= done && Stops(dies, |cmds|, done) && forall i | 0 <= i < done :: Aof.Failed !in outcomes(i)
    ensures done == CrashPoint(read, site(0).world.state, cmds, outcomes, n)
    decreases done - n
  {
    if n < |cmds| { LostIfDies(site, dies, read, cmds, outcomes, rounds, n); }
    if n < done { SameCrash(site, dies, read, cmds, outcomes, rounds, n + 1, done); }
  }

  /** Without a budget and without failing writes, the run ends where the first command is lost, and leaves its log. */
  lemma WhatIsLeft(site: nat -> Site, dies: nat -> bool, read: Reading, cmds: seq<Issued>,
                   outcomes: nat -> seq<Aof.WriteOutcome>, rounds: nat -> Rounds, done: nat)
    requires Serves(site, dies, read, cmds, outcomes, rounds) && site(0).world.max == 0
    requires Stops(dies, |cmds|, done) && forall i | 0 <= i < |cmds| :: Aof.Failed !in outcomes(i)
    ensures done == CrashPoint(read, site(0).world.state, cmds, outcomes, 0)
    ensures Left(read, site(0).world.state, site(0).file, cmds, done, outcomes,
                 site(if done < |cmds| then done + 1 else done).file)
  {
    SameCrash(site, dies, read, cmds, outcomes, rounds, 0, done);
    SitesAreServed(site, dies, read, cmds, outcomes, rounds, done);
    if done < |cmds| { LostIfDies(site, dies, read, cmds, outcomes, rounds, done); }
  }

  lemma {:induction false} CrashIsLost(read: Reading, s: State, cmds: seq<Issued>,
                                       outcomes: nat -> seq<Aof.WriteOutcome>, n: nat)
    requires n <= |cmds| && CrashPoint(read, s, cmds, outcomes, n) < |cmds|
    ensures var k := CrashPoint(read, s, cmds, outcomes, n); Lost(read, Run(read, s, cmds[..k]), cmds[k], outcomes(k))
    decreases |cmds| - n
  {
    if !Lost(read, Run(read, s, cmds[..n]), cmds[n], outcomes(n)) { CrashIsLost(read, s, cmds, outcomes, n + 1); }
  }

  /** The file that is left loads, to exactly the logged commands before the crash. */
  lemma FileLoads(read: Reading, cmds: seq<Issued>, done: nat, outcomes: nat -> seq<Aof.WriteOutcome>, file: Bytes)
    requires forall i | 0 <= i < |cmds| :: WithinLimits(cmds[i].args)
    requires done == CrashPoint(read, EMPTY, cmds, outcomes, 0) && Left(read, EMPTY, [], cmds, done, outcomes, file)
    ensures !Drain(file).failed && Drain(file).commands == Logged(read, EMPTY, cmds[..done])
  {
    var log := Logged(read, EMPTY, cmds[..done]);
    assert [] + Aof.LogOf(log) == Aof.LogOf(log);
    if done == |cmds| {
      LoggedWithinLimits(read, EMPTY, cmds[..done]);
      Aof.LogLoadsExactly(log);
    } else {
      var c := cmds[done];
      CrashIsLost(read, EMPTY, cmds, outcomes, 0);
      Aof.WriteEnds(|FrameOf(c.args)|, 0, outcomes(done), 0, true);
      CrashFile(read, cmds[..done], c, Aof.Attempted(c.args, outcomes(done), true).written);
    }
  }

  /** A new server on an empty log, up to its crash. */
  method RunUntilCrash(read: Reading, aof: Aof.AofWriter, cmds: seq<Issued>,
                       outcomes: nat -> seq<Aof.WriteOutcome>, rounds: nat -> Rounds)
    returns (done: nat)
    requires aof.open && aof.file == []
    requires forall i | 0 <= i < |cmds| :: WithinLimits(cmds[i].args) && Aof.Failed !in outcomes(i)
    modifies aof`file
    ensures done == CrashPoint(read, EMPTY, cmds, outcomes, 0)
    ensures !Drain(aof.file).failed && Drain(aof.file).commands == Logged(read, EMPTY, cmds[..done])
  {
    var store := new S.Store();
    ghost var site, dies := SitesServe(read, Site(store.Here(), aof.file), cmds, outcomes, rounds);
    done := ServeLoop(store, read, aof, cmds, outcomes, rounds, site, dies);
    WhatIsLeft(site, dies, read, cmds, outcomes, rounds, done);
    FileLoads(read, cmds, done, outcomes, aof.file);
  }

  /** A new server that starts from a log. */
  method Restart(read: Reading, file: Bytes, again: nat -> Moment, rounds: nat -> Rounds)
    returns (ok: bool, commands: seq<Command>, store: S.Store)
    ensures fresh(store) && store.Valid() && ok == !Drain(file).failed && commands == Drain(file).commands
    ensures store.Now() == Run(read, EMPTY, Timed(commands, again))
  {
    store := new S.Store();
    ghost var start := store.Here();
    ok, commands := LoadAof(store, read, file, again, rounds);
    RunsAlike(read, start, Timed(commands, again), |commands|, rounds);
    assert Timed(commands, again)[..|commands|] == Timed(commands, again);
  }

  /** A server runs, crashes where the replies of write() run out or not at all, and another one starts from the log
      it left: it has the data of exactly the commands before the crash. */
  method CrashAndRestart(read: Reading, aof: Aof.AofWriter, cmds: seq<Issued>, outcomes: nat -> seq<Aof.WriteOutcome>,
                         again: nat -> Moment, rounds: nat -> Rounds)
    returns (done: nat, ok: bool, commands: seq<Command>, store: S.Store)
    requires aof.open && aof.file == []
    requires forall i | 0 <= i < |cmds| :: WithinLimits(cmds[i].args) && Aof.Failed !in outcomes(i)
    modifies aof`file
    ensures done == CrashPoint(read, EMPTY, cmds, outcomes, 0) && ok && store.Valid()
    ensures commands == Logged(read, EMPTY, cmds[..done])
    ensures NoDeadlinePasses(read, EMPTY, cmds[..done]) && NoDeadlinePasses(read, EMPTY, Timed(commands, again)) ==>
      ShapeOf(store.data.contents) == ShapeOf(Run(read, EMPTY, cmds[..done]).space)
  {
    done := RunUntilCrash(read, aof, cmds, outcomes, rounds);
    ok, commands, store := Restart(read, aof.file, again, rounds);
    if NoDeadlinePasses(read, EMPTY, cmds[..done]) && NoDeadlinePasses(read, EMPTY, Timed(commands, again)) {
      ReplayRebuilds(read, EMPTY, cmds[..done], EMPTY, Moments(again, |commands|));
    }
  }
}
