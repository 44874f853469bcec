/** The append-only log of src/server/aof.cpp: concurrent appends, crashes, and what a load finds. */
module Aof {
  import opened Bytes
  import opened Decimal
  import opened Resp
  import opened CommandParser
  import opened ParserTheory
  import opened Framing

  /** A log file: the frames of its commands, one after the other. */
  function LogOf(cmds: seq<Command>): Bytes {
    if cmds == [] then [] else FrameOf(cmds[0]) + LogOf(cmds[1..])
  }

  predicate AllWithinLimits(cmds: seq<Command>) {
    forall i | 0 <= i < |cmds| :: WithinLimits(cmds[i])
  }

  // ---------------------------------------------------------------- loading

  /** The commands as a client would have sent them. */
  function Frames(cmds: seq<Command>): (items: seq<Request>)
    requires AllWithinLimits(cmds)
    ensures |items| == |cmds| && forall i | 0 <= i < |cmds| :: items[i] == Frame(cmds[i])
  {
    seq(|cmds|, i requires 0 <= i < |cmds| => Frame(cmds[i]))
  }

  lemma {:induction false} LogIsStream(cmds: seq<Command>)
    requires AllWithinLimits(cmds)
    ensures LogOf(cmds) == Stream(Frames(cmds))
  {
    if cmds != [] {
      LogIsStream(cmds[1..]);
      assert Frames(cmds)[1..] == Frames(cmds[1..]);
    }
  }

  lemma {:induction false} FramesAsk(cmds: seq<Command>)
    requires AllWithinLimits(cmds)
    ensures Commands(Frames(cmds)) == cmds
  {
    if cmds != [] {
      FramesAsk(cmds[1..]);
      assert Frames(cmds)[1..] == Frames(cmds[1..]);
      assert [cmds[0]] + cmds[1..] == cmds;
    }
  }

  /** Whole frames come off the front of a log, whatever follows them. */
  lemma LoadFrames(cmds: seq<Command>, tail: Bytes)
    requires AllWithinLimits(cmds)
    ensures Drain(LogOf(cmds) + tail) == Prefixed(cmds, Drain(tail))
  {
    LogIsStream(cmds);
    FramesAsk(cmds);
    DrainStream(Frames(cmds), tail);
  }

  lemma {:induction false} LogSplit(cmds: seq<Command>, n: nat)
    requires n < |cmds|
    ensures LogOf(cmds) == LogOf(cmds[..n]) + (FrameOf(cmds[n]) + LogOf(cmds[n + 1..]))
  {
    if n == 0 {
      assert cmds[..0] == [];
    } else {
      LogSplit(cmds[1..], n - 1);
      assert cmds[1..][..n - 1] == cmds[..n][1..] && cmds[1..][n..] == cmds[n + 1..];
      Assoc(FrameOf(cmds[0]), LogOf(cmds[..n][1..]), FrameOf(cmds[n]) + LogOf(cmds[n + 1..]));
    }
  }

  lemma FirstBeyondLimits(cmds: seq<Command>) returns (n: nat)
    requires !AllWithinLimits(cmds)
    ensures n < |cmds| && !WithinLimits(cmds[n]) && AllWithinLimits(cmds[..n])
  {
    n := 0;
    while WithinLimits(cmds[n])
      invariant n < |cmds| && forall i | 0 <= i < n :: WithinLimits(cmds[i])
      decreases |cmds| - n
    {
      n := n + 1;
    }
  }

  /** A whole log loads exactly when every logged command is within the parser's limits; it then gives them all back. */
  lemma LogLoadsExactly(cmds: seq<Command>)
    ensures !Drain(LogOf(cmds)).failed <==> AllWithinLimits(cmds)
    ensures AllWithinLimits(cmds) ==> Drain(LogOf(cmds)) == Drained(cmds, [], false)
  {
    var none: Bytes := [];
    if AllWithinLimits(cmds) {
      LoadFrames(cmds, none);
      assert LogOf(cmds) + none == LogOf(cmds) && cmds + [] == cmds;
    } else {
      var n := FirstBeyondLimits(cmds);
      var tail := FrameOf(cmds[n]) + LogOf(cmds[n + 1..]);
      LogSplit(cmds, n);
      LoadFrames(cmds[..n], tail);
      FrameReads(cmds[n], LogOf(cmds[n + 1..]));
    }
  }

  // ---------------------------------------------------------------- one append

  /** What one call of write() did. */
  datatype WriteOutcome = Wrote(n: nat) | Interrupted | Failed

  /** How much of the frame reached the file, and what Append returned; nothing if the process died on the way. */
  datatype Attempt = Attempt(written: nat, status: Option<bool>)

  /** The write loop with `written` bytes of `len` done, from reply `i` of write() on; without replies it is a crash. */
  function WriteFrom(len: nat, written: nat, outcomes: seq<WriteOutcome>, i: nat, synced: bool): (a: Attempt)
    requires written <= len && i <= |outcomes|
    ensures a.written <= len
    decreases |outcomes| - i
  {
    if written == len then Attempt(len, Some(synced))
    else if i == |outcomes| then Attempt(written, None)
    else
      match outcomes[i]
      case Interrupted => WriteFrom(len, written, outcomes, i + 1, synced)
      case Failed => Attempt(written, Some(false))
      case Wrote(n) =>
        WriteFrom(len, if n <= len - written then written + n else len, outcomes, i + 1, synced)
  }

  function Attempted(cmd: Command, outcomes: seq<WriteOutcome>, synced: bool): (a: Attempt)
    ensures a.written <= |FrameOf(cmd)|
  {
    WriteFrom(|FrameOf(cmd)|, 0, outcomes, 0, synced)
  }

  /** True means written and synced; a crash means torn; and without a failing write() there is nothing else
      but a whole frame that could not be synced. */
  lemma {:induction false} WriteEnds(len: nat, written: nat, outcomes: seq<WriteOutcome>, i: nat, synced: bool)
    requires written <= len && i <= |outcomes|
    ensures var a := WriteFrom(len, written, outcomes, i, synced);
      && (a.status == Some(true) ==> a.written == len && synced)
      && (a.status == None ==> a.written < len)
      && (Failed !in outcomes && a.status.Some? ==> a.written == len && a.status == Some(synced))
    decreases |outcomes| - i
  {
    if written < len && i < |outcomes| {
      match outcomes[i]
      case Interrupted => WriteEnds(len, written, outcomes, i + 1, synced);
      case Failed =>
      case Wrote(n) => WriteEnds(len, if n <= len - written then written + n else len, outcomes, i + 1, synced);
    }
  }

  class AofWriter {
    var open: bool
    var file: Bytes

    /** Append under the mutex.  `outcomes` are the replies of write(). */
    method Append(args: Command, outcomes: seq<WriteOutcome>, synced: bool) returns (done: Option<bool>, written: nat)
      modifies `file
      ensures Attempt(written, done) == if open then Attempted(args, outcomes, synced) else Attempt(0, Some(false))
      ensures file == old(file) + FrameOf(args)[..written]
    {
      written := 0;
      assert FrameOf(args)[..0] == [];
      if !open { return Some(false), 0; }
      var encoded := EncodeValue(Array(Bulks(args)));
      var remaining, i := |encoded|, 0;
      while remaining > 0
        invariant 0 <= remaining <= |encoded| && written == |encoded| - remaining && i <= |outcomes|
        invariant WriteFrom(|encoded|, written, outcomes, i, synced) == Attempted(args, outcomes, synced)
        invariant file == old(file) + encoded[..written]
        decreases |outcomes| - i
      {
        if i == |outcomes| { return None, written; }
        var outcome := outcomes[i];
        i := i + 1;
        match outcome
        case Interrupted =>
        case Failed => return Some(false), written;
        case Wrote(n) =>
          var m := if n <= remaining then n else remaining;
          TakeMore(encoded, written, m);
          Assoc(old(file), encoded[..written], encoded[written..written + m]);
          file := file + encoded[written..written + m];
          written, remaining := written + m, remaining - m;
      }
      done := Some(synced);
    }
  }

  lemma TakeMore(s: Bytes, k: nat, m: nat)
    requires k + m <= |s|
    ensures s[..k + m] == s[..k] + s[k..k + m]
  {
  }

  // ---------------------------------------------------------------- any number of threads

  /** The thread that holds the mutex, its command, and how much of its frame is written. */
  datatype Holder = Holder(thread: nat, cmd: Command, written: nat)

  /** `done` are the commands whose append has finished; `tail` is what a failed append left behind. */
  datatype State = State(file: Bytes, holder: Option<Holder>, done: seq<Command>, tail: Bytes)

  datatype Step =
    | Acquire(thread: nat, cmd: Command)
    | Write(n: nat)
    | Retry
    | Release
    | Fail

  predicate Enabled(s: State, step: Step) {
    match step
    case Acquire(_, _) => s.holder.None?
    case Release => s.holder.Some? && s.holder.value.written == |FrameOf(s.holder.value.cmd)|
    case Write(n) => s.holder.Some? && s.holder.value.written < |FrameOf(s.holder.value.cmd)|
      && s.holder.value.written + n <= |FrameOf(s.holder.value.cmd)|
    case _ => s.holder.Some? && s.holder.value.written < |FrameOf(s.holder.value.cmd)|
  }

  function Apply(s: State, step: Step): State
    requires Enabled(s, step)
  {
    match step
    case Acquire(t, cmd) => s.(holder := Some(Holder(t, cmd, 0)))
    case Retry => s
    case Release => s.(holder := None, done := s.done + [s.holder.value.cmd])
    case Fail =>
      var h := s.holder.value;
      s.(holder := None, tail := s.tail + FrameOf(h.cmd)[..h.written])
    case Write(n) =>
      var h := s.holder.value;
      State(s.file + FrameOf(h.cmd)[h.written..h.written + n], Some(h.(written := h.written + n)), s.done, s.tail)
  }

  /** Any schedule of threads within the limits, in which nobody appends behind a frame that a failure tore. */
  predicate Schedule(s: State, steps: seq<Step>)
    decreases |steps|
  {
    steps == [] ||
    (&& Enabled(s, steps[0])
     && (steps[0].Acquire? ==> WithinLimits(steps[0].cmd) && s.tail == [])
     && Schedule(Apply(s, steps[0]), steps[1..]))
  }

  function Run(s: State, steps: seq<Step>): State
    requires Schedule(s, steps)
    decreases |steps|
  {
    if steps == [] then s else Run(Apply(s, steps[0]), steps[1..])
  }

  /** The steps of one append from reply `i` of write() on, with `written` of `len` bytes done. */
  function StepsFrom(len: nat, written: nat, outcomes: seq<WriteOutcome>, i: nat): seq<Step>
    requires written <= len && i <= |outcomes|
    decreases |outcomes| - i
  {
    if written == len then [Release]
    else if i == |outcomes| then []
    else
      match outcomes[i]
      case Interrupted => [Retry] + StepsFrom(len, written, outcomes, i + 1)
      case Failed => [Fail]
      case Wrote(n) =>
        var m := if n <= len - written then n else len - written;
        [Write(m)] + StepsFrom(len, written + m, outcomes, i + 1)
  }

  /** The steps lead where the attempt ends: the same bytes, and the mutex free unless the process died. */
  ghost predicate Reaches(s: State, t: State, cmd: Command, from: nat, a: Attempt)
    requires from <= a.written <= |FrameOf(cmd)|
  {
    && t.file == s.file + FrameOf(cmd)[from..a.written]
    && (t.holder.None? <==> a.status.Some?)
    && t.done == if a.status.Some? && a.written == |FrameOf(cmd)| then s.done + [cmd] else s.done
  }

  ghost predicate Leads(s: State, steps: seq<Step>, cmd: Command, from: nat, a: Attempt) {
    from <= a.written <= |FrameOf(cmd)| && Schedule(s, steps) && Reaches(s, Run(s, steps), cmd, from, a)
  }

  lemma LeadsNowhere(s: State, cmd: Command, a: Attempt)
    requires s.holder.Some? && a.written <= |FrameOf(cmd)| && a.status.None?
    ensures Leads(s, [], cmd, a.written, a)
  {
    assert s.file + FrameOf(cmd)[a.written..a.written] == s.file;
  }

  lemma LeadsToEnd(s: State, step: Step, a: Attempt)
    requires Enabled(s, step) && (step.Release? || step.Fail?) && a == Attempt(s.holder.value.written, a.status)
    requires a.status.Some? && a.written <= |FrameOf(s.holder.value.cmd)|
    ensures Leads(s, [step], s.holder.value.cmd, a.written, a)
  {
    assert [step][1..] == [];
    assert s.file + FrameOf(s.holder.value.cmd)[a.written..a.written] == s.file;
  }

  lemma LeadsOn(s: State, step: Step, steps: seq<Step>, m: nat, a: Attempt)
    requires Enabled(s, step) && step == (if m == 0 && step.Retry? then Retry else Write(m))
    requires Leads(Apply(s, step), steps, s.holder.value.cmd, s.holder.value.written + m, a)
    ensures Leads(s, [step] + steps, s.holder.value.cmd, s.holder.value.written, a)
  {
    var t, frame, from := Apply(s, step), FrameOf(s.holder.value.cmd), s.holder.value.written;
    assert ([step] + steps)[0] == step && ([step] + steps)[1..] == steps;
    assert t.file == s.file + frame[from..from + m];
    Assoc(s.file, frame[from..from + m], frame[from + m..a.written]);
    assert frame[from..from + m] + frame[from + m..a.written] == frame[from..a.written];
  }

  lemma {:induction false} StepsLead(s: State, outcomes: seq<WriteOutcome>, i: nat, synced: bool)
    requires s.holder.Some? && s.holder.value.written <= |FrameOf(s.holder.value.cmd)| && i <= |outcomes|
    ensures var h := s.holder.value; var len := |FrameOf(h.cmd)|;
      Leads(s, StepsFrom(len, h.written, outcomes, i), h.cmd, h.written, WriteFrom(len, h.written, outcomes, i, synced))
    decreases |outcomes| - i
  {
    var h := s.holder.value;
    var len := |FrameOf(h.cmd)|;
    var a := WriteFrom(len, h.written, outcomes, i, synced);
    if h.written == len {
      LeadsToEnd(s, Release, a);
    } else if i == |outcomes| {
      LeadsNowhere(s, h.cmd, a);
    } else {
      match outcomes[i]
      case Interrupted =>
        StepsLead(s, outcomes, i + 1, synced);
        LeadsOn(s, Retry, StepsFrom(len, h.written, outcomes, i + 1), 0, a);
      case Failed => LeadsToEnd(s, Fail, a);
      case Wrote(n) =>
        var m := if n <= len - h.written then n else len - h.written;
        StepsLead(Apply(s, Write(m)), outcomes, i + 1, synced);
        LeadsOn(s, Write(m), StepsFrom(len, h.written + m, outcomes, i + 1), m, a);
    }
  }

  /** An append with given replies of write() is a schedule of one thread's steps, with the same bytes in the file. */
  lemma AppendIsSchedule(s: State, thread: nat, cmd: Command, outcomes: seq<WriteOutcome>, synced: bool)
    requires s.holder.None? && s.tail == [] && WithinLimits(cmd)
    ensures Leads(s, [Acquire(thread, cmd)] + StepsFrom(|FrameOf(cmd)|, 0, outcomes, 0), cmd, 0,
                  Attempted(cmd, outcomes, synced))
  {
    var first, more := Acquire(thread, cmd), StepsFrom(|FrameOf(cmd)|, 0, outcomes, 0);
    StepsLead(Apply(s, first), outcomes, 0, synced);
    assert ([first] + more)[0] == first && ([first] + more)[1..] == more;
  }

  /** The bytes behind the finished frames. */
  function Unfinished(s: State): Bytes
    requires s.holder.Some? ==> s.holder.value.written <= |FrameOf(s.holder.value.cmd)|
  {
    if s.holder.Some? then FrameOf(s.holder.value.cmd)[..s.holder.value.written] else s.tail
  }

  /** Part of some frame within the limits. */
  ghost predicate PartOfFrame(b: Bytes) {
    b == [] || exists cmd :: WithinLimits(cmd) && b < FrameOf(cmd)
  }

  /** What every step keeps: whole frames in the order of the finished appends, then part of one frame. */
  ghost predicate Sound(s: State) {
    && AllWithinLimits(s.done)
    && PartOfFrame(s.tail)
    && (s.holder.Some? ==>
          && WithinLimits(s.holder.value.cmd)
          && s.holder.value.written <= |FrameOf(s.holder.value.cmd)|
          && s.tail == [])
    && s.file == LogOf(s.done) + Unfinished(s)
  }

  lemma LogSnoc(cmds: seq<Command>, cmd: Command)
    ensures LogOf(cmds + [cmd]) == LogOf(cmds) + FrameOf(cmd)
  {
    LogSplit(cmds + [cmd], |cmds|);
    assert (cmds + [cmd])[..|cmds|] == cmds && (cmds + [cmd])[|cmds| + 1..] == [];
    assert FrameOf(cmd) + LogOf([]) == FrameOf(cmd);
  }

  lemma WriteKeepsSound(s: State, n: nat)
    requires Sound(s) && Enabled(s, Write(n))
    ensures Sound(Apply(s, Write(n)))
  {
    var h := s.holder.value;
    TakeMore(FrameOf(h.cmd), h.written, n);
    Assoc(LogOf(s.done), FrameOf(h.cmd)[..h.written], FrameOf(h.cmd)[h.written..h.written + n]);
  }

  lemma ReleaseKeepsSound(s: State)
    requires Sound(s) && Enabled(s, Release)
    ensures Sound(Apply(s, Release))
  {
    var cmd := s.holder.value.cmd;
    assert FrameOf(cmd)[..|FrameOf(cmd)|] == FrameOf(cmd);
    LogSnoc(s.done, cmd);
    var file := LogOf(s.done + [cmd]);
    assert file + [] == file;
  }

  lemma FailKeepsSound(s: State)
    requires Sound(s) && Enabled(s, Fail)
    ensures Sound(Apply(s, Fail))
  {
    var h := s.holder.value;
    var part := FrameOf(h.cmd)[..h.written];
    assert [] + part == part && part < FrameOf(h.cmd);
  }

  lemma StepKeepsSound(s: State, step: Step)
    requires Sound(s) && Enabled(s, step)
    requires step.Acquire? ==> WithinLimits(step.cmd) && s.tail == []
    ensures Sound(Apply(s, step))
  {
    match step
    case Acquire(_, cmd) => assert FrameOf(cmd)[..0] == s.tail;
    case Retry =>
    case Write(n) => WriteKeepsSound(s, n);
    case Release => ReleaseKeepsSound(s);
    case Fail => FailKeepsSound(s);
  }

  lemma {:induction false} RunIsSound(s: State, steps: seq<Step>)
    requires Sound(s) && Schedule(s, steps)
    ensures Sound(Run(s, steps))
    decreases |steps|
  {
    if steps != [] {
      StepKeepsSound(s, steps[0]);
      RunIsSound(Apply(s, steps[0]), steps[1..]);
    }
  }

  /** The commands whose every byte is in the file. */
  function FullyWritten(s: State): seq<Command> {
    if s.holder.Some? && s.holder.value.written == |FrameOf(s.holder.value.cmd)|
    then s.done + [s.holder.value.cmd]
    else s.done
  }

  lemma PartWaits(part: Bytes)
    requires PartOfFrame(part)
    ensures Drain(part) == Drained([], part, false)
  {
    if part != [] {
      var cmd :| WithinLimits(cmd) && part < FrameOf(cmd);
      TornFrame(cmd, |part|);
      assert FrameOf(cmd)[..|part|] == part;
    }
  }

  /** A file cut inside its last frame loads without that frame; a whole one loads with it. */
  lemma CrashFrame(log: seq<Command>, last: Command, w: nat)
    requires AllWithinLimits(log) && WithinLimits(last) && w <= |FrameOf(last)|
    ensures var d := Drain(LogOf(log) + FrameOf(last)[..w]);
      !d.failed && d.commands == if w == |FrameOf(last)| then log + [last] else log
  {
    SoundLoads(State(LogOf(log) + FrameOf(last)[..w], Some(Holder(0, last, w)), log, []));
  }

  lemma SoundLoads(s: State)
    requires Sound(s)
    ensures var d := Drain(s.file); d.commands == FullyWritten(s) && !d.failed
  {
    var part := Unfinished(s);
    LoadFrames(s.done, part);
    if s.holder.Some? && s.holder.value.written == |FrameOf(s.holder.value.cmd)| {
      var none: Bytes := [];
      FrameReads(s.holder.value.cmd, none);
      assert part + none == part && FrameOf(s.holder.value.cmd) == part;
      assert Drain(part) == Drained([s.holder.value.cmd], none, false);
    } else {
      assert PartOfFrame(part);
      PartWaits(part);
      assert s.done + [] == s.done;
    }
  }

  /** From any point of any schedule a load succeeds and finds exactly the fully written commands, in order. */
  lemma CrashAnywhere(logged: seq<Command>, steps: seq<Step>)
    requires AllWithinLimits(logged)
    requires Schedule(State(LogOf(logged), None, logged, []), steps)
    ensures var s := Run(State(LogOf(logged), None, logged, []), steps);
      var d := Drain(s.file); d.commands == FullyWritten(s) && !d.failed
  {
    var start := State(LogOf(logged), None, logged, []);
    assert LogOf(logged) + [] == LogOf(logged);
    RunIsSound(start, steps);
    SoundLoads(Run(start, steps));
  }

  // ---------------------------------------------------------------- order

  /** The commands of a schedule, in the order in which the mutex was taken for them. */
  function LockOrder(steps: seq<Step>): seq<Command> {
    if steps == [] then []
    else (if steps[0].Acquire? then [steps[0].cmd] else []) + LockOrder(steps[1..])
  }

  function Accepted(s: State): seq<Command> {
    if s.holder.Some? then s.done + [s.holder.value.cmd] else s.done
  }

  /** Without failures, the log holds the commands in lock order, up to the one still being written. */
  lemma {:induction false} LogIsLockOrder(s: State, steps: seq<Step>)
    requires Schedule(s, steps) && Fail !in steps
    ensures Accepted(Run(s, steps)) == Accepted(s) + LockOrder(steps)
    decreases |steps|
  {
    if steps == [] {
      assert Accepted(s) + [] == Accepted(s);
    } else {
      var next := Apply(s, steps[0]);
      assert steps == [steps[0]] + steps[1..];
      LogIsLockOrder(next, steps[1..]);
      if steps[0].Acquire? { Assoc(Accepted(s), [steps[0].cmd], LockOrder(steps[1..])); }
      else { assert LockOrder(steps) == LockOrder(steps[1..]); }
    }
  }

  // ---------------------------------------------------------------- an append behind a torn frame

  lemma StarIsNoNumber(s: Bytes, lo: nat, hi: nat, p: nat)
    requires lo <= p < hi <= |s| && s[p] == STAR
    ensures ParseInt64(s, lo, hi) == None
  {
    DigitsOnly(s, if s[lo] == MINUS then lo + 1 else lo, hi, 0, p);
  }

  /** A complete frame has as many arguments as its count line says. */
  lemma CompleteCount(s: Bytes)
    requires s != [] && s[0] == STAR && ParseCommand(s).Complete?
    ensures FindCrlf(s, 0).Some? && ParseInt64(s, 1, FindCrlf(s, 0).value) == Some(|ParseCommand(s).args|)
  {
    var e := FindCrlf(s, 0);
    BulksCount(s, e.value + 2, ParseInt64(s, 1, e.value).value, []);
  }

  function CountLine(cmd: Command): Bytes {
    [STAR] + ToDecimal(|cmd|) + CRLF
  }

  /** Torn inside its count line and followed by a star, a frame is never complete. */
  lemma TornCountLine(cmd: Command, tail: Bytes, more: Bytes)
    requires tail != [] && tail < CountLine(cmd) && more != [] && more[0] == STAR
    ensures !ParseCommand(tail + more).Complete?
  {
    var s, k, d := tail + more, |tail|, ToDecimal(|cmd|);
    DecimalBytes(|cmd|);
    assert forall j | 0 <= j < k :: s[j] == CountLine(cmd)[j];
    assert s[0] == STAR && s[k] == STAR;
    var e := FindCrlf(s, 0);
    if e.Some? {
      assert s[e.value + 1] == LF && s[e.value] == CR;
      assert forall j | 0 <= j < k :: s[j] != LF;
      assert e.value > k;
      StarIsNoNumber(s, 1, e.value, k);
    }
  }

  lemma CountIsRead(cmd: Command, tail: Bytes, more: Bytes)
    requires WithinLimits(cmd) && CountLine(cmd) <= tail
    ensures (tail + more)[0] == STAR && FindCrlf(tail + more, 0).Some?
    ensures ParseInt64(tail + more, 1, FindCrlf(tail + more, 0).value) == Some(|cmd|)
  {
    var s := tail + more;
    assert At(s, 0, CountLine(cmd));
    HeaderReads(s, 0, STAR, |cmd|);
  }

  /** Behind part of a frame, what is read first has the torn command's number of arguments. */
  lemma TornCount(cmd: Command, tail: Bytes, more: Bytes)
    requires WithinLimits(cmd) && tail != [] && tail < FrameOf(cmd) && more != [] && more[0] == STAR
    ensures ParseCommand(tail + more).Complete? ==> |ParseCommand(tail + more).args| == |cmd|
  {
    var head := CountLine(cmd);
    assert FrameOf(cmd) == head + EncodeItems(Bulks(cmd));
    if |tail| < |head| {
      assert tail == head[..|tail|];
      TornCountLine(cmd, tail, more);
    } else {
      assert tail[..|head|] == head;
      CountIsRead(cmd, tail, more);
      if ParseCommand(tail + more).Complete? { CompleteCount(tail + more); }
    }
  }

  lemma DrainedOne(s: Bytes, cmd: Command)
    requires Drain(s) == Drained([cmd], [], false)
    ensures ParseCommand(s).Complete? && ParseCommand(s).args == cmd
  {
    var p, commands := ParseCommand(s), Drain(s).commands;
    assert commands[0] == cmd;
    if p.Complete? { assert ([p.args] + Drain(p.rest).commands)[0] == p.args; }
  }

  /** Behind part of a frame, or nothing, every append is read back exactly if it is nothing. */
  lemma TornExact(tail: Bytes)
    requires PartOfFrame(tail)
    ensures (forall cmd | WithinLimits(cmd) :: Drain(tail + FrameOf(cmd)) == Drained([cmd], [], false)) <==> tail == []
  {
    if tail == [] {
      var none: Bytes := [];
      forall cmd | WithinLimits(cmd) ensures Drain(tail + FrameOf(cmd)) == Drained([cmd], [], false) {
        FrameReads(cmd, none);
        assert tail + FrameOf(cmd) == FrameOf(cmd) + none;
      }
    } else {
      var cmd :| WithinLimits(cmd) && tail < FrameOf(cmd);
      var other: Command := if |cmd| == 1 then [[], []] else [[]];
      TornCount(cmd, tail, FrameOf(other));
      if Drain(tail + FrameOf(other)) == Drained([other], [], false) { DrainedOne(tail + FrameOf(other), other); }
      assert WithinLimits(other);
    }
  }

  lemma OneArgFrame(arg: Bytes)
    requires |arg| == 4
    ensures FrameOf([arg]) == [STAR, 49, CR, LF, DOLLAR, 52, CR, LF] + arg + CRLF
  {
    BulksCons([arg]);
    var rest: Command := [arg][1..];
    assert rest == [] && EncodeItems(Bulks(rest)) == [];
    assert ToDecimal(1) == [49] && ToDecimal(4) == [52];
    assert |Bulks([arg])| == 1;
  }

  /** Worse than a loss: here the load replays a command that nobody sent. */
  lemma TornThenAppend() returns (ping: Bytes, torn: Bytes)
    ensures WithinLimits([ping]) && torn < FrameOf([ping])
    ensures var d := Drain(torn + FrameOf([ping])); d.commands != [] && d.commands[0] != [ping]
  {
    ping, torn := [80, 73, 78, 71], [STAR, 49, CR, LF, DOLLAR, 52, CR, LF, 80, 73];
    var mixed: Bytes, rest: Bytes := [80, 73, STAR, 49], [DOLLAR, 52, CR, LF] + ping + CRLF;
    OneArgFrame(ping);
    OneArgFrame(mixed);
    assert torn + ([STAR, 49, CR, LF, DOLLAR, 52, CR, LF] + ping + CRLF)
        == [STAR, 49, CR, LF, DOLLAR, 52, CR, LF] + mixed + CRLF + rest;
    FrameReads([mixed], rest);
    assert mixed[2] != ping[2] && [mixed][0] != [ping][0];
  }
}
