/** Every verdict has its cause: what must have happened in a run for the client to be told what it is told. */
module RunCauses {
  import opened Text
  import opened Comparator
  import opened RunModel
  import opened RunInvariants
  import opened RunHistory

  // ---------------------------------------------------------------------------------------------
  // From verdict to cause and back
  // ---------------------------------------------------------------------------------------------

  predicate SawXcpu(s: Sys) { AnyEvent(s.g.events, CpuSignal) }

  predicate SawOverMemory(job: Job, s: Sys) { AnyEvent(s.g.events, OverMemory(job.memLimitMb)) }

  predicate SawCrash(s: Sys) { AnyEvent(s.g.events, BadAccess) || AnyEvent(s.g.events, Killing) }

  /** The last answer of the comparator. */
  function FinalCode(o: Outward): int {
    if o.lastCode.Some? then o.lastCode.value else if o.codes != [] then o.codes[|o.codes| - 1] else 0
  }

  /** What an exit status says about the events. */
  lemma StatusHasCause(job: Job, w: Watcher, g: Log, js: JS)
    requires Exits(w, g) && Classified(job, w, g) && w.status == Gone(ExitedWith(js))
    ensures js == TimeLimit ==> g.viaDrain && AnyEvent(g.events, CpuSignal)
    ensures js == WallTimeLimit ==>
              g.viaDrain && !AnyEvent(g.events, OverMemory(job.memLimitMb)) && w.bin == WallTimeout
    ensures js == Runtime ==>
              || !g.viaDrain
              || (!AnyEvent(g.events, CpuSignal) && !AnyEvent(g.events, OverMemory(job.memLimitMb))
                  && (AnyEvent(g.events, BadAccess) || AnyEvent(g.events, Killing)))
    ensures js == Correct || js == TimeLimit || js == WallTimeLimit || js == MemLimit || js == Runtime
  {
  }

  /** What a comparison result says about the answers. */
  lemma ComparisonHasCause(job: Job, r: Runner, o: Outward, g: Log)
    requires Answered(job, r, o, g) && Compared(r, o) && Left(r)
    ensures r.compResult == Wrong ==> FinalCode(o) > 0
    ensures r.compResult == OutputLimit ==> OverLimit(job, r) && FinalCode(o) != 0
    ensures r.compResult in {Correct, Wrong, CompError, OutputLimit, PipeError}
  {
  }

  /** A stored result is that of the watcher, or after a correct exit that of the comparison. */
  lemma ResultHasSource(r: Runner, w: Watcher, o: Outward, g: Log)
    requires Watched(r, w, g) && Compared(r, o) && Left(r) && !g.blind && r.result != Unknown
    ensures w.status.Gone? && w.status.end.ExitedWith?
    ensures r.result == if w.status.end.js == Correct then r.compResult else w.status.end.js
  {
  }

  /** What must have happened for a verdict to be told. */
  predicate HasCause(job: Job, s: Sys, v: Verdict) {
    match v
    case WrongAnswer => s.w.status == Gone(ExitedWith(Correct)) && FinalCode(s.o) > 0
    case TimeLimitExceeded =>
      s.g.viaDrain && (SawXcpu(s) || (!SawOverMemory(job, s) && s.w.bin == WallTimeout))
    case OutputLimitExceeded => OverLimit(job, s.r) && FinalCode(s.o) != 0
    case RuntimeError => !s.g.viaDrain || (!SawXcpu(s) && !SawOverMemory(job, s) && SawCrash(s))
    case MemoryLimitExceeded => false
    case CompileError => false
    case Accepted => true
    case InternalError => true
  }

  lemma ResultHasCause(job: Job, s: Sys, ret: int)
    requires Watched(s.r, s.w, s.g) && Compared(s.r, s.o) && Left(s.r) && !s.g.blind
    requires Exits(s.w, s.g) && Classified(job, s.w, s.g) && Answered(job, s.r, s.o, s.g)
    ensures HasCause(job, s, JudgeVerdict(ret, s.r.result))
  {
    if s.r.result != Unknown {
      ResultHasSource(s.r, s.w, s.o, s.g);
      StatusHasCause(job, s.w, s.g, s.w.status.end.js);
      ComparisonHasCause(job, s.r, s.o, s.g);
    }
  }

  /**
   From verdict to cause, in every run that kept sight of its watcher: a wrong answer was answered by the
   comparator; a time limit was signalled or ran out on the wall clock; too much output was read, and some
   of it was wrong; a runtime error was a crash, or a failed drain.  No run is told of the memory limit.
   */
  lemma VerdictHasCause(job: Job, s: Sys, ret: int)
    requires Reachable(job, s) && s.r.pc == Returned && !s.g.blind
    ensures HasCause(job, s, JudgeVerdict(ret, s.r.result))
  {
    ReachableInv(job, s);
    ReachableHistory(job, s);
    ResultHasCause(job, s, ret);
  }

  /**
   From cause to verdict, when the watcher exits by itself after its drain and no flush fails: a CPU-time
   signal is always told as such; an excess of memory without one is always told as an internal error; and a
   crash with neither is told as a runtime error unless the wall clock ran out or the runner had it killed.
   A wall-clock exit is told as a time limit.
   */
  lemma CauseHasVerdict(job: Job, s: Sys)
    requires Reachable(job, s) && s.r.pc == Returned && !s.g.blind && !s.g.flushFault
    requires s.g.viaDrain && s.w.status.Gone? && s.w.status.end.ExitedWith?
    ensures SawXcpu(s) ==> JudgeVerdict(0, s.r.result) == TimeLimitExceeded
    ensures !SawXcpu(s) && SawOverMemory(job, s) ==> JudgeVerdict(0, s.r.result) == InternalError
    ensures !SawXcpu(s) && !SawOverMemory(job, s) && SawCrash(s) && s.w.bin == Running ==>
              JudgeVerdict(0, s.r.result) == RuntimeError
    ensures s.w.status.end == ExitedWith(WallTimeLimit) ==> JudgeVerdict(0, s.r.result) == TimeLimitExceeded
  {
    ReachableInv(job, s);
    ReachableHistory(job, s);
  }

  /**
   When the watcher exits Correct and no pipe fails, the client is told what the comparator answered last:
   accepted for 0, wrong for more, an internal error for less, except that wrong output beyond the limit is
   told as too much output.
   */
  lemma ComparisonIsTold(job: Job, s: Sys)
    requires Reachable(job, s) && s.r.pc == Returned && !s.g.blind && !s.g.flushFault && !s.g.pipeFault
    requires s.w.status == Gone(ExitedWith(Correct))
    ensures JudgeVerdict(0, s.r.result) ==
            if FinalCode(s.o) == 0 then Accepted
            else if s.o.lastCode.None? && OverLimit(job, s.r) then OutputLimitExceeded
            else if FinalCode(s.o) > 0 then WrongAnswer
            else InternalError
    ensures s.o.lastCode.Some? <==> Zeros(s.o.codes)
    ensures !s.o.ref.broken ==> JudgeVerdict(0, s.r.result) != InternalError
  {
    ReachableInv(job, s);
    ReachableHistory(job, s);
  }

  // ---------------------------------------------------------------------------------------------
  // The last handler decides
  // ---------------------------------------------------------------------------------------------

  /** A step in which a signal handler kills the submission and changes the state from `b`. */
  predicate Overturns(b: BinState, c: Choice) {
    (c.WUsr2? && c.delivered && b != CompOut) || (c.WAlarm? && c.delivered && b != WallTimeout)
  }

  /** The status of a watcher that drained its input, by what it saw and by the last handler that ran. */
  function Decided(b: BinState, xcpu: bool, overMem: bool, crash: bool): JS {
    if xcpu then TimeLimit
    else if overMem then MemLimit
    else
      match b
      case WallTimeout => WallTimeLimit
      case CompOut => Correct
      case Running => if crash then Runtime else Correct
  }

  /** Since a handler set the state to `b` no other one has run, and not too late for the watcher to see it. */
  predicate Held(b: BinState, w: Watcher, g: Log) {
    && w.bin == b
    && (b == WallTimeout ==> w.status != Up(JudgeState))
    && (w.status.Gone? && w.status.end.ExitedWith? && g.viaDrain ==>
          w.status.end.js == Decided(b, w.xcpu, w.overMem, w.segv || w.killed))
  }

  lemma HeldStep(job: Job, s: Sys, c: Choice, b: BinState)
    requires Inv(job, s) && Enabled(job, s, c) && Held(b, s.w, s.g) && !Overturns(b, c)
    ensures var t := Apply(job, s, c); Held(b, t.w, t.g)
  {
    if Runs(c) {
      RunnerFrame(job, s, c);
    } else {
      HeldOther(job, s, c, b);
    }
  }

  lemma HeldOther(job: Job, s: Sys, c: Choice, b: BinState)
    requires Judged(job, s.w, s.g) && s.o.ref.Valid() && Enabled(job, s, c) && !Runs(c)
    requires Held(b, s.w, s.g) && !Overturns(b, c)
    ensures var t := Apply(job, s, c); Held(b, t.w, t.g)
  {
    if Outside(c) {
      OutsideFrame(job, s, c);
    } else if c.WJudge? {
      HeldJudge(job, s, b);
    } else if c.WSplice? {
      HeldSplice(job, s, c.io, b);
    } else if c.WDrain? {
      HeldDrain(job, s, c.io, b);
    } else {
      HeldWatcher(job, s, c, b);
    }
  }

  lemma HeldWatcher(job: Job, s: Sys, c: Choice, b: BinState)
    requires Judged(job, s.w, s.g) && s.o.ref.Valid() && Enabled(job, s, c) && !Runs(c) && !Outside(c)
    requires !c.WJudge? && !c.WSplice? && !c.WDrain? && Held(b, s.w, s.g) && !Overturns(b, c)
    ensures var t := Apply(job, s, c); Held(b, t.w, t.g)
  {
  }

  lemma HeldSplice(job: Job, s: Sys, io: Io, b: BinState)
    requires Judged(job, s.w, s.g) && Enabled(job, s, WSplice(io)) && Held(b, s.w, s.g)
    ensures var t := StepSplice(job, s, io); Held(b, t.w, t.g)
  {
  }

  lemma HeldDrain(job: Job, s: Sys, io: Io, b: BinState)
    requires Judged(job, s.w, s.g) && Enabled(job, s, WDrain(io)) && Held(b, s.w, s.g)
    ensures var t := StepDrain(job, s, io); Held(b, t.w, t.g)
  {
  }

  lemma HeldJudge(job: Job, s: Sys, b: BinState)
    requires Judged(job, s.w, s.g) && Enabled(job, s, WJudge) && Held(b, s.w, s.g)
    ensures var t := StepJudge(s); Held(b, t.w, t.g)
  {
  }

  lemma {:induction false} HeldOn(job: Job, s: Sys, cs: seq<Choice>, t: Sys, b: BinState)
    requires Inv(job, s) && Held(b, s.w, s.g) && Reaches(job, s, cs, t) && forall c | c in cs :: !Overturns(b, c)
    ensures Held(b, t.w, t.g)
    decreases |cs|
  {
    if cs != [] {
      assert cs[0] in cs;
      HeldStep(job, s, cs[0], b);
      StepInv(job, s, cs[0]);
      HeldOn(job, Apply(job, s, cs[0]), cs[1..], t, b);
    }
  }

  /**
   What a watcher exits with, from any point of any run at which it is up: if from there on no handler
   overturns the state and it exits by itself after its drain, the status is decided by the events of the
   whole run and that state.
   */
  lemma StatusIsDecided(job: Job, s: Sys, cs: seq<Choice>, t: Sys)
    requires Reachable(job, s) && s.w.status.Up? && (s.w.bin == WallTimeout ==> s.w.status != Up(JudgeState))
    requires Reaches(job, s, cs, t) && forall c | c in cs :: !Overturns(s.w.bin, c)
    requires t.w.status.Gone? && t.w.status.end.ExitedWith? && t.g.viaDrain
    ensures t.w.status.end.js == Decided(s.w.bin, SawXcpu(t), SawOverMemory(job, t), SawCrash(t))
  {
    ReachableInv(job, s);
    HeldOn(job, s, cs, t, s.w.bin);
    ReachesInv(job, s, cs, t);
  }

  /**
   A submission that its watcher killed when the wall clock ran out is told of the time limit, unless the
   runner had it killed afterwards or it had exceeded its memory; one that the runner had killed is told what
   the comparator answered, unless it had exceeded a limit.
   */
  lemma KilledIsTold(job: Job, s: Sys, cs: seq<Choice>, t: Sys)
    requires Reachable(job, s) && s.w.status.Up? && (s.w.bin == WallTimeout ==> s.w.status != Up(JudgeState))
    requires Reaches(job, s, cs, t) && forall c | c in cs :: !Overturns(s.w.bin, c)
    requires t.w.status.Gone? && t.w.status.end.ExitedWith? && t.g.viaDrain
    requires Reachable(job, t) && t.r.pc == Returned && !t.g.blind && !t.g.flushFault && !SawOverMemory(job, t)
    ensures s.w.bin == WallTimeout ==> JudgeVerdict(0, t.r.result) == TimeLimitExceeded
    ensures s.w.bin == CompOut && !SawXcpu(t) ==> t.r.result == t.r.compResult
  {
    StatusIsDecided(job, s, cs, t);
    ReachableInv(job, t);
    ReachableHistory(job, t);
  }

  /** The watcher drains and judges exactly from the first event on that is not a stop of the submission. */
  lemma LoopEndsWithSubmission(job: Job, s: Sys)
    requires Reachable(job, s) && s.w.status.Up?
    ensures s.w.status.pc in {Setup, Splice, Wait} <==> forall i | 0 <= i < |s.g.events| :: s.g.events[i].Stop?
    ensures forall i | 0 <= i < |s.g.events| - 1 :: s.g.events[i].Stop?
  {
    ReachableHistory(job, s);
  }

  /** A run that fails to start is told as an internal error. */
  lemma FailedRunIsTold(ret: int, result: JS)
    requires ret != 0
    ensures JudgeVerdict(ret, result) == InternalError
  {
  }

  /** Before the watcher has started the submission nothing is written, and no handler has run. */
  lemma NothingBeforeStart(job: Job, s: Sys)
    requires Reachable(job, s) && s.w.status == Up(Setup)
    ensures s.o.written == "" && s.i.fed == "" && s.w.bin == Running && s.g.events == []
  {
    ReachableHistory(job, s);
  }

  /** Unless waitpid fails, a poll tells the runner whether the watcher is still up. */
  lemma PollTellsDeath(job: Job, s: Sys, a: WaitAnswer)
    requires s.r.alive && Enabled(job, s, RPoll(a)) && a != WaitFailed && a != Unhandled
    ensures StepPoll(s, a).r.alive <==> s.w.status.Up?
  {
  }

  /** A failed flush of either pipe is told as an internal error, whatever the result was. */
  lemma FlushFaultIsTold(job: Job, s: Sys)
    requires Reachable(job, s) && s.g.flushFault
    ensures s.r.pc == Returned && JudgeVerdict(0, s.r.result) == InternalError
  {
    ReachableHistory(job, s);
  }

  /** A wait status of the watcher that is neither exit nor signal is told as an internal error. */
  lemma PuzzleIsTold(job: Job, s: Sys)
    requires Reachable(job, s) && s.r.pc == Returned && s.g.unhandled
    ensures JudgeVerdict(0, s.r.result) == InternalError
  {
    ReachableHistory(job, s);
  }

  /** SIGUSR2 is sent exactly for a pipe error or a wrong chunk, if so configured, and for too much output. */
  lemma SignalIffCause(job: Job, s: Sys)
    requires Reachable(job, s)
    ensures s.g.usr2Sent > 0 <==>
            || (job.killOnCompout && (s.g.pipeFault || exists i | 0 <= i < |s.o.codes| :: s.o.codes[i] != 0))
            || (s.o.chunks != [] && |Flatten(s.o.chunks)| / 1000000 > job.outputLimitMb)
    ensures s.g.usr2Handled <= s.g.usr2Sent && (s.g.usr2 ==> s.g.usr2Handled < s.g.usr2Sent)
  {
    ReachableInv(job, s);
    ReachableHistory(job, s);
  }
}
