/** Runs that show where the literal protocol falls short of its intent. */
module RunExamples {
  import opened Text
  import opened Comparator
  import opened ComparatorProofs
  import opened RunModel
  import opened RunInvariants
  import opened RunHistory
  import opened RunTheorems
  import opened RunCauses
  import opened RunPipes
  import opened RunSchedules

  /** A first state with empty pipes; `g` fills the uninitialised locals. */
  function Start(job: Job, g: JS): Sys {
    Sys(Runner(Poll, true, g, g, true, false, false, 0, 0, 0, g, 0, 0),
        Watcher(Up(Setup), 0, 0, false, false, false, false, Running),
        Inward("", "", 0, "", "", "", ""),
        Outward("", true, Opened(job.expected), "", "", "", [], [], None),
        Log(false, [], 0, 0, false, false, false, false, false, false))
  }

  lemma StartOn(job: Job, g: JS)
    ensures On(job, Start(job, g), Start(job, g))
  {
    var s := Start(job, g);
    assert Init(job, s) && Reaches(job, s, [], s);
    Here(job, s);
  }

  // ---------------------------------------------------------------------------------------------
  // Pipes that are left dirty, and runs that never end
  // ---------------------------------------------------------------------------------------------

  /** A watcher can end in each of the ways that do not drain, having left some input behind. */
  lemma EndBadly(job: Job, a: Sys, s: Sys, e: WEnd) returns (t: Sys)
    requires On(job, a, s) && Looping(s.w) && (e.ExitedWith? ==> e.js == Runtime)
    ensures On(job, a, t) && t.w.status == Gone(e) && t.r == s.r && t.i == s.i
    ensures Behind(job, t) == Behind(job, s) && t.g.blind == s.g.blind && t.g.flushFault == s.g.flushFault
  {
    t := ToWait(job, a, s);
    if e.ExitedWith? {
      t := FailDrain(job, a, t);
    } else {
      t := Vanish(job, a, t, e);
    }
  }

  lemma Vanish(job: Job, a: Sys, s: Sys, e: WEnd) returns (t: Sys)
    requires On(job, a, s) && s.w.status == Up(Wait) && !e.ExitedWith?
    ensures On(job, a, t) && t == s.(w := s.w.(status := Gone(e)))
  {
    t := Take(job, a, s, if e.KilledBySignal? then WDies else WWait(WaitError));
  }

  lemma ToWait(job: Job, a: Sys, s: Sys) returns (t: Sys)
    requires On(job, a, s) && Looping(s.w)
    ensures On(job, a, t) && t == s.(w := s.w.(status := Up(Wait)))
  {
    t := s;
    if s.w.status == Up(Splice) {
      t := Take(job, a, s, WSplice(Again));
    }
  }

  lemma FailDrain(job: Job, a: Sys, s: Sys) returns (t: Sys)
    requires On(job, a, s) && s.w.status == Up(Wait)
    ensures On(job, a, t) && t.w == s.w.(status := Gone(ExitedWith(Runtime))) && t.r == s.r && t.i == s.i
    ensures t.g.blind == s.g.blind && t.g.flushFault == s.g.flushFault
  {
    t := Take(job, a, s, WWait(Saw(Exit(0))));
    t := Take(job, a, t, WDrain(Fault));
  }

  /**
   For every job with input and every status that does not mean a completed drain, some run ends in order
   on clean pipes and yet leaves input in the pipe of the worker's next run.
   */
  lemma BadEndLeaks(job: Job, e: WEnd) returns (s: Sys)
    requires job.input != "" && !Drained(e)
    ensures Reachable(job, s) && Ended(s) && s.i.residue == "" && s.w.status == Gone(e) && s.i.pipe != ""
  {
    var a := Start(job, Unknown);
    StartOn(job, Unknown);
    s := Take(job, a, a, WStart(true));
    s := TakeUntil(job, a, s, 65536);
    s := EndBadly(job, a, s, e);
    if s.r.pc != Returned {
      s := Finish(job, a, s);
    }
    BehindIsPipeAndRest(job, s);
    ReachableHistory(job, s);
  }

  /** Whatever a run on clean pipes does, if it ends in order with status `e` it hands over clean pipes. */
  ghost predicate HandsOverClean(job: Job, e: WEnd) {
    forall s | Reachable(job, s) && Ended(s) && s.i.residue == "" && s.w.status == Gone(e) ::
      s.i.pipe == "" && s.o.pipe == ""
  }

  /** The exact condition for a clean handover, in terms of what the runner sees. */
  lemma HandsOverCleanIff(job: Job, e: WEnd)
    ensures HandsOverClean(job, e) <==> LeavesClean(job, Gone(e))
  {
    if LeavesClean(job, Gone(e)) {
      forall s | Reachable(job, s) && Ended(s) && s.i.residue == "" && s.w.status == Gone(e)
        ensures s.i.pipe == "" && s.o.pipe == ""
      {
        PipesAfterRun(job, s);
      }
    } else {
      var s := BadEndLeaks(job, e);
    }
  }

  /** For every input larger than a pipe, a watcher that fails to start leaves its run flushing for ever. */
  lemma FlushForEver(job: Job) returns (s: Sys)
    requires |job.input| > 65536
    ensures Reachable(job, s) && s.r.pc != Returned && !exists t :: EndsIn(job, s, t)
  {
    var a := Start(job, Unknown);
    StartOn(job, Unknown);
    s := Take(job, a, a, WStart(false));
    EndsIffRoom(job, s);
  }

  // ---------------------------------------------------------------------------------------------
  // The memory limit
  // ---------------------------------------------------------------------------------------------

  /** A probe above the limit. */
  function TooMuch(limitMb: int): (mem: int)
    ensures mem > 0 && mem / 1000000 > limitMb
  {
    (if limitMb < 0 then 1 else limitMb + 1) * 1000000
  }

  lemma ProbeAndExit(job: Job, a: Sys, s: Sys) returns (t: Sys)
    requires On(job, a, s) && s.w == Watcher(Up(Wait), 0, 0, false, false, false, false, Running)
    requires !s.g.flushFault && !s.g.blind && s.i.residue == ""
    ensures On(job, a, t) && t.w == Watcher(Up(Drain), 0, 0, false, false, true, false, Running)
    ensures !t.g.flushFault && !t.g.blind && t.i.residue == ""
  {
    t := Take(job, a, s, WWait(Saw(Stop(SIGTRAP, 6, TooMuch(job.memLimitMb)))));
    t := ToWait(job, a, t);
    t := Take(job, a, t, WWait(Saw(Exit(0))));
  }

  /** A draining watcher can take the rest of the input and start to judge. */
  lemma DrainAll(job: Job, a: Sys, s: Sys) returns (t: Sys)
    requires On(job, a, s) && s.w.status == Up(Drain) && !s.g.flushFault && s.i.residue == ""
    ensures On(job, a, t) && SameFlags(s, t) && t.w.status == Up(JudgeFlags) && Behind(job, t) <= 0
  {
    t := TakeUntil(job, a, s, 0);
    if t.w.status == Up(Drain) {
      t := Take(job, a, t, WDrain(Again));
    }
  }

  /** Every job has a run that exceeds its memory limit, and nothing else, and is told of an internal error. */
  lemma MemoryToldInternal(job: Job) returns (s: Sys)
    ensures Reachable(job, s) && Ended(s) && SawOverMemory(job, s) && !SawXcpu(s) && !SawCrash(s)
    ensures JudgeVerdict(0, s.r.result) == InternalError
  {
    var a := Start(job, Unknown);
    StartOn(job, Unknown);
    s := Take(job, a, a, WStart(true));
    s := Take(job, a, s, WSplice(Again));
    s := ProbeAndExit(job, a, s);
    s := DrainAll(job, a, s);
    s := Take(job, a, s, WJudge);
    s := EndGone(job, a, s);
    OnlyMemory(job, s);
  }

  lemma OnlyMemory(job: Job, s: Sys)
    requires Reachable(job, s) && Ended(s)
    requires s.w.status == Gone(ExitedWith(MemLimit)) && s.w.overMem && !s.w.xcpu && !s.w.segv && !s.w.killed
    ensures SawOverMemory(job, s) && !SawXcpu(s) && !SawCrash(s) && JudgeVerdict(0, s.r.result) == InternalError
  {
    ReachableInv(job, s);
    ReachableHistory(job, s);
    CauseHasVerdict(job, s);
  }

  /** Every job has a run in which the wall clock runs out, and that is told of the time limit. */
  lemma AlarmTold(job: Job) returns (s: Sys)
    ensures Reachable(job, s) && Ended(s) && s.w.bin == WallTimeout && !SawXcpu(s) && !SawOverMemory(job, s)
    ensures JudgeVerdict(0, s.r.result) == TimeLimitExceeded
  {
    var a := Start(job, Unknown);
    StartOn(job, Unknown);
    s := Take(job, a, a, WStart(true));
    s := Take(job, a, s, WAlarm(true));
    s := ToWait(job, a, s);
    s := Take(job, a, s, WWait(Saw(Signal(9))));
    s := DrainAll(job, a, s);
    s := Take(job, a, s, WJudge);
    s := EndGone(job, a, s);
    OnlyAlarm(job, s);
  }

  lemma OnlyAlarm(job: Job, s: Sys)
    requires Reachable(job, s) && Ended(s) && s.w.status == Gone(ExitedWith(WallTimeLimit))
    requires s.w.bin == WallTimeout && !s.w.xcpu && !s.w.overMem
    ensures !SawXcpu(s) && !SawOverMemory(job, s) && JudgeVerdict(0, s.r.result) == TimeLimitExceeded
  {
    ReachableInv(job, s);
    ReachableHistory(job, s);
    CauseHasVerdict(job, s);
  }

  lemma EndGone(job: Job, a: Sys, s: Sys) returns (t: Sys)
    requires On(job, a, s) && s.w.status.Gone? && !s.g.blind && !s.g.flushFault && Behind(job, s) <= 65536
    ensures On(job, a, t) && Ended(t) && t.w == s.w
  {
    t := s;
    if t.r.pc != Returned {
      t := Finish(job, a, t);
    }
  }

  // ---------------------------------------------------------------------------------------------
  // A submission that prints what is expected
  // ---------------------------------------------------------------------------------------------

  /** A text cut as the runner reads it. */
  function Pieces(text: string): (r: seq<string>)
    ensures Flatten(r) == text && forall c | c in r :: 0 < |c| <= 255
  {
    if text == "" then []
    else
      var n := Min(255, |text|);
      [text[..n]] + Pieces(text[n..])
  }

  /** The submission runs, and everything it printed has been read. */
  predicate Printing(s: Sys) {
    && s.r.pc == Poll && s.r.alive && s.r.spawned && !s.r.eof && !s.r.compout && s.o.pipe == ""
    && s.w == Watcher(Up(Splice), 0, 0, false, false, false, false, Running)
    && !s.g.blind && !s.g.pipeFault && !s.g.flushFault
  }

  lemma PrintOne(job: Job, a: Sys, s: Sys, c: string) returns (t: Sys)
    requires On(job, a, s) && Printing(s) && 0 < |c| <= 255 && Call(s.o.ref, c, s.r.stage).code == 0
    ensures On(job, a, t) && Printing(t) && t.o.ref == After(s.o.ref, c, s.r.stage) && t.r.stage == s.r.stage + 1
    ensures t.r.received == s.r.received + |c| && t.r.watcherResult == s.r.watcherResult
    ensures t.r.received / 1000000 > job.outputLimitMb ==> t.g.usr2
  {
    t := Take(job, a, s, BWrite(c));
    t := Take(job, a, t, RPoll(NoChange));
    t := Take(job, a, t, RSend(Again));
    assert t.o.pipe == "" + c == c;
    t := ReadOne(job, a, t);
  }

  lemma ReadOne(job: Job, a: Sys, s: Sys) returns (t: Sys)
    requires On(job, a, s) && s.r.pc == Read && Printing(s.(r := s.r.(pc := Poll), o := s.o.(pipe := "")))
    requires 0 < |s.o.pipe| <= 255 && Call(s.o.ref, s.o.pipe, s.r.stage).code == 0
    ensures On(job, a, t) && Printing(t) && t.o.ref == After(s.o.ref, s.o.pipe, s.r.stage)
    ensures t.r.stage == s.r.stage + 1 && t.r.received == s.r.received + |s.o.pipe|
    ensures t.r.watcherResult == s.r.watcherResult
    ensures t.r.received / 1000000 > job.outputLimitMb ==> t.g.usr2
  {
    assert s.o.pipe[..|s.o.pipe|] == s.o.pipe;
    t := Take(job, a, s, RRead(Moved(|s.o.pipe|)));
  }

  lemma {:induction false} PrintAll(job: Job, a: Sys, s: Sys, chunks: seq<string>) returns (t: Sys)
    requires On(job, a, s) && Printing(s) && Accepts(s.o.ref, chunks, s.r.stage)
    requires forall c | c in chunks :: 0 < |c| <= 255
    ensures On(job, a, t) && Printing(t) && Call(t.o.ref, "", -1).code == 0
    ensures t.r.received == s.r.received + |Flatten(chunks)| && t.r.watcherResult == s.r.watcherResult
    ensures t.r.stage == s.r.stage + |chunks|
    ensures if chunks == [] then t == s else t.r.received / 1000000 > job.outputLimitMb ==> t.g.usr2
    decreases |chunks|
  {
    t := s;
    if chunks != [] {
      t := PrintOne(job, a, s, chunks[0]);
      t := PrintAll(job, a, t, chunks[1..]);
    }
  }

  /** It prints the expected text without its carriage returns, and every comparison so far agrees. */
  lemma PrintExpected(job: Job, g: JS) returns (s: Sys)
    ensures On(job, Start(job, g), s) && Printing(s) && Call(s.o.ref, "", -1).code == 0
    ensures s.r.received == |DropCR(job.expected)| && s.r.watcherResult == g
    ensures s.r.received > 0 ==> s.r.stage > 0
    ensures s.r.received > 0 && s.r.received / 1000000 > job.outputLimitMb ==> s.g.usr2
  {
    var a, text := Start(job, g), DropCR(job.expected);
    StartOn(job, g);
    s := Take(job, a, a, WStart(true));
    DropCRClean(text);
    StreamingIsWholeText(job.expected, Pieces(text));
    s := PrintAll(job, a, s, Pieces(text));
  }

  /**
   When waitpid fails the watcher's result is whatever the stack held: every job has a run that is stored
   as Correct while its watcher is still in its main loop.
   */
  lemma BlindVerdict(job: Job) returns (s: Sys)
    ensures Reachable(job, s) && s.r.pc == FlushOut && s.r.result == Correct
    ensures s.w.status == Up(Splice) && s.g.blind
  {
    var a := Start(job, Correct);
    s := PrintExpected(job, Correct);
    s := Take(job, a, s, RPoll(WaitFailed));
    s := Take(job, a, s, RSend(Again));
    s := Take(job, a, s, RRead(Again));
  }

  // ---------------------------------------------------------------------------------------------
  // The overwritten output limit
  // ---------------------------------------------------------------------------------------------

  lemma Kill(job: Job, a: Sys, s: Sys) returns (t: Sys)
    requires On(job, a, s) && Printing(s) && s.g.usr2
    ensures On(job, a, t) && t.w == Watcher(Up(Drain), 0, 0, false, false, false, true, CompOut)
    ensures t.r == s.r && t.o == s.o && !t.g.blind
  {
    t := Take(job, a, s, WUsr2(true));
    t := Take(job, a, t, WSplice(Again));
    t := Take(job, a, t, WWait(Saw(Signal(9))));
  }

  lemma JudgeKilled(job: Job, a: Sys, s: Sys) returns (t: Sys)
    requires On(job, a, s) && job.input == "" && s.w == Watcher(Up(Drain), 0, 0, false, false, false, true, CompOut)
    requires !s.g.blind
    ensures On(job, a, t) && t.w == s.w.(status := Gone(ExitedWith(Correct))) && t.r == s.r && t.o == s.o && !t.g.blind
  {
    t := Take(job, a, s, WDrain(Again));
    t := Take(job, a, t, WJudge);
    t := Take(job, a, t, WJudge);
  }

  lemma LeaveCorrect(job: Job, a: Sys, s: Sys) returns (t: Sys)
    requires On(job, a, s) && s.w.status == Gone(ExitedWith(Correct)) && s.r.pc == Poll && s.r.alive && s.r.spawned
    requires !s.r.eof && !s.r.compout && s.o.pipe == "" && Call(s.o.ref, "", -1).code == 0 && !s.g.blind
    ensures On(job, a, t) && t.r.pc == FlushOut && t.r.result == Correct && t.w == s.w && !t.g.blind
    ensures t.r.received == s.r.received && t.r.stage == s.r.stage
  {
    t := Take(job, a, s, RPoll(Reaped));
    t := Take(job, a, t, RSend(Again));
    t := Take(job, a, t, RRead(Again));
  }

  /**
   Every job without input whose expected text exceeds the output limit has a run in which the submission
   prints that text, is killed for exceeding the limit, and is still stored as Correct: the final comparison
   overwrites the output-limit result.
   */
  lemma LimitOverwritten(job: Job) returns (s: Sys)
    requires job.input == "" && 0 <= job.outputLimitMb < |DropCR(job.expected)| / 1000000
    ensures Reachable(job, s) && s.r.pc == FlushOut && !s.g.blind
    ensures OverLimit(job, s.r) && s.w.killed && s.r.result == Correct
  {
    var a := Start(job, Unknown);
    s := PrintExpected(job, Unknown);
    s := Kill(job, a, s);
    s := JudgeKilled(job, a, s);
    s := LeaveCorrect(job, a, s);
  }
}
