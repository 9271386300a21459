/** What else every run keeps: how results come about, when input is flushed, and that the pipe never overflows. */
module RunHistory {
  import opened Text
  import opened Comparator
  import opened ComparatorProofs
  import opened RunModel
  import opened RunInvariants

  // ---------------------------------------------------------------------------------------------
  // The watcher's exit status
  // ---------------------------------------------------------------------------------------------

  /** How a watcher that exited by itself came to its status, in the priority it gives to the causes. */
  predicate Exits(w: Watcher, g: Log) {
    w.status.Gone? && w.status.end.ExitedWith? ==>
      if !g.viaDrain then w.status.end.js == Runtime
      else if w.xcpu then w.status.end.js == TimeLimit
      else if w.overMem then w.status.end.js == MemLimit
      else
        match w.status.end.js
        case WallTimeLimit => w.bin == WallTimeout
        case Runtime => w.segv || w.killed
        case Correct => (!w.segv && !w.killed) || w.bin == CompOut
        case _ => false
  }

  lemma ExitsStep(job: Job, s: Sys, c: Choice)
    requires Judged(job, s.w, s.g) && s.o.ref.Valid() && Enabled(job, s, c) && Exits(s.w, s.g)
    ensures var t := Apply(job, s, c); Exits(t.w, t.g)
  {
    if c.WJudge? {
      ExitsJudge(job, s);
    } else if c.WDrain? {
      ExitsDrain(job, s, c.io);
    } else {
      ExitsQuiet(job, s, c);
    }
  }

  lemma ExitsQuiet(job: Job, s: Sys, c: Choice)
    requires s.o.ref.Valid() && Enabled(job, s, c) && Exits(s.w, s.g) && !c.WJudge? && !c.WDrain?
    ensures var t := Apply(job, s, c); Exits(t.w, t.g)
  {
    if Runs(c) {
      RunnerFrame(job, s, c);
    } else {
      QuietWatcher(job, s, c);
    }
  }

  lemma ExitsJudge(job: Job, s: Sys)
    requires Judged(job, s.w, s.g) && Enabled(job, s, WJudge)
    ensures var t := StepJudge(s); Exits(t.w, t.g)
  {
  }

  lemma ExitsDrain(job: Job, s: Sys, io: Io)
    requires Judged(job, s.w, s.g) && Enabled(job, s, WDrain(io))
    ensures var t := StepDrain(job, s, io); Exits(t.w, t.g)
  {
  }

  /** Other steps leave a watcher that is gone alone, and let none exit with a result. */
  lemma QuietWatcher(job: Job, s: Sys, c: Choice)
    requires s.o.ref.Valid() && Enabled(job, s, c) && !Runs(c) && !c.WJudge? && !c.WDrain?
    ensures var t := Apply(job, s, c);
            if s.w.status.Gone? then t.w == s.w && t.g.viaDrain == s.g.viaDrain
            else t.w.status.Gone? ==> !t.w.status.end.ExitedWith?
  {
  }

  // ---------------------------------------------------------------------------------------------
  // The comparison result
  // ---------------------------------------------------------------------------------------------

  /**
   A bad comparison result is a pipe error, or the last chunk's answer unless too much was read.  Without
   pipe errors a bad comparison is a non-zero answer.  The stored result is the merge of the two results.
   */
  predicate Answered(job: Job, r: Runner, o: Outward, g: Log) {
    && r.stage == |o.codes|
    && (r.compout ==> (g.pipeFault && r.compResult == PipeError) || (AnswerStands(job, r, o) && !Zeros(o.codes)))
    && (!g.pipeFault && !Zeros(o.codes) ==> r.compout)
    && (Left(r) && !g.flushFault ==> r.result == Merged(r))
  }

  predicate AnswerStands(job: Job, r: Runner, o: Outward) {
    && o.codes != [] && o.codes[|o.codes| - 1] != 0
    && r.compResult == if OverLimit(job, r) then OutputLimit else CompJS(o.codes[|o.codes| - 1])
  }

  lemma AnsweredStep(job: Job, s: Sys, c: Choice)
    requires Compared(s.r, s.o) && s.o.ref.Valid() && Enabled(job, s, c) && Answered(job, s.r, s.o, s.g)
    ensures var t := Apply(job, s, c); Answered(job, t.r, t.o, t.g)
  {
    if Runs(c) {
      AnsweredRunner(job, s, c);
    } else {
      OtherFrame(job, s, c);
    }
  }

  lemma AnsweredRunner(job: Job, s: Sys, c: Choice)
    requires Compared(s.r, s.o) && s.o.ref.Valid() && Enabled(job, s, c) && Answered(job, s.r, s.o, s.g) && Runs(c)
    ensures var t := Apply(job, s, c); Answered(job, t.r, t.o, t.g)
  {
    match c
    case RSend(io) => AnsweredSend(job, s, io);
    case RRead(io) => if io.Moved? && io.n > 0 { AnsweredChunk(job, s, io.n); } else { AnsweredQuietRead(job, s, io); }
    case RPoll(a) => AnsweredPoll(job, s, a);
    case RFlushOut(io) => AnsweredFlushOut(job, s, io);
    case RFlushIn(io) => AnsweredFlushIn(job, s, io);
  }

  lemma AnsweredChunk(job: Job, s: Sys, n: nat)
    requires Compared(s.r, s.o) && s.o.ref.Valid() && Answered(job, s.r, s.o, s.g)
    requires Enabled(job, s, RRead(Moved(n))) && n > 0
    ensures var t := StepChunk(job, s, n); Answered(job, t.r, t.o, t.g)
  {
    var code := Call(s.o.ref, s.o.pipe[..n], s.r.stage).code;
    var codes := s.o.codes + [code];
    assert codes[|codes| - 1] == code;
    assert Zeros(s.o.codes);
    assert Zeros(codes) <==> code == 0;
  }

  lemma AnsweredSend(job: Job, s: Sys, io: Io)
    requires Enabled(job, s, RSend(io)) && Answered(job, s.r, s.o, s.g)
    ensures var t := StepSend(job, s, io); Answered(job, t.r, t.o, t.g)
  {
  }

  lemma AnsweredQuietRead(job: Job, s: Sys, io: Io)
    requires Compared(s.r, s.o) && s.o.ref.Valid() && Answered(job, s.r, s.o, s.g)
    requires Enabled(job, s, RRead(io)) && !(io.Moved? && io.n > 0)
    ensures var t := StepRead(job, s, io); Answered(job, t.r, t.o, t.g)
  {
  }

  lemma AnsweredPoll(job: Job, s: Sys, a: WaitAnswer)
    requires Enabled(job, s, RPoll(a)) && Answered(job, s.r, s.o, s.g)
    ensures var t := StepPoll(s, a); Answered(job, t.r, t.o, t.g)
  {
  }

  lemma AnsweredFlushOut(job: Job, s: Sys, io: Io)
    requires Enabled(job, s, RFlushOut(io)) && Answered(job, s.r, s.o, s.g)
    ensures var t := StepFlushOut(s, io); Answered(job, t.r, t.o, t.g)
  {
  }

  lemma AnsweredFlushIn(job: Job, s: Sys, io: Io)
    requires Enabled(job, s, RFlushIn(io)) && Answered(job, s.r, s.o, s.g)
    ensures var t := StepFlushIn(job, s, io); Answered(job, t.r, t.o, t.g)
  {
  }

  /** While the reference can be read, no comparison answers with an error. */
  predicate NoErrors(o: Outward) {
    !o.ref.broken ==> (forall i | 0 <= i < |o.codes| :: o.codes[i] >= 0) && (o.lastCode.Some? ==> o.lastCode.value >= 0)
  }

  lemma NoErrorsStep(job: Job, s: Sys, c: Choice)
    requires Replayable(job, s.o) && Enabled(job, s, c) && NoErrors(s.o)
    ensures NoErrors(Apply(job, s, c).o)
  {
    if c.RRead? {
      NoErrorsRead(job, s, c.io);
    } else if !Runs(c) {
      OtherFrame(job, s, c);
    }
  }

  lemma NoErrorsRead(job: Job, s: Sys, io: Io)
    requires Replayable(job, s.o) && Enabled(job, s, RRead(io)) && NoErrors(s.o)
    ensures NoErrors(StepRead(job, s, io).o)
  {
    CallAnswers(s.o.ref, "", -1);
    if io.Moved? && io.n > 0 {
      CallAnswers(s.o.ref, s.o.pipe[..io.n], s.r.stage);
    }
  }

  // ---------------------------------------------------------------------------------------------
  // Signals to the watcher
  // ---------------------------------------------------------------------------------------------

  /** SIGUSR2 is sent exactly for a pipe error or a wrong chunk, if so configured, and for too much output. */
  predicate Signals(job: Job, r: Runner, o: Outward, g: Log) {
    && r.stage == |o.codes|
    && (g.usr2Sent > 0 <==> (job.killOnCompout && (g.pipeFault || !Zeros(o.codes))) || OverLimit(job, r))
  }

  lemma SignalsStep(job: Job, s: Sys, c: Choice)
    requires Compared(s.r, s.o) && s.o.ref.Valid() && Enabled(job, s, c) && Signals(job, s.r, s.o, s.g)
    ensures var t := Apply(job, s, c); Signals(job, t.r, t.o, t.g)
  {
    match c
    case RSend(io) => SignalsSend(job, s, io);
    case RRead(io) => SignalsRead(job, s, io);
    case _ => SignalsOther(job, s, c);
  }

  lemma SignalsSend(job: Job, s: Sys, io: Io)
    requires Enabled(job, s, RSend(io)) && Signals(job, s.r, s.o, s.g)
    ensures var t := StepSend(job, s, io); Signals(job, t.r, t.o, t.g)
  {
  }

  lemma SignalsRead(job: Job, s: Sys, io: Io)
    requires Compared(s.r, s.o) && s.o.ref.Valid() && Enabled(job, s, RRead(io)) && Signals(job, s.r, s.o, s.g)
    ensures var t := StepRead(job, s, io); Signals(job, t.r, t.o, t.g)
  {
    if io.Moved? && io.n > 0 {
      SignalsChunk(job, s, io.n);
    }
  }

  lemma SignalsChunk(job: Job, s: Sys, n: nat)
    requires Compared(s.r, s.o) && s.o.ref.Valid() && Signals(job, s.r, s.o, s.g)
    requires Enabled(job, s, RRead(Moved(n))) && n > 0
    ensures var t := StepChunk(job, s, n); Signals(job, t.r, t.o, t.g)
  {
    var code := Call(s.o.ref, s.o.pipe[..n], s.r.stage).code;
    var codes := s.o.codes + [code];
    assert codes[|codes| - 1] == code;
    assert Zeros(s.o.codes);
    assert Zeros(codes) <==> code == 0;
    DivGrows(s.r.received, n);
  }

  lemma DivGrows(a: nat, b: nat)
    ensures a / 1000000 <= (a + b) / 1000000
  {
  }

  lemma SignalsOther(job: Job, s: Sys, c: Choice)
    requires s.o.ref.Valid() && Enabled(job, s, c) && Signals(job, s.r, s.o, s.g) && !c.RSend? && !c.RRead?
    ensures var t := Apply(job, s, c); Signals(job, t.r, t.o, t.g)
  {
    if !Runs(c) {
      OtherFrame(job, s, c);
    }
  }

  // ---------------------------------------------------------------------------------------------
  // Flushing
  // ---------------------------------------------------------------------------------------------

  /** Flushed bytes were left over by the main loop, and no watcher ever takes them. */
  predicate FlushedLate(r: Runner, w: Watcher, i: Inward, g: Log) {
    && (r.flushed > 0 ==> Left(r))
    && (!g.blind && r.flushed > 0 ==> |i.residue| + r.sent + r.flushed > w.spliced + w.drained)
  }

  lemma FlushedLateStep(job: Job, s: Sys, c: Choice)
    requires Inv(job, s) && Enabled(job, s, c) && FlushedLate(s.r, s.w, s.i, s.g)
    ensures var t := Apply(job, s, c); FlushedLate(t.r, t.w, t.i, t.g)
  {
    if c.RFlushIn? {
      FlushedLateFlush(job, s, c.io);
    } else if s.r.flushed == 0 {
      FlushedOnlyInFlush(job, s, c);
    } else {
      FlushedLateOther(job, s, c);
    }
  }

  lemma FlushedLateFlush(job: Job, s: Sys, io: Io)
    requires Inv(job, s) && Enabled(job, s, RFlushIn(io)) && FlushedLate(s.r, s.w, s.i, s.g)
    ensures var t := StepFlushIn(job, s, io); FlushedLate(t.r, t.w, t.i, t.g)
  {
    assert |s.i.residue + job.input[..s.r.sent + s.r.flushed]| == |s.i.fed + s.i.drained + s.i.pipe|;
  }

  lemma FlushedOnlyInFlush(job: Job, s: Sys, c: Choice)
    requires s.o.ref.Valid() && Enabled(job, s, c) && !c.RFlushIn?
    ensures Apply(job, s, c).r.flushed == s.r.flushed
  {
    if !Runs(c) {
      OtherFrame(job, s, c);
    }
  }

  lemma FlushedLateOther(job: Job, s: Sys, c: Choice)
    requires Watched(s.r, s.w, s.g) && s.o.ref.Valid() && Enabled(job, s, c) && !c.RFlushIn?
    requires FlushedLate(s.r, s.w, s.i, s.g) && s.r.flushed > 0
    ensures var t := Apply(job, s, c); FlushedLate(t.r, t.w, t.i, t.g)
  {
    if Runs(c) {
      RunnerFrame(job, s, c);
    } else {
      OtherFrame(job, s, c);
    }
  }

  /** A run that returns without a failed flush has sent the whole input; a failed flush returns. */
  predicate WholeInputSent(job: Job, s: Sys) {
    && (s.r.pc == Returned && !s.g.flushFault ==> s.r.sent + s.r.flushed >= |job.input|)
    && (s.g.flushFault ==> s.r.pc == Returned && s.r.result == Unknown)
  }

  lemma WholeInputSentStep(job: Job, s: Sys, c: Choice)
    requires s.o.ref.Valid() && Enabled(job, s, c) && WholeInputSent(job, s)
    ensures WholeInputSent(job, Apply(job, s, c))
  {
    if Runs(c) {
      WholeInputSentRunner(job, s, c);
    } else {
      OtherFrame(job, s, c);
    }
  }

  lemma WholeInputSentRunner(job: Job, s: Sys, c: Choice)
    requires s.o.ref.Valid() && Enabled(job, s, c) && Runs(c) && WholeInputSent(job, s)
    ensures WholeInputSent(job, Apply(job, s, c))
  {
  }

  predicate PipeFits(s: Sys) { |s.i.pipe| <= 65536 && |s.i.residue| <= 65536 }

  lemma PipeFitsStep(job: Job, s: Sys, c: Choice)
    requires s.o.ref.Valid() && Enabled(job, s, c) && PipeFits(s)
    ensures PipeFits(Apply(job, s, c))
  {
  }

  /** The flush of the out pipe ends with end of file, or after 10001 vain reads in a row. */
  predicate Patient(r: Runner, w: Watcher, o: Outward) {
    && (r.pc == FlushOut ==> r.misses <= 10000)
    && (r.pc == FlushIn ==> r.misses == 10001 || (w.status.Gone? && !o.foreign))
  }

  lemma PatientStep(job: Job, s: Sys, c: Choice)
    requires Counted(s.r, s.o) && s.o.ref.Valid() && Enabled(job, s, c) && Patient(s.r, s.w, s.o)
    ensures var t := Apply(job, s, c); Patient(t.r, t.w, t.o)
  {
    if c.RFlushOut? {
      PatientFlush(job, s, c.io);
    } else if Runs(c) {
      PatientRunner(job, s, c);
    } else {
      PatientOther(job, s, c);
    }
  }

  lemma PatientFlush(job: Job, s: Sys, io: Io)
    requires Enabled(job, s, RFlushOut(io)) && Patient(s.r, s.w, s.o)
    ensures var t := StepFlushOut(s, io); Patient(t.r, t.w, t.o)
  {
  }

  lemma PatientRunner(job: Job, s: Sys, c: Choice)
    requires Counted(s.r, s.o) && s.o.ref.Valid() && Enabled(job, s, c) && Patient(s.r, s.w, s.o)
    requires Runs(c) && !c.RFlushOut?
    ensures var t := Apply(job, s, c); Patient(t.r, t.w, t.o)
  {
  }

  lemma PatientOther(job: Job, s: Sys, c: Choice)
    requires s.o.ref.Valid() && Enabled(job, s, c) && Patient(s.r, s.w, s.o) && !Runs(c)
    ensures var t := Apply(job, s, c); Patient(t.r, t.w, t.o)
  {
    OtherFrame(job, s, c);
  }

  /** The watcher is in its main loop while it has seen nothing but stops, and leaves it at the first other event. */
  predicate Looped(w: Watcher, g: Log) {
    && (Feeding(w) ==> forall e | e in g.events :: e.Stop?)
    && (w.status.Up? && !Feeding(w) ==> LeftLoop(g.events))
    && (g.viaDrain ==> LeftLoop(g.events))
  }

  predicate LeftLoop(events: seq<Event>) {
    && events != [] && !events[|events| - 1].Stop?
    && forall i | 0 <= i < |events| - 1 :: events[i].Stop?
  }

  lemma LoopedStep(job: Job, s: Sys, c: Choice)
    requires s.o.ref.Valid() && Enabled(job, s, c) && Looped(s.w, s.g)
    ensures var t := Apply(job, s, c); Looped(t.w, t.g)
  {
    if Runs(c) {
      RunnerFrame(job, s, c);
    } else if c.WWait? {
      LoopedWait(job, s, c.bw);
    } else {
      LoopedOther(job, s, c);
    }
  }

  lemma LoopedWait(job: Job, s: Sys, bw: BinaryWait)
    requires Enabled(job, s, WWait(bw)) && Looped(s.w, s.g)
    ensures var t := StepWait(job, s, bw); Looped(t.w, t.g)
  {
    if bw.Saw? {
      assert (s.g.events + [bw.e])[|s.g.events|] == bw.e;
    }
  }

  lemma LoopedOther(job: Job, s: Sys, c: Choice)
    requires s.o.ref.Valid() && Enabled(job, s, c) && Looped(s.w, s.g) && !Runs(c) && !c.WWait?
    ensures var t := Apply(job, s, c); Looped(t.w, t.g)
  {
    LoopOrder(job, s, c);
  }

  /** Only waiting adds events or leaves the main loop, and only a watcher that has left it drains. */
  lemma LoopOrder(job: Job, s: Sys, c: Choice)
    requires s.o.ref.Valid() && Enabled(job, s, c) && !Runs(c) && !c.WWait?
    ensures var t := Apply(job, s, c);
            && t.g.events == s.g.events
            && (t.w.status.Up? ==> s.w.status.Up? && (Feeding(t.w) <==> Feeding(s.w)))
            && (t.g.viaDrain ==> s.g.viaDrain || (s.w.status.Up? && !Feeding(s.w)))
  {
    if Outside(c) {
      OutsideFrame(job, s, c);
    } else if c.WSplice? {
      SpliceOrder(job, s, c.io);
    } else if c.WDrain? {
      DrainOrder(job, s, c.io);
    }
  }

  lemma SpliceOrder(job: Job, s: Sys, io: Io)
    requires Enabled(job, s, WSplice(io))
    ensures var t := StepSplice(job, s, io);
            && t.g.events == s.g.events && t.g.viaDrain == s.g.viaDrain && Feeding(s.w)
            && (t.w.status.Up? ==> Feeding(t.w))
  {
  }

  lemma DrainOrder(job: Job, s: Sys, io: Io)
    requires Enabled(job, s, WDrain(io))
    ensures var t := StepDrain(job, s, io);
            && t.g.events == s.g.events && s.w.status.Up? && !Feeding(s.w)
            && (t.w.status.Up? ==> !Feeding(t.w))
  {
  }

  /** Before the submission is started nothing has been written, seen or handled. */
  predicate Unstarted(w: Watcher, i: Inward, o: Outward, g: Log) {
    w.status == Up(Setup) ==> o.written == "" && i.fed == "" && w.bin == Running && g.events == []
  }

  lemma UnstartedStep(job: Job, s: Sys, c: Choice)
    requires s.o.ref.Valid() && Enabled(job, s, c) && Unstarted(s.w, s.i, s.o, s.g)
    ensures var t := Apply(job, s, c); Unstarted(t.w, t.i, t.o, t.g)
  {
    if Runs(c) {
      UnstartedRunner(job, s, c);
    } else if Outside(c) {
      OutsideFrame(job, s, c);
    } else {
      UnstartedWatcher(job, s, c);
    }
  }

  lemma UnstartedRunner(job: Job, s: Sys, c: Choice)
    requires s.o.ref.Valid() && Enabled(job, s, c) && Runs(c) && Unstarted(s.w, s.i, s.o, s.g)
    ensures var t := Apply(job, s, c); Unstarted(t.w, t.i, t.o, t.g)
  {
    RunnerFrame(job, s, c);
  }

  lemma UnstartedWatcher(job: Job, s: Sys, c: Choice)
    requires s.o.ref.Valid() && Enabled(job, s, c) && !Runs(c) && !Outside(c) && Unstarted(s.w, s.i, s.o, s.g)
    ensures var t := Apply(job, s, c); Unstarted(t.w, t.i, t.o, t.g)
  {
  }

  /** A signal is handled at most once for each time it was sent. */
  predicate HandledOnce(g: Log) { g.usr2Handled + (if g.usr2 then 1 else 0) <= g.usr2Sent }

  lemma HandledOnceStep(job: Job, s: Sys, c: Choice)
    requires s.o.ref.Valid() && Enabled(job, s, c) && HandledOnce(s.g)
    ensures HandledOnce(Apply(job, s, c).g)
  {
  }

  /** A wait status that is neither exit nor signal leaves the result unknown. */
  predicate Puzzled(r: Runner, g: Log) {
    g.unhandled ==>
      && !r.alive && r.spawned && r.watcherResult == Unknown
      && (Left(r) ==> r.result == Unknown)
  }

  lemma PuzzledStep(job: Job, s: Sys, c: Choice)
    requires Watched(s.r, s.w, s.g) && s.o.ref.Valid() && Enabled(job, s, c) && Puzzled(s.r, s.g)
    ensures var t := Apply(job, s, c); Puzzled(t.r, t.g)
  {
    if Runs(c) {
      PuzzledRunner(job, s, c);
    } else {
      OtherFrame(job, s, c);
    }
  }

  lemma PuzzledRunner(job: Job, s: Sys, c: Choice)
    requires Watched(s.r, s.w, s.g) && s.o.ref.Valid() && Enabled(job, s, c) && Puzzled(s.r, s.g) && Runs(c)
    ensures var t := Apply(job, s, c); Puzzled(t.r, t.g)
  {
  }

  // ---------------------------------------------------------------------------------------------
  // Over every run
  // ---------------------------------------------------------------------------------------------

  predicate History(job: Job, s: Sys) {
    && Exits(s.w, s.g) && Answered(job, s.r, s.o, s.g) && NoErrors(s.o) && Signals(job, s.r, s.o, s.g)
    && FlushedLate(s.r, s.w, s.i, s.g) && WholeInputSent(job, s) && PipeFits(s) && Patient(s.r, s.w, s.o)
    && Puzzled(s.r, s.g) && Looped(s.w, s.g) && HandledOnce(s.g)
    && Unstarted(s.w, s.i, s.o, s.g)
  }

  lemma HistoryStep(job: Job, s: Sys, c: Choice)
    requires Inv(job, s) && Enabled(job, s, c) && History(job, s)
    ensures History(job, Apply(job, s, c))
  {
    ExitsStep(job, s, c);
    AnsweredStep(job, s, c);
    NoErrorsStep(job, s, c);
    SignalsStep(job, s, c);
    FlushedLateStep(job, s, c);
    WholeInputSentStep(job, s, c);
    PipeFitsStep(job, s, c);
    PatientStep(job, s, c);
    PuzzledStep(job, s, c);
    LoopedStep(job, s, c);
    HandledOnceStep(job, s, c);
    UnstartedStep(job, s, c);
  }

  lemma {:induction false} ReachesHistory(job: Job, s: Sys, cs: seq<Choice>, t: Sys)
    requires Inv(job, s) && History(job, s) && Reaches(job, s, cs, t)
    ensures History(job, t)
    decreases |cs|
  {
    if cs != [] {
      HistoryStep(job, s, cs[0]);
      StepInv(job, s, cs[0]);
      ReachesHistory(job, Apply(job, s, cs[0]), cs[1..], t);
    }
  }

  lemma ReachableHistory(job: Job, s: Sys)
    requires Reachable(job, s)
    ensures History(job, s)
  {
    var s0, cs :| Init(job, s0) && Reaches(job, s0, cs, s);
    InitInv(job, s0);
    ReachesHistory(job, s0, cs, s);
  }
}
