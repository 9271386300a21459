/** What holds of every run of every job, in every interleaving. */
module RunTheorems {
  import opened Text
  import opened Comparator
  import opened ComparatorProofs
  import opened RunModel
  import opened RunInvariants
  import opened RunHistory

  // ---------------------------------------------------------------------------------------------
  // The verdict means what it says
  // ---------------------------------------------------------------------------------------------

  /**
   Verdict soundness: if a run whose waitpid never failed stores Correct, the watcher exited Correct,
   every byte the submission wrote was read in order and compared, and every comparison, the last
   included, answered 0.
   */
  lemma CorrectIsSound(job: Job, s: Sys)
    requires Reachable(job, s) && Left(s.r) && s.r.result == Correct && !s.g.blind
    ensures s.w.status == Gone(ExitedWith(Correct))
    ensures s.o.residue + s.o.written == Flatten(s.o.chunks)
    ensures Zeros(s.o.codes) && s.o.lastCode == Some(0)
    ensures Accepts(Opened(job.expected), s.o.chunks, 0)
  {
    ReachableInv(job, s);
    var out := Flatten(s.o.chunks);
    assert out + "" + "" == out;
  }

  /** The runner read output that the comparator handles right. */
  predicate Judgeable(job: Job, o: Outward) { Fits(job.expected, |job.expected|, o.chunks) }

  /** Output without carriage returns always is such. */
  lemma CleanIsJudgeable(job: Job, s: Sys)
    requires Reachable(job, s) && NoCR(s.o.residue + s.o.written)
    ensures Judgeable(job, s.o)
  {
    ReachableInv(job, s);
    var out := Flatten(s.o.chunks);
    assert forall x | x in out :: x in out + s.o.discarded + s.o.pipe;
    CleanFits(job.expected, |job.expected|, s.o.chunks);
  }

  /** The same without the size of the window: the runner never reads more than 255 bytes at once. */
  predicate Roomy(ref: string, left: int, chunks: seq<string>)
    decreases |chunks|
  {
    chunks != [] ==>
      && (NoCR(chunks[0]) || (NoCR(ref) && |chunks[0]| <= left))
      && Roomy(ref, left - |DropCR(chunks[0])|, chunks[1..])
  }

  lemma {:induction false} ShortChunksFit(ref: string, left: int, chunks: seq<string>)
    requires forall c | c in chunks :: |c| <= 255
    ensures Roomy(ref, left, chunks) <==> Fits(ref, left, chunks)
    decreases |chunks|
  {
    if chunks != [] {
      assert chunks[0] in chunks;
      ShortChunksFit(ref, left - |DropCR(chunks[0])|, chunks[1..]);
    }
  }

  /** Judgeable output, by the lengths left in the reference alone. */
  lemma JudgeableIffRoomy(job: Job, s: Sys)
    requires Reachable(job, s)
    ensures forall c | c in s.o.chunks :: 0 < |c| <= 255
    ensures Judgeable(job, s.o) <==> Roomy(job.expected, |job.expected|, s.o.chunks)
  {
    ReachableInv(job, s);
    ShortChunksFit(job.expected, |job.expected|, s.o.chunks);
  }

  /** An accepted submission printed the expected text, up to carriage returns and trailing newlines. */
  lemma AcceptedIsRight(job: Job, s: Sys, ret: int)
    requires Reachable(job, s) && s.r.pc == Returned && JudgeVerdict(ret, s.r.result) == Accepted && !s.g.blind
    requires Judgeable(job, s.o)
    ensures SameText(s.o.residue + s.o.written, job.expected)
  {
    CorrectIsSound(job, s);
    StreamingIsExact(job.expected, s.o.chunks);
  }

  /** Output that has been refused cannot be completed to the expected text. */
  lemma RefusedChunks(expected: string, chunks: seq<string>, rest: string)
    requires Fits(expected, |expected|, chunks) && !AllZero(Opened(expected), chunks, 0)
    ensures !SameText(Flatten(chunks) + rest, expected)
  {
    var out, r := Flatten(chunks), DropCR(expected);
    assert Opened(expected).Rest() == expected;
    AllZeroFits(Opened(expected), |expected|, chunks, 0);
    DropCRAppend(out, rest);
    ConsumeTwice(r, DropCR(out), DropCR(rest));
    AgreesIsSameText(expected, out + rest);
  }

  /**
   The comparison verdict is exact: when the watcher exits Correct, no pipe failed and the reference
   could be read, the stored result is Correct iff the whole output agrees with the expected text,
   although a wrong submission is cut off at the first wrong chunk.
   */
  lemma VerdictIsExact(job: Job, s: Sys)
    requires Reachable(job, s) && Left(s.r) && !s.g.blind && !s.g.pipeFault && !s.g.flushFault
    requires s.w.status == Gone(ExitedWith(Correct)) && !s.o.ref.broken && Judgeable(job, s.o)
    ensures s.r.result == Correct <==> SameText(s.o.residue + s.o.written, job.expected)
    ensures s.r.result != Correct ==>
              s.r.result == if OverLimit(job, s.r) && s.o.lastCode.None? then OutputLimit else Wrong
  {
    ReachableInv(job, s);
    ReachableHistory(job, s);
    var out, rest := Flatten(s.o.chunks), s.o.discarded + s.o.pipe;
    Assoc(out, s.o.discarded, s.o.pipe);
    if Zeros(s.o.codes) {
      assert rest == "" && out + rest == out;
      StreamingIsExact(job.expected, s.o.chunks);
    } else {
      RefusedChunks(job.expected, s.o.chunks, rest);
    }
  }

  lemma WrittenSplits(o: Outward)
    requires OutputFlow(o) && o.residue == ""
    ensures o.written == Flatten(o.chunks) + (o.discarded + o.pipe)
  {
    assert "" + o.written == o.written;
    Assoc(Flatten(o.chunks), o.discarded, o.pipe);
  }

  // ---------------------------------------------------------------------------------------------
  // A correct run was a clean run
  // ---------------------------------------------------------------------------------------------

  /**
   Cleanliness across the processes: Correct without exceeding the output limit means that SIGUSR2 was
   never sent, and that no event of the submission was a CPU-time signal, a segmentation fault, a fork,
   clone, vfork or exec stop, a death by signal, or a reading above the memory limit.
   */
  lemma CorrectIsClean(job: Job, s: Sys)
    requires Reachable(job, s) && Left(s.r) && s.r.result == Correct && !s.g.blind && !OverLimit(job, s.r)
    ensures s.g.usr2Sent == 0
    ensures forall i | 0 <= i < |s.g.events| ::
              var e := s.g.events[i];
              && !e.Signal?
              && (e.Stop? ==> e.sig != 24 && e.sig != 11 && !(e.sig == 5 && 1 <= e.ptrace <= 4))
              && (e.Stop? && e.sig == 5 ==> e.mem <= 0 || e.mem / 1000000 <= job.memLimitMb)
  {
    ReachableInv(job, s);
    forall i | 0 <= i < |s.g.events|
      ensures var e := s.g.events[i]; !CpuSignal(e) && !BadAccess(e) && !Killing(e) && !ExcessMemory(e, job.memLimitMb)
    {
      var e := s.g.events[i];
      assert !AnyEvent(s.g.events, CpuSignal) && !AnyEvent(s.g.events, BadAccess) && !AnyEvent(s.g.events, Killing);
      assert !AnyEvent(s.g.events, OverMemory(job.memLimitMb));
      assert !OverMemory(job.memLimitMb)(e);
    }
  }

  // ---------------------------------------------------------------------------------------------
  // The output limit
  // ---------------------------------------------------------------------------------------------

  /**
   Too much output is reported as such exactly when the output was also wrong: if every chunk agreed
   with the reference, the final comparison overwrites the output-limit result.
   */
  lemma OutputLimitIsExact(job: Job, s: Sys)
    requires Reachable(job, s) && Left(s.r) && !s.g.blind && !s.g.pipeFault && !s.g.flushFault
    requires s.w.status == Gone(ExitedWith(Correct))
    ensures s.r.result == OutputLimit <==>
            s.o.chunks != [] && |Flatten(s.o.chunks)| / 1000000 > job.outputLimitMb && !Zeros(s.o.codes)
    ensures Zeros(s.o.codes) ==> s.o.lastCode.Some? && s.r.result == CompJS(s.o.lastCode.value)
  {
    ReachableInv(job, s);
    ReachableHistory(job, s);
  }

  // ---------------------------------------------------------------------------------------------
  // Input
  // ---------------------------------------------------------------------------------------------

  /**
   Input conservation: at every point of every run the bytes sent are those spliced, drained and still
   in the pipe; the submission has read a prefix of what was spliced; its stdin is closed at most once
   and, for non-empty input and no splice error, exactly when the whole input has been spliced.
   */
  lemma InputIsConserved(job: Job, s: Sys)
    requires Reachable(job, s)
    ensures |s.i.residue| + s.r.sent + s.r.flushed == s.w.spliced + s.w.drained + |s.i.pipe|
    ensures s.i.fed + s.i.drained <= s.i.residue + job.input
    ensures s.i.consumed <= s.i.fed
    ensures s.i.stdinCloses <= 1
    ensures job.input != "" && !s.g.spliceFault ==> (s.i.stdinCloses == 1 <==> |s.i.fed| >= |job.input|)
    ensures job.input == "" ==> s.i.stdinCloses == 0
  {
    ReachableInv(job, s);
    FlowConserves(job, s.r, s.w, s.i);
  }

  lemma FlowConserves(job: Job, r: Runner, w: Watcher, i: Inward)
    requires InputFlow(job, r, w, i)
    ensures |i.residue| + r.sent + r.flushed == w.spliced + w.drained + |i.pipe|
    ensures i.fed + i.drained <= i.residue + job.input && i.consumed <= i.fed
  {
    var k := r.sent + r.flushed;
    assert |i.residue + job.input[..k]| == |i.fed + i.drained + i.pipe|;
    assert i.residue + job.input == (i.residue + job.input[..k]) + job.input[k..];
  }

  /** With clean pipes the submission reads a prefix of its own input file. */
  lemma ReadsOwnInput(job: Job, s: Sys)
    requires Reachable(job, s) && s.i.residue == ""
    ensures s.i.consumed <= job.input && s.i.fed <= job.input
  {
    InputIsConserved(job, s);
    assert "" + job.input == job.input;
    assert s.i.fed <= s.i.fed + s.i.drained;
  }

  /** Bytes of the input the watcher has not taken yet. */
  function Undrained(job: Job, s: Sys): int { |job.input| - s.w.spliced - s.w.drained }

  /**
   Drain progress: while the watcher drains and misses part of the input, either the pipe holds bytes or
   the runner is still in its loop with bytes left to send.
   */
  lemma DrainNeverStarves(job: Job, s: Sys)
    requires Reachable(job, s) && !s.g.blind && s.w.status == Up(Drain) && Undrained(job, s) > 0
    ensures s.i.pipe != "" || (s.r.sent < |job.input| && !Left(s.r))
  {
    ReachableInv(job, s);
    InputIsConserved(job, s);
  }

  /** A step puts at most 40000 bytes into the in pipe, and passes at most as many on to the submission. */
  lemma TransferIsBounded(job: Job, s: Sys, c: Choice)
    requires s.o.ref.Valid() && Enabled(job, s, c)
    ensures |Apply(job, s, c).i.pipe| <= |s.i.pipe| + 40000
    ensures Apply(job, s, c).w.spliced <= s.w.spliced + 40000
  {
  }

  /** Once the whole input is sent the in pipe is left alone, and nothing that happens to it counts. */
  lemma SentAllIsSilent(job: Job, s: Sys, io: Io)
    requires s.r.sent >= |job.input| && Enabled(job, s, RSend(io))
    ensures var t := StepSend(job, s, io); t.g == s.g && t.i == s.i && t.r.compout == s.r.compout
  {
  }

  /** No step gives taken bytes back, and taking some while draining makes progress. */
  lemma DrainMeasure(job: Job, s: Sys, c: Choice)
    requires s.o.ref.Valid() && Enabled(job, s, c)
    ensures Undrained(job, Apply(job, s, c)) <= Undrained(job, s)
    ensures c.WDrain? && c.io.Moved? && c.io.n > 0 ==> Undrained(job, Apply(job, s, c)) < Undrained(job, s)
  {
    if Runs(c) {
      RunnerFrame(job, s, c);
    }
  }

  // ---------------------------------------------------------------------------------------------
  // What else every run keeps
  // ---------------------------------------------------------------------------------------------

  lemma {:induction false} ResidueIsFixed(job: Job, s: Sys, cs: seq<Choice>, t: Sys)
    requires Reaches(job, s, cs, t)
    ensures t.i.residue == s.i.residue && t.o.residue == s.o.residue
    decreases |cs|
  {
    if cs != [] {
      ResidueStep(job, s, cs[0]);
      ResidueIsFixed(job, Apply(job, s, cs[0]), cs[1..], t);
    }
  }

  lemma ResidueStep(job: Job, s: Sys, c: Choice)
    requires s.o.ref.Valid() && Enabled(job, s, c)
    ensures var t := Apply(job, s, c); t.i.residue == s.i.residue && t.o.residue == s.o.residue
  {
    if Runs(c) {
      RunnerFrame(job, s, c);
    } else {
      OtherFrame(job, s, c);
    }
  }
}
