/** A worker's two pipes serve one run after the other: what a run leaves in them, and what reaches the next. */
module RunPipes {
  import opened Text
  import opened RunModel
  import opened RunInvariants
  import opened RunHistory
  import opened RunTheorems
  import opened RunCauses

  /** The run returned without a failed flush and without losing sight of the watcher. */
  predicate Ended(s: Sys) { s.r.pc == Returned && !s.g.flushFault && !s.g.blind }

  /** When the watcher leaves through its drain, all input has been sent before the runner starts flushing. */
  lemma DrainedMeansSent(job: Job, s: Sys)
    requires Reachable(job, s) && s.i.residue == "" && s.g.viaDrain
    ensures s.r.sent + s.r.flushed == |job.input| && s.i.pipe == ""
    ensures !s.g.blind ==> s.r.flushed == 0
  {
    ReachableInv(job, s);
    InputIsConserved(job, s);
    ReachableHistory(job, s);
  }

  /** So the final flush of the in pipe takes one turn, whatever the kernel answers short of an error. */
  lemma FlushTakesOneTurn(job: Job, s: Sys, io: Io)
    requires Reachable(job, s) && s.i.residue == "" && s.g.viaDrain
    requires Enabled(job, s, RFlushIn(io)) && !io.Fault?
    ensures var t := StepFlushIn(job, s, io); t.r.pc == Returned && t.i.pipe == ""
  {
    DrainedMeansSent(job, s);
    if io.Moved? {
      var k := s.r.sent + s.r.flushed;
      assert job.input[k..k + io.n] == "";
    }
  }

  /** The out pipe is flushed until end of file, or until 10001 reads in a row found nothing. */
  lemma FlushIsPatient(job: Job, s: Sys)
    requires Reachable(job, s) && s.r.pc == FlushIn
    ensures s.r.misses == 10001 || (s.w.status.Gone? && !s.o.foreign)
  {
    ReachableHistory(job, s);
  }

  /** Bytes found in the out pipe renew the patience. */
  lemma BytesRenewPatience(job: Job, s: Sys, n: nat)
    requires Enabled(job, s, RFlushOut(Moved(n))) && n > 0
    ensures var t := StepFlushOut(s, Moved(n)); t.r.pc == FlushOut && t.r.misses == 0
  {
  }

  /** The exit statuses of a watcher that has emptied its pipe. */
  predicate Drained(e: WEnd) { e.ExitedWith? && e.js != Runtime }

  /** What the runner sees of a run that leaves its pipes clean: its watcher's status, unless the input is empty. */
  predicate LeavesClean(job: Job, w: WStatus) { job.input == "" || (w.Gone? && Drained(w.end)) }

  /**
   What a run leaves in its worker's pipes: the out pipe is always empty; the in pipe is empty iff the
   watcher took every byte, which it did if it exited with any result but Runtime.
   */
  lemma PipesAfterRun(job: Job, s: Sys)
    requires Reachable(job, s) && Ended(s)
    ensures s.w.status.Gone? && s.o.pipe == ""
    ensures s.i.pipe == "" <==> s.w.spliced + s.w.drained == |s.i.residue| + |job.input|
    ensures s.i.residue == "" && (s.g.viaDrain || LeavesClean(job, s.w.status)) ==> s.i.pipe == ""
  {
    ReachableInv(job, s);
    ReachableHistory(job, s);
    InputIsConserved(job, s);
  }

  /** A stored Correct always hands over clean. */
  lemma CorrectHandsOver(job: Job, s: Sys)
    requires Reachable(job, s) && Ended(s) && s.r.result == Correct && s.i.residue == ""
    ensures s.i.pipe == "" && s.o.pipe == ""
  {
    CorrectIsSound(job, s);
    PipesAfterRun(job, s);
  }

  /** One submission served by a worker. */
  datatype Served = Served(job: Job, start: Sys, choices: seq<Choice>, end: Sys)

  /** The submissions of one worker: each run starts with the pipes as the previous one left them. */
  ghost predicate WorkerHistory(runs: seq<Served>) {
    && (forall k | 0 <= k < |runs| ::
          Init(runs[k].job, runs[k].start) && Reaches(runs[k].job, runs[k].start, runs[k].choices, runs[k].end))
    && (runs != [] ==> runs[0].start.i.pipe == "" && runs[0].start.o.pipe == "")
    && (forall k | 0 < k < |runs| ::
          runs[k].start.i.pipe == runs[k - 1].end.i.pipe && runs[k].start.o.pipe == runs[k - 1].end.o.pipe)
  }

  /** No byte of an earlier run is in the pipes when run `k` starts. */
  predicate FreshStart(x: Served) { x.start.i.pipe == "" && x.start.o.pipe == "" }

  /** A run on clean pipes handles its own bytes only. */
  lemma OwnBytesOnly(x: Served)
    requires Init(x.job, x.start) && Reaches(x.job, x.start, x.choices, x.end) && FreshStart(x)
    ensures x.end.i.residue == "" && x.end.o.residue == ""
    ensures x.end.i.consumed <= x.job.input
    ensures Flatten(x.end.o.chunks) <= x.end.o.written
  {
    assert Reachable(x.job, x.end);
    ResidueIsFixed(x.job, x.start, x.choices, x.end);
    ReadsOwnInput(x.job, x.end);
    OutputIsOwn(x.job, x.end);
  }

  lemma OutputIsOwn(job: Job, s: Sys)
    requires Reachable(job, s) && s.o.residue == ""
    ensures Flatten(s.o.chunks) <= s.o.written
  {
    ReachableInv(job, s);
    WrittenSplits(s.o);
  }

  lemma CleanHandover(p: Served, x: Served)
    requires Init(p.job, p.start) && Reaches(p.job, p.start, p.choices, p.end) && FreshStart(p)
    requires Ended(p.end) && (p.end.g.viaDrain || LeavesClean(p.job, p.end.w.status))
    requires x.start.i.pipe == p.end.i.pipe && x.start.o.pipe == p.end.o.pipe
    ensures FreshStart(x)
  {
    OwnBytesOnly(p);
    assert Reachable(p.job, p.end);
    PipesAfterRun(p.job, p.end);
  }

  /**
   Isolation over any sequence of submissions: if every earlier run ended in order and its watcher, unless
   the input was empty, exited with a result other than Runtime, then run `k` starts with empty pipes, its
   submission reads a prefix of its own input, and what is compared is its own output.
   */
  lemma {:induction false} RunsAreIsolated(runs: seq<Served>, k: nat)
    requires WorkerHistory(runs) && k < |runs|
    requires forall j | 0 <= j < k :: Ended(runs[j].end) && LeavesClean(runs[j].job, runs[j].end.w.status)
    ensures FreshStart(runs[k])
    ensures runs[k].end.i.consumed <= runs[k].job.input
    ensures Flatten(runs[k].end.o.chunks) <= runs[k].end.o.written
  {
    if k > 0 {
      RunsAreIsolated(runs, k - 1);
      CleanHandover(runs[k - 1], runs[k]);
    }
    OwnBytesOnly(runs[k]);
  }
}
