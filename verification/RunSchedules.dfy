/**
 Bringing a run to its end.  From every point of every run either some schedule ends it in order, or its
 watcher is gone and has left more input behind than a pipe holds: then the final flush never ends.
 */
module RunSchedules {
  import opened Text
  import opened Comparator
  import opened RunModel
  import opened RunInvariants
  import opened RunHistory
  import opened RunTheorems

  // ---------------------------------------------------------------------------------------------
  // Schedules
  // ---------------------------------------------------------------------------------------------

  ghost predicate Leads(job: Job, a: Sys, s: Sys) { exists cs :: Reaches(job, a, cs, s) }

  lemma {:induction false} ReachesSnoc(job: Job, s: Sys, cs: seq<Choice>, t: Sys, c: Choice)
    requires Reaches(job, s, cs, t) && t.o.ref.Valid() && Enabled(job, t, c)
    ensures Reaches(job, s, cs + [c], Apply(job, t, c))
    decreases |cs|
  {
    if cs == [] {
      assert cs + [c] == [c] && [c][1..] == [];
      assert Reaches(job, Apply(job, t, c), [], Apply(job, t, c));
    } else {
      assert (cs + [c])[1..] == cs[1..] + [c];
      ReachesSnoc(job, Apply(job, s, cs[0]), cs[1..], t, c);
    }
  }

  /** `s` occurs in some run, at or after `a`. */
  ghost predicate On(job: Job, a: Sys, s: Sys) { Reachable(job, s) && Leads(job, a, s) && s.o.ref.Valid() }

  lemma Here(job: Job, s: Sys)
    requires Reachable(job, s)
    ensures On(job, s, s)
  {
    ReachableInv(job, s);
    assert Reaches(job, s, [], s);
  }

  /** Taking an enabled step. */
  lemma Take(job: Job, a: Sys, s: Sys, c: Choice) returns (t: Sys)
    requires On(job, a, s) && Enabled(job, s, c)
    ensures t == Apply(job, s, c) && On(job, a, t)
  {
    t := Apply(job, s, c);
    var s0, cs :| Init(job, s0) && Reaches(job, s0, cs, s);
    ReachesSnoc(job, s0, cs, s, c);
    assert Reachable(job, t);
    var ds :| Reaches(job, a, ds, s);
    ReachesSnoc(job, a, ds, s, c);
    assert Leads(job, a, t);
    ReachableInv(job, t);
  }

  // ---------------------------------------------------------------------------------------------
  // Without the watcher
  // ---------------------------------------------------------------------------------------------

  /** The way in and the watcher are as before, and so is what went wrong. */
  predicate SameInput(s: Sys, t: Sys) {
    && t.w == s.w && t.i == s.i && t.r.sent == s.r.sent && t.r.flushed == s.r.flushed
    && t.g.blind == s.g.blind && t.g.flushFault == s.g.flushFault && t.g.events == s.g.events
  }

  /** How far the runner is from leaving its loop once the watcher is gone. */
  function LoopRank(r: Runner): nat {
    match r.pc
    case Poll => if r.alive then 0 else 2
    case Send => if r.alive then 2 else 1
    case Read => if r.alive then 1 else 0
    case _ => 0
  }

  /** What the runner does next when nothing is sent any more. */
  function LoopChoice(s: Sys): Choice {
    match s.r.pc
    case Poll => RPoll(if s.r.alive && s.w.status.Gone? then Reaped else NoChange)
    case Send => RSend(Again)
    case _ => RRead(if s.o.pipe == "" then Again else Moved(Min(255, |s.o.pipe|)))
  }

  lemma LoopStep(job: Job, s: Sys)
    requires s.o.ref.Valid() && s.w.status.Gone? && !Left(s.r)
    ensures Enabled(job, s, LoopChoice(s))
    ensures var t := Apply(job, s, LoopChoice(s));
            && SameInput(s, t) && (Left(t.r) ==> t.r.pc == FlushOut)
            && (t.r.alive ==> s.r.alive) && |t.o.pipe| <= |s.o.pipe|
            && (Left(t.r) || (s.r.alive && !t.r.alive) || |t.o.pipe| < |s.o.pipe| || LoopRank(t.r) < LoopRank(s.r))
  {
  }

  lemma {:induction false} LeaveLoop(job: Job, a: Sys, s: Sys) returns (t: Sys)
    requires On(job, a, s) && s.w.status.Gone? && !Left(s.r)
    ensures On(job, a, t) && SameInput(s, t) && t.r.pc == FlushOut
    decreases s.r.alive, |s.o.pipe|, LoopRank(s.r)
  {
    LoopStep(job, s);
    t := Take(job, a, s, LoopChoice(s));
    if !Left(t.r) {
      t := LeaveLoop(job, a, t);
    }
  }

  lemma {:induction false} FlushOutAll(job: Job, a: Sys, s: Sys) returns (t: Sys)
    requires On(job, a, s) && s.r.pc == FlushOut
    ensures On(job, a, t) && SameInput(s, t) && t.r.pc == FlushIn && t.r.result == s.r.result
    decreases |s.o.pipe|, 10001 - s.r.misses
  {
    t := Take(job, a, s, RFlushOut(if s.o.pipe == "" then Again else Moved(Min(255, |s.o.pipe|))));
    if t.r.pc == FlushOut {
      t := FlushOutAll(job, a, t);
    }
  }

  function Unsent(job: Job, r: Runner): int { |job.input| - r.sent - r.flushed }

  /** Nothing but the flush has happened. */
  predicate SameButFlushed(s: Sys, t: Sys) {
    && t.w == s.w && t.g == s.g && t.o == s.o && t.i.residue == s.i.residue && t.r.result == s.r.result
  }

  lemma {:induction false} FlushInAll(job: Job, a: Sys, s: Sys) returns (t: Sys)
    requires On(job, a, s) && s.r.pc == FlushIn && |s.i.pipe| + Unsent(job, s.r) <= 65536
    ensures On(job, a, t) && SameButFlushed(s, t) && t.r.pc == Returned
    decreases Unsent(job, s.r)
  {
    BehindIsPipeAndRest(job, s);
    t := Take(job, a, s, RFlushIn(Moved(Min(40000, Unsent(job, s.r)))));
    if t.r.pc == FlushIn {
      t := FlushInAll(job, a, t);
    }
  }

  /** Input the watcher has not taken: what is in the pipe and what is still to be sent. */
  function Behind(job: Job, s: Sys): int { |s.i.residue| + |job.input| - s.w.spliced - s.w.drained }

  lemma BehindIsPipeAndRest(job: Job, s: Sys)
    requires Reachable(job, s)
    ensures Behind(job, s) == |s.i.pipe| + Unsent(job, s.r) && Unsent(job, s.r) >= 0
  {
    ReachableInv(job, s);
    InputIsConserved(job, s);
  }

  /** A run whose watcher is gone and has left no more than a pipe holds can be ended in order. */
  lemma Finish(job: Job, a: Sys, s: Sys) returns (t: Sys)
    requires On(job, a, s) && s.w.status.Gone? && s.r.pc != Returned && Behind(job, s) <= 65536
    ensures On(job, a, t) && t.r.pc == Returned && t.w == s.w && t.i.residue == s.i.residue
    ensures t.g.blind == s.g.blind && t.g.flushFault == s.g.flushFault && t.g.events == s.g.events
    ensures Left(s.r) ==> t.r.result == s.r.result
  {
    t := s;
    if !Left(t.r) {
      t := LeaveLoop(job, a, t);
    }
    if t.r.pc == FlushOut {
      t := FlushOutAll(job, a, t);
    }
    BehindIsPipeAndRest(job, t);
    t := FlushInAll(job, a, t);
  }

  // ---------------------------------------------------------------------------------------------
  // With the watcher
  // ---------------------------------------------------------------------------------------------

  /** The watcher and what it handed on are as before; the runner may have sent input. */
  predicate SameWatcher(s: Sys, t: Sys) {
    && t.w == s.w && t.i.residue == s.i.residue && t.i.stdin == s.i.stdin
    && t.g.blind == s.g.blind && t.g.flushFault == s.g.flushFault && t.g.events == s.g.events
  }

  /** How far the runner is from sending. */
  function FeedRank(r: Runner): nat {
    match r.pc
    case Read => 3
    case Poll => 2
    case _ => 1
  }

  /** An empty pipe is fed while input is left: the runner gets to send, in its loop or in its flush. */
  lemma {:induction false} FeedEmpty(job: Job, a: Sys, s: Sys) returns (t: Sys)
    requires On(job, a, s) && s.w.status.Up? && s.i.pipe == "" && Unsent(job, s.r) > 0 && !s.g.flushFault
    ensures On(job, a, t) && SameWatcher(s, t) && t.i.pipe != ""
    decreases FeedRank(s.r)
  {
    if s.r.pc == Send {
      t := SendSome(job, a, s);
    } else if s.r.pc == Poll || s.r.pc == Read {
      t := LoopTurn(job, a, s);
      t := FeedEmpty(job, a, t);
    } else {
      ReachableHistory(job, s);
      t := s;
      if s.r.pc == FlushOut {
        t := FlushOutAll(job, a, s);
      }
      t := FlushSome(job, a, t);
    }
  }

  lemma LoopTurn(job: Job, a: Sys, s: Sys) returns (t: Sys)
    requires On(job, a, s) && s.w.status.Up? && (s.r.pc == Poll || s.r.pc == Read)
    ensures On(job, a, t) && SameInput(s, t) && FeedRank(t.r) < FeedRank(s.r)
  {
    UpTurn(job, s);
    t := Take(job, a, s, LoopChoice(s));
  }

  lemma UpTurn(job: Job, s: Sys)
    requires s.o.ref.Valid() && s.w.status.Up? && (s.r.pc == Poll || s.r.pc == Read)
    ensures Enabled(job, s, LoopChoice(s))
    ensures var t := Apply(job, s, LoopChoice(s)); SameInput(s, t) && FeedRank(t.r) < FeedRank(s.r)
  {
  }

  lemma FlushSome(job: Job, a: Sys, s: Sys) returns (t: Sys)
    requires On(job, a, s) && s.r.pc == FlushIn && s.i.pipe == "" && Unsent(job, s.r) > 0
    ensures On(job, a, t) && SameWatcher(s, t) && t.i.pipe != ""
  {
    t := Take(job, a, s, RFlushIn(Moved(Min(40000, Unsent(job, s.r)))));
  }

  lemma SendSome(job: Job, a: Sys, s: Sys) returns (t: Sys)
    requires On(job, a, s) && s.r.pc == Send && s.i.pipe == "" && Unsent(job, s.r) > 0
    ensures On(job, a, t) && SameWatcher(s, t) && t.i.pipe != ""
  {
    ReachableHistory(job, s);
    t := Take(job, a, s, RSend(Moved(Min(40000, Unsent(job, s.r)))));
  }

  /** The watcher's flags, the events and what went wrong are as before. */
  predicate SameFlags(s: Sys, t: Sys) {
    && t.w.(status := s.w.status, spliced := s.w.spliced, drained := s.w.drained) == s.w
    && t.i.residue == s.i.residue && t.g.events == s.g.events
    && t.g.blind == s.g.blind && t.g.flushFault == s.g.flushFault
  }

  /** The watcher is in its main loop. */
  predicate Looping(w: Watcher) { w.status == Up(Splice) || w.status == Up(Wait) }

  /** Input of this run the watcher has not counted yet. */
  function Missing(job: Job, w: Watcher): int { |job.input| - w.spliced - w.drained }

  /** Splicing one byte to the submission, which reads what it was given first. */
  lemma SpliceOne(job: Job, a: Sys, s: Sys) returns (t: Sys)
    requires On(job, a, s) && Looping(s.w) && s.i.pipe != "" && s.w.spliced < |job.input|
    ensures On(job, a, t) && SameFlags(s, t) && t.w.status == Up(Wait) && Behind(job, t) == Behind(job, s) - 1
  {
    t := s;
    if t.w.status == Up(Wait) {
      t := Take(job, a, t, WWait(Quiet));
    }
    t := ReadThenSplice(job, a, t);
  }

  lemma ReadThenSplice(job: Job, a: Sys, s: Sys) returns (t: Sys)
    requires On(job, a, s) && s.w.status == Up(Splice) && s.i.pipe != "" && s.w.spliced < |job.input|
    ensures On(job, a, t) && SameFlags(s, t) && t.w.status == Up(Wait) && Behind(job, t) == Behind(job, s) - 1
  {
    t := Take(job, a, s, BRead(|s.i.stdin|));
    t := Take(job, a, t, WSplice(Moved(1)));
  }

  /** The watcher can take one more byte of missing input. */
  lemma TakeOne(job: Job, a: Sys, s: Sys) returns (t: Sys)
    requires On(job, a, s) && !s.g.flushFault && (Looping(s.w) || s.w.status == Up(Drain)) && Missing(job, s.w) > 0
    ensures On(job, a, t) && SameFlags(s, t) && Behind(job, t) == Behind(job, s) - 1
    ensures Looping(s.w) ==> Looping(t.w)
    ensures s.w.status == Up(Drain) ==>
              t.w.status == Up(if Missing(job, t.w) > 0 then Drain else JudgeFlags)
  {
    BehindIsPipeAndRest(job, s);
    t := s;
    if s.i.pipe == "" {
      t := FeedEmpty(job, a, s);
    }
    if Looping(t.w) {
      t := SpliceOne(job, a, t);
    } else {
      t := Take(job, a, t, WDrain(Moved(1)));
    }
  }

  /** And so on, until no more than `goal` is behind. */
  lemma {:induction false} TakeUntil(job: Job, a: Sys, s: Sys, goal: nat) returns (t: Sys)
    requires On(job, a, s) && !s.g.flushFault && (Looping(s.w) || s.w.status == Up(Drain)) && |s.i.residue| <= goal
    ensures On(job, a, t) && SameFlags(s, t)
    ensures Behind(job, t) == if Behind(job, s) > goal then goal else Behind(job, s)
    ensures Looping(s.w) ==> Looping(t.w)
    ensures s.w.status == Up(Drain) ==>
              t.w.status == Up(Drain) || (t.w.status == Up(JudgeFlags) && Missing(job, t.w) <= 0)
    decreases Behind(job, s) - goal
  {
    t := s;
    if Behind(job, s) > goal {
      t := TakeOne(job, a, s);
      if Behind(job, t) > goal {
        t := TakeUntil(job, a, t, goal);
      }
    }
  }

  // ---------------------------------------------------------------------------------------------
  // Which runs can end
  // ---------------------------------------------------------------------------------------------

  lemma {:induction false} ReachesTrans(job: Job, s: Sys, cs: seq<Choice>, t: Sys, ds: seq<Choice>, u: Sys)
    requires Reaches(job, s, cs, t) && Reaches(job, t, ds, u)
    ensures Reaches(job, s, cs + ds, u)
    decreases |cs|
  {
    if cs == [] {
      assert cs + ds == ds;
    } else {
      assert (cs + ds)[1..] == cs[1..] + ds;
      ReachesTrans(job, Apply(job, s, cs[0]), cs[1..], t, ds, u);
    }
  }

  lemma LeadsReachable(job: Job, s: Sys, t: Sys)
    requires Reachable(job, s) && Leads(job, s, t)
    ensures Reachable(job, t)
  {
    var s0, cs :| Init(job, s0) && Reaches(job, s0, cs, s);
    var ds :| Reaches(job, s, ds, t);
    ReachesTrans(job, s0, cs, s, ds, t);
  }

  /** A watcher that is up can take input until the rest fits the pipe. */
  lemma MakeRoom(job: Job, a: Sys, s: Sys) returns (t: Sys)
    requires On(job, a, s) && s.w.status.Up? && !s.g.flushFault
    ensures On(job, a, t) && t.w.status.Up? && Behind(job, t) <= 65536 && !t.g.flushFault
  {
    ReachableHistory(job, s);
    match s.w.status.pc
    case Setup =>
      t := Take(job, a, s, WStart(true));
      t := TakeUntil(job, a, t, 65536);
    case JudgeFlags =>
      JudgingHasRoom(job, s);
      t := s;
    case JudgeState =>
      JudgingHasRoom(job, s);
      t := s;
    case _ => t := TakeUntil(job, a, s, 65536);
  }

  lemma JudgingHasRoom(job: Job, s: Sys)
    requires Reachable(job, s) && PipeFits(s) && (s.w.status == Up(JudgeFlags) || s.w.status == Up(JudgeState))
    ensures Behind(job, s) <= 65536
  {
    ReachableInv(job, s);
  }

  /** While its watcher is up, a run can always be ended in order. */
  lemma EndUp(job: Job, a: Sys, s: Sys) returns (t: Sys)
    requires On(job, a, s) && s.w.status.Up? && s.r.pc != Returned && !s.g.flushFault
    ensures On(job, a, t) && t.r.pc == Returned && !t.g.flushFault
  {
    t := MakeRoom(job, a, s);
    t := Take(job, a, t, WDies);
    if t.r.pc != Returned {
      t := Finish(job, a, t);
    }
  }

  /** Once the watcher is gone, what it left behind stays. */
  lemma BehindStays(job: Job, s: Sys, c: Choice)
    requires s.o.ref.Valid() && Enabled(job, s, c) && s.w.status.Gone?
    ensures var t := Apply(job, s, c); t.w == s.w && Behind(job, t) == Behind(job, s)
  {
  }

  lemma {:induction false} BehindForever(job: Job, s: Sys, cs: seq<Choice>, t: Sys)
    requires Reaches(job, s, cs, t) && s.w.status.Gone?
    ensures t.w == s.w && Behind(job, t) == Behind(job, s)
    decreases |cs|
  {
    if cs != [] {
      BehindStays(job, s, cs[0]);
      BehindForever(job, Apply(job, s, cs[0]), cs[1..], t);
    }
  }

  /** A continuation that ends the run without an error on the worker's pipes. */
  ghost predicate EndsIn(job: Job, s: Sys, t: Sys) { Leads(job, s, t) && t.r.pc == Returned && !t.g.flushFault }

  /**
   A run that has not returned can be ended in order iff its watcher is still up or has left behind no more
   than a pipe holds.  Otherwise the flush of the in pipe goes on for ever: nobody reads the pipe, and its
   read end stays open.
   */
  lemma EndsIffRoom(job: Job, s: Sys)
    requires Reachable(job, s) && s.r.pc != Returned
    ensures (exists t :: EndsIn(job, s, t)) <==> s.w.status.Up? || Behind(job, s) <= 65536
  {
    Here(job, s);
    ReachableHistory(job, s);
    if s.w.status.Up? {
      var t := EndUp(job, s, s);
      assert EndsIn(job, s, t);
    } else if Behind(job, s) <= 65536 {
      var t := Finish(job, s, s);
      assert EndsIn(job, s, t);
    } else {
      forall t
        ensures !EndsIn(job, s, t)
      {
        if EndsIn(job, s, t) {
          NoRoomNoEnd(job, s, t);
        }
      }
    }
  }

  lemma NoRoomNoEnd(job: Job, s: Sys, t: Sys)
    requires Reachable(job, s) && s.w.status.Gone? && Behind(job, s) > 65536 && Leads(job, s, t)
    ensures t.r.pc != Returned || t.g.flushFault
  {
    LeadsReachable(job, s, t);
    var cs :| Reaches(job, s, cs, t);
    BehindForever(job, s, cs, t);
    BehindIsPipeAndRest(job, t);
    ReachableHistory(job, t);
  }
}
