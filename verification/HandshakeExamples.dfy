/** Calls that go wrong, from every initial state and for every thread and payload. */
module HandshakeExamples {
  import opened Text
  import opened Handshake

  lemma {:induction false} ReachesSnoc(s: Sys, es: seq<Step>, t: Sys, e: Step)
    requires Reaches(s, es, t) && Enabled(t, e)
    ensures Reaches(s, es + [e], Apply(t, e))
    decreases |es|
  {
    if es == [] {
      assert es + [e] == [e] && [e][1..] == [];
      assert Reaches(Apply(t, e), [], Apply(t, e));
    } else {
      assert (es + [e])[1..] == es[1..] + [e];
      ReachesSnoc(Apply(s, es[0]), es[1..], t, e);
    }
  }

  lemma Take(s: Sys, e: Step) returns (t: Sys)
    requires Reachable(s) && Enabled(s, e)
    ensures t == Apply(s, e) && Reachable(t)
  {
    var s0, es :| Init(s0) && Reaches(s0, es, s);
    ReachesSnoc(s0, es, s, e);
    t := Apply(s, e);
  }

  /** A thread that calls gets the mutex and sees 'S'. */
  lemma Ask(s0: Sys, k: Tid, p: Payload) returns (s: Sys)
    requires Init(s0) && k in s0.threads
    ensures Reachable(s) && k in s.threads && s.threads[k] == Thread(Kill, p, 0) && s.owner == Some(k)
    ensures s.flag == FlagS && s.t.handler == Out && !s.pending && s.answers == []
  {
    assert Reaches(s0, [], s0);
    s := Take(s0, MainStep);
    s := Take(s, MainStep);
    s := Take(s, ThreadStep(k, p, true));
    s := Take(s, ThreadStep(k, p, true));
    s := Take(s, ThreadStep(k, p, true));
  }

  /** The handler runs and the thread writes its parameters. */
  lemma Send(s0: Sys, k: Tid, p: Payload) returns (s: Sys)
    requires Reachable(s0) && k in s0.threads && s0.threads[k] == Thread(Kill, p, 0) && s0.owner == Some(k)
    requires s0.flag == FlagS && s0.t.handler == Out && !s0.pending && s0.answers == []
    ensures Reachable(s) && k in s.threads && s.threads[k] == Thread(SetTaken, p, 0) && s.owner == Some(k)
    ensures s.flag == FlagR && s.t.handler == AwaitTaken && s.area == Request(p) && s.answers == []
  {
    s := Take(s0, ThreadStep(k, p, true));
    s := Take(s, TakeSignal);
    s := Take(s, HandlerStep(true, 0));
    s := Take(s, ThreadStep(k, p, true));
    s := Take(s, ThreadStep(k, p, true));
  }

  /** The handler has read the parameters and is about to clone. */
  lemma Requested(s0: Sys, k: Tid, p: Payload) returns (s: Sys)
    requires Init(s0) && k in s0.threads
    ensures Reachable(s) && k in s.threads && s.threads[k] == Thread(AwaitReply, p, 0) && s.owner == Some(k)
    ensures s.flag == FlagK && s.t.handler == Clone && s.answers == []
  {
    s := Ask(s0, k, p);
    s := Send(s, k, p);
    s := Take(s, ThreadStep(k, p, true));
    s := Take(s, HandlerStep(true, 0));
    s := Take(s, HandlerStep(true, 0));
  }

  /** A failed stack allocation is reached, and from there the mutex is never released. */
  lemma CallStuck(s0: Sys, k: Tid, p: Payload) returns (s: Sys)
    requires Init(s0) && k in s0.threads
    ensures Reachable(s) && s.dead && s.owner == Some(k) && !exists es, u :: Ends(s, es, u)
  {
    s := Requested(s0, k, p);
    s := Take(s, HandlerStep(false, 0));
    StuckIffUnanswered(s);
  }

  /** A failed clone is answered with -2, and the thread takes it for a pid. */
  lemma FailedCloneAnswered(s0: Sys, k: Tid, p: Payload) returns (s: Sys)
    requires Init(s0) && k in s0.threads
    ensures Reachable(s) && s.answers == [(p, -2)] && s.owner == None
  {
    s := Requested(s0, k, p);
    s := Take(s, HandlerStep(true, -1));
    s := Reply(s, k, p);
    s := Leave(s, k, p);
  }

  lemma Leave(s0: Sys, k: Tid, p: Payload) returns (s: Sys)
    requires Reachable(s0) && k in s0.threads && s0.threads[k].pc == SetDone && s0.threads[k].payload == p
    ensures Reachable(s) && s.answers == s0.answers + [(p, s0.threads[k].got)] && s.owner == None
  {
    s := Take(s0, ThreadStep(k, p, true));
    s := Take(s, ThreadStep(k, p, true));
  }

  lemma Reply(s0: Sys, k: Tid, p: Payload) returns (s: Sys)
    requires Reachable(s0) && k in s0.threads && s0.threads[k] == Thread(AwaitReply, p, 0) && s0.owner == Some(k)
    requires s0.t.handler == Answer && s0.answers == []
    ensures Reachable(s) && k in s.threads && s.threads[k] == Thread(SetDone, p, s0.t.pid) && s.owner == Some(k)
    ensures s.answers == []
  {
    s := Take(s0, HandlerStep(true, 0));
    s := Take(s, HandlerStep(true, 0));
    s := Take(s, ThreadStep(k, p, true));
    s := Take(s, ThreadStep(k, p, true));
  }
}
