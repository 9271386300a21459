/**
 The clone handshake (runner.c: jug_runner_template, its signal handler, jug_runner_template_clone).
 Worker threads ask the template process to clone a watcher through one flag byte, a payload area and
 SIGUSR1; a mutex admits one thread at a time.  Memory is sequentially consistent, and every load, store,
 signal delivery and clone is one step.
 */
module Handshake {
  import opened Text

  type Tid = nat
  type Payload = string

  /** template_shm[0]: 'I' as created, 'N'ot ready, 'S'tart, 'R'eady or replied, 'K' for taken. */
  datatype Flag = FlagI | FlagN | FlagS | FlagR | FlagK

  /** The shared area behind the flag: a request's parameters or the pid that answers it. */
  datatype Area = Garbage | Request(p: Payload) | Reply(pid: int)

  /** jug_runner_template_clone, statement by statement; a thread outside it is Idle. */
  datatype ThreadPc =
    | Idle
    | Locking        // about to take the mutex
    | AwaitStart     // spins until the flag is 'S'
    | Kill           // about to send SIGUSR1
    | AwaitReady     // spins until the flag is 'R'
    | Write          // about to write the parameters
    | SetTaken       // about to store 'K'
    | AwaitReply     // spins until the flag is 'R'
    | ReadPid        // about to read the pid
    | SetDone        // about to store 'K'
    | Unlock         // about to release the mutex and return `got`
    | UnlockFailed   // the signal could not be sent: release the mutex and return -1

  datatype Thread = Thread(pc: ThreadPc, payload: Payload, got: int)

  /** The template's main loop; a signal caught before the sleep does not cut the sleep short. */
  datatype MainPc = SetNotReady | SetStart | BeforeSleep | Asleep

  /** The SIGUSR1 handler; `Out` means that no signal is being handled. */
  datatype HandlerPc =
    | Out
    | SetReady       // about to store 'R'
    | AwaitTaken     // spins until the flag is 'K'
    | ReadArgs       // about to read the parameters
    | Clone          // about to allocate the stack and clone
    | Answer         // about to write the pid
    | SetReply       // about to store 'R'
    | AwaitDone      // spins until the flag is 'K'
    | SetFree        // about to store 'R' and return

  datatype Template = Template(main: MainPc, handler: HandlerPc, args: Payload, pid: int)

  /** `clones` and `answers` are history: what the kernel answered to clone, and what the callers were given;
      `dead` says that the handler returned without an answer. */
  datatype Sys = Sys(flag: Flag, area: Area, pending: bool, owner: Option<Tid>,
                     threads: map<Tid, Thread>, t: Template,
                     clones: seq<(Payload, int)>, answers: seq<(Payload, int)>, dead: bool)

  predicate Init(s: Sys) {
    && s.flag == FlagI && !s.pending && s.owner == None
    && (forall k | k in s.threads :: s.threads[k].pc == Idle)
    && s.t.main == SetNotReady && s.t.handler == Out
    && s.clones == [] && s.answers == [] && !s.dead
  }

  /** A thread moves (with the parameters it starts a call with, and whether its kill succeeds), the main
      loop moves, a pending signal is taken, or the handler moves (with what malloc and clone answer). */
  datatype Step =
    | ThreadStep(k: Tid, p: Payload, killed: bool)
    | MainStep
    | TakeSignal
    | HandlerStep(stack: bool, pid: int)

  // ---------------------------------------------------------------------------------------------
  // Steps
  // ---------------------------------------------------------------------------------------------

  /** A spinning thread only moves when its flag value is there; Locking needs a free mutex. */
  predicate ThreadReady(s: Sys, pc: ThreadPc) {
    match pc
    case Locking => s.owner == None
    case AwaitStart => s.flag == FlagS
    case AwaitReady => s.flag == FlagR
    case AwaitReply => s.flag == FlagR
    case _ => true
  }

  predicate HandlerReady(s: Sys) {
    match s.t.handler
    case Out => false
    case AwaitTaken => s.flag == FlagK
    case AwaitDone => s.flag == FlagK
    case _ => true
  }

  /** The main loop does not run while the handler does; the handler does not nest. */
  predicate Enabled(s: Sys, e: Step) {
    match e
    case ThreadStep(k, _, _) => k in s.threads && ThreadReady(s, s.threads[k].pc)
    case MainStep => s.t.handler == Out
    case TakeSignal => s.pending && s.t.handler == Out
    case HandlerStep(_, _) => HandlerReady(s)
  }

  function AreaPid(a: Area): int { if a.Reply? then a.pid else 0 }

  function AreaArgs(a: Area): Payload { if a.Request? then a.p else "" }

  function MoveThread(s: Sys, k: Tid, p: Payload, killed: bool): Sys
    requires k in s.threads
  {
    var th := s.threads[k];
    var go := (pc: ThreadPc) => s.threads[k := th.(pc := pc)];
    match th.pc
    case Idle => s.(threads := s.threads[k := Thread(Locking, p, 0)])
    case Locking => s.(threads := go(AwaitStart), owner := Some(k))
    case AwaitStart => s.(threads := go(Kill))
    case Kill => if killed then s.(threads := go(AwaitReady), pending := true) else s.(threads := go(UnlockFailed))
    case AwaitReady => s.(threads := go(Write))
    case Write => s.(threads := go(SetTaken), area := Request(th.payload))
    case SetTaken => s.(threads := go(AwaitReply), flag := FlagK)
    case AwaitReply => s.(threads := go(ReadPid))
    case ReadPid => s.(threads := s.threads[k := th.(pc := SetDone, got := AreaPid(s.area))])
    case SetDone => s.(threads := go(Unlock), flag := FlagK)
    case Unlock => s.(threads := go(Idle), owner := None, answers := s.answers + [(th.payload, th.got)])
    case UnlockFailed => s.(threads := go(Idle), owner := None)
  }

  function MoveMain(s: Sys): Sys {
    match s.t.main
    case SetNotReady => s.(t := s.t.(main := SetStart), flag := FlagN)
    case SetStart => s.(t := s.t.(main := BeforeSleep), flag := FlagS)
    case BeforeSleep => s.(t := s.t.(main := Asleep))
    case Asleep => s.(t := s.t.(main := SetStart))
  }

  /** The reported pid: clone's failure -1 becomes -2. */
  function ReplyPid(pid: int): int { if pid == -1 then -2 else pid }

  function MoveHandler(s: Sys, stack: bool, pid: int): Sys {
    match s.t.handler
    case Out => s
    case SetReady => s.(t := s.t.(handler := AwaitTaken), flag := FlagR)
    case AwaitTaken => s.(t := s.t.(handler := ReadArgs))
    case ReadArgs => s.(t := s.t.(handler := Clone, args := AreaArgs(s.area)))
    case Clone =>
      if !stack then Resume(s).(dead := true)
      else s.(t := s.t.(handler := Answer, pid := ReplyPid(pid)), clones := s.clones + [(s.t.args, pid)])
    case Answer => s.(t := s.t.(handler := SetReply), area := Reply(s.t.pid))
    case SetReply => s.(t := s.t.(handler := AwaitDone), flag := FlagR)
    case AwaitDone => s.(t := s.t.(handler := SetFree))
    case SetFree => Resume(s).(flag := FlagR)
  }

  /** The handler answers: an interrupted sleep ends early, and the loop goes round to store 'S'. */
  function Resume(s: Sys): Sys {
    s.(t := s.t.(handler := Out, main := if s.t.main == Asleep then SetStart else s.t.main))
  }

  function Apply(s: Sys, e: Step): Sys
    requires Enabled(s, e)
  {
    match e
    case ThreadStep(k, p, killed) => MoveThread(s, k, p, killed)
    case MainStep => MoveMain(s)
    case TakeSignal => s.(pending := false, t := s.t.(handler := SetReady))
    case HandlerStep(stack, pid) => MoveHandler(s, stack, pid)
  }

  ghost predicate Reaches(s: Sys, es: seq<Step>, u: Sys)
    decreases |es|, 1
  {
    if es == [] then s == u else StepsOn(s, es, u)
  }

  /** The first step is taken, the others follow. */
  ghost predicate StepsOn(s: Sys, es: seq<Step>, u: Sys)
    requires es != []
    decreases |es|, 0
  {
    Enabled(s, es[0]) && Reaches(Apply(s, es[0]), es[1..], u)
  }

  ghost predicate Reachable(s: Sys) { exists s0, es :: Init(s0) && Reaches(s0, es, s) }

  // ---------------------------------------------------------------------------------------------
  // The phase table
  // ---------------------------------------------------------------------------------------------

  /** Outside the mutex. */
  predicate Outside(pc: ThreadPc) { pc == Idle || pc == Locking }

  /** No request is in flight as far as the template is concerned. */
  predicate Quiet(s: Sys) { !s.pending && s.t.handler == Out }

  /** What a caller is given for a clone: the pid, or -2 for a failure. */
  predicate Answers(answer: (Payload, int), clone: (Payload, int)) {
    answer.0 == clone.0 && answer.1 == if clone.1 == -1 then -2 else clone.1
  }

  /** The last clone is the one asked for with `p`, and `pid` answers it; one caller is still to be served. */
  predicate Served(s: Sys, p: Payload, pid: int) {
    |s.clones| == |s.answers| + 1 && Answers((p, pid), s.clones[|s.answers|])
  }

  /** The phases of one call, by the holder's program counter. */
  predicate Phase(s: Sys, th: Thread) {
    match th.pc
    case Idle => false
    case Locking => false
    case AwaitStart => Released(s)
    case Kill => Quiet(s) && s.flag == FlagS && |s.clones| == |s.answers|
    case UnlockFailed => Quiet(s) && s.flag == FlagS && |s.clones| == |s.answers|
    case AwaitReady =>
      && |s.clones| == |s.answers|
      && ((s.pending && s.t.handler == Out && s.flag == FlagS)
          || (!s.pending && s.t.handler == SetReady && s.flag == FlagS)
          || (!s.pending && s.t.handler == AwaitTaken && s.flag == FlagR))
    case Write => !s.pending && s.t.handler == AwaitTaken && s.flag == FlagR && |s.clones| == |s.answers|
    case SetTaken =>
      && !s.pending && s.t.handler == AwaitTaken && s.flag == FlagR
      && s.area == Request(th.payload) && |s.clones| == |s.answers|
    case AwaitReply =>
      && !s.pending
      && (match s.t.handler
          case AwaitTaken => s.flag == FlagK && s.area == Request(th.payload) && |s.clones| == |s.answers|
          case ReadArgs => s.flag == FlagK && s.area == Request(th.payload) && |s.clones| == |s.answers|
          case Clone => s.flag == FlagK && s.t.args == th.payload && |s.clones| == |s.answers|
          case Answer => s.flag == FlagK && Served(s, th.payload, s.t.pid)
          case SetReply => s.flag == FlagK && Served(s, th.payload, s.t.pid) && s.area == Reply(s.t.pid)
          case AwaitDone => s.flag == FlagR && Served(s, th.payload, s.t.pid) && s.area == Reply(s.t.pid)
          case Out => s.dead && s.flag != FlagR && |s.clones| == |s.answers|
          case SetReady => false
          case SetFree => false)
    case ReadPid =>
      && !s.pending && s.t.handler == AwaitDone && s.flag == FlagR
      && s.area.Reply? && Served(s, th.payload, s.area.pid)
    case SetDone => !s.pending && s.t.handler == AwaitDone && s.flag == FlagR && Served(s, th.payload, th.got)
    case Unlock => Winding(s) && Served(s, th.payload, th.got)
  }

  /** The handler is between seeing the last 'K' and returning, or the main loop goes on afterwards. */
  predicate Winding(s: Sys) {
    && !s.pending
    && (match s.t.handler
        case AwaitDone => s.flag == FlagK
        case SetFree => s.flag == FlagK
        case Out => s.flag == FlagR || s.flag == FlagS
        case _ => false)
  }

  /** Nobody is being served. */
  predicate Released(s: Sys) {
    && |s.clones| == |s.answers|
    && (Winding(s) || (Quiet(s) && (s.flag == FlagI || s.flag == FlagN)))
  }

  /** The `k`-th finished call was given the pid cloned, as the `k`-th, from its own parameters. */
  predicate Matched(s: Sys) {
    && |s.answers| <= |s.clones|
    && forall i | 0 <= i < |s.answers| :: Answers(s.answers[i], s.clones[i])
  }

  /** The mutex is held by the only thread inside. */
  predicate Exclusive(s: Sys) {
    && (forall k | k in s.threads && !Outside(s.threads[k].pc) :: s.owner == Some(k))
    && (s.owner.Some? ==> s.owner.value in s.threads && !Outside(s.threads[s.owner.value].pc))
  }

  predicate Inv(s: Sys) {
    && Exclusive(s) && Matched(s)
    && (s.t.main == SetNotReady ==> s.flag == FlagI && s.t.handler == Out)
    && (s.flag == FlagI ==> s.t.main == SetNotReady)
    && (s.flag == FlagN ==> s.t.main == SetStart && s.t.handler == Out)
    && (s.owner == None ==> Released(s) && !s.dead)
    && (s.owner.Some? ==> Phase(s, s.threads[s.owner.value]))
    && (s.dead ==> s.owner.Some? && s.threads[s.owner.value].pc == AwaitReply && s.t.handler == Out)
  }

  lemma InitInv(s: Sys)
    requires Init(s)
    ensures Inv(s)
  {
  }

  /** The steps of a call in four groups. */
  predicate Entering(pc: ThreadPc) { pc == Idle || pc == Locking || pc == AwaitStart }

  predicate Asking(pc: ThreadPc) { pc == Kill || pc == UnlockFailed || pc == AwaitReady }

  predicate Sending(pc: ThreadPc) { pc == Write || pc == SetTaken || pc == AwaitReply }

  lemma EnteringKeeps(s: Sys, k: Tid, p: Payload, killed: bool)
    requires Inv(s) && Enabled(s, ThreadStep(k, p, killed)) && Entering(s.threads[k].pc)
    ensures Inv(MoveThread(s, k, p, killed))
  {
  }

  lemma KillKeeps(s: Sys, k: Tid, p: Payload, killed: bool)
    requires Inv(s) && Enabled(s, ThreadStep(k, p, killed)) && s.threads[k].pc == Kill
    ensures Inv(MoveThread(s, k, p, killed))
  {
  }

  lemma AskingKeeps(s: Sys, k: Tid, p: Payload, killed: bool)
    requires Inv(s) && Enabled(s, ThreadStep(k, p, killed)) && Asking(s.threads[k].pc)
    ensures Inv(MoveThread(s, k, p, killed))
  {
    if s.threads[k].pc == Kill {
      KillKeeps(s, k, p, killed);
    }
  }

  lemma SendingKeeps(s: Sys, k: Tid, p: Payload, killed: bool)
    requires Inv(s) && Enabled(s, ThreadStep(k, p, killed)) && Sending(s.threads[k].pc)
    ensures Inv(MoveThread(s, k, p, killed))
  {
  }

  lemma LeavingKeeps(s: Sys, k: Tid, p: Payload, killed: bool)
    requires Inv(s) && Enabled(s, ThreadStep(k, p, killed))
    requires var pc := s.threads[k].pc; !Entering(pc) && !Asking(pc) && !Sending(pc)
    ensures Inv(MoveThread(s, k, p, killed))
  {
  }

  lemma MainKeepsFree(s: Sys)
    requires Inv(s) && Enabled(s, MainStep) && s.owner == None
    ensures Inv(MoveMain(s))
  {
  }

  lemma MainKeeps(s: Sys)
    requires Inv(s) && Enabled(s, MainStep)
    ensures Inv(MoveMain(s))
  {
    if s.owner == None {
      MainKeepsFree(s);
    } else if s.t.main == SetStart {
      StartKeeps(s);
    }
  }

  lemma StartKeeps(s: Sys)
    requires Inv(s) && Enabled(s, MainStep) && s.owner.Some? && s.t.main == SetStart
    ensures Inv(MoveMain(s))
  {
  }

  lemma SignalKeeps(s: Sys)
    requires Inv(s) && Enabled(s, TakeSignal)
    ensures Inv(Apply(s, TakeSignal))
  {
  }

  /** Up to the clone. */
  predicate Early(h: HandlerPc) { h == SetReady || h == AwaitTaken || h == ReadArgs || h == Clone }

  lemma EarlyKeeps(s: Sys, stack: bool, pid: int)
    requires Inv(s) && Enabled(s, HandlerStep(stack, pid)) && Early(s.t.handler)
    ensures Inv(MoveHandler(s, stack, pid))
  {
  }

  lemma AnswerKeeps(s: Sys, stack: bool, pid: int)
    requires Inv(s) && Enabled(s, HandlerStep(stack, pid)) && (s.t.handler == Answer || s.t.handler == SetReply)
    ensures Inv(MoveHandler(s, stack, pid))
  {
  }

  lemma LateKeeps(s: Sys, stack: bool, pid: int)
    requires Inv(s) && Enabled(s, HandlerStep(stack, pid)) && !Early(s.t.handler)
    ensures Inv(MoveHandler(s, stack, pid))
  {
    if s.t.handler == Answer || s.t.handler == SetReply {
      AnswerKeeps(s, stack, pid);
    }
  }

  lemma StepInv(s: Sys, e: Step)
    requires Inv(s) && Enabled(s, e)
    ensures Inv(Apply(s, e))
  {
    match e
    case ThreadStep(k, p, killed) =>
      var pc := s.threads[k].pc;
      if Entering(pc) { EnteringKeeps(s, k, p, killed); }
      else if Asking(pc) { AskingKeeps(s, k, p, killed); }
      else if Sending(pc) { SendingKeeps(s, k, p, killed); }
      else { LeavingKeeps(s, k, p, killed); }
    case MainStep => MainKeeps(s);
    case TakeSignal => SignalKeeps(s);
    case HandlerStep(stack, pid) =>
      if Early(s.t.handler) { EarlyKeeps(s, stack, pid); } else { LateKeeps(s, stack, pid); }
  }

  lemma {:induction false} ReachesInv(s: Sys, es: seq<Step>, u: Sys)
    requires Inv(s) && Reaches(s, es, u)
    ensures Inv(u)
    decreases |es|
  {
    if es != [] {
      StepInv(s, es[0]);
      ReachesInv(Apply(s, es[0]), es[1..], u);
    }
  }

  lemma ReachableInv(s: Sys)
    requires Reachable(s)
    ensures Inv(s)
  {
    var s0, es :| Init(s0) && Reaches(s0, es, s);
    InitInv(s0);
    ReachesInv(s0, es, s);
  }

  // ---------------------------------------------------------------------------------------------
  // Safety
  // ---------------------------------------------------------------------------------------------

  /**
   For any number of threads in any interleaving: one call at a time is inside; a signal is never pending
   while another is handled; the handler reads and clones from exactly the parameters of the thread
   inside; and the i-th completed call was answered with the i-th clone, made from its own parameters.
   */
  lemma HandshakeIsSafe(s: Sys)
    requires Reachable(s)
    ensures forall j, k | j in s.threads && k in s.threads ::
              !Outside(s.threads[j].pc) && !Outside(s.threads[k].pc) ==> j == k
    ensures s.pending ==> s.t.handler == Out
    ensures s.t.handler == ReadArgs ==>
              s.owner.Some? && s.owner.value in s.threads && s.area == Request(s.threads[s.owner.value].payload)
    ensures s.t.handler == Clone ==>
              s.owner.Some? && s.owner.value in s.threads && s.t.args == s.threads[s.owner.value].payload
    ensures |s.answers| <= |s.clones| <= |s.answers| + 1
    ensures forall i | 0 <= i < |s.answers| ::
              && s.answers[i].0 == s.clones[i].0
              && s.answers[i].1 == if s.clones[i].1 == -1 then -2 else s.clones[i].1
  {
    ReachableInv(s);
  }

  /** A signal is sent only after the previous handler returned and the main loop stored 'S' again. */
  lemma SignalsStartClean(s: Sys, k: Tid)
    requires Reachable(s) && k in s.threads && s.threads[k].pc == Kill
    ensures s.flag == FlagS && s.t.handler == Out && !s.pending && s.owner == Some(k)
  {
    ReachableInv(s);
  }

  /**
   A handler that interrupts the sleep ends it: the next step of the main loop stores 'S' again.  One that runs
   just before the sleep does not: the sleep comes first.
   */
  lemma HandlerEndsSleep(s: Sys, stack: bool, pid: int)
    requires Inv(s) && s.t.handler == SetFree && (s.t.main == Asleep || s.t.main == BeforeSleep)
    ensures var u := MoveHandler(s, stack, pid);
            && u.t.handler == Out && u.flag == FlagR
            && (s.t.main == Asleep ==> MoveMain(u).flag == FlagS)
            && (s.t.main == BeforeSleep ==> MoveMain(MoveMain(u)).flag == FlagR)
            && (s.t.main == BeforeSleep ==> MoveMain(MoveMain(MoveMain(u))).flag == FlagS)
  {
  }

  /** A failed clone is answered with -2, so no answered call ever yields the -1 its caller tests for. */
  lemma FailedCloneUnnoticed(s: Sys)
    requires Reachable(s)
    ensures forall i | 0 <= i < |s.answers| :: s.answers[i].1 != -1
  {
    HandshakeIsSafe(s);
  }

  // ---------------------------------------------------------------------------------------------
  // No stuck state
  // ---------------------------------------------------------------------------------------------

  function ThreadRank(pc: ThreadPc): nat {
    match pc
    case Idle => 0
    case Locking => 0
    case AwaitStart => 12
    case Kill => 11
    case AwaitReady => 10
    case Write => 9
    case SetTaken => 8
    case AwaitReply => 7
    case ReadPid => 6
    case SetDone => 5
    case Unlock => 4
    case UnlockFailed => 4
  }

  function HandlerRank(s: Sys): nat {
    match s.t.handler
    case Out => if s.pending then 10 else 0
    case SetReady => 9
    case AwaitTaken => 8
    case ReadArgs => 7
    case Clone => 6
    case Answer => 5
    case SetReply => 4
    case AwaitDone => 3
    case SetFree => 2
  }

  /** Steps of the main loop until the flag is 'S'. */
  function MainRank(s: Sys): nat {
    if s.flag == FlagS then 0
    else
      match s.t.main
      case SetNotReady => 2
      case SetStart => 1
      case BeforeSleep => 3
      case Asleep => 2
  }

  /** How far the call inside is from its end. */
  function Rank(s: Sys): nat
    requires s.owner.Some? ==> s.owner.value in s.threads
  {
    if s.owner == None then 0
    else 1000 * ThreadRank(s.threads[s.owner.value].pc) + 10 * HandlerRank(s) + MainRank(s)
  }

  /** The step that moves the call inside on. */
  function Onward(s: Sys): Step
    requires s.owner.Some? && s.owner.value in s.threads
  {
    var k := s.owner.value;
    var pc := s.threads[k].pc;
    if ThreadReady(s, pc) && !(pc == AwaitStart && s.t.handler != Out) then ThreadStep(k, "", true)
    else if s.t.handler != Out then HandlerStep(true, 1)
    else if s.pending then TakeSignal
    else MainStep
  }

  /** Barring a failed stack allocation, some step always brings the call inside nearer to its end. */
  lemma AlwaysOnward(s: Sys)
    requires Inv(s) && s.owner.Some? && !s.dead
    ensures Enabled(s, Onward(s))
    ensures var u := Apply(s, Onward(s));
            !u.dead && (u.owner == None || (u.owner == s.owner && u.owner.value in u.threads && Rank(u) < Rank(s)))
  {
    if Onward(s).ThreadStep? {
      ThreadOnward(s, s.owner.value);
    } else {
      TemplateOnward(s);
    }
  }

  lemma ThreadOnward(s: Sys, k: Tid)
    requires Inv(s) && s.owner == Some(k) && !s.dead && Onward(s).ThreadStep?
    ensures Enabled(s, Onward(s))
    ensures var u := Apply(s, Onward(s));
            !u.dead && (u.owner == None || (u.owner == Some(k) && k in u.threads && Rank(u) < Rank(s)))
  {
  }

  lemma TemplateOnward(s: Sys)
    requires Inv(s) && s.owner.Some? && !s.dead && !Onward(s).ThreadStep?
    ensures Enabled(s, Onward(s))
    ensures var u := Apply(s, Onward(s));
            !u.dead && u.owner == s.owner && u.owner.value in u.threads && Rank(u) < Rank(s)
  {
  }

  /** No step of anybody moves it away from its end. */
  lemma NeverBackward(s: Sys, e: Step)
    requires Inv(s) && s.owner.Some? && Enabled(s, e)
    ensures var u := Apply(s, e);
            u.dead || u.owner == None || (u.owner == s.owner && u.owner.value in u.threads && Rank(u) <= Rank(s))
  {
    match e
    case ThreadStep(k, p, killed) => ThreadNotBack(s, k, p, killed);
    case MainStep => MainNotBack(s);
    case _ =>
  }

  lemma ThreadNotBack(s: Sys, k: Tid, p: Payload, killed: bool)
    requires Inv(s) && s.owner.Some? && Enabled(s, ThreadStep(k, p, killed))
    ensures var u := MoveThread(s, k, p, killed);
            u.owner == None || (u.owner == s.owner && u.owner.value in u.threads && Rank(u) <= Rank(s))
  {
    if s.owner == Some(k) {
      OwnerNotBack(s, k, p, killed);
    }
  }

  lemma OwnerNotBack(s: Sys, k: Tid, p: Payload, killed: bool)
    requires Inv(s) && s.owner == Some(k) && Enabled(s, ThreadStep(k, p, killed))
    ensures var u := MoveThread(s, k, p, killed);
            u.owner == None || (u.owner == Some(k) && k in u.threads && Rank(u) <= Rank(s))
  {
    if Entering(s.threads[k].pc) || Asking(s.threads[k].pc) {
      AskerNotBack(s, k, p, killed);
    }
  }

  lemma AskerNotBack(s: Sys, k: Tid, p: Payload, killed: bool)
    requires Inv(s) && s.owner == Some(k) && Enabled(s, ThreadStep(k, p, killed))
    requires Entering(s.threads[k].pc) || Asking(s.threads[k].pc)
    ensures var u := MoveThread(s, k, p, killed);
            u.owner == None || (u.owner == Some(k) && k in u.threads && Rank(u) <= Rank(s))
  {
  }

  lemma MainNotBack(s: Sys)
    requires Inv(s) && s.owner.Some? && Enabled(s, MainStep)
    ensures var u := MoveMain(s); u.owner == s.owner && u.owner.value in u.threads && Rank(u) <= Rank(s)
  {
  }

  lemma {:induction false} CanFinish(s: Sys) returns (es: seq<Step>, u: Sys)
    requires Inv(s) && s.owner.Some? && !s.dead
    ensures Reaches(s, es, u) && u.owner == None
    decreases Rank(s)
  {
    AlwaysOnward(s);
    var e := Onward(s);
    StepInv(s, e);
    u := Apply(s, e);
    if u.owner == None {
      es := [e];
      assert [e][1..] == [];
    } else {
      var rest;
      rest, u := CanFinish(u);
      es := [e] + rest;
      assert es[1..] == rest;
    }
  }

  lemma DeadStaysDead(s: Sys, e: Step)
    requires Inv(s) && s.dead && Enabled(s, e)
    ensures var u := Apply(s, e); u.dead && u.owner == s.owner && u.answers == s.answers && u.clones == s.clones
  {
  }

  lemma {:induction false} DeadForever(s: Sys, es: seq<Step>, u: Sys)
    requires Inv(s) && s.dead && Reaches(s, es, u)
    ensures u.dead && u.owner == s.owner && u.answers == s.answers
    decreases |es|
  {
    if es != [] {
      DeadStaysDead(s, es[0]);
      StepInv(s, es[0]);
      DeadForever(Apply(s, es[0]), es[1..], u);
    }
  }

  /** A continuation in which the mutex is released. */
  ghost predicate Ends(s: Sys, es: seq<Step>, u: Sys) { Reaches(s, es, u) && u.owner == None }

  /**
   The call inside can still finish iff the handler has not returned unanswered: a failed stack
   allocation is the one way to get stuck, and then the mutex is never released again.
   */
  lemma StuckIffUnanswered(s: Sys)
    requires Reachable(s) && s.owner.Some?
    ensures (exists es, u :: Ends(s, es, u)) <==> !s.dead
  {
    ReachableInv(s);
    if !s.dead {
      var es, u := CanFinish(s);
      assert Ends(s, es, u);
    } else {
      forall es, u | Reaches(s, es, u)
        ensures !Ends(s, es, u)
      {
        DeadForever(s, es, u);
      }
    }
  }
}
