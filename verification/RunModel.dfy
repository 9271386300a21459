/**
 One judged run (runner.c jug_runner_run, sandbox.c jug_sandbox_watcher): the runner thread, the watcher
 process and the submission, interleaved step by step over two pipes, a kill signal and an exit status.
 A `Choice` names the process that moves and what the kernel answers it; a run is any sequence of choices.
 */
module RunModel {
  import opened Text
  import opened Comparator

  /** jug_sandbox_result. */
  datatype JS =
    | Correct | Wrong | TimeLimit | WallTimeLimit | MemLimit
    | OutputLimit | Runtime | PipeError | CompError | Unknown

  /** What is run: the input file, the expected output and the configured limits. */
  datatype Job = Job(input: string, expected: string, killOnCompout: bool, outputLimitMb: int, memLimitMb: int)

  const TRANSFER: nat := 40000
  const OUT_CHUNK: nat := 255

  /** What a pipe holds. */
  const PIPE: nat := 65536
  const MB: int := 1000000

  const SIGTRAP: nat := 5
  const SIGSEGV: nat := 11
  const SIGXCPU: nat := 24

  // ---------------------------------------------------------------------------------------------
  // What the watcher learns about the submission
  // ---------------------------------------------------------------------------------------------

  /** A wait status of the submission; `ptrace` is the event number of a SIGTRAP stop (0: none) and
      `mem` what the memory probe answers at that stop (negative: it failed). */
  datatype Event = Stop(sig: nat, ptrace: nat, mem: int) | Exit(code: nat) | Signal(sig: nat) | Odd

  predicate IsXcpu(e: Event) { e.Stop? && e.sig == SIGXCPU }

  predicate IsSegv(e: Event) { e.Stop? && e.sig == SIGSEGV }

  /** fork, vfork, clone or exec stop, or death by a signal. */
  predicate IsKill(e: Event) { e.Signal? || (e.Stop? && e.sig == SIGTRAP && 1 <= e.ptrace <= 4) }

  /** Every SIGTRAP stop passes the exit-event mask test, so memory is probed at each of them. */
  predicate IsOverMemory(e: Event, limitMb: int) {
    e.Stop? && ((e.sig == SIGTRAP && e.mem > 0 && e.mem / MB > limitMb)
                || (e.sig == SIGSEGV && e.mem >= 0 && e.mem / MB >= limitMb))
  }

  // ---------------------------------------------------------------------------------------------
  // State
  // ---------------------------------------------------------------------------------------------

  datatype RPc = Poll | Send | Read | FlushOut | FlushIn | Returned

  /** Locals of jug_runner_run.  Uninitialised ones start with arbitrary values. */
  datatype Runner = Runner(pc: RPc, alive: bool, watcherResult: JS, compResult: JS, spawned: bool, eof: bool,
                           compout: bool, sent: nat, received: nat, stage: nat, result: JS, misses: nat,
                           flushed: nat)

  datatype BinState = Running | WallTimeout | CompOut

  datatype WPc = Setup | Splice | Wait | Drain | JudgeFlags | JudgeState

  datatype WEnd = ExitedWith(js: JS) | ExitedNegative | KilledBySignal

  datatype WStatus = Up(pc: WPc) | Gone(end: WEnd)

  datatype Watcher = Watcher(status: WStatus, spliced: nat, drained: nat, xcpu: bool, segv: bool,
                             overMem: bool, killed: bool, bin: BinState)

  /** The way in: the in pipe and the submission's stdin pipe; and, as history that no step reads, the bytes
      of earlier runs, those spliced to the submission, drained by the watcher, and read by the submission. */
  datatype Inward = Inward(pipe: string, stdin: string, stdinCloses: nat,
                           residue: string, fed: string, drained: string, consumed: string)

  /** The way out: the out pipe, whether other processes hold its write end, and the open reference file;
      and, as history, the bytes of earlier runs, those written, discarded, the chunks compared and the answers. */
  datatype Outward = Outward(pipe: string, foreign: bool, ref: RefFile,
                             residue: string, written: string, discarded: string,
                             chunks: seq<string>, codes: seq<int>, lastCode: Option<int>)

  /** The pending SIGUSR2; and, as history, the events seen, the signals sent and the system calls that failed. */
  datatype Log = Log(usr2: bool, events: seq<Event>, usr2Sent: nat, usr2Handled: nat,
                     blind: bool, unhandled: bool, pipeFault: bool,
                     flushFault: bool, spliceFault: bool, viaDrain: bool)

  datatype Sys = Sys(r: Runner, w: Watcher, i: Inward, o: Outward, g: Log)

  /** The worker's pipes may still hold bytes of earlier runs; locals are uninitialised. */
  predicate Init(job: Job, s: Sys) {
    && s.r.pc == Poll && s.r.alive && s.r.spawned && !s.r.eof && !s.r.compout
    && s.r.sent == 0 && s.r.received == 0 && s.r.stage == 0 && s.r.misses == 0 && s.r.flushed == 0
    && s.w == Watcher(Up(Setup), 0, 0, false, false, false, false, Running)
    && |s.i.residue| <= PIPE && |s.o.residue| <= PIPE
    && s.i == Inward(s.i.residue, "", 0, s.i.residue, "", "", "")
    && s.o == Outward(s.o.residue, s.o.foreign, Opened(job.expected), s.o.residue, "", "", [], [], None)
    && s.g == Log(false, [], 0, 0, false, false, false, false, false, false)
  }

  // ---------------------------------------------------------------------------------------------
  // Choices
  // ---------------------------------------------------------------------------------------------

  /** waitpid(WNOHANG): nothing yet, a reaped child, an error, or a status that is neither exit nor signal. */
  datatype WaitAnswer = NoChange | Reaped | WaitFailed | Unhandled

  /** A non-blocking transfer: `n` bytes moved (0 is end of file), EAGAIN, or another error. */
  datatype Io = Moved(n: nat) | Again | Fault

  datatype BinaryWait = Quiet | WaitError | Saw(e: Event)

  datatype Choice =
    | RPoll(wait: WaitAnswer)
    | RSend(io: Io)
    | RRead(io: Io)
    | RFlushOut(io: Io)
    | RFlushIn(io: Io)
    | WStart(ok: bool)
    | WSplice(io: Io)
    | WWait(bw: BinaryWait)
    | WDrain(io: Io)
    | WJudge
    | WUsr2(delivered: bool)
    | WAlarm(delivered: bool)
    | WDies
    | BWrite(data: string)
    | BRead(n: nat)
    | ForeignGone
    | RefBreaks

  /** The submission can write while the watcher, the init process of its pid namespace, is up. */
  predicate Enabled(job: Job, s: Sys, c: Choice) {
    match c
    case RPoll(a) =>
      s.r.pc == Poll &&
      (s.r.alive && a == NoChange ==> s.w.status.Up?) && (s.r.alive && a == Reaped ==> s.w.status.Gone?)
    case RSend(io) => s.r.pc == Send && (io.Moved? ==> CanSend(job, s.r, io.n) && HasRoom(s.i.pipe, io.n))
    case RRead(io) => s.r.pc == Read && CanRead(s, io)
    case RFlushOut(io) => s.r.pc == FlushOut && CanRead(s, io)
    case RFlushIn(io) => s.r.pc == FlushIn && (io.Moved? ==> CanSend(job, s.r, io.n) && HasRoom(s.i.pipe, io.n))
    case WStart(_) => s.w.status == Up(Setup)
    case WSplice(io) =>
      s.w.status == Up(Splice) && (io.Moved? ==> io.n <= Min(TRANSFER, |s.i.pipe|) && HasRoom(s.i.stdin, io.n))
    case WWait(_) => s.w.status == Up(Wait)
    case WDrain(io) => s.w.status == Up(Drain) && (io.Moved? ==> io.n <= |s.i.pipe|)
    case WJudge => s.w.status == Up(JudgeFlags) || s.w.status == Up(JudgeState)
    case WUsr2(_) => s.g.usr2 && Handling(s.w)
    case WAlarm(_) => Handling(s.w)
    case WDies => s.w.status.Up?
    case BWrite(data) => Handling(s.w) && HasRoom(s.o.pipe, |data|)
    case BRead(n) => n <= |s.i.stdin|
    case ForeignGone => true
    case RefBreaks => true
  }

  /** The watcher is up and past its set-up: handlers are installed and the submission is started. */
  predicate Handling(w: Watcher) { w.status.Up? && w.status.pc != Setup }

  predicate HasRoom(pipe: string, n: nat) { |pipe| + n <= PIPE }

  predicate CanSend(job: Job, r: Runner, n: nat) { r.sent + r.flushed + n <= |job.input| && n <= TRANSFER }

  /** Reading the out pipe: EAGAIN only when it is empty, end of file only when nobody can write it. */
  predicate CanRead(s: Sys, io: Io) {
    match io
    case Moved(n) => n <= Min(OUT_CHUNK, |s.o.pipe|)
                     && (n == 0 ==> s.o.pipe == "" && s.w.status.Gone? && !s.o.foreign)
    case Again => s.o.pipe == ""
    case Fault => true
  }

  // ---------------------------------------------------------------------------------------------
  // Runner steps
  // ---------------------------------------------------------------------------------------------

  /** Comparator code to result. */
  function CompJS(code: int): JS { if code == 0 then Correct else if code > 0 then Wrong else CompError }

  /** `n` calls of kill(watcher_pid, SIGUSR2): pending while the watcher is there, but never more than once. */
  function Usr2(g: Log, w: Watcher, n: nat): Log {
    g.(usr2 := g.usr2 || (n > 0 && w.status.Up?), usr2Sent := g.usr2Sent + n)
  }

  /** What the runner learns from waitpid: whether the watcher still runs, and how it ended. */
  function Polled(r: Runner, w: WStatus, a: WaitAnswer): Runner {
    var seen := r.alive && a == Reaped && w.Gone?;
    var lost := r.alive && (a == WaitFailed || a == Unhandled);
    r.(pc := Send,
       alive := r.alive && !seen && !lost,
       spawned := r.spawned && !(seen && w.end == ExitedNegative),
       watcherResult :=
         if seen && w.end.ExitedWith? then w.end.js
         else if (seen && w.end == KilledBySignal) || (lost && a == Unhandled) then Unknown
         else r.watcherResult)
  }

  function StepPoll(s: Sys, a: WaitAnswer): Sys {
    s.(r := Polled(s.r, s.w.status, a),
       g := s.g.(blind := s.g.blind || (s.r.alive && (a == WaitFailed || a == Unhandled)),
                 unhandled := s.g.unhandled || (s.r.alive && a == Unhandled)))
  }

  /** sendfile from the input file into the in pipe. */
  function Feed(job: Job, r: Runner, i: Inward, n: nat): Inward
    requires CanSend(job, r, n)
  {
    i.(pipe := i.pipe + job.input[r.sent + r.flushed..r.sent + r.flushed + n])
  }

  /** The merge of the two partial results when the main loop is left. */
  function Merged(r: Runner): JS {
    if !r.spawned then Unknown else if r.watcherResult == Correct then r.compResult else r.watcherResult
  }

  /** An error on either pipe counts as a false comparison. */
  function Broken(r: Runner): Runner { r.(compResult := PipeError, compout := true) }

  function BrokenLog(job: Job, s: Sys): Log {
    Usr2(s.g, s.w, if job.killOnCompout then 1 else 0).(pipeFault := true)
  }

  /** After sending: leave the loop, poll again, or go on to read. */
  function AfterSend(r: Runner): Runner {
    var leave := (r.eof || r.compout) && !r.alive;
    r.(pc := if !r.eof && !r.compout then Read else if leave then FlushOut else Poll,
       result := if leave then Merged(r) else r.result)
  }

  function StepSend(job: Job, s: Sys, io: Io): Sys
    requires io.Moved? ==> CanSend(job, s.r, io.n)
  {
    if s.r.sent >= |job.input| || io.Again? then s.(r := AfterSend(s.r))
    else if io.Fault? then s.(r := AfterSend(Broken(s.r)), g := BrokenLog(job, s))
    else s.(r := AfterSend(s.r.(sent := s.r.sent + io.n)), i := Feed(job, s.r, s.i, io.n))
  }

  /** A chunk of output: compare it, then check the output limit. */
  function StepChunk(job: Job, s: Sys, n: nat): Sys
    requires 0 < n <= |s.o.pipe| && s.o.ref.Valid()
  {
    var chunk := s.o.pipe[..n];
    var code := Call(s.o.ref, chunk, s.r.stage).code;
    var received := s.r.received + n;
    var over := received / MB > job.outputLimitMb;
    var kills := (if code != 0 && job.killOnCompout then 1 else 0) + (if over then 1 else 0);
    s.(r := s.r.(pc := Poll, compResult := if over then OutputLimit else CompJS(code), stage := s.r.stage + 1,
                 received := received, compout := s.r.compout || code != 0),
       o := s.o.(pipe := s.o.pipe[n..], ref := After(s.o.ref, chunk, s.r.stage),
                 chunks := s.o.chunks + [chunk], codes := s.o.codes + [code]),
       g := Usr2(s.g, s.w, kills))
  }

  /** The final comparison. */
  function LastCode(o: Outward): int
    requires o.ref.Valid()
  {
    Call(o.ref, "", -1).code
  }

  function LastOut(o: Outward): Outward
    requires o.ref.Valid()
  {
    o.(ref := After(o.ref, "", -1), lastCode := Some(LastCode(o)))
  }

  function StepRead(job: Job, s: Sys, io: Io): Sys
    requires CanRead(s, io) && s.o.ref.Valid()
  {
    match io
    case Moved(n) =>
      if n > 0 then StepChunk(job, s, n)
      else s.(r := s.r.(pc := Poll, eof := true, compResult := CompJS(LastCode(s.o))), o := LastOut(s.o))
    case Again =>
      if s.r.alive then s.(r := s.r.(pc := Poll))
      else
        var r := s.r.(compResult := CompJS(LastCode(s.o)));
        s.(r := r.(pc := FlushOut, result := Merged(r)), o := LastOut(s.o))
    case Fault => s.(r := Broken(s.r).(pc := Poll), g := BrokenLog(job, s))
  }

  function GiveUp(s: Sys): Sys { s.(r := s.r.(pc := Returned, result := Unknown), g := s.g.(flushFault := true)) }

  function StepFlushOut(s: Sys, io: Io): Sys
    requires CanRead(s, io)
  {
    match io
    case Fault => GiveUp(s)
    case Moved(n) =>
      if n == 0 then s.(r := s.r.(pc := FlushIn))
      else s.(r := s.r.(misses := 0),
              o := s.o.(pipe := s.o.pipe[n..], discarded := s.o.discarded + s.o.pipe[..n]))
    case Again =>
      s.(r := s.r.(misses := s.r.misses + 1, pc := if s.r.misses + 1 > 10000 then FlushIn else FlushOut))
  }

  function StepFlushIn(job: Job, s: Sys, io: Io): Sys
    requires io.Moved? ==> CanSend(job, s.r, io.n)
  {
    match io
    case Fault => GiveUp(s)
    case Again => s.(r := s.r.(pc := if s.r.flushed + s.r.sent >= |job.input| then Returned else FlushIn))
    case Moved(n) =>
      s.(r := s.r.(flushed := s.r.flushed + n,
                   pc := if s.r.flushed + n + s.r.sent >= |job.input| then Returned else FlushIn),
         i := Feed(job, s.r, s.i, n))
  }

  // ---------------------------------------------------------------------------------------------
  // Watcher steps
  // ---------------------------------------------------------------------------------------------

  function StepStart(s: Sys, ok: bool): Sys {
    s.(w := s.w.(status := if ok then Up(Splice) else Gone(ExitedNegative)))
  }

  function StepSplice(job: Job, s: Sys, io: Io): Sys
    requires io.Moved? ==> io.n <= |s.i.pipe|
  {
    if s.w.spliced >= |job.input| || io.Again? then s.(w := s.w.(status := Up(Wait)))
    else if io.Fault? then
      s.(w := s.w.(status := Gone(ExitedNegative)),
         i := s.i.(stdinCloses := s.i.stdinCloses + 1), g := s.g.(spliceFault := true))
    else
      var acc := s.w.spliced + io.n;
      s.(w := s.w.(status := Up(Wait), spliced := acc),
         i := s.i.(pipe := s.i.pipe[io.n..], stdin := s.i.stdin + s.i.pipe[..io.n], fed := s.i.fed + s.i.pipe[..io.n],
                   stdinCloses := s.i.stdinCloses + if acc >= |job.input| then 1 else 0))
  }

  function StepWait(job: Job, s: Sys, bw: BinaryWait): Sys {
    match bw
    case Quiet => s.(w := s.w.(status := Up(Splice)))
    case WaitError => s.(w := s.w.(status := Gone(ExitedNegative)))
    case Saw(e) =>
      s.(w := s.w.(status := Up(if e.Stop? then Splice else Drain),
                   xcpu := s.w.xcpu || IsXcpu(e), segv := s.w.segv || IsSegv(e),
                   overMem := s.w.overMem || IsOverMemory(e, job.memLimitMb),
                   killed := s.w.killed || IsKill(e)),
         g := s.g.(events := s.g.events + [e]))
  }

  function StepDrain(job: Job, s: Sys, io: Io): Sys
    requires io.Moved? ==> io.n <= |s.i.pipe|
  {
    if io.Fault? then s.(w := s.w.(status := Gone(ExitedWith(Runtime))))
    else
      var n := if io.Moved? then io.n else 0;
      var full := s.w.spliced + s.w.drained + n >= |job.input|;
      s.(w := s.w.(drained := s.w.drained + n, status := Up(if full then JudgeFlags else Drain)),
         i := s.i.(pipe := s.i.pipe[n..], drained := s.i.drained + s.i.pipe[..n]),
         g := s.g.(viaDrain := full))
  }

  /** The exit verdict, in the source's order; `bin` is read twice because a handler may run in between. */
  function JudgeStatus(w: Watcher): WStatus {
    if w.status == Up(JudgeFlags) then
      if w.xcpu then Gone(ExitedWith(TimeLimit))
      else if w.overMem then Gone(ExitedWith(MemLimit))
      else if w.bin == WallTimeout then Gone(ExitedWith(WallTimeLimit))
      else Up(JudgeState)
    else if w.bin == CompOut then Gone(ExitedWith(Correct))
    else if w.segv || w.killed then Gone(ExitedWith(Runtime))
    else Gone(ExitedWith(Correct))
  }

  function StepJudge(s: Sys): Sys { s.(w := s.w.(status := JudgeStatus(s.w))) }

  /** The signal handler changes the state only when its kill of the submission succeeds. */
  function StepUsr2(s: Sys, delivered: bool): Sys {
    s.(w := s.w.(bin := if delivered then CompOut else s.w.bin),
       g := s.g.(usr2 := false, usr2Handled := s.g.usr2Handled + 1))
  }

  function StepAlarm(s: Sys, delivered: bool): Sys {
    s.(w := s.w.(bin := if delivered then WallTimeout else s.w.bin))
  }

  // ---------------------------------------------------------------------------------------------
  // Submission and environment
  // ---------------------------------------------------------------------------------------------

  function StepWrite(s: Sys, data: string): Sys {
    s.(o := s.o.(pipe := s.o.pipe + data, written := s.o.written + data))
  }

  function StepConsume(s: Sys, n: nat): Sys
    requires n <= |s.i.stdin|
  {
    s.(i := s.i.(stdin := s.i.stdin[n..], consumed := s.i.consumed + s.i.stdin[..n]))
  }

  function StepForeign(s: Sys): Sys { s.(o := s.o.(foreign := false)) }

  function StepBreak(s: Sys): Sys { s.(o := s.o.(ref := s.o.ref.(broken := true))) }

  // ---------------------------------------------------------------------------------------------
  // Runs
  // ---------------------------------------------------------------------------------------------

  function Apply(job: Job, s: Sys, c: Choice): Sys
    requires Enabled(job, s, c) && s.o.ref.Valid()
  {
    match c
    case RPoll(a) => StepPoll(s, a)
    case RSend(io) => StepSend(job, s, io)
    case RRead(io) => StepRead(job, s, io)
    case RFlushOut(io) => StepFlushOut(s, io)
    case RFlushIn(io) => StepFlushIn(job, s, io)
    case WStart(ok) => StepStart(s, ok)
    case WSplice(io) => StepSplice(job, s, io)
    case WWait(bw) => StepWait(job, s, bw)
    case WDrain(io) => StepDrain(job, s, io)
    case WJudge => StepJudge(s)
    case WUsr2(d) => StepUsr2(s, d)
    case WAlarm(d) => StepAlarm(s, d)
    case WDies => s.(w := s.w.(status := Gone(KilledBySignal)))
    case BWrite(data) => StepWrite(s, data)
    case BRead(n) => StepConsume(s, n)
    case ForeignGone => StepForeign(s)
    case RefBreaks => StepBreak(s)
  }

  /** `t` is reached from `s` by the choices `cs`, each enabled when taken. */
  ghost predicate Reaches(job: Job, s: Sys, cs: seq<Choice>, t: Sys)
    decreases |cs|, 1
  {
    if cs == [] then s == t else StepsOn(job, s, cs, t)
  }

  /** The first choice is taken, the others follow. */
  ghost predicate StepsOn(job: Job, s: Sys, cs: seq<Choice>, t: Sys)
    requires cs != []
    decreases |cs|, 0
  {
    s.o.ref.Valid() && Enabled(job, s, cs[0]) && Reaches(job, Apply(job, s, cs[0]), cs[1..], t)
  }

  /** `s` occurs in some run of `job`. */
  ghost predicate Reachable(job: Job, s: Sys) {
    exists s0, cs :: Init(job, s0) && Reaches(job, s0, cs, s)
  }

  /** The runner has left its main loop. */
  predicate Left(r: Runner) { r.pc == FlushOut || r.pc == FlushIn || r.pc == Returned }

  // ---------------------------------------------------------------------------------------------
  // The verdict sent to the client
  // ---------------------------------------------------------------------------------------------

  /** jug_verdict_enum. */
  datatype Verdict =
    | Accepted | WrongAnswer | CompileError | TimeLimitExceeded | MemoryLimitExceeded
    | OutputLimitExceeded | RuntimeError | InternalError

  /** The switch of jug_runner_judge; it has no case for the memory limit. */
  function JudgeVerdict(ret: int, result: JS): Verdict {
    if ret != 0 then InternalError
    else
      match result
      case Correct => Accepted
      case Wrong => WrongAnswer
      case TimeLimit => TimeLimitExceeded
      case WallTimeLimit => TimeLimitExceeded
      case OutputLimit => OutputLimitExceeded
      case Runtime => RuntimeError
      case _ => InternalError
  }
}
