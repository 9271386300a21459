/** What every step of a run keeps: bytes are conserved, statuses are recorded, comparisons are replayable. */
module RunInvariants {
  import opened Text
  import opened Comparator
  import opened ComparatorProofs
  import opened RunModel

  // ---------------------------------------------------------------------------------------------
  // Who changes what
  // ---------------------------------------------------------------------------------------------

  /** A step of the runner. */
  predicate Runs(c: Choice) { c.RPoll? || c.RSend? || c.RRead? || c.RFlushOut? || c.RFlushIn? }

  /** The runner does not touch the watcher, nor what the watcher took and saw. */
  lemma RunnerFrame(job: Job, s: Sys, c: Choice)
    requires s.o.ref.Valid() && Enabled(job, s, c) && Runs(c)
    ensures var t := Apply(job, s, c);
            && t.w == s.w && t.i.residue == s.i.residue && t.o.residue == s.o.residue
            && t.g.viaDrain == s.g.viaDrain && t.g.events == s.g.events
  {
    match c
    case RRead(io) => ReadFrame(job, s, io);
    case _ =>
  }

  lemma ReadFrame(job: Job, s: Sys, io: Io)
    requires s.o.ref.Valid() && Enabled(job, s, RRead(io))
    ensures var t := StepRead(job, s, io);
            && t.w == s.w && t.i == s.i && t.o.residue == s.o.residue
            && t.g.viaDrain == s.g.viaDrain && t.g.events == s.g.events
  {
  }

  /** Nobody else touches the runner, its comparisons, or the record of its errors and signals. */
  lemma OtherFrame(job: Job, s: Sys, c: Choice)
    requires s.o.ref.Valid() && Enabled(job, s, c) && !Runs(c)
    ensures var t := Apply(job, s, c);
            && t.r == s.r && t.o.codes == s.o.codes && t.o.chunks == s.o.chunks && t.o.lastCode == s.o.lastCode
            && t.i.residue == s.i.residue && t.o.residue == s.o.residue
            && t.g.pipeFault == s.g.pipeFault && t.g.flushFault == s.g.flushFault && t.g.blind == s.g.blind
            && t.g.usr2Sent == s.g.usr2Sent && t.g.unhandled == s.g.unhandled
            && t.o.ref == s.o.ref.(broken := t.o.ref.broken) && (s.o.ref.broken ==> t.o.ref.broken)
  {
    if Outside(c) {
      OutsideFrame(job, s, c);
    } else {
      WatcherFrame(job, s, c);
    }
  }

  lemma WatcherFrame(job: Job, s: Sys, c: Choice)
    requires Enabled(job, s, c) && s.o.ref.Valid() && !Runs(c) && !Outside(c)
    ensures var t := Apply(job, s, c);
            && t.r == s.r && t.o == s.o && t.i.residue == s.i.residue
            && t.g.pipeFault == s.g.pipeFault && t.g.flushFault == s.g.flushFault && t.g.blind == s.g.blind
            && t.g.usr2Sent == s.g.usr2Sent && t.g.unhandled == s.g.unhandled
  {
  }

  /** A step of the submission or of the world around the three processes. */
  predicate Outside(c: Choice) { c.BWrite? || c.BRead? || c.ForeignGone? || c.RefBreaks? }

  /** They do not touch the watcher, nor the record of what was seen and signalled. */
  lemma OutsideFrame(job: Job, s: Sys, c: Choice)
    requires s.o.ref.Valid() && Enabled(job, s, c) && Outside(c)
    ensures var t := Apply(job, s, c);
            && t.r == s.r && t.w == s.w && t.g == s.g && t.i.fed == s.i.fed
            && t.o.codes == s.o.codes && t.o.chunks == s.o.chunks && t.o.lastCode == s.o.lastCode
            && t.i.residue == s.i.residue && t.o.residue == s.o.residue
            && t.o.ref == s.o.ref.(broken := t.o.ref.broken) && (s.o.ref.broken ==> t.o.ref.broken)
            && (!c.BWrite? ==> t.o.written == s.o.written)
  {
  }

  // ---------------------------------------------------------------------------------------------
  // Bytes on their way in
  // ---------------------------------------------------------------------------------------------

  /** The watcher has not begun to drain. */
  predicate Feeding(w: Watcher) {
    w.status == Up(Setup) || w.status == Up(Splice) || w.status == Up(Wait)
  }

  /** Every byte sent is spliced to the submission, drained, or still in the pipe, in this order. */
  predicate InputFlow(job: Job, r: Runner, w: Watcher, i: Inward) {
    && r.sent + r.flushed <= |job.input|
    && i.residue + job.input[..r.sent + r.flushed] == i.fed + i.drained + i.pipe
    && |i.fed| == w.spliced && |i.drained| == w.drained
    && i.consumed + i.stdin == i.fed
    && (Feeding(w) ==> i.drained == "")
  }

  /** The submission's stdin is closed when the whole input has been spliced, or on a splice error. */
  predicate StdinClosed(job: Job, w: Watcher, i: Inward, g: Log) {
    && i.stdinCloses == (if 0 < |job.input| <= w.spliced then 1 else 0) + (if g.spliceFault then 1 else 0)
    && (g.spliceFault ==> w.spliced < |job.input| && w.status == Gone(ExitedNegative))
  }

  lemma FlowExtends(residue: string, input: string, at: nat, n: nat, done: string, pipe: string)
    requires at + n <= |input| && residue + input[..at] == done + pipe
    ensures residue + input[..at + n] == done + (pipe + input[at..at + n])
  {
    assert input[..at + n] == input[..at] + input[at..at + n];
    assert residue + (input[..at] + input[at..at + n]) == (residue + input[..at]) + input[at..at + n];
  }

  lemma FlowMoves(a: string, b: string, pipe: string, n: nat)
    requires n <= |pipe|
    ensures a + b + pipe == a + (b + pipe[..n]) + pipe[n..]
  {
    assert pipe == pipe[..n] + pipe[n..];
  }

  // ---------------------------------------------------------------------------------------------
  // Bytes on their way out
  // ---------------------------------------------------------------------------------------------

  /** Every byte written was compared, or discarded by the flush, or is still in the pipe, in this order. */
  predicate OutputFlow(o: Outward) {
    && o.residue + o.written == Flatten(o.chunks) + o.discarded + o.pipe
    && forall c | c in o.chunks :: 0 < |c| <= 255
  }

  /** The counters of the runner agree with what it read. */
  predicate Counted(r: Runner, o: Outward) {
    && r.received == |Flatten(o.chunks)|
    && r.stage == |o.chunks| == |o.codes|
    && (!Left(r) ==> r.misses == 0 && o.discarded == "")
  }

  // ---------------------------------------------------------------------------------------------
  // The watcher as the runner sees it
  // ---------------------------------------------------------------------------------------------

  /** The watcher's end is what the runner recorded. */
  predicate Recorded(r: Runner, w: Watcher) {
    match w.status
    case Up(_) => false
    case Gone(ExitedWith(js)) => r.spawned && r.watcherResult == js
    case Gone(ExitedNegative) => !r.spawned
    case Gone(KilledBySignal) => r.spawned && r.watcherResult == Unknown
  }

  /** Unless waitpid failed, the runner gives the watcher up only once it is gone, and never leaves before. */
  predicate Watched(r: Runner, w: Watcher, g: Log) {
    && (r.alive ==> r.spawned)
    && (Left(r) ==> !r.alive)
    && (!g.blind && !r.alive ==> Recorded(r, w))
  }

  /** Once a dead watcher's pipe has been seen empty it stays empty. */
  predicate Settled(r: Runner, w: Watcher, o: Outward, g: Log) {
    !g.blind ==>
      && (o.lastCode.Some? ==> w.status.Gone? && o.pipe == "" && o.discarded == "")
      && (r.pc == FlushOut && r.misses > 0 ==> o.pipe == "")
      && (r.pc == FlushIn || (r.pc == Returned && !g.flushFault) ==> o.pipe == "")
  }

  // ---------------------------------------------------------------------------------------------
  // Comparisons
  // ---------------------------------------------------------------------------------------------

  predicate Zeros(codes: seq<int>) { forall i | 0 <= i < |codes| :: codes[i] == 0 }

  /** While the reference can be read, its offset and the answers are those of a replay of all chunks. */
  predicate Replayable(job: Job, o: Outward) {
    var f := Opened(job.expected);
    && o.ref.Valid() && o.ref.mode == ReadWrite && o.ref.content == job.expected
    && |o.chunks| == |o.codes|
    && (!o.ref.broken ==> (Zeros(o.codes) <==> AllZero(f, o.chunks, 0)))
    && (!o.ref.broken && o.lastCode.None? ==> o.ref == Fed(f, o.chunks, 0))
    && (!o.ref.broken && o.lastCode.Some? && Zeros(o.codes) && Accepts(f, o.chunks, 0) ==> o.lastCode == Some(0))
    && (o.lastCode == Some(0) && Zeros(o.codes) ==> Accepts(f, o.chunks, 0))
  }

  /** How the comparison result, its flags and the comparator's answers hang together. */
  predicate Compared(r: Runner, o: Outward) {
    && (r.compout ==> r.compResult != Correct)
    && (!r.compout ==> Zeros(o.codes))
    && (r.eof ==> o.lastCode.Some?)
    && (o.lastCode.Some? ==> Zeros(o.codes) && (r.eof || Left(r)))
    && (o.lastCode.Some? && !r.compout ==> r.compResult == CompJS(o.lastCode.value))
    && (r.pc == Read ==> !r.eof && !r.compout)
    && (Left(r) ==> r.compout || o.lastCode.Some?)
    && (Left(r) ==> r.result == Unknown || r.result == Merged(r))
  }

  // ---------------------------------------------------------------------------------------------
  // Signals and the watcher's verdict
  // ---------------------------------------------------------------------------------------------

  /** Output beyond the limit has been read. */
  predicate OverLimit(job: Job, r: Runner) { r.stage > 0 && r.received / 1000000 > job.outputLimitMb }

  /** SIGUSR2 is sent only for a bad comparison, a pipe error or too much output. */
  predicate Signalled(job: Job, r: Runner, w: Watcher, g: Log) {
    && (g.usr2Sent > 0 ==> r.compout || OverLimit(job, r))
    && (g.usr2 || w.bin == CompOut ==> g.usr2Sent > 0)
  }

  predicate AnyEvent(events: seq<Event>, p: Event -> bool) { exists i | 0 <= i < |events| :: p(events[i]) }

  lemma AnyEventAppend(events: seq<Event>, e: Event, p: Event -> bool)
    ensures AnyEvent(events + [e], p) <==> AnyEvent(events, p) || p(e)
  {
    if AnyEvent(events, p) {
      var i :| 0 <= i < |events| && p(events[i]);
      assert p((events + [e])[i]);
    }
    if p(e) {
      assert p((events + [e])[|events|]);
    }
  }

  /** The submission was stopped by SIGXCPU. */
  predicate CpuSignal(e: Event) { e.Stop? && e.sig == 24 }

  /** The submission was stopped by SIGSEGV. */
  predicate BadAccess(e: Event) { e.Stop? && e.sig == 11 }

  /** A SIGTRAP stop for fork, vfork, clone or exec, or death by any signal. */
  predicate Killing(e: Event) { e.Signal? || (e.Stop? && e.sig == 5 && e.ptrace in {1, 2, 3, 4}) }

  /** A reading above the limit at a SIGTRAP stop, or at or above it at a SIGSEGV stop. */
  predicate ExcessMemory(e: Event, limitMb: int) {
    && e.Stop?
    && ((e.sig == 5 && e.mem > 0 && e.mem / 1000000 > limitMb)
        || (e.sig == 11 && e.mem >= 0 && e.mem / 1000000 >= limitMb))
  }

  function OverMemory(limitMb: int): Event -> bool { e => ExcessMemory(e, limitMb) }

  /** The watcher's flags say exactly what was among the events it saw. */
  predicate Classified(job: Job, w: Watcher, g: Log) {
    && w.xcpu == AnyEvent(g.events, CpuSignal)
    && w.segv == AnyEvent(g.events, BadAccess)
    && w.killed == AnyEvent(g.events, Killing)
    && w.overMem == AnyEvent(g.events, OverMemory(job.memLimitMb))
  }

  /** The watcher judges only after taking the whole input; a correct exit has a clean slate or a SIGUSR2. */
  predicate Judged(job: Job, w: Watcher, g: Log) {
    && (w.status.Up? ==> (g.viaDrain <==> w.status.pc == JudgeFlags || w.status.pc == JudgeState))
    && (g.viaDrain ==> w.spliced + w.drained >= |job.input|)
    && (w.status == Up(JudgeState) ==> !w.xcpu && !w.overMem)
    && (w.status == Gone(ExitedWith(Correct)) ==>
          g.viaDrain && !w.xcpu && !w.overMem && (g.usr2Sent > 0 || (!w.segv && !w.killed)))
  }

  // ---------------------------------------------------------------------------------------------
  // All of it, over every run
  // ---------------------------------------------------------------------------------------------

  /** Conservation of bytes. */
  predicate Flow(job: Job, s: Sys) {
    && InputFlow(job, s.r, s.w, s.i)
    && StdinClosed(job, s.w, s.i, s.g)
    && OutputFlow(s.o)
    && Counted(s.r, s.o)
  }

  /** What the processes know of each other. */
  predicate Protocol(job: Job, s: Sys) {
    && Watched(s.r, s.w, s.g)
    && Settled(s.r, s.w, s.o, s.g)
    && Compared(s.r, s.o)
    && Signalled(job, s.r, s.w, s.g)
    && Classified(job, s.w, s.g)
    && Judged(job, s.w, s.g)
  }

  predicate Inv(job: Job, s: Sys) {
    Replayable(job, s.o) && Flow(job, s) && Protocol(job, s)
  }

  lemma InitInv(job: Job, s: Sys)
    requires Init(job, s)
    ensures Inv(job, s)
  {
    assert s.i.residue + job.input[..0] == s.i.fed + s.i.drained + s.i.pipe;
    assert s.o.residue + s.o.written == Flatten(s.o.chunks) + s.o.discarded + s.o.pipe;
  }

  lemma PollFlows(job: Job, s: Sys, a: WaitAnswer)
    requires Flow(job, s) && s.o.ref.Valid() && Enabled(job, s, RPoll(a))
    ensures Flow(job, StepPoll(s, a))
  {
  }

  lemma PollKeeps(job: Job, s: Sys, a: WaitAnswer)
    requires Protocol(job, s) && s.o.ref.Valid() && Enabled(job, s, RPoll(a))
    ensures Protocol(job, StepPoll(s, a))
  {
  }

  lemma InputFlowFrame(job: Job, r: Runner, q: Runner, w: Watcher, i: Inward)
    requires InputFlow(job, r, w, i) && q.sent == r.sent && q.flushed == r.flushed
    ensures InputFlow(job, q, w, i)
  {
  }

  lemma FeedFlows(job: Job, r: Runner, q: Runner, w: Watcher, i: Inward, n: nat)
    requires InputFlow(job, r, w, i) && CanSend(job, r, n) && q.sent + q.flushed == r.sent + r.flushed + n
    ensures InputFlow(job, q, w, Feed(job, r, i, n))
  {
    FlowExtends(i.residue, job.input, r.sent + r.flushed, n, i.fed + i.drained, i.pipe);
  }

  lemma SendFlows(job: Job, s: Sys, io: Io)
    requires Flow(job, s) && s.o.ref.Valid() && Enabled(job, s, RSend(io))
    ensures Flow(job, StepSend(job, s, io))
  {
    var q := StepSend(job, s, io).r;
    if s.r.sent < |job.input| && io.Moved? {
      FeedFlows(job, s.r, q, s.w, s.i, io.n);
    } else {
      InputFlowFrame(job, s.r, q, s.w, s.i);
    }
  }

  lemma SendKeeps(job: Job, s: Sys, io: Io)
    requires Protocol(job, s) && Counted(s.r, s.o) && s.o.ref.Valid() && Enabled(job, s, RSend(io))
    ensures Protocol(job, StepSend(job, s, io))
  {
    if s.r.sent < |job.input| && io.Fault? {
      SendFaultKeeps(job, s);
    } else {
      SendQuietKeeps(job, s, io);
    }
  }

  lemma SendFaultKeeps(job: Job, s: Sys)
    requires Protocol(job, s) && Counted(s.r, s.o) && Enabled(job, s, RSend(Fault)) && s.r.sent < |job.input|
    ensures Protocol(job, StepSend(job, s, Fault))
  {
  }

  lemma SendQuietKeeps(job: Job, s: Sys, io: Io)
    requires Protocol(job, s) && Counted(s.r, s.o) && Enabled(job, s, RSend(io))
    requires s.r.sent >= |job.input| || !io.Fault?
    ensures Protocol(job, StepSend(job, s, io))
  {
  }

  lemma ChunkReplays(job: Job, s: Sys, n: nat)
    requires Inv(job, s) && s.r.pc == Read && 0 < n <= Min(255, |s.o.pipe|)
    ensures Replayable(job, StepChunk(job, s, n).o)
  {
    var chunk := s.o.pipe[..n];
    var code := Call(s.o.ref, chunk, s.r.stage).code;
    FedAppend(Opened(job.expected), s.o.chunks, 0, chunk);
    var codes := s.o.codes + [code];
    assert Zeros(codes) <==> Zeros(s.o.codes) && code == 0 by {
      assert codes[|s.o.codes|] == code;
      assert forall i | 0 <= i < |s.o.codes| :: s.o.codes[i] == codes[i];
    }
  }

  lemma ChunkFlows(job: Job, s: Sys, n: nat)
    requires Flow(job, s) && s.o.ref.Valid() && s.r.pc == Read && 0 < n <= Min(255, |s.o.pipe|)
    ensures Flow(job, StepChunk(job, s, n))
  {
    var chunk := s.o.pipe[..n];
    FlattenAppend(s.o.chunks, chunk);
    FlowMoves("", Flatten(s.o.chunks), s.o.pipe, n);
    assert forall x: string :: "" + x == x && x + "" == x;
  }

  lemma ChunkKeeps(job: Job, s: Sys, n: nat)
    requires Protocol(job, s) && s.o.ref.Valid() && s.r.pc == Read && 0 < n <= Min(255, |s.o.pipe|)
    ensures Protocol(job, StepChunk(job, s, n))
  {
  }

  lemma LastReplays(job: Job, o: Outward)
    requires Replayable(job, o) && o.lastCode.None?
    ensures Replayable(job, LastOut(o))
  {
    AcceptsSplits(Opened(job.expected), o.chunks, 0);
  }

  /** Reading without getting a chunk. */
  lemma QuietReadFlows(job: Job, s: Sys, io: Io)
    requires Flow(job, s) && s.o.ref.Valid() && Enabled(job, s, RRead(io)) && !(io.Moved? && io.n > 0)
    ensures Flow(job, StepRead(job, s, io))
  {
  }

  lemma QuietReadKeeps(job: Job, s: Sys, io: Io)
    requires Protocol(job, s) && Counted(s.r, s.o) && s.o.ref.Valid()
    requires Enabled(job, s, RRead(io)) && !(io.Moved? && io.n > 0)
    ensures Protocol(job, StepRead(job, s, io))
  {
  }

  lemma FlushOutFlows(job: Job, s: Sys, io: Io)
    requires Flow(job, s) && s.o.ref.Valid() && Enabled(job, s, RFlushOut(io))
    ensures Flow(job, StepFlushOut(s, io))
  {
    if io.Moved? && io.n > 0 {
      FlushOutMoves(job, s, io.n);
    }
  }

  lemma FlushOutMoves(job: Job, s: Sys, n: nat)
    requires Flow(job, s) && Enabled(job, s, RFlushOut(Moved(n))) && n > 0
    ensures Flow(job, StepFlushOut(s, Moved(n)))
  {
    FlowMoves(Flatten(s.o.chunks), s.o.discarded, s.o.pipe, n);
  }

  lemma FlushOutKeeps(job: Job, s: Sys, io: Io)
    requires Protocol(job, s) && s.o.ref.Valid() && Enabled(job, s, RFlushOut(io))
    ensures Protocol(job, StepFlushOut(s, io))
  {
    match io
    case Fault => GiveUpKeeps(job, s);
    case Moved(n) => FlushOutMoveKeeps(job, s, n);
    case Again => FlushOutWaitKeeps(job, s);
  }

  lemma GiveUpKeeps(job: Job, s: Sys)
    requires Protocol(job, s) && (s.r.pc == FlushOut || s.r.pc == FlushIn)
    ensures Protocol(job, GiveUp(s))
  {
  }

  lemma FlushOutMoveKeeps(job: Job, s: Sys, n: nat)
    requires Protocol(job, s) && Enabled(job, s, RFlushOut(Moved(n)))
    ensures Protocol(job, StepFlushOut(s, Moved(n)))
  {
  }

  lemma FlushOutWaitKeeps(job: Job, s: Sys)
    requires Protocol(job, s) && Enabled(job, s, RFlushOut(Again))
    ensures Protocol(job, StepFlushOut(s, Again))
  {
  }

  lemma FlushInFlows(job: Job, s: Sys, io: Io)
    requires Flow(job, s) && s.o.ref.Valid() && Enabled(job, s, RFlushIn(io))
    ensures Flow(job, StepFlushIn(job, s, io))
  {
    var q := StepFlushIn(job, s, io).r;
    if io.Moved? {
      FeedFlows(job, s.r, q, s.w, s.i, io.n);
    } else {
      InputFlowFrame(job, s.r, q, s.w, s.i);
    }
  }

  lemma FlushInKeeps(job: Job, s: Sys, io: Io)
    requires Protocol(job, s) && s.o.ref.Valid() && Enabled(job, s, RFlushIn(io))
    ensures Protocol(job, StepFlushIn(job, s, io))
  {
  }

  lemma SpliceFlows(job: Job, s: Sys, io: Io)
    requires Flow(job, s) && s.o.ref.Valid() && Enabled(job, s, WSplice(io))
    ensures Flow(job, StepSplice(job, s, io))
  {
    if s.w.spliced < |job.input| && io.Moved? {
      SpliceMoves(job, s, io.n);
    }
  }

  lemma SpliceMoves(job: Job, s: Sys, n: nat)
    requires Flow(job, s) && Enabled(job, s, WSplice(Moved(n))) && s.w.spliced < |job.input|
    ensures Flow(job, StepSplice(job, s, Moved(n)))
  {
    SpliceBytes(s.i.fed, s.i.drained, s.i.pipe, n);
    Assoc(s.i.consumed, s.i.stdin, s.i.pipe[..n]);
  }

  lemma SpliceBytes(fed: string, drained: string, pipe: string, n: nat)
    requires n <= |pipe| && drained == ""
    ensures fed + drained + pipe == (fed + pipe[..n]) + drained + pipe[n..]
  {
    assert pipe == pipe[..n] + pipe[n..];
  }

  lemma SpliceKeeps(job: Job, s: Sys, io: Io)
    requires Protocol(job, s) && s.o.ref.Valid() && Enabled(job, s, WSplice(io))
    ensures Protocol(job, StepSplice(job, s, io))
  {
  }

  lemma WaitFlows(job: Job, s: Sys, bw: BinaryWait)
    requires Flow(job, s) && s.o.ref.Valid() && Enabled(job, s, WWait(bw))
    ensures Flow(job, StepWait(job, s, bw))
  {
  }

  lemma WaitKeeps(job: Job, s: Sys, bw: BinaryWait)
    requires Protocol(job, s) && s.o.ref.Valid() && Enabled(job, s, WWait(bw))
    ensures Protocol(job, StepWait(job, s, bw))
  {
    if bw.Saw? {
      AnyEventAppend(s.g.events, bw.e, CpuSignal);
      AnyEventAppend(s.g.events, bw.e, BadAccess);
      AnyEventAppend(s.g.events, bw.e, Killing);
      AnyEventAppend(s.g.events, bw.e, OverMemory(job.memLimitMb));
    }
  }

  lemma DrainFlows(job: Job, s: Sys, io: Io)
    requires Flow(job, s) && s.o.ref.Valid() && Enabled(job, s, WDrain(io))
    ensures Flow(job, StepDrain(job, s, io))
  {
    if !io.Fault? {
      DrainMoves(job, s, io, if io.Moved? then io.n else 0);
    }
  }

  lemma DrainMoves(job: Job, s: Sys, io: Io, n: nat)
    requires Flow(job, s) && Enabled(job, s, WDrain(io)) && !io.Fault? && n == if io.Moved? then io.n else 0
    ensures Flow(job, StepDrain(job, s, io))
  {
    FlowMoves(s.i.fed, s.i.drained, s.i.pipe, n);
  }

  lemma DrainKeeps(job: Job, s: Sys, io: Io)
    requires Protocol(job, s) && s.o.ref.Valid() && Enabled(job, s, WDrain(io))
    ensures Protocol(job, StepDrain(job, s, io))
  {
  }

  lemma WriteFlows(job: Job, s: Sys, data: string)
    requires Flow(job, s) && Enabled(job, s, BWrite(data))
    ensures Flow(job, StepWrite(s, data))
  {
    Assoc(s.o.residue, s.o.written, data);
    Assoc(Flatten(s.o.chunks) + s.o.discarded, s.o.pipe, data);
  }

  lemma WriteKeeps(job: Job, s: Sys, data: string)
    requires Protocol(job, s) && Enabled(job, s, BWrite(data))
    ensures Protocol(job, StepWrite(s, data))
  {
  }

  predicate Internal(c: Choice) { c.WStart? || c.WJudge? || c.WUsr2? || c.WAlarm? || c.WDies? }

  lemma WatcherFlows(job: Job, s: Sys, c: Choice)
    requires Flow(job, s) && s.o.ref.Valid() && Enabled(job, s, c) && Internal(c)
    ensures Flow(job, Apply(job, s, c))
  {
  }

  lemma WatcherKeeps(job: Job, s: Sys, c: Choice)
    requires Protocol(job, s) && s.o.ref.Valid() && Enabled(job, s, c) && Internal(c)
    ensures Protocol(job, Apply(job, s, c))
  {
  }

  lemma ConsumeFlows(job: Job, s: Sys, n: nat)
    requires Flow(job, s) && Enabled(job, s, BRead(n))
    ensures Flow(job, StepConsume(s, n))
  {
    FlowMoves("", s.i.consumed, s.i.stdin, n);
    assert forall x: string :: "" + x == x;
  }

  /** Every step conserves the bytes. */
  lemma StepFlows(job: Job, s: Sys, c: Choice)
    requires Flow(job, s) && s.o.ref.Valid() && Enabled(job, s, c)
    ensures Flow(job, Apply(job, s, c))
  {
    if Runs(c) {
      RunnerFlows(job, s, c);
    } else {
      OtherFlows(job, s, c);
    }
  }

  lemma RunnerFlows(job: Job, s: Sys, c: Choice)
    requires Flow(job, s) && s.o.ref.Valid() && Enabled(job, s, c) && Runs(c)
    ensures Flow(job, Apply(job, s, c))
  {
    match c
    case RPoll(a) => PollFlows(job, s, a);
    case RSend(io) => SendFlows(job, s, io);
    case RRead(io) => if io.Moved? && io.n > 0 { ChunkFlows(job, s, io.n); } else { QuietReadFlows(job, s, io); }
    case RFlushOut(io) => FlushOutFlows(job, s, io);
    case RFlushIn(io) => FlushInFlows(job, s, io);
  }

  lemma OtherFlows(job: Job, s: Sys, c: Choice)
    requires Flow(job, s) && s.o.ref.Valid() && Enabled(job, s, c) && !Runs(c)
    ensures Flow(job, Apply(job, s, c))
  {
    match c
    case WSplice(io) => SpliceFlows(job, s, io);
    case WWait(bw) => WaitFlows(job, s, bw);
    case WDrain(io) => DrainFlows(job, s, io);
    case BWrite(data) => WriteFlows(job, s, data);
    case BRead(n) => ConsumeFlows(job, s, n);
    case ForeignGone =>
    case RefBreaks =>
    case _ => WatcherFlows(job, s, c);
  }

  /** Every step keeps what the processes know of each other. */
  lemma StepKeeps(job: Job, s: Sys, c: Choice)
    requires Protocol(job, s) && Counted(s.r, s.o) && s.o.ref.Valid() && Enabled(job, s, c)
    ensures Protocol(job, Apply(job, s, c))
  {
    if Runs(c) {
      RunnerKeeps(job, s, c);
    } else {
      OtherKeeps(job, s, c);
    }
  }

  lemma RunnerKeeps(job: Job, s: Sys, c: Choice)
    requires Protocol(job, s) && Counted(s.r, s.o) && s.o.ref.Valid() && Enabled(job, s, c) && Runs(c)
    ensures Protocol(job, Apply(job, s, c))
  {
    match c
    case RPoll(a) => PollKeeps(job, s, a);
    case RSend(io) => SendKeeps(job, s, io);
    case RRead(io) => if io.Moved? && io.n > 0 { ChunkKeeps(job, s, io.n); } else { QuietReadKeeps(job, s, io); }
    case RFlushOut(io) => FlushOutKeeps(job, s, io);
    case RFlushIn(io) => FlushInKeeps(job, s, io);
  }

  lemma OtherKeeps(job: Job, s: Sys, c: Choice)
    requires Protocol(job, s) && s.o.ref.Valid() && Enabled(job, s, c) && !Runs(c)
    ensures Protocol(job, Apply(job, s, c))
  {
    match c
    case WSplice(io) => SpliceKeeps(job, s, io);
    case WWait(bw) => WaitKeeps(job, s, bw);
    case WDrain(io) => DrainKeeps(job, s, io);
    case BWrite(data) => WriteKeeps(job, s, data);
    case BRead(n) =>
    case ForeignGone =>
    case RefBreaks =>
    case _ => WatcherKeeps(job, s, c);
  }

  /** Every step keeps the answers those of a replay. */
  lemma StepReplays(job: Job, s: Sys, c: Choice)
    requires Inv(job, s) && Enabled(job, s, c)
    ensures Replayable(job, Apply(job, s, c).o)
  {
    if c.RRead? {
      ReadReplays(job, s, c.io);
    } else if !Runs(c) {
      OtherReplays(job, s, c);
    }
  }

  lemma ReadReplays(job: Job, s: Sys, io: Io)
    requires Inv(job, s) && Enabled(job, s, RRead(io))
    ensures Replayable(job, StepRead(job, s, io).o)
  {
    if io.Moved? && io.n > 0 {
      ChunkReplays(job, s, io.n);
    } else {
      LastReplays(job, s.o);
    }
  }

  lemma OtherReplays(job: Job, s: Sys, c: Choice)
    requires Replayable(job, s.o) && Enabled(job, s, c) && !Runs(c)
    ensures Replayable(job, Apply(job, s, c).o)
  {
    OtherFrame(job, s, c);
  }

  lemma StepInv(job: Job, s: Sys, c: Choice)
    requires Inv(job, s) && Enabled(job, s, c)
    ensures Inv(job, Apply(job, s, c))
  {
    StepReplays(job, s, c);
    StepFlows(job, s, c);
    StepKeeps(job, s, c);
  }

  lemma {:induction false} ReachesInv(job: Job, s: Sys, cs: seq<Choice>, t: Sys)
    requires Inv(job, s) && Reaches(job, s, cs, t)
    ensures Inv(job, t)
    decreases |cs|
  {
    if cs != [] {
      StepInv(job, s, cs[0]);
      ReachesInv(job, Apply(job, s, cs[0]), cs[1..], t);
    }
  }

  lemma ReachableInv(job: Job, s: Sys)
    requires Reachable(job, s)
    ensures Inv(job, s)
  {
    var s0, cs :| Init(job, s0) && Reaches(job, s0, cs, s);
    InitInv(job, s0);
    ReachesInv(job, s0, cs, s);
  }
}
