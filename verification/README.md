# KudosJudge, modelled and verified

KudosJudge is a judge daemon. It queues connections, decodes a framed request, asks a template process to
clone a watcher, streams input and output between runner, watcher and submission, compares the output on
the fly against a reference file, and merges the partial results of two processes into one verdict. This
project models those parts in Dafny and proves what holds of every input, every interleaving and every run.

| file | models |
|---|---|
| `Text.dfy` | strings, C strings, carriage returns and trailing newlines |
| `Comparator.dfy`, `ComparatorProofs.dfy`, `ComparatorTraps.dfy` | the streaming comparator of `compare.c`: a class for the reference descriptor, the nested loops, the whole-text comparison they refine, and the references that make them wrong |
| `RunModel.dfy`, `RunInvariants.dfy`, `RunHistory.dfy`, `RunTheorems.dfy`, `RunCauses.dfy`, `RunPipes.dfy`, `RunSchedules.dfy`, `RunExamples.dfy` | one judged run as a state machine of runner, watcher, submission and kernel (`runner.c`, `sandbox.c`): model, inductive invariant, theorems, the causes behind each verdict, what passes from run to run, which runs can end, and the runs that show where the code departs from its intent |
| `Handshake.dfy`, `HandshakeExamples.dfy` | the clone handshake over shared memory (`runner.c`), with a phase table and the calls that go wrong |
| `Buffer.dfy` | the growable string buffer (`buffer/buffer.c`) as a class over an array |
| `Interface.dfy`, `InterfaceProofs.dfy` | the receive loop (`interface.c`) |
| `Request.dfy`, `RequestExamples.dfy` | request encoding, decoding and the worker's answer (`client.c`, `interface.c`, `queue.c`), and the requests that lose a byte |
| `CloneParams.dfy` | the clone-parameter serializer (`runner.c`) |
| `WorkQueue.dfy`, `QueueProtocol.dfy` | the connection queue as a linked structure, and as a protocol of single loads and stores with the semaphore (`queue.c`) |
| `Ini.dfy`, `IniProofs.dfy` | the configuration reader and its two lookups (`iniparser/iniparser.c`, `config.c`) |

Check it with `dafny verify dfyconfig.toml`.

## Conventions

- **Concurrent parts** are state machines. A step names who moves and what the kernel answers; `Reachable`
  quantifies over every initial state and every finite sequence of enabled steps, so a lemma about a reachable
  state speaks of every interleaving. Locals that the source leaves uninitialised start with arbitrary values.
- **Sequential parts** are methods and classes in the source's own form, proved against functions; the laws are
  lemmas about those functions.
- **History.** State records carry history that no step reads (bytes written, chunks compared, events seen,
  system calls that failed), so that conservation and blame can be stated.
- In `RunModel`, `blind` records that `waitpid` on the watcher failed or answered a status that is neither exit
  nor signal; `pipeFault` and `flushFault` record errors other than EAGAIN on the worker's pipes.

## Where the code departs from its intent

Each departure is kept as it is in the source. Where a promise fails, the exact condition is proved and a lemma
exhibits the failing input or run.

- The comparator seeks back by counters that run on from pass to pass (`compare.c:70-72`). Chunked output is judged
  right against every reference exactly if it has no carriage return (`ExactIffNoReturns`), and against a given
  reference whenever `Fits` holds, a condition on lengths only (`StreamingIsExact`). `RewindExactIff` says when one
  pass over a CR-free reference leaves the right offset. DOS line ends are rejected (`DosOutputRejected`), and a
  wrong output can pass or fail depending on how it is cut (`CutDecidesVerdict`).
- The descriptor test of the comparator (`compare.c:20`) refuses a read-only reference, because `O_RDONLY` is 0
  (`ReadOnlyRefused`).
- The request loses its last byte exactly when its framed length is a multiple of 1024, and the worker then
  answers ACCEPTED without running anything (`FramingExact`, `ServedExactly`). Nearly every pair of files can be
  sent with a source that has this fate (`SourceNeverJudged`).
- The comment at `runner.c:413-415` says that exceeding the output limit is reported; the final comparison
  overwrites that result unless the output was also wrong (`OutputLimitIsExact`, `LimitOverwritten`).
- A failed `waitpid` leaves the watcher's result unset (`runner.c:307-309`): every job has a run that is stored as
  CORRECT while its watcher is still up (`BlindVerdict`), whereas without that failure CORRECT is sound
  (`CorrectIsSound`).
- A run hands clean pipes to the next exactly if its input is empty or its watcher exited with a result other than
  RUNTIME (`HandsOverCleanIff`).
- A watcher that goes without draining leaves its run flushing for ever if more input is left than a pipe holds,
  and only then (`EndsIffRoom`, `FlushForEver`).
- A failed clone is answered with -2, which no caller tests (`FailedCloneUnnoticed`, `FailedCloneAnswered`). A failed
  stack allocation in the template's signal handler blocks every later request, and is the only way to get stuck
  (`StuckIffUnanswered`, `CallStuck`).
- `queue_push_connection` does not take the mutex that pop takes: a connection is lost exactly when pusher and
  worker overtake each other (`LostIffOvertaken`, `RaceLosesConnection`).
- The verdict switch has no case for the memory limit (`runner.c:176-194`), so an excess of memory is told as an
  internal error (`VerdictHasCause`, `CauseHasVerdict`, `MemoryToldInternal`); for empty input the submission's stdin
  is never closed (`InputIsConserved`).
- A section header that the file breaks off after renames the section before it (`ReadsRightIff`,
  `SecondTitleWins`).

## Model

| member | source | states |
|---|---|---|
| `Comparator.CompareOutput` | compare.c:5-80 | for every descriptor state, chunk and stage the nested loops terminate, and answer and offset are those of `Call` |
| `Comparator.CompareLoop` | compare.c:42-79 | the comparing loop terminates, rewinds included (a pass that consumes no output read only carriage returns), and computes `CompareChunk` |
| `Comparator.OnePass` | compare.c:44-75 | one read window, scan and seek back computes `Pass` and leaves the offset it says |
| `Comparator.ScanWindow` | compare.c:53-69 | a scan that stops has used up the window or the output, and the two skip counters account for the difference between what it consumed of each |
| `Comparator.Pass` | compare.c:42-75 | a pass that consumes no output has only read carriage returns, and moves the reference on when nothing is owed to earlier rewinds |
| `Comparator.ScanLoop` | compare.c:53-69 | the inner loop computes `ScanWindow` |
| `Comparator.AllBreaks` | compare.c:47-51 | the backwards scan answers whether the rest of the chunk is line breaks only |
| `Comparator.NoInk` | compare.c:33-35 | the forward scan answers whether a window of the reference is line breaks only |
| `Comparator.DrainReference` | compare.c:28-38 | the last call computes `CompareEnd` |
| `Comparator.RefFd.constructor` | runner.c:123 | a reference just opened stands at offset 0, with the access mode it was opened with |
| `Comparator.RefFd.Read` | compare.c:44 | reads the next bytes of the file, fewer near its end, and moves the offset by as many; an error moves nothing |
| `Comparator.RefFd.Seek` | compare.c:72 | seeks absolutely; a negative target leaves the offset alone |
| `ComparatorProofs.ScanClean` | compare.c:53-69 | CR-free output: a window mismatches iff its CR-stripped bytes are no prefix of the output, else it is read to its end |
| `ComparatorProofs.ChunkConsumes` | compare.c:42-79 | one call on CR-free output answers 0 iff the CR-stripped rest of the reference can consume the chunk, and leaves exactly what is not consumed |
| `ComparatorProofs.EndAccepts` | compare.c:28-38 | the last call answers 0 iff the rest of the reference is line breaks |
| `ComparatorProofs.ConsumeTwice` | compare.c:42-79 | consuming two chunks one after the other is consuming their concatenation |
| `ComparatorProofs.CallConsumes` | compare.c:42-79 | a chunk that fits is consumed as its CR-free text is: answer 0 iff the reference can consume it, and the offset leaves exactly the rest |
| `ComparatorProofs.AllZeroFits` | compare.c:42-79 | over every chunking that fits, all chunk calls answer 0 iff the reference can consume the whole CR-stripped output |
| `ComparatorProofs.StreamingIsExact` | compare.c:28-79 | for every reference and every chunked output whose chunks with carriage returns each go to a CR-free reference with at least as many bytes left, all calls including the last answer 0 iff the texts are equal up to carriage returns and trailing newlines |
| `ComparatorProofs.StreamingIsWholeText` | compare.c:28-79 | for CR-free output, every reference and every chunking, all calls including the last answer 0 iff output and CR-stripped reference are equal up to trailing newlines |
| `ComparatorProofs.ChunkingIsIrrelevant` | compare.c:28-79 | two chunkings of the same output that both fit are judged alike |
| `ComparatorProofs.RewindIsExact` | compare.c:42-77 | against a CR-free reference with at least as many bytes left as the chunk, a chunk of up to 256 bytes (the runner reads at most 255) is consumed in one pass; it matches iff the CR-stripped chunk is a prefix, and then the offset is just past the last matched byte |
| `ComparatorProofs.RewindExactIff` | compare.c:53-75 | one pass over a CR-free reference leaves the offset just past what it matched iff the chunk fits, or no carriage return was skipped, or the rest was matched to its end and the seek, longer than the file, failed |
| `ComparatorProofs.CallAnswers` | compare.c:13-66 | which answer each case gives: 0, a position in the chunk, 20 for output behind the end of the reference, 10 for reference behind the end of the output; -10, -20, -30 and -55 only for a descriptor that is closed, not read-write or cannot be read; a healthy reference never answers below 0 |
| `ComparatorProofs.DifferenceIsLocated` | compare.c:53-69 | without carriage returns the answer is the position of the first differing byte, counted from 1 |
| `ComparatorTraps.TrapSprings` | compare.c:42-77 | for every chunk with carriage returns there is a reference stretch with extra bytes that the call swallows without a mismatch |
| `ComparatorTraps.ExactIffNoReturns` | compare.c:42-79 | chunked output is judged right against every reference iff it has no carriage return |
| `ComparatorTraps.DosOutputRejected` | compare.c:70-72 | `a\r\nb\r\n` is refused against `a\nb\n` with answer 10 although the texts agree |
| `ComparatorTraps.CutDecidesVerdict` | compare.c:42-77 | against the CR-free reference `xy` the wrong output `x\ryy` is accepted when cut as `x\ry`, `y` and refused in one piece, for all visible x and y |
| `ComparatorTraps.LongChunkRewinds` | compare.c:44-72 | a chunk of 257 bytes that starts with a carriage return leaves the offset one short, however much reference is left |
| `ComparatorTraps.ReadOnlyRefused` | compare.c:13-24 | a reference opened for reading only is refused with -20 |
| `RunInvariants.StepInv` | runner.c:303-519 | every step of runner, watcher, submission and kernel keeps the invariant: byte flow in both directions, counters, what the runner knows of the watcher, replayable comparisons, signals, event classification |
| `RunInvariants.ReachableInv` | runner.c:303-519 | the invariant holds at every point of every run of every job |
| `RunInvariants.StepFlows` | runner.c:342-519 | every step of every process conserves the bytes in both directions and keeps the runner's counters |
| `RunInvariants.StepKeeps` | runner.c:303-472 | every step keeps what runner and watcher know of each other, what the comparison flags mean, and why signals were sent |
| `RunInvariants.ChunkReplays` | runner.c:389-394 | comparing a chunk keeps the answers so far those of the comparator replayed from the start |
| `RunInvariants.WaitKeeps` | sandbox.c:250-328 | handling a wait status keeps the protocol invariant, in particular that the watcher's flags say exactly which kinds of event it saw |
| `RunTheorems.CorrectIsSound` | runner.c:303-472 | a stored CORRECT (waitpid never failing) means that the watcher exited CORRECT, every byte written was read in order and compared, and every comparison, the last included, answered 0 |
| `RunTheorems.AcceptedIsRight` | runner.c:171-194 | if waitpid never failed and the output read fits the comparator (`Judgeable`: in particular if it has no carriage returns), then ACCEPTED means that what was in the pipe before plus what the submission printed is the expected text up to carriage returns and trailing newlines |
| `RunTheorems.CleanIsJudgeable` | runner.c:377-390 | output without carriage returns is always judgeable |
| `RunTheorems.JudgeableIffRoomy` | runner.c:377 | no chunk read is empty or longer than 255 bytes; so output is judgeable iff each chunk with carriage returns goes to a CR-free reference with at least as many bytes left |
| `RunTheorems.VerdictIsExact` | runner.c:389-472 | when the watcher exits CORRECT, no pipe and no read of the reference failed and the output read is judgeable, the result is CORRECT iff the whole output, with what was in the pipe before, agrees with the expected text, although wrong submissions are cut off early; otherwise it is OUTPUTLIMIT if a chunk was wrong and the limit exceeded, else WRONG |
| `RunTheorems.CorrectIsClean` | sandbox.c:259-369 | CORRECT within the output limit: SIGUSR2 was never sent, and no event was a stop by signal 24 or 11, a SIGTRAP stop with event 1 to 4, a death by signal, or a reading of more than the limit's millions of bytes at a SIGTRAP stop |
| `RunCauses.VerdictHasCause` | runner.c:171-194 | from verdict to cause: WRONG was answered by the comparator under a watcher that exited CORRECT; TIMELIMIT was a SIGXCPU, or the wall clock without excess memory; OUTPUTLIMIT was read and partly wrong; RUNTIME was a crash without a limit exceeded, or a failed drain; the memory limit is never told |
| `RunCauses.CauseHasVerdict` | sandbox.c:352-369 | from cause to verdict, after a drained exit: SIGXCPU is always told as TIMELIMIT, excess memory without it always as INTERNAL, a crash with neither as RUNTIME if no handler killed the submission |
| `RunCauses.StatusIsDecided` | sandbox.c:352-369 | from any point at which the watcher is up: if from there on no handler overturns the state and the watcher exits by itself after its drain, the status is decided by the events of the whole run, in their priority, and by the last handler |
| `RunCauses.KilledIsTold` | sandbox.c:668-698 | a submission killed by the wall clock is told TIMELIMIT in every continuation in which the runner does not have it killed and its memory is not exceeded; one that the runner had killed is stored with the comparison's result |
| `RunCauses.SignalIffCause` | runner.c:356-421 | SIGUSR2 is sent iff a pipe failed or a chunk was wrong while kill_on_compout is set, or more than the limit's millions of bytes were read; it is never handled more often than sent |
| `RunCauses.NothingBeforeStart` | sandbox.c:191-211 | before the watcher has started the submission nothing is written or passed on to it, no event is seen and no handler has run |
| `RunCauses.PollTellsDeath` | runner.c:305-336 | unless waitpid fails, a poll tells the runner whether the watcher is still up |
| `RunCauses.FailedRunIsTold` | runner.c:170-173 | a run that fails to start ends in INTERNAL |
| `RunCauses.FlushFaultIsTold` | runner.c:485-515 | a failed flush of either pipe returns at once and ends in INTERNAL |
| `RunCauses.LoopEndsWithSubmission` | sandbox.c:250-328 | the watcher is in its main loop while all events are stops, and drains and judges from the first other event on |
| `RunCauses.PuzzleIsTold` | runner.c:330-334 | a wait status that is neither exit nor signal ends in INTERNAL |
| `RunCauses.ComparisonIsTold` | runner.c:389-472 | when the watcher exits CORRECT and no pipe fails, the client is told the comparator's last answer, except that wrong output beyond the limit is told as OUTPUTLIMIT; the final comparison takes place iff every chunk agreed; INTERNAL is never told while the reference can be read |
| `RunHistory.ExitsStep` | sandbox.c:335-369 | every step keeps what the exit status says about flags and handler, with the priority of the causes, also when a handler runs between the two looks at the state |
| `RunTheorems.OutputLimitIsExact` | runner.c:416-439 | the result is OUTPUTLIMIT iff more than the limit's millions of bytes were read and some chunk was wrong; else it is that of the final comparison |
| `RunTheorems.InputIsConserved` | sandbox.c:222-247 | bytes sent = spliced + drained + in the pipe at every step; the submission reads a prefix of what was spliced; stdin is closed at most once, for non-empty input exactly when all of it was spliced, and never for empty input |
| `RunTheorems.ReadsOwnInput` | runner.c:342-351 | on clean pipes the submission reads a prefix of its own input file |
| `RunTheorems.DrainNeverStarves` | sandbox.c:335-347 | while the watcher drains and misses input, the pipe holds bytes or the runner is in its loop with bytes to send |
| `RunTheorems.DrainMeasure` | sandbox.c:335-347 | no step increases the bytes not yet taken, and a drain that moves bytes decreases them |
| `RunTheorems.SentAllIsSilent` | runner.c:342-365 | once the whole input is sent the in pipe is left alone and no error on it counts |
| `RunTheorems.TransferIsBounded` | runner.c:343-347 | one step moves at most 40000 bytes into the in pipe or on to the submission |
| `RunPipes.DrainedMeansSent` | runner.c:500-519 | once the watcher has left through its drain all input was sent by the main loop and the pipe is empty |
| `RunPipes.FlushTakesOneTurn` | runner.c:500-519 | then the final flush of the in pipe returns after one turn, whatever sendfile answers short of an error, and leaves the pipe empty |
| `RunPipes.FlushIsPatient` | runner.c:485-495 | the out pipe is flushed until end of file or until 10001 reads in a row found nothing |
| `RunPipes.BytesRenewPatience` | runner.c:492-494 | bytes found in the out pipe start the count of vain reads anew |
| `RunPipes.PipesAfterRun` | runner.c:485-519 | after a run that ended in order the out pipe is empty; the in pipe is empty iff the watcher took every byte, and on a clean start whenever the input is empty or the watcher exited with a result other than RUNTIME |
| `RunPipes.CorrectHandsOver` | runner.c:485-519 | a run that starts clean, ends in order and is stored as CORRECT leaves both pipes empty |
| `RunPipes.OwnBytesOnly` | runner.c:228-231 | a run that starts on empty pipes handles its own bytes only |
| `RunPipes.CleanHandover` | runner.c:485-519 | a run that starts clean, ends in order and has empty input or a watcher that exited with a result other than RUNTIME hands empty pipes to the next |
| `RunPipes.RunsAreIsolated` | runner.c:228-231 | over any sequence of submissions of a worker: if every earlier run ended in order and had empty input or a watcher that exited with a result other than RUNTIME, no byte of it is in the pipes, read by the submission or compared |
| `RunSchedules.Finish` | runner.c:303-519 | once the watcher is gone with no more than a pipe's worth left behind, some schedule ends the run in order with the watcher's status unchanged |
| `RunSchedules.EndUp` | sandbox.c:222-347 | while the watcher is up some schedule ends the run in order, however large the input |
| `RunSchedules.NoRoomNoEnd` | runner.c:500-519 | once it is gone with more than a pipe's worth left behind, no continuation ends the run in order |
| `RunSchedules.EndsIffRoom` | runner.c:500-519 | a run that has not returned can be ended in order iff its watcher is up or has left behind no more than a pipe holds |
| `RunExamples.BlindVerdict` | runner.c:305-309 | every job has a run that stores CORRECT after a failed waitpid while its watcher is still in its main loop |
| `RunExamples.BadEndLeaks` | runner.c:500-519 | for every job with input and each of the statuses negative exit, death by signal and RUNTIME, some run starts clean, ends in order and leaves input in the pipe |
| `RunExamples.HandsOverCleanIff` | runner.c:485-519 | every run of a job that starts clean and ends in order with status e leaves both pipes empty iff the input is empty or e is an exit with a result other than RUNTIME |
| `RunExamples.FlushForEver` | runner.c:500-519 | for every input larger than a pipe a watcher that fails to start leaves a run that can never be ended in order |
| `RunExamples.MemoryToldInternal` | runner.c:176-194 | every job has a run that exceeds its memory limit, without SIGXCPU or crash, and is told of an internal error |
| `RunExamples.AlarmTold` | sandbox.c:671-683 | every job has a run in which the wall clock runs out, with neither SIGXCPU nor excess memory, and that is told TIMELIMIT |
| `RunExamples.LimitOverwritten` | runner.c:416-439 | every job without input whose expected text exceeds the output limit has a run that prints it, is killed for it, and is stored as CORRECT |
| `Handshake.StepInv` | runner.c:633-807 | every load, store, signal and clone keeps the phase table |
| `Handshake.HandshakeIsSafe` | runner.c:669-803 | for any number of threads: one call inside at a time, never a signal pending during a handler, the handler reads and clones from the parameters of the thread inside, and the i-th completed call was given what the kernel answered to the i-th clone, made from its own parameters: the pid, or -2 for -1 |
| `Handshake.SignalsStartClean` | runner.c:776-781 | a signal is sent only after the previous handler returned and the main loop stored 'S' again |
| `Handshake.HandlerEndsSleep` | runner.c:669-677 | a handler that interrupts the sleep ends it, so that the next step of the main loop stores 'S'; after one that runs just before it the sleep comes first |
| `Handshake.FailedCloneUnnoticed` | runner.c:735-741 | no answered call yields the -1 its caller tests for |
| `Handshake.AlwaysOnward` | runner.c:669-803 | barring a failed stack allocation some enabled step brings the call inside nearer to its end |
| `Handshake.NeverBackward` | runner.c:669-803 | no step of anybody moves the call inside away from its end |
| `Handshake.CanFinish` | runner.c:772-803 | from every such state the call inside can be brought to the release of the mutex |
| `Handshake.DeadForever` | runner.c:716-720 | once the handler returned unanswered the mutex is never released and no call is ever answered again |
| `Handshake.StuckIffUnanswered` | runner.c:716-720 | the call inside can still finish iff the handler has not returned unanswered |
| `HandshakeExamples.CallStuck` | runner.c:715-721 | from every initial state, for every thread and payload, a failed stack allocation is reached after which the mutex is never released |
| `HandshakeExamples.FailedCloneAnswered` | runner.c:735-741 | likewise a failed clone is reached whose call returns -2 as if it were a pid |
| `Buffer.MaskIsLeastMultiple` | buffer/buffer.c:22-23 | the bit mask gives the least multiple of 1024 at or above its argument, for every size that does not wrap |
| `Buffer.AppendsConcatenate` | buffer/buffer.c:195-211 | any NUL-free appends yield their concatenation, with capacity 64 below 64 bytes and else the least multiple of 1024 that holds them, never shrinking |
| `Buffer.AppendClean` | buffer/buffer.c:195-211 | one append: text, capacity, and the text never exceeds the capacity |
| `Buffer.StrBuf.constructor` | buffer/buffer.c:30-45 | a new buffer is empty with capacity 64 |
| `Buffer.StrBuf.Length` | buffer/buffer.c:125-127 | strlen: the first NUL, which lies within the capacity |
| `Buffer.StrBuf.Resize` | buffer/buffer.c:134-141 | for growing and shrinking sizes: the capacity is the argument rounded up by the mask, and the text is kept as far as it fits |
| `Buffer.StrBuf.Concat` | buffer/buffer.c:201 | strncat in place: the text is extended by the C string in the first bytes of the argument |
| `Buffer.StrBuf.AppendN` | buffer/buffer.c:195-211 | refines `Append` on text and capacity |
| `Buffer.StrBuf.IndexOf` | buffer/buffer.c:283-287 | where a string first occurs in the text, or -1 |
| `Buffer.FirstAt` | buffer/buffer.c:283-287 | no occurrence lies before the one found; -1 iff there is none |
| `Buffer.StrBuf.Slice` | buffer/buffer.c:244-260 | the text between two indices, the end capped or counted from the end of the text if negative; none if the end is before the start |
| `Buffer.SliceIsMiddle` | buffer/buffer.c:244-260 | of a string in three parts the slice behind the first is the second, whether its end is counted from the start or from the end, and nothing if it ends before it starts |
| `Interface.AtoiOfDec` | interface.c:184 | atoi reads back what `%d` printed, whatever follows that is no digit |
| `Interface.AtoiSigns` | interface.c:184 | it takes a sign and skips white space |
| `Interface.AtoiOfOther` | interface.c:184 | it reads 0 from what starts with none of these and no digit |
| `Interface.ReceiveInto` | interface.c:165-187 | the receive loop over a real buffer computes `ReceiveLoop`; header index and capacity stay within what was received |
| `Interface.Receive` | interface.c:137-193 | the received body is `Received` of the chunks |
| `InterfaceProofs.PrefixHeader` | interface.c:182-185 | any prefix of a frame shows the header's newline and size exactly when it is longer than the header |
| `InterfaceProofs.LoopReadsFrame` | interface.c:165-187 | the loop stops with the whole frame, for every chunking |
| `InterfaceProofs.FramingExact` | interface.c:165-192 | for every NUL-free body and every chunking below 30,000,000 bytes the body arrives, minus its last byte exactly when the frame's length is a multiple of 1024 |
| `InterfaceProofs.NothingReceived` | interface.c:166-180 | nothing is received of a frame of 30,000,000 bytes or more, nor of any proper part of a frame after which recv fails, however it is cut |
| `InterfaceProofs.LeadingNewline` | interface.c:182-186 | what starts with a newline has no header, so that nothing is received unless the client closes |
| `InterfaceProofs.ClosedEarly` | interface.c:182-189 | of a client that closes early what it sent behind the header is received, or all of it if the header is not complete; without the last byte if the length is a multiple of 1024 |
| `Request.Advance` | interface.c:36 | skipping a line moves the cursor past its newline, or past the end of the string |
| `Request.ReadSized` | interface.c:47-57 | reads a size, its line and its block, or reports a string that ends early |
| `Request.ReadFeed` | interface.c:41-66 | decodes one feed, by data or by reference, with its error answers |
| `Request.DecodeBuffer` | interface.c:20-119 | the cursor-moving decoder computes `Decode` on every string, with its error answers and overruns |
| `Request.ForgedDecodes` | client.c:244-247 | the forged body decodes to the same input, output and source, whatever digits and newlines they contain |
| `Request.WireRoundTrip` | interface.c:17-119 | every request of the format decodes to itself: judge and set-feed requests, each file sent along or given by reference |
| `Request.CutDecodes` | interface.c:95-105 | without its last byte it is refused with -2, or overruns when the source is empty |
| `Request.ServeConnection` | queue.c:169-194 | the worker's answer to a connection is `Serve` of its chunks |
| `Request.UnreceivedIsInternal` | queue.c:171-175 | a frame of 30,000,000 bytes or more, and any part of a frame after which recv fails, is answered INTERNAL, however it is cut |
| `Request.RespondsToWire` | queue.c:196-265 | of the requests of the format exactly the judge requests with both files sent along are judged, on their texts; the others are not served |
| `Request.BadFeedRefused` | interface.c:46-91 | a feed of unknown type refuses the request with -3, a file shorter than announced with -2, in either place |
| `Request.UnknownKindRefused` | interface.c:110-112 | behind two good feeds a request of unknown kind is refused with -3 |
| `Request.LongSetFeedRefused` | interface.c:107-109 | a set-feed request that goes on is refused with -4 |
| `Request.ShortSourceRefused` | interface.c:95-102 | a judge request that announces more source than there is is refused with -2 |
| `Request.RefusedIsAccepted` | queue.c:189-194 | a refused request is answered ACCEPTED |
| `Request.RunsOff` | interface.c:35-97 | a string that ends before the next line does makes the decoder overrun, wherever that line is looked for |
| `Request.ServedExactly` | queue.c:169-242 | end to end: a request is judged on exactly the three texts the client sent, however it was cut, unless its length is a multiple of 1024; then it is answered ACCEPTED unjudged, or overruns for an empty source |
| `RequestExamples.SourceNeverJudged` | queue.c:189-194 | for all NUL-free input and output up to 29,990,000 bytes together some source makes the request be answered ACCEPTED unjudged |
| `RequestExamples.EmptySourceOverruns` | interface.c:95-97 | for every such input some output makes a request with an empty source overrun the decoder |
| `CloneParams.IntRoundTrip` | runner.c:850-894 | the four bytes of argc read back as argc |
| `CloneParams.Measure` | runner.c:821-832 | the size computed in advance is that of the serialized block |
| `CloneParams.Serialize` | runner.c:817-863 | the block is filled to its last byte with the serialized parameters |
| `CloneParams.Unserialize` | runner.c:866-907 | from a block followed by anything, gives the parameters back and consumes exactly the block |
| `CloneParams.RoundTrip` | runner.c:817-907 | unserializing what was serialized gives back the same parameters, for any NUL-free argv |
| `CloneParams.FieldsInPlace` | runner.c:838-851 | the 56 bytes of run_params, the 48 of sandbox, the path with its terminator and the four bytes of argc, least significant first, lie in this order |
| `CloneParams.ArgInPlace` | runner.c:853-858 | where each argument lies in the block |
| `CloneParams.JudgeBlockFits` | runner.c:695-702 | the block for the judge's arguments fits the template's 1024-byte buffer iff the path has at most 457 bytes (the judge's buffer holds 98), and then fits the shared segment |
| `WorkQueue.Queue.constructor` | queue.c:27-32 | a new queue is empty |
| `WorkQueue.Queue.Push` | queue.c:83-96 | the connection is added at the end, also when the tail is stale |
| `WorkQueue.Queue.Pop` | queue.c:105-127 | takes the oldest connection; none from an empty queue |
| `QueueProtocol.StepInv` | queue.c:83-127 | every load, store, wake-up and post keeps the chain, order and counting invariant |
| `QueueProtocol.QueueMatchesSemaphore` | queue.c:83-127 | while nobody was overtaken: length = semaphore + woken workers + a push linked but not posted; order of arrival; no null pop |
| `QueueProtocol.LostIffOvertaken` | queue.c:83-127 | some connection is out of reach iff pusher and worker overtook each other |
| `QueueProtocol.LostForever` | queue.c:83-127 | a lost connection is never served |
| `QueueProtocol.AtomicUpdatesAreSafe` | queue.c:303-342 | with atomic list updates: length = semaphore + woken workers + a push linked but not posted, a woken worker finds a connection, none is lost, none is popped as null, and they are taken once each in order |
| `QueueProtocol.RaceLosesConnection` | queue.c:88-96 | a run in which the second connection is linked behind an entry taken meanwhile |
| `Ini.FirstInkIs` | iniparser/iniparser.c:32-39 | an index is the begin trim finds iff all before it is blank and it is not, or is the end |
| `Ini.InkEndIs` | iniparser/iniparser.c:41-48 | an index is the end trim finds iff all from it on is blank and what is before it is not, or it is the begin |
| `Ini.FirstSeparatorIs` | iniparser/iniparser.c:160-165 | an index is where the key ends iff no ':' or '=' lies before it and one at it, or it is the end |
| `Ini.Trim` | iniparser/iniparser.c:25-49 | the two loops find these two indices |
| `Ini.ReadKind` | iniparser/iniparser.c:127-177 | a line is classified and cut up as `ParseLine` says |
| `Ini.ReadConfig` | iniparser/iniparser.c:156-177 | key and value are the trimmed texts before and after the first separator |
| `Ini.Reader.constructor` | iniparser/iniparser.c:264-269 | the reader starts at the beginning of the file |
| `Ini.Reader.ReadLine` | iniparser/iniparser.c:51-97 | reads the line at the current position; empty lines are not lines, and the end of the file is noticed in the line it ends |
| `Ini.Reader.ParseSection` | iniparser/iniparser.c:99-196 | terminates, and the section read is the first of those the remaining lines make up |
| `Ini.Reader.ParseIni` | iniparser/iniparser.c:198-245 | terminates on every file, never takes its error branch, reads to the end, and returns `Parsed` |
| `Ini.GetValue` | iniparser/iniparser.c:283-297 | the value of the first match in the list `jug_ini_get_section` collects |
| `Ini.FirstValue` | iniparser/iniparser.c:288-296 | none iff no setting has the key, else the value of the first that has |
| `Ini.GetSection` | config.c:58-86 | all settings of all sections of that name, in file order |
| `Ini.GatheredAt` | config.c:64-84 | setting c of a section of that name is at the place given by the settings of the earlier sections of that name, and nothing else is in the list |
| `IniProofs.ItemReads` | iniparser/iniparser.c:158-177 | a setting printed with ':' or '=' reads back, whatever blanks surround key, separator and value, also when key or value is empty |
| `IniProofs.BareReads` | iniparser/iniparser.c:158-177 | a line without a separator is a key with the value found in memory behind it |
| `IniProofs.LoneBracket` | iniparser/iniparser.c:137-150 | a bracket alone is a header named by the blanks behind it |
| `IniProofs.BlankReads` | iniparser/iniparser.c:127-177 | a line of blanks is an empty key with such a value |
| `IniProofs.TitleReads` | iniparser/iniparser.c:137-150 | a printed header gives its name back, brackets and blanks inside it included |
| `IniProofs.RoundTrip` | iniparser/iniparser.c:107-245 | every printed document, with any comments, gaps, padding, separators and line ends, reads back as its sections; settings before the first header go to the first section |
| `IniProofs.CutLosesSection` | iniparser/iniparser.c:137-154 | an unterminated last header that is not the first costs exactly one section; any other unterminated line costs nothing |
| `IniProofs.ReadsRightIff` | iniparser/iniparser.c:137-154 | a file is read as its lines say iff it is terminated or its last line is no header after another one |
| `IniProofs.SecondTitleWins` | iniparser/iniparser.c:137-154 | of two headers, the second cut off, the file reads as one section under the second name, for all names and padding |

## Left out

- The runner, watcher, handshake and queue protocols are state machines over values, one step per system call or shared access, because their point is the interleaving; the C loops appear as program counters, not as Dafny loops.
- The submission is arbitrary: it writes and reads what it likes while its watcher is up. Other submissions do not write this worker's pipes.
- A pipe holds 65536 bytes; that the kernel answers EAGAIN only when a pipe is full or empty is used for reading output, not for sending input.
- Handshake payloads have any size; that the judge's own block fits is proved for `CloneParams`, and longer blocks overrun the template's buffer in the source.
- Memory is sequentially consistent; use of freed queue entries and reordering by compiler or processor are not modelled.
- `JudgeVerdict` starts from the return value of the run; the early returns -2 and -3 of `jug_runner_run` and the debug counters are not modelled.
- The memory and CPU-time probes, the exit-event mask (which every SIGTRAP stop passes) and the rest of ptrace are answers of the kernel.
- Failing malloc and realloc, apart from the template's stack; overflow of the `int` counters and of atoi.
- Buffer.StrBuf.Slice: a start behind the end makes the source compute a negative length; such calls are excluded.
- `buffer_compact`, the trims, `buffer_prepend`, `buffer_appendf`, `buffer_print`: not used on the modelled paths, or easy.
- The `run_params` and `sandbox` structures are byte blocks of their sizes; their fields are not modelled.
- `Request` stops at the call of the judge; feeds by reference and SETFEED requests are not implemented in the source.
- Decoding stops at `Overrun` when the source would read past its string; what it finds there is not modelled.
- Ini.ReadKind: a line without a separator, or of blanks only, takes its value from memory behind the line; that value is one unknown string `stale`, not the bytes actually left there.
- `current_line`, growth of the line buffer, freeing and pretty printing of the INI structures; a configuration file that cannot be opened.
- The client's sockets and file reading, socket set-up and sending of verdicts.
- Sandbox set-up, mounts, namespaces, rlimits and exec (`sandbox.c:38-190`, `sandbox.c:391-480`).
- `kudosd.c`, `lang.c`, `feed.c`, `ramfs.c`, `compiler.c`, `log.c`, `sandbox.old.c`, `proc_maps_parser/`, `lab/`: operating-system plumbing, experiments, or superseded.
- Worker cancellation at shutdown and the threading debug code of `queue.c`.
