/**
 The streaming output comparator (compare.c).  The runner hands it the submission's output chunk by
 chunk; it reads the reference file in step, skips carriage returns on both sides, seeks back in the
 reference, and tolerates trailing newlines.
 */
module Comparator {
  import opened Text

  /** Size of the comparator's read buffer. */
  const READ_SIZE: nat := 256

  /** How the reference descriptor was opened, as fcntl sees it. */
  datatype FdMode = Closed | ReadOnly | WriteOnly | ReadWrite

  /** The reference file behind its descriptor; reads of a broken file fail. */
  datatype RefFile = RefFile(content: string, off: nat, mode: FdMode, broken: bool) {
    predicate Valid() { off <= |content| }

    function Rest(): string
      requires Valid()
    {
      content[off..]
    }
  }

  /** A fresh, healthy, read-write reference file at offset 0. */
  function Opened(content: string): RefFile { RefFile(content, 0, ReadWrite, false) }

  /** A call's return code and the file offset it leaves. */
  datatype Outcome = Outcome(code: int, off: nat)

  /** How one pass over a read window ends. */
  datatype Scan = Mismatch(at: nat) | Stopped(i: nat, j: nat, plus: nat, back: nat)

  function ScanWindow(buf: string, out: string, i: nat, j: nat, plus: nat, back: nat): (s: Scan)
    requires i <= |out| && j <= |buf|
    ensures s.Mismatch? ==> s.at > 0
    ensures s.Stopped? ==> i <= s.i <= |out| && j <= s.j <= |buf|
    ensures s.Stopped? ==> s.i == |out| || s.j == |buf|
    ensures s.Stopped? ==> s.back - s.plus == back - plus + (s.i - i) - (s.j - j)
    ensures s.Stopped? && s.i == i ==> s.back == back && s.plus == plus + (s.j - j)
    decreases |buf| - j + |out| - i
  {
    if j < |buf| && i < |out| then
      if buf[j] == '\r' then ScanWindow(buf, out, i, j + 1, plus + 1, back)
      else if out[i] == '\r' then ScanWindow(buf, out, i + 1, j, plus, back + 1)
      else if out[i] != buf[j] then Mismatch(i + 1)
      else ScanWindow(buf, out, i + 1, j + 1, plus, back)
    else Stopped(i, j, plus, back)
  }

  /** lseek(cur - dec) when dec > 0; a negative target fails and leaves the offset alone. */
  function SeekBack(off: nat, dec: int): (r: nat)
    ensures r <= off
  {
    if 0 < dec <= off then off - dec else off
  }

  function Positive(x: int): nat { if x > 0 then x else 0 }

  /** What one pass of the comparing loop does: answer, or go on with less output or less reference. */
  datatype PassResult = Answer(o: Outcome) | Continue(off: nat, i: nat, plus: nat, back: nat)

  /** One pass over a non-empty chunk: read a window, scan it, seek back. */
  function Pass(f: RefFile, out: string, plus: nat, back: nat): (r: PassResult)
    requires f.Valid() && out != ""
    ensures r.Answer? ==> r.o.off <= |f.content|
    ensures r.Continue? ==> r.off <= |f.content| && r.i <= |out|
    ensures r.Continue? && r.i == 0 ==>
              r.back == back && r.plus > plus && (back <= plus ==> r.off > f.off)
  {
    if f.broken then Answer(Outcome(-30, f.off))
    else
      var rd := Min(Min(READ_SIZE, |out|), |f.content| - f.off);
      if rd == 0 then Answer(Outcome(if OnlyBreaks(out) then 0 else 20, f.off))
      else
        match ScanWindow(f.content[f.off..f.off + rd], out, 0, 0, plus, back)
        case Mismatch(at) => Answer(Outcome(at, f.off + rd))
        case Stopped(i, j, p, b) => Continue(SeekBack(f.off + rd, b - p), i, p, b)
  }

  /**
   The comparing loop.  `plus` and `back` are the carriage returns skipped so far in the reference and
   in the output; they run on from pass to pass.  It terminates on every input: a pass that consumes no
   output has read carriage returns only.
   */
  function CompareChunk(f: RefFile, out: string, plus: nat, back: nat): (o: Outcome)
    requires f.Valid()
    ensures o.off <= |f.content|
    decreases |out|, Positive(back - plus), |f.content| - f.off
  {
    if out == "" then Outcome(0, f.off)
    else
      match Pass(f, out, plus, back)
      case Answer(o) => o
      case Continue(off, i, p, b) => CompareChunk(f.(off := off), out[i..], p, b)
  }

  /** The last call: whatever the reference still holds must be line breaks. */
  function CompareEnd(f: RefFile): (o: Outcome)
    requires f.Valid()
    ensures o.off <= |f.content|
    decreases |f.content| - f.off
  {
    if f.broken then Outcome(-55, f.off)
    else
      var rd := Min(READ_SIZE, |f.content| - f.off);
      if rd == 0 then Outcome(0, f.off)
      else if !OnlyBreaks(f.content[f.off..f.off + rd]) then Outcome(10, f.off + rd)
      else CompareEnd(f.(off := f.off + rd))
  }

  /** One call of compare_output: stage 0 checks the descriptor first, stage -1 is the last call. */
  function Call(f: RefFile, rx: string, stage: int): (o: Outcome)
    requires f.Valid()
    ensures o.off <= |f.content|
  {
    if stage == 0 && f.mode == Closed then Outcome(-10, f.off)
    else if stage == 0 && f.mode != ReadWrite then Outcome(-20, f.off)
    else if stage == -1 then CompareEnd(f)
    else CompareChunk(f, rx, 0, 0)
  }

  /** The reference file after a call. */
  function After(f: RefFile, rx: string, stage: int): (r: RefFile)
    requires f.Valid()
    ensures r.Valid()
  {
    f.(off := Call(f, rx, stage).off)
  }

  /** The reference file after feeding `chunks` from stage `stage` on. */
  function Fed(f: RefFile, chunks: seq<string>, stage: nat): (g: RefFile)
    requires f.Valid()
    ensures g.Valid()
    decreases |chunks|
  {
    if chunks == [] then f else Fed(After(f, chunks[0], stage), chunks[1..], stage + 1)
  }

  /** Every chunk call answers 0. */
  predicate AllZero(f: RefFile, chunks: seq<string>, stage: nat)
    requires f.Valid()
    decreases |chunks|
  {
    chunks == [] ||
    (Call(f, chunks[0], stage).code == 0 && AllZero(After(f, chunks[0], stage), chunks[1..], stage + 1))
  }

  /** Feeding `chunks` and then the final call, every call answers 0. */
  predicate Accepts(f: RefFile, chunks: seq<string>, stage: nat)
    requires f.Valid()
    decreases |chunks|
  {
    if chunks == [] then Call(f, "", -1).code == 0
    else Call(f, chunks[0], stage).code == 0 && Accepts(After(f, chunks[0], stage), chunks[1..], stage + 1)
  }

  // ---------------------------------------------------------------------------------------------
  // The imperative comparator
  // ---------------------------------------------------------------------------------------------

  /** The open reference file: read and lseek move its offset. */
  class RefFd {
    const content: string
    const mode: FdMode
    const broken: bool
    var off: nat

    ghost predicate Valid() reads this { off <= |content| }

    ghost function State(): (f: RefFile)
      reads this
    {
      RefFile(content, off, mode, broken)
    }

    constructor (content: string, mode: FdMode, broken: bool)
      ensures Valid() && State() == RefFile(content, 0, mode, broken)
    {
      this.content, this.mode, this.broken, this.off := content, mode, broken, 0;
    }

    method Read(n: nat) returns (rd: int, buf: string)
      requires Valid()
      modifies this
      ensures Valid()
      ensures broken ==> rd == -1 && off == old(off)
      ensures !broken ==> rd == Min(n, |content| - old(off)) && off == old(off) + rd
                          && buf == content[old(off)..off]
    {
      if broken {
        return -1, "";
      }
      rd := Min(n, |content| - off);
      buf := content[off..off + rd];
      off := off + rd;
    }

    method Seek(target: int)
      requires Valid() && target <= |content|
      modifies this
      ensures off == if target >= 0 then target else old(off)
    {
      if target >= 0 {
        off := target;
      }
    }
  }

  /** compare_output as the source runs it: nested loops over the chunk and the read window. */
  method CompareOutput(fd: RefFd, rx: string, stage: int) returns (code: int)
    requires fd.Valid()
    modifies fd
    ensures fd.Valid()
    ensures Outcome(code, fd.off) == Call(old(fd.State()), rx, stage)
  {
    if stage == 0 {
      if fd.mode == Closed {
        return -10;
      }
      if fd.mode != ReadWrite {
        return -20;
      }
    }
    if stage == -1 {
      code := DrainReference(fd);
      return;
    }
    code := CompareLoop(fd, rx);
  }

  /** The outer loop: one pass per read window. */
  method CompareLoop(fd: RefFd, rx: string) returns (code: int)
    requires fd.Valid()
    modifies fd
    ensures fd.Valid()
    ensures Outcome(code, fd.off) == CompareChunk(old(fd.State()), rx, 0, 0)
  {
    var tmprx := rx;
    var plus: nat, back: nat := 0, 0;
    while |tmprx| > 0
      invariant fd.Valid()
      invariant CompareChunk(fd.State(), tmprx, plus, back) == CompareChunk(old(fd.State()), rx, 0, 0)
      decreases |tmprx|, Positive(back - plus), |fd.content| - fd.off
    {
      var r := OnePass(fd, tmprx, plus, back);
      if r.Answer? {
        return r.o.code;
      }
      plus, back := r.plus, r.back;
      tmprx := tmprx[r.i..];
    }
    code := 0;
  }

  /** The body of the outer loop. */
  method OnePass(fd: RefFd, tmprx: string, plus: nat, back: nat) returns (r: PassResult)
    requires fd.Valid() && tmprx != ""
    modifies fd
    ensures fd.Valid()
    ensures r == Pass(old(fd.State()), tmprx, plus, back)
    ensures fd.off == if r.Answer? then r.o.off else r.off
  {
    var rd, buffer := fd.Read(Min(READ_SIZE, |tmprx|));
    if rd < 0 {
      return Answer(Outcome(-30, fd.off));
    }
    if rd == 0 {
      var clean := AllBreaks(tmprx);
      return Answer(Outcome(if clean then 0 else 20, fd.off));
    }
    var s := ScanLoop(buffer, tmprx, plus, back);
    if s.Mismatch? {
      return Answer(Outcome(s.at, fd.off));
    }
    var dec: int := s.back - s.plus;
    if dec > 0 {
      fd.Seek(fd.off - dec);
    }
    r := Continue(fd.off, s.i, s.plus, s.back);
  }

  /** The inner loop: walk the window and the output together. */
  method ScanLoop(buffer: string, out: string, plus0: nat, back0: nat) returns (s: Scan)
    ensures s == ScanWindow(buffer, out, 0, 0, plus0, back0)
  {
    var i, j := 0, 0;
    var plus, back := plus0, back0;
    while j < |buffer| && i < |out|
      invariant i <= |out| && j <= |buffer|
      invariant ScanWindow(buffer, out, i, j, plus, back) == ScanWindow(buffer, out, 0, 0, plus0, back0)
      decreases |buffer| - j + |out| - i
    {
      if buffer[j] == '\r' {
        plus := plus + 1;
        j := j + 1;
      } else if out[i] == '\r' {
        back := back + 1;
        i := i + 1;
      } else {
        if out[i] != buffer[j] {
          return Mismatch(i + 1);
        }
        i := i + 1;
        j := j + 1;
      }
    }
    s := Stopped(i, j, plus, back);
  }

  /** The backwards scan of a chunk left over once the reference is exhausted. */
  method AllBreaks(s: string) returns (ok: bool)
    ensures ok == OnlyBreaks(s)
  {
    var i := |s|;
    while i > 0
      invariant 0 <= i <= |s|
      invariant forall k | i <= k < |s| :: Breaks(s[k])
    {
      i := i - 1;
      if s[i] != '\r' && s[i] != '\n' {
        return false;
      }
    }
    ok := true;
  }

  /** The scan of a window of the reference once the output has ended. */
  method NoInk(buffer: string) returns (ok: bool)
    ensures ok == OnlyBreaks(buffer)
  {
    var i := 0;
    while i < |buffer|
      invariant i <= |buffer|
      invariant forall k | 0 <= k < i :: Breaks(buffer[k])
    {
      if buffer[i] != '\n' && buffer[i] != '\r' {
        assert !Breaks(buffer[i]);
        return false;
      }
      i := i + 1;
    }
    ok := true;
  }

  method DrainReference(fd: RefFd) returns (code: int)
    requires fd.Valid()
    modifies fd
    ensures fd.Valid()
    ensures Outcome(code, fd.off) == CompareEnd(old(fd.State()))
  {
    while true
      invariant fd.Valid()
      invariant CompareEnd(fd.State()) == CompareEnd(old(fd.State()))
      decreases |fd.content| - fd.off
    {
      ghost var before := fd.State();
      var rd, buffer := fd.Read(READ_SIZE);
      if rd == 0 {
        return 0;
      }
      if rd < 0 {
        return -55;
      }
      assert before.content[before.off..before.off + rd] == buffer;
      var clean := NoInk(buffer);
      if !clean {
        return 10;
      }
    }
  }
}
