/**
 Where the comparator goes wrong: for any output with a carriage return some reference makes it accept a
 different text.
 */
module ComparatorTraps {
  import opened Text
  import opened Comparator
  import opened ComparatorProofs

  lemma {:induction false} ScanReturnsOnly(n: nat, out: string, j: nat)
    requires j <= n && out != ""
    ensures ScanWindow(Repeat('\r', n), out, 0, j, j, 0) == Stopped(0, n, n, 0)
    decreases n - j
  {
    if j < n {
      ScanReturnsOnly(n, out, j + 1);
    }
  }

  /** Scanning output against its own CR-free text followed by more swallows the output whole. */
  lemma {:induction false} ScanSelf(buf: string, extra: nat, out: string, i: nat, j: nat, plus: nat, back: nat)
    requires i <= |out| && j <= |buf| && buf[j..] == DropCR(out[i..]) + Repeat('x', extra) && extra > 0
    ensures ScanWindow(buf, out, i, j, plus, back) ==
            Stopped(|out|, |buf| - extra, plus, back + Returns(out[i..]))
    decreases |out| - i
  {
    assert |buf| - j == |DropCR(out[i..])| + extra;
    if i < |out| {
      assert out[i..][1..] == out[i + 1..];
      assert buf[j] == buf[j..][0];
      if out[i] == '\r' {
        assert buf[j] != '\r' by {
          if DropCR(out[i..]) != "" {
            assert buf[j] == DropCR(out[i..])[0];
            assert DropCR(out[i..])[0] in DropCR(out[i..]);
          }
        }
        ScanSelf(buf, extra, out, i + 1, j, plus, back + 1);
      } else {
        assert DropCR(out[i..]) == [out[i]] + DropCR(out[i + 1..]);
        assert buf[j + 1..] == buf[j..][1..] == DropCR(out[i + 1..]) + Repeat('x', extra);
        ScanSelf(buf, extra, out, i + 1, j + 1, plus, back);
      }
    } else {
      assert out[i..] == "";
    }
  }

  /** A stretch of reference that makes the comparator swallow as many bytes as `c` has carriage returns. */
  function Trap(c: string): string {
    if NoCR(c) then c else Repeat('\r', |c|) + (DropCR(c) + Repeat('x', Returns(c)))
  }

  lemma TrapSprings(f: RefFile, c: string)
    requires f.Valid() && !f.broken && !NoCR(c) && |c| <= 256 && Trap(c) <= f.Rest()
    ensures CompareChunk(f, c, 0, 0) == Outcome(0, f.off + |Trap(c)|)
  {
    var n, head, last := |c|, Repeat('\r', |c|), DropCR(c) + Repeat('x', Returns(c));
    TrapLies(f, n, head, last);
    TrapRuns(f, c, n, head, last);
  }

  lemma TrapLies(f: RefFile, n: nat, head: string, last: string)
    requires f.Valid() && |head| == n && |last| == n && head + last <= f.Rest()
    ensures f.off + n + n <= |f.content|
    ensures f.content[f.off..f.off + n] == head && f.content[f.off + n..f.off + n + n] == last
  {
    Halves(f.content, f.off, head, last);
  }

  lemma TrapRuns(f: RefFile, c: string, n: nat, head: string, last: string)
    requires f.Valid() && !f.broken && !NoCR(c) && 0 < n == |c| <= 256 && f.off + n + n <= |f.content|
    requires head == Repeat('\r', n) && last == DropCR(c) + Repeat('x', Returns(c))
    requires f.content[f.off..f.off + n] == head && f.content[f.off + n..f.off + n + n] == last
    ensures CompareChunk(f, c, 0, 0) == Outcome(0, f.off + n + n)
  {
    var g := f.(off := f.off + n);
    TrapFirstPass(f, c, n);
    TrapSecondPass(g, c, n);
    assert c == c[0..];
    PassOn(f, c, 0, 0, Continue(f.off + n, 0, n, 0), g, c);
  }

  lemma Halves(content: string, off: nat, a: string, b: string)
    requires off <= |content| && a + b <= content[off..]
    ensures off + |a| + |b| <= |content|
    ensures content[off..off + |a|] == a && content[off + |a|..off + |a| + |b|] == b
  {
    var rest, n := content[off..], |a| + |b|;
    assert rest[..n] == a + b;
    assert content[off..off + |a|] == rest[..n][..|a|];
    assert content[off + |a|..off + n] == rest[..n][|a|..];
  }

  lemma TrapFirstPass(f: RefFile, c: string, n: nat)
    requires f.Valid() && !f.broken && 0 < n == |c| <= 256 && f.off + n <= |f.content|
    requires f.content[f.off..f.off + n] == Repeat('\r', n)
    ensures Pass(f, c, 0, 0) == Continue(f.off + n, 0, n, 0)
  {
    ScanReturnsOnly(n, c, 0);
  }

  lemma TrapSecondPass(f: RefFile, c: string, n: nat)
    requires f.Valid() && !f.broken && !NoCR(c) && n == |c| <= 256 && f.off + n <= |f.content|
    requires f.content[f.off..f.off + n] == DropCR(c) + Repeat('x', Returns(c))
    ensures CompareChunk(f, c, n, 0) == Outcome(0, f.off + n)
  {
    SomeReturns(c);
    var buf := f.content[f.off..f.off + n];
    assert buf[0..] == buf && c[0..] == c;
    ScanSelf(buf, Returns(c), c, 0, 0, n, 0);
    PassEnds(f, c, n, 0, Continue(f.off + n, n, n, Returns(c)));
  }

  /** The reference built from the traps of all chunks. */
  function Traps(chunks: seq<string>): string {
    if chunks == [] then "" else Trap(chunks[0]) + Traps(chunks[1..])
  }

  lemma WindowIs(f: RefFile, c: string)
    requires f.Valid() && c <= f.Rest()
    ensures f.off + |c| <= |f.content| && f.content[f.off..f.off + |c|] == c
  {
    assert f.content[f.off..f.off + |c|] == f.Rest()[..|c|];
  }

  lemma CleanPass(f: RefFile, c: string)
    requires f.Valid() && !f.broken && NoCR(c) && 0 < |c| <= 256
    requires f.off + |c| <= |f.content| && f.content[f.off..f.off + |c|] == c
    ensures var p := Pass(f, c, 0, 0); p.Continue? && p.off == f.off + |c| && p.i == |c|
  {
    DropCRClean(c);
    PassClean(f, c, 0, 0, |c|, c, Pass(f, c, 0, 0));
  }

  lemma CleanPrefixConsumed(f: RefFile, c: string)
    requires f.Valid() && !f.broken && NoCR(c) && c <= f.Rest() && |c| <= 256
    ensures CompareChunk(f, c, 0, 0) == Outcome(0, f.off + |c|)
  {
    if c != "" {
      WindowIs(f, c);
      CleanPass(f, c);
      PassEnds(f, c, 0, 0, Pass(f, c, 0, 0));
    }
  }

  lemma {:induction false} TrapsAccepted(f: RefFile, chunks: seq<string>, stage: nat)
    requires f.Valid() && !f.broken && f.mode == ReadWrite && f.Rest() == Traps(chunks)
    requires forall c | c in chunks :: |c| <= 256
    ensures Accepts(f, chunks, stage)
    decreases |chunks|
  {
    if chunks == [] {
      EndAccepts(f);
    } else {
      var c := chunks[0];
      assert Trap(c) <= f.Rest();
      TrapConsumed(f, c, stage);
      var g := After(f, c, stage);
      assert g.Rest() == f.Rest()[|Trap(c)|..] == Traps(chunks[1..]);
      TrapsAccepted(g, chunks[1..], stage + 1);
    }
  }

  lemma TrapConsumed(f: RefFile, c: string, stage: nat)
    requires f.Valid() && !f.broken && f.mode == ReadWrite && |c| <= 256 && Trap(c) <= f.Rest()
    ensures Call(f, c, stage) == Outcome(0, f.off + |Trap(c)|)
  {
    if NoCR(c) {
      CleanPrefixConsumed(f, c);
    } else {
      TrapSprings(f, c);
    }
  }

  lemma TrapInk(c: string)
    ensures Ink(Trap(c)) == Ink(c) + Returns(c)
  {
    SomeReturns(c);
    if !NoCR(c) {
      var g := Returns(c);
      InkAppend(Repeat('\r', |c|), DropCR(c) + Repeat('x', g));
      InkAppend(DropCR(c), Repeat('x', g));
      InkOfBreaks(Repeat('\r', |c|));
      InkDropCR(c);
      InkOfX(g);
    }
  }

  lemma {:induction false} InkOfX(n: nat)
    ensures Ink(Repeat('x', n)) == n
  {
    if n > 0 {
      assert Repeat('x', n)[1..] == Repeat('x', n - 1);
      InkOfX(n - 1);
    }
  }

  lemma {:induction false} TrapsInk(chunks: seq<string>)
    ensures Ink(Traps(chunks)) == Ink(Flatten(chunks)) + Returns(Flatten(chunks))
  {
    if chunks != [] {
      TrapsInk(chunks[1..]);
      TrapInk(chunks[0]);
      InkAppend(Trap(chunks[0]), Traps(chunks[1..]));
      InkAppend(chunks[0], Flatten(chunks[1..]));
      DropCRAppend(chunks[0], Flatten(chunks[1..]));
    }
  }

  /**
   The exact reach of the comparator.  A submission's output, in chunks as the runner reads them, is
   compared correctly against every reference iff it contains no carriage return.
   */
  lemma ExactIffNoReturns(chunks: seq<string>)
    requires forall c | c in chunks :: |c| <= 256
    ensures (forall content :: Accepts(Opened(content), chunks, 0) <==> SameText(Flatten(chunks), content))
            <==> NoCR(Flatten(chunks))
  {
    var out := Flatten(chunks);
    if NoCR(out) {
      forall content
        ensures Accepts(Opened(content), chunks, 0) <==> SameText(out, content)
      {
        StreamingIsWholeText(content, chunks);
      }
    } else {
      var content := Traps(chunks);
      assert Opened(content).Rest() == content;
      TrapsAccepted(Opened(content), chunks, 0);
      if SameText(out, content) {
        SameTextSameInk(out, content);
        TrapsInk(chunks);
        SomeReturns(out);
      }
      assert Accepts(Opened(content), chunks, 0) && !SameText(out, content);
    }
  }

  /** The everyday failure: DOS line endings are judged wrong although the texts agree. */
  lemma DosOutputRejected()
    ensures SameText("a\r\nb\r\n", "a\nb\n")
    ensures Call(Opened("a\nb\n"), "a\r\nb\r\n", 0) == Outcome(0, 2)
    ensures Call(After(Opened("a\nb\n"), "a\r\nb\r\n", 0), "", -1).code == 10
    ensures !Accepts(Opened("a\nb\n"), ["a\r\nb\r\n"], 0)
  {
    DosText();
    DosCall();
    DosEnd();
    RefusedAtEnd(Opened("a\nb\n"), "a\r\nb\r\n");
  }

  lemma RefusedAtEnd(f: RefFile, out: string)
    requires f.Valid() && Call(f, out, 0).code == 0 && Call(After(f, out, 0), "", -1).code != 0
    ensures !Accepts(f, [out], 0)
  {
    assert [out][1..] == [];
  }

  lemma DosCall()
    ensures CompareChunk(Opened("a\nb\n"), "a\r\nb\r\n", 0, 0) == Outcome(0, 2)
  {
    var out := "a\r\nb\r\n";
    var f := Opened("a\nb\n");
    assert f.content[0..4] == f.content;
    DosScan();
    PassEnds(f, out, 0, 0, Continue(2, 6, 0, 2));
  }

  lemma DosEnd()
    ensures CompareEnd(Opened("a\nb\n").(off := 2)).code == 10
  {
    var g := Opened("a\nb\n").(off := 2);
    assert g.content[2..4][0] == 'b';
  }

  lemma DosLine(x: char)
    requires x != '\r'
    ensures DropCR([x] + "\r\n") == [x] + "\n"
  {
    DropCRAppend([x], "\r\n");
    assert "\r\n"[1..] == "\n";
    DropCRClean("\n");
    DropCRClean([x]);
  }

  lemma DosText()
    ensures DropCR("a\r\nb\r\n") == "a\nb\n" == DropCR("a\nb\n")
  {
    DosLines('a', 'b');
    assert ['a'] + "\r\n" + (['b'] + "\r\n") == "a\r\nb\r\n";
    assert ['a'] + "\n" + (['b'] + "\n") == "a\nb\n";
    DropCRClean("a\nb\n");
  }

  lemma DosLines(x: char, y: char)
    requires x != '\r' && y != '\r'
    ensures DropCR([x] + "\r\n" + ([y] + "\r\n")) == [x] + "\n" + ([y] + "\n")
  {
    DosLine(x);
    DosLine(y);
    DropCRAppend([x] + "\r\n", [y] + "\r\n");
  }

  lemma DosScan()
    ensures ScanWindow("a\nb\n", "a\r\nb\r\n", 0, 0, 0, 0) == Stopped(6, 4, 0, 2)
  {
    var buf, out := "a\nb\n", "a\r\nb\r\n";
    assert ScanWindow(buf, out, 6, 4, 0, 2) == Stopped(6, 4, 0, 2);
    assert ScanWindow(buf, out, 4, 3, 0, 1) == ScanWindow(buf, out, 6, 4, 0, 2);
    assert ScanWindow(buf, out, 2, 1, 0, 1) == ScanWindow(buf, out, 4, 3, 0, 1);
  }

  // ---------------------------------------------------------------------------------------------
  // References without carriage returns
  // ---------------------------------------------------------------------------------------------

  lemma ScanPair(x: char, y: char, out: string)
    requires !Breaks(x) && !Breaks(y) && |out| >= 3 && out[..3] == [x, '\r', y]
    ensures ScanWindow([x, y], out, 0, 0, 0, 0) == Stopped(3, 2, 0, 1)
  {
    var buf := [x, y];
    assert out[0] == out[..3][0] && out[1] == out[..3][1] && out[2] == out[..3][2];
    assert ScanWindow(buf, out, 3, 2, 0, 1) == Stopped(3, 2, 0, 1);
    assert ScanWindow(buf, out, 1, 1, 0, 0) == ScanWindow(buf, out, 2, 1, 0, 1);
  }

  /** A short read: both bytes are matched, and the second is offered again. */
  lemma ReadsAgain(x: char, y: char, out: string)
    requires !Breaks(x) && !Breaks(y) && 3 <= |out| <= 256 && out[..3] == [x, '\r', y]
    ensures var f := Opened([x, y]);
            CompareChunk(f, out, 0, 0) == CompareChunk(f.(off := 1), out[3..], 0, 1)
  {
    var f := Opened([x, y]);
    assert f.content[0..2] == [x, y];
    ScanPair(x, y, out);
    PassOn(f, out, 0, 0, Continue(1, 3, 0, 1), f.(off := 1), out[3..]);
  }

  lemma LastAgain(x: char, y: char)
    requires !Breaks(x) && !Breaks(y)
    ensures CompareChunk(Opened([x, y]).(off := 1), [y], 0, 1) == Outcome(0, 1)
  {
    var f := Opened([x, y]).(off := 1);
    assert f.content[1..2] == [y];
    assert ScanWindow([y], [y], 0, 0, 0, 1) == Stopped(1, 1, 0, 1);
    PassEnds(f, [y], 0, 1, Continue(1, 1, 0, 1));
  }

  /**
   Against a CR-free reference, too, output with a carriage return may pass although it is wrong, and
   whether it does depends on how it is cut: the reference is `xy`, the output `x\ryy`.
   */
  lemma CutDecidesVerdict(x: char, y: char)
    requires !Breaks(x) && !Breaks(y)
    ensures Accepts(Opened([x, y]), [[x, '\r', y], [y]], 0)
    ensures !Accepts(Opened([x, y]), [[x, '\r', y, y]], 0)
    ensures !SameText([x, '\r', y, y], [x, y])
  {
    AcceptedInTwo(x, y);
    RefusedInOne(x, y);
    if SameText([x, '\r', y, y], [x, y]) {
      SameTextSameInk([x, '\r', y, y], [x, y]);
      InkOfPair(x, y);
    }
  }

  lemma InkOfPair(x: char, y: char)
    requires !Breaks(x) && !Breaks(y)
    ensures Ink([x, '\r', y, y]) == 3 && Ink([x, y]) == 2
  {
    assert [x, '\r', y, y][1..] == ['\r', y, y] && ['\r', y, y][1..] == [y, y] && [y, y][1..] == [y];
    assert Ink([y]) == 1 && Ink([y, y]) == 2 && Ink(['\r', y, y]) == 2;
    assert [x, y][1..] == [y];
  }

  lemma AcceptedInTwo(x: char, y: char)
    requires !Breaks(x) && !Breaks(y)
    ensures Accepts(Opened([x, y]), [[x, '\r', y], [y]], 0)
  {
    var f, a, b := Opened([x, y]), [x, '\r', y], [y];
    assert a[..3] == a && a[3..] == "";
    ReadsAgain(x, y, a);
    var g := f.(off := 1);
    assert Call(f, a, 0) == Outcome(0, 1) && After(f, a, 0) == g;
    assert g.Rest() == b;
    CleanPrefixConsumed(g, b);
    assert After(g, b, 1) == f.(off := 2) && f.(off := 2).Rest() == "";
    assert [a, b][1..] == [b] && [b][1..] == [];
    EndAccepts(f.(off := 2));
    assert Accepts(f.(off := 2), [], 2);
    assert Accepts(g, [b], 1);
  }

  lemma RefusedInOne(x: char, y: char)
    requires !Breaks(x) && !Breaks(y)
    ensures !Accepts(Opened([x, y]), [[x, '\r', y, y]], 0)
  {
    var f, out := Opened([x, y]), [x, '\r', y, y];
    assert out[..3] == [x, '\r', y] && out[3..] == [y];
    ReadsAgain(x, y, out);
    LastAgain(x, y);
    var g := f.(off := 1);
    assert After(f, out, 0) == g && g.Rest()[0] == y;
    EndAccepts(g);
    RefusedAtEnd(f, out);
  }

  /** O_RDONLY is 0, so the test of the descriptor's flags refuses a reference opened for reading only. */
  lemma ReadOnlyRefused(f: RefFile, chunks: seq<string>)
    requires f.Valid() && f.mode == ReadOnly && chunks != []
    ensures Call(f, chunks[0], 0) == Outcome(-20, f.off) && !Accepts(f, chunks, 0)
  {
  }

  /**
   A chunk larger than the read window is rewound too far, however much reference is left: 257 bytes that
   start with a carriage return leave the offset one short.
   */
  lemma LongChunkRewinds(text: string, more: string)
    requires NoCR(text) && NoCR(more) && |text| == 256 && more != ""
    ensures CompareChunk(Opened(text + more), "\r" + text, 0, 0) == Outcome(0, 255)
  {
    var f, out := Opened(text + more), "\r" + text;
    assert f.content[0..256] == text && out[1..] == text;
    assert text[0..] == text && text[0] in text;
    DropCRClean(text);
    ScanRoomy(text, out, 1, 0, 0, 1);
    assert ScanWindow(text, out, 0, 0, 0, 0) == ScanWindow(text, out, 1, 0, 0, 1);
    PassEnds(f, out, 0, 0, Continue(255, 257, 0, 1));
  }
}
