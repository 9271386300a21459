/**
 What the streaming comparator decides.  For output free of carriage returns it is exactly the
 whole-text comparison, however the output is cut; for any output with a carriage return some
 reference makes it wrong.
 */
module ComparatorProofs {
  import opened Text
  import opened Comparator

  // ---------------------------------------------------------------------------------------------
  // Feeding chunks
  // ---------------------------------------------------------------------------------------------

  lemma {:induction false} FedAppend(f: RefFile, chunks: seq<string>, stage: nat, c: string)
    requires f.Valid()
    ensures Fed(f, chunks + [c], stage) == After(Fed(f, chunks, stage), c, stage + |chunks|)
    ensures AllZero(f, chunks + [c], stage) <==>
            AllZero(f, chunks, stage) && Call(Fed(f, chunks, stage), c, stage + |chunks|).code == 0
    decreases |chunks|
  {
    if chunks == [] {
      assert (chunks + [c])[1..] == [];
    } else {
      assert (chunks + [c])[1..] == chunks[1..] + [c];
      FedAppend(After(f, chunks[0], stage), chunks[1..], stage + 1, c);
    }
  }

  lemma {:induction false} AcceptsSplits(f: RefFile, chunks: seq<string>, stage: nat)
    requires f.Valid()
    ensures Accepts(f, chunks, stage) <==> AllZero(f, chunks, stage) && Call(Fed(f, chunks, stage), "", -1).code == 0
    decreases |chunks|
  {
    if chunks != [] {
      AcceptsSplits(After(f, chunks[0], stage), chunks[1..], stage + 1);
    }
  }

  // ---------------------------------------------------------------------------------------------
  // Output without carriage returns
  // ---------------------------------------------------------------------------------------------

  /** What is left of the CR-free reference `r` once `out` is matched; past its end only newlines match. */
  function Consume(r: string, out: string): Option<string> {
    if out <= r then Some(r[|out|..])
    else if r <= out && OnlyNewlines(out[|r|..]) then Some("")
    else None
  }

  lemma PrefixCons(x: char, v: string, y: char, u: string)
    ensures [x] + v <= [y] + u <==> x == y && v <= u
  {
    if v <= u && x == y {
      assert [y] + u == ([x] + v) + u[|v|..];
    }
    if [x] + v <= [y] + u {
      assert ([y] + u)[0] == ([x] + v)[0];
      assert v == ([x] + v)[1..] == ([y] + u)[1..1 + |v|] == u[..|v|];
    }
  }

  lemma PrefixAppend(a: string, b: string, r: string)
    ensures a + b <= r ==> a <= r
    ensures r <= a + b && |r| <= |a| ==> r <= a
    ensures r <= a + b && |a| <= |r| ==> a <= r
  {
    assert a == (a + b)[..|a|];
    if |r| <= |a| {
      assert (a + b)[..|r|] == a[..|r|];
    }
  }

  lemma CountFrom(s: string, i: nat, e: nat)
    requires i < e <= |s|
    ensures |DropCR(s[i..e])| == (if s[i] == '\r' then 0 else 1) + |DropCR(s[i + 1..e])|
  {
    assert s[i..e][1..] == s[i + 1..e];
  }

  /** One more byte of the window against one more byte of the output. */
  lemma MatchStep(buf: string, j: nat, out: string, i: nat)
    requires j < |buf| && i < |out| && buf[j] != '\r'
    ensures DropCR(buf[j..]) <= out[i..] <==> out[i] == buf[j] && DropCR(buf[j + 1..]) <= out[i + 1..]
    ensures |DropCR(buf[j..])| == 1 + |DropCR(buf[j + 1..])|
  {
    assert buf[j..][1..] == buf[j + 1..];
    assert out[i..] == [out[i]] + out[i + 1..];
    PrefixCons(buf[j], DropCR(buf[j + 1..]), out[i], out[i + 1..]);
  }

  lemma SkipStep(buf: string, j: nat)
    requires j < |buf| && buf[j] == '\r'
    ensures DropCR(buf[j..]) == DropCR(buf[j + 1..])
  {
    assert buf[j..][1..] == buf[j + 1..];
  }

  /** A window no larger than the output left is read to its end, or shows a mismatch. */
  lemma {:induction false} ScanClean(buf: string, out: string, i: nat, j: nat, plus: nat, back: nat)
    requires i <= |out| && j <= |buf| && |buf| - j <= |out| - i && NoCR(out)
    ensures ScanWindow(buf, out, i, j, plus, back).Mismatch? <==> !(DropCR(buf[j..]) <= out[i..])
    ensures var s := ScanWindow(buf, out, i, j, plus, back);
            s.Stopped? ==> s.j == |buf| && s.back == back && s.plus >= plus && s.i == i + |DropCR(buf[j..])|
    decreases |buf| - j
  {
    if j == |buf| {
      assert buf[j..] == "";
    } else if buf[j] == '\r' {
      SkipStep(buf, j);
      ScanClean(buf, out, i, j + 1, plus + 1, back);
    } else {
      MatchStep(buf, j, out, i);
      if out[i] == buf[j] {
        ScanClean(buf, out, i + 1, j + 1, plus, back);
      }
    }
  }

  /** One pass on CR-free output: consume a whole window `w`, or report a mismatch. */
  lemma PassClean(f: RefFile, out: string, plus: nat, back: nat, rd: nat, w: string, p: PassResult)
    requires f.Valid() && !f.broken && NoCR(out) && out != "" && back <= plus && f.off < |f.content|
    requires rd == Min(Min(READ_SIZE, |out|), |f.content| - f.off) && w == DropCR(f.content[f.off..f.off + rd])
    requires p == Pass(f, out, plus, back)
    ensures w <= out ==> p.Continue? && p.off == f.off + rd && p.i == |w| && p.back <= p.plus
    ensures !(w <= out) ==> p.Answer? && p.o.code > 0
  {
    var buf := f.content[f.off..f.off + rd];
    assert buf[0..] == buf && out[0..] == out;
    ScanClean(buf, out, 0, 0, plus, back);
  }

  /** After a pass that goes on, the loop goes on with what is left. */
  lemma PassOn(f: RefFile, out: string, plus: nat, back: nat, p: PassResult, g: RefFile, left: string)
    requires f.Valid() && out != "" && Pass(f, out, plus, back) == p && p.Continue?
    requires g == f.(off := p.off) && left == out[p.i..]
    ensures g.Valid() && CompareChunk(f, out, plus, back) == CompareChunk(g, left, p.plus, p.back)
  {
  }

  /** A pass that consumes the whole output ends the call. */
  lemma PassEnds(f: RefFile, out: string, plus: nat, back: nat, p: PassResult)
    requires f.Valid() && out != "" && Pass(f, out, plus, back) == p && p.Continue? && p.i == |out|
    ensures CompareChunk(f, out, plus, back) == Outcome(0, p.off)
  {
    PassOn(f, out, plus, back, p, f.(off := p.off), "");
  }

  lemma ConsumeSplit(w: string, rest: string, out: string)
    requires w <= out
    ensures Consume(w + rest, out) == Consume(rest, out[|w|..])
  {
    var left := out[|w|..];
    assert out == w + left;
    if left <= rest {
      assert rest == left + rest[|left|..];
      assert w + rest == out + rest[|left|..];
    }
    if out <= w + rest {
      assert (w + rest)[|w|..] == rest;
      assert (w + rest)[|w|..|out|] == left;
    }
    if rest <= left {
      assert out == (w + rest) + left[|rest|..];
    }
    if w + rest <= out {
      assert out[|w|..|w + rest|] == rest;
      assert out[|w + rest|..] == left[|rest|..];
    }
  }

  lemma ConsumeBlocked(w: string, rest: string, out: string)
    requires |w| <= |out| && !(w <= out)
    ensures Consume(w + rest, out).None?
  {
    PrefixAppend(w, rest, out);
  }

  /** The outcome `o` of a call says exactly how much of the CR-stripped reference `out` consumed. */
  predicate Tracks(f: RefFile, out: string, o: Outcome)
    requires f.Valid()
  {
    var c := Consume(DropCR(f.Rest()), out);
    && o.off <= |f.content|
    && (o.code == 0 <==> c.Some?)
    && (c.Some? ==> DropCR(f.content[o.off..]) == c.value)
  }

  lemma SplitRest(f: RefFile, rd: nat)
    requires f.Valid() && f.off + rd <= |f.content|
    ensures f.Rest() == f.content[f.off..f.off + rd] + f.content[f.off + rd..]
  {
  }

  lemma RestSplits(f: RefFile, rd: nat)
    requires f.Valid() && f.off + rd <= |f.content|
    ensures DropCR(f.Rest()) == DropCR(f.content[f.off..f.off + rd]) + DropCR(f.content[f.off + rd..])
  {
    SplitRest(f, rd);
    DropCRAppend(f.content[f.off..f.off + rd], f.content[f.off + rd..]);
  }

  /** A window that matches is followed by a call on the rest of both. */
  lemma TracksThrough(f: RefFile, out: string, rd: nat, w: string, g: RefFile, left: string, o: Outcome)
    requires f.Valid() && f.off + rd <= |f.content| && w == DropCR(f.content[f.off..f.off + rd])
    requires w <= out && g == f.(off := f.off + rd) && left == out[|w|..] && Tracks(g, left, o)
    ensures Tracks(f, out, o)
  {
    RestSplits(f, rd);
    ConsumeSplit(w, DropCR(g.Rest()), out);
  }

  lemma TracksBlocked(f: RefFile, out: string, rd: nat, w: string, o: Outcome)
    requires f.Valid() && f.off + rd <= |f.content| && w == DropCR(f.content[f.off..f.off + rd])
    requires |w| <= |out| && !(w <= out) && o.code != 0 && o.off <= |f.content|
    ensures Tracks(f, out, o)
  {
    RestSplits(f, rd);
    ConsumeBlocked(w, DropCR(f.content[f.off + rd..]), out);
  }

  lemma TracksExhausted(f: RefFile, out: string)
    requires f.Valid() && f.off == |f.content| && NoCR(out) && out != ""
    ensures Tracks(f, out, Outcome(if OnlyBreaks(out) then 0 else 20, f.off))
  {
    assert out[0..] == out;
    assert forall i | 0 <= i < |out| :: out[i] != '\r';
  }

  /** One call on CR-free output consumes exactly that much of the CR-stripped reference. */
  lemma {:induction false} ChunkConsumes(f: RefFile, out: string, plus: nat, back: nat)
    requires f.Valid() && !f.broken && NoCR(out) && back <= plus
    ensures Tracks(f, out, CompareChunk(f, out, plus, back))
    decreases |out|, |f.content| - f.off
  {
    if out == "" {
      assert DropCR(f.Rest())[0..] == DropCR(f.Rest());
    } else if f.off == |f.content| {
      TracksExhausted(f, out);
    } else {
      var rd := Min(Min(READ_SIZE, |out|), |f.content| - f.off);
      var w := DropCR(f.content[f.off..f.off + rd]);
      var p := Pass(f, out, plus, back);
      PassClean(f, out, plus, back, rd, w, p);
      if p.Continue? {
        var g, left := f.(off := p.off), out[p.i..];
        SuffixNoCR(out, p.i);
        ChunkConsumes(g, left, p.plus, p.back);
        PassOn(f, out, plus, back, p, g, left);
        TracksThrough(f, out, rd, w, g, left, CompareChunk(g, left, p.plus, p.back));
      } else {
        TracksBlocked(f, out, rd, w, p.o);
      }
    }
  }

  /** The last call accepts exactly a reference whose rest is line breaks. */
  lemma {:induction false} EndAccepts(f: RefFile)
    requires f.Valid() && !f.broken
    ensures CompareEnd(f).code == 0 <==> OnlyBreaks(f.Rest())
    decreases |f.content| - f.off
  {
    var rd := Min(READ_SIZE, |f.content| - f.off);
    if rd > 0 {
      var buf := f.content[f.off..f.off + rd];
      SplitRest(f, rd);
      EndAccepts(f.(off := f.off + rd));
      if !OnlyBreaks(buf) {
        var i :| 0 <= i < |buf| && !Breaks(buf[i]);
        assert !Breaks(f.Rest()[i]);
      }
      if OnlyBreaks(f.Rest()) {
        assert f.content[f.off + rd..] == f.Rest()[rd..];
      }
    }
  }

  lemma ConsumeTwice(r: string, a: string, b: string)
    ensures Consume(r, a + b) == (if Consume(r, a).Some? then Consume(Consume(r, a).value, b) else None)
  {
    if a <= r {
      assert r == a + r[|a|..];
      ConsumeSplit(a, r[|a|..], a + b);
      assert (a + b)[|a|..] == b;
    } else if r <= a {
      assert (a + b)[|r|..] == a[|r|..] + b;
      assert !(a + b <= r);
      if OnlyNewlines(a[|r|..]) {
        assert Consume("", b).Some? <==> OnlyNewlines(b) by {
          assert b[0..] == b;
        }
        assert OnlyNewlines(a[|r|..] + b) <==> OnlyNewlines(b) by {
          assert forall k | 0 <= k < |b| :: (a[|r|..] + b)[|a| - |r| + k] == b[k];
        }
      } else {
        var k :| 0 <= k < |a| - |r| && a[|r|..][k] != '\n';
        assert (a[|r|..] + b)[k] != '\n';
      }
    } else {
      PrefixAppend(a, b, r);
    }
  }

  /**
   The output the comparator handles right, by lengths alone: every chunk with carriage returns goes to a
   CR-free reference that has at least as many bytes left as the chunk has.
   */
  predicate Fits(ref: string, left: int, chunks: seq<string>)
    decreases |chunks|
  {
    chunks != [] ==>
      && (NoCR(chunks[0]) || (NoCR(ref) && |chunks[0]| <= 256 && |chunks[0]| <= left))
      && Fits(ref, left - |DropCR(chunks[0])|, chunks[1..])
  }

  /** Output without carriage returns always fits. */
  lemma {:induction false} CleanFits(ref: string, left: int, chunks: seq<string>)
    requires NoCR(Flatten(chunks))
    ensures Fits(ref, left, chunks)
    decreases |chunks|
  {
    if chunks != [] {
      var a, b := chunks[0], Flatten(chunks[1..]);
      assert forall x | x in a || x in b :: x in a + b;
      CleanFits(ref, left - |DropCR(a)|, chunks[1..]);
    }
  }

  lemma ConsumeRoomy(r: string, text: string)
    requires |text| <= |r|
    ensures Consume(r, text) == if text <= r then Some(r[|text|..]) else None
  {
    if r <= text {
      assert r == text;
    }
  }

  lemma SuffixClean(f: RefFile, n: nat)
    requires f.Valid() && NoCR(f.Rest()) && n <= |f.Rest()|
    ensures f.(off := f.off + n).Rest() == f.Rest()[n..]
    ensures DropCR(f.Rest()[n..]) == f.Rest()[n..]
  {
    DropDrop(f.content, f.off, n);
    SuffixNoCR(f.Rest(), n);
    DropCRClean(f.Rest()[n..]);
  }

  lemma RoomyTracks(f: RefFile, text: string, o: Outcome)
    requires f.Valid() && NoCR(f.Rest()) && |text| <= |f.Rest()| && o.off <= |f.content|
    requires o.code == 0 <==> text <= f.Rest()
    requires o.code == 0 ==> o.off == f.off + |text|
    ensures Tracks(f, text, o)
  {
    DropCRClean(f.Rest());
    ConsumeRoomy(f.Rest(), text);
    SuffixClean(f, |text|);
  }

  lemma CleanContent(f: RefFile)
    requires f.Valid() && NoCR(f.content)
    ensures NoCR(f.Rest()) && DropCR(f.Rest()) == f.Rest()
  {
    assert forall x | x in f.Rest() :: x in f.content;
    DropCRClean(f.Rest());
  }

  /** A chunk that fits is consumed by the reference as its CR-free text is. */
  lemma CallConsumes(f: RefFile, left: int, chunks: seq<string>, stage: nat)
    requires f.Valid() && !f.broken && f.mode == ReadWrite && chunks != []
    requires Fits(f.content, left, chunks) && left <= |f.Rest()|
    ensures Call(f, chunks[0], stage).code == 0 <==> Consume(DropCR(f.Rest()), DropCR(chunks[0])).Some?
    ensures Call(f, chunks[0], stage).code == 0 ==>
              DropCR(After(f, chunks[0], stage).Rest()) == Consume(DropCR(f.Rest()), DropCR(chunks[0])).value
  {
    var a := chunks[0];
    if NoCR(a) {
      DropCRClean(a);
      ChunkConsumes(f, a, 0, 0);
    } else {
      CleanContent(f);
      RewindIsExact(f, a);
      RoomyTracks(f, DropCR(a), CompareChunk(f, a, 0, 0));
    }
    assert Tracks(f, DropCR(a), Call(f, a, stage));
  }

  /** A CR-free reference shrinks by no more than the chunk it consumed. */
  lemma CleanShrinks(f: RefFile, chunk: string, stage: nat)
    requires f.Valid() && NoCR(f.content) && Consume(DropCR(f.Rest()), DropCR(chunk)).Some?
    requires DropCR(After(f, chunk, stage).Rest()) == Consume(DropCR(f.Rest()), DropCR(chunk)).value
    ensures |f.Rest()| - |DropCR(chunk)| <= |After(f, chunk, stage).Rest()|
  {
    CleanContent(f);
    CleanContent(After(f, chunk, stage));
  }

  /** After a chunk the others still fit. */
  lemma StillFits(f: RefFile, left: int, chunks: seq<string>, stage: nat) returns (less: int)
    requires f.Valid() && chunks != [] && Fits(f.content, left, chunks) && left <= |f.Rest()|
    requires Call(f, chunks[0], stage).code == 0 && Consume(DropCR(f.Rest()), DropCR(chunks[0])).Some?
    requires DropCR(After(f, chunks[0], stage).Rest()) == Consume(DropCR(f.Rest()), DropCR(chunks[0])).value
    ensures Fits(f.content, less, chunks[1..]) && less <= |After(f, chunks[0], stage).Rest()|
  {
    var g := After(f, chunks[0], stage);
    less := left - |DropCR(chunks[0])|;
    if NoCR(f.content) {
      CleanShrinks(f, chunks[0], stage);
    } else {
      FitsAnyway(f.content, less, |g.Rest()|, chunks[1..]);
      less := |g.Rest()|;
    }
  }

  /** All chunk calls answer 0 iff the reference can consume the output; the offset says how much is left. */
  lemma {:induction false} AllZeroFits(f: RefFile, left: int, chunks: seq<string>, stage: nat)
    requires f.Valid() && !f.broken && f.mode == ReadWrite && Fits(f.content, left, chunks) && left <= |f.Rest()|
    ensures AllZero(f, chunks, stage) <==> Consume(DropCR(f.Rest()), DropCR(Flatten(chunks))).Some?
    ensures AllZero(f, chunks, stage) ==>
              DropCR(Fed(f, chunks, stage).Rest()) == Consume(DropCR(f.Rest()), DropCR(Flatten(chunks))).value
    decreases |chunks|
  {
    var r := DropCR(f.Rest());
    if chunks == [] {
      assert r[0..] == r;
    } else {
      var a, b := chunks[0], Flatten(chunks[1..]);
      CallConsumes(f, left, chunks, stage);
      DropCRAppend(a, b);
      ConsumeTwice(r, DropCR(a), DropCR(b));
      if Call(f, a, stage).code == 0 {
        var less := StillFits(f, left, chunks, stage);
        AllZeroFits(After(f, a, stage), less, chunks[1..], stage + 1);
      }
    }
  }

  /** Where the reference has carriage returns the bytes left do not matter. */
  lemma {:induction false} FitsAnyway(ref: string, left: int, less: int, chunks: seq<string>)
    requires !NoCR(ref) && Fits(ref, left, chunks)
    ensures Fits(ref, less, chunks)
    decreases |chunks|
  {
    if chunks != [] {
      FitsAnyway(ref, left - |DropCR(chunks[0])|, less - |DropCR(chunks[0])|, chunks[1..]);
    }
  }

  lemma {:induction false} FedHealthy(f: RefFile, chunks: seq<string>, stage: nat)
    requires f.Valid() && !f.broken
    ensures !Fed(f, chunks, stage).broken
    decreases |chunks|
  {
    if chunks != [] {
      FedHealthy(After(f, chunks[0], stage), chunks[1..], stage + 1);
    }
  }

  lemma AcceptsFits(f: RefFile, left: int, chunks: seq<string>, stage: nat)
    requires f.Valid() && !f.broken && f.mode == ReadWrite && Fits(f.content, left, chunks) && left <= |f.Rest()|
    ensures Accepts(f, chunks, stage) <==> Agrees(DropCR(f.Rest()), DropCR(Flatten(chunks)))
  {
    AcceptsSplits(f, chunks, stage);
    AllZeroFits(f, left, chunks, stage);
    var g := Fed(f, chunks, stage);
    FedHealthy(f, chunks, stage);
    EndAccepts(g);
    DropCRBreaks(g.Rest());
  }

  /** The reference consumes the output and has only newlines left. */
  predicate Agrees(r: string, out: string) {
    var c := Consume(r, out);
    c.Some? && OnlyNewlines(c.value)
  }

  lemma AgreesIsSameText(content: string, out: string)
    ensures Agrees(DropCR(content), DropCR(out)) <==> SameText(out, content)
  {
    var o, r := DropCR(out), DropCR(content);
    StripEqual(o, r);
    if PaddedBy(r, o) && o <= r {
      assert o == r;
    }
  }

  /**
   For every output that fits, every call including the last answers 0 iff the two texts agree, however
   the output is cut into chunks.
   */
  lemma StreamingIsExact(content: string, chunks: seq<string>)
    requires Fits(content, |content|, chunks)
    ensures Accepts(Opened(content), chunks, 0) <==> SameText(Flatten(chunks), content)
  {
    assert Opened(content).Rest() == content;
    AcceptsFits(Opened(content), |content|, chunks, 0);
    AgreesIsSameText(content, Flatten(chunks));
  }

  /** In particular for output without carriage returns, against any reference. */
  lemma StreamingIsWholeText(content: string, chunks: seq<string>)
    requires NoCR(Flatten(chunks))
    ensures Accepts(Opened(content), chunks, 0) <==> SameText(Flatten(chunks), content)
  {
    CleanFits(content, |content|, chunks);
    StreamingIsExact(content, chunks);
  }

  /** The verdict does not depend on how the output was cut. */
  lemma ChunkingIsIrrelevant(content: string, xs: seq<string>, ys: seq<string>)
    requires Flatten(xs) == Flatten(ys) && Fits(content, |content|, xs) && Fits(content, |content|, ys)
    ensures Accepts(Opened(content), xs, 0) <==> Accepts(Opened(content), ys, 0)
  {
    StreamingIsExact(content, xs);
    StreamingIsExact(content, ys);
  }

  // ---------------------------------------------------------------------------------------------
  // Output with carriage returns
  // ---------------------------------------------------------------------------------------------

  /** A window at least as large as the output left, in a CR-free reference, swallows all the output. */
  lemma {:induction false} ScanRoomy(buf: string, out: string, i: nat, j: nat, plus: nat, back: nat)
    requires i <= |out| && j <= |buf| && |out| - i <= |buf| - j && NoCR(buf)
    ensures ScanWindow(buf, out, i, j, plus, back).Mismatch? <==> !(DropCR(out[i..]) <= buf[j..])
    ensures var s := ScanWindow(buf, out, i, j, plus, back);
            s.Stopped? ==> s.i == |out| && s.j == j + |DropCR(out[i..])| && s.plus == plus
    decreases |out| - i
  {
    if i < |out| {
      assert out[i..][1..] == out[i + 1..];
      assert buf[j] in buf;
      if out[i] == '\r' {
        ScanRoomy(buf, out, i + 1, j, plus, back + 1);
        assert DropCR(out[i..]) == DropCR(out[i + 1..]);
      } else {
        assert DropCR(out[i..]) == [out[i]] + DropCR(out[i + 1..]);
        assert buf[j..] == [buf[j]] + buf[j + 1..];
        PrefixCons(out[i], DropCR(out[i + 1..]), buf[j], buf[j + 1..]);
        if out[i] == buf[j] {
          ScanRoomy(buf, out, i + 1, j + 1, plus, back);
        }
      }
    } else {
      assert out[i..] == "";
    }
  }

  /**
   Rewind exactness: while a CR-free reference has at least as many bytes left as the chunk, one pass
   consumes the chunk, and a match leaves the offset just past the last matched byte, carriage returns
   in the output notwithstanding.
   */
  lemma RewindIsExact(f: RefFile, out: string)
    requires f.Valid() && !f.broken && NoCR(f.Rest())
    requires 0 < |out| <= 256 && |out| <= |f.Rest()|
    ensures CompareChunk(f, out, 0, 0).code == 0 <==> DropCR(out) <= f.Rest()
    ensures DropCR(out) <= f.Rest() ==>
              && CompareChunk(f, out, 0, 0) == Outcome(0, f.off + |DropCR(out)|)
              && Pass(f, out, 0, 0).Continue? && Pass(f, out, 0, 0).i == |out|
  {
    RoomyPass(f, out);
    var p := Pass(f, out, 0, 0);
    if p.Continue? {
      PassEnds(f, out, 0, 0, p);
    }
  }

  lemma RoomyPass(f: RefFile, out: string)
    requires f.Valid() && !f.broken && NoCR(f.Rest())
    requires 0 < |out| <= 256 && |out| <= |f.Rest()|
    ensures var p := Pass(f, out, 0, 0);
            if DropCR(out) <= f.Rest() then p.Continue? && p.i == |out| && p.off == f.off + |DropCR(out)|
            else p.Answer? && p.o.code > 0
  {
    var n := |out|;
    var buf := f.content[f.off..f.off + n];
    assert buf == f.Rest()[..n];
    PrefixOfRest(f.Rest(), n, DropCR(out));
    assert buf[0..] == buf && out[0..] == out;
    ScanRoomy(buf, out, 0, 0, 0, 0);
  }

  lemma PrefixOfRest(rest: string, n: nat, text: string)
    requires |text| <= n <= |rest| && NoCR(rest)
    ensures NoCR(rest[..n]) && (text <= rest[..n] <==> text <= rest)
  {
    assert forall x | x in rest[..n] :: x in rest;
    assert rest == rest[..n] + rest[n..];
    PrefixAppend(rest[..n], rest[n..], text);
  }

  /** The window and the output as far as they were scanned. */
  lemma {:induction false} ScanCounts(buf: string, out: string, i: nat, j: nat, plus: nat, back: nat, s: Scan)
    requires i <= |out| && j <= |buf| && NoCR(buf) && s == ScanWindow(buf, out, i, j, plus, back) && s.Stopped?
    ensures i <= s.i <= |out| && s.plus == plus && s.j == j + |DropCR(out[i..s.i])|
    decreases |out| - i
  {
    if j < |buf| && i < |out| {
      assert buf[j] in buf;
      if out[i] == '\r' {
        ScanCounts(buf, out, i + 1, j, plus, back + 1, s);
      } else {
        ScanCounts(buf, out, i + 1, j + 1, plus, back, s);
      }
      CountFrom(out, i, s.i);
    } else {
      assert out[i..i] == "";
    }
  }

  /** A pass over a CR-free reference ends with the window or the output, and seeks back one byte for each return. */
  lemma PassSeeksBack(f: RefFile, out: string)
    requires f.Valid() && !f.broken && NoCR(f.Rest()) && f.Rest() != "" && 0 < |out| <= 256
    ensures var p, rd := Pass(f, out, 0, 0), Min(|out|, |f.Rest()|);
            p.Continue? ==>
              && (p.i == |out| || |DropCR(out[..p.i])| == rd)
              && p.off == SeekBack(f.off + rd, Returns(out[..p.i])) && |DropCR(out[..p.i])| <= rd
  {
    var rd := Min(|out|, |f.Rest()|);
    var buf := f.content[f.off..f.off + rd];
    assert buf == f.Rest()[..rd];
    PrefixNoCR(f.Rest(), rd);
    var s, p := ScanWindow(buf, out, 0, 0, 0, 0), Pass(f, out, 0, 0);
    if p.Continue? {
      ScanCounts(buf, out, 0, 0, 0, 0, s);
      assert out[0..p.i] == out[..p.i];
    }
  }

  /**
   When one pass over a CR-free reference leaves the offset just past what it matched: exactly if the chunk
   fits, or no carriage return was skipped, or the rest was matched to its end and the seek back, being
   longer than the file, failed.
   */
  lemma RewindExactIff(f: RefFile, out: string)
    requires f.Valid() && !f.broken && NoCR(f.Rest()) && f.Rest() != "" && 0 < |out| <= 256
    ensures var p := Pass(f, out, 0, 0);
            p.Continue? ==>
              var seen := out[..p.i];
              p.off == f.off + |DropCR(seen)| <==>
              || |out| <= |f.Rest()|
              || NoCR(seen)
              || (|DropCR(seen)| == |f.Rest()| && Returns(seen) > |f.content|)
  {
    PassSeeksBack(f, out);
    var p := Pass(f, out, 0, 0);
    if p.Continue? {
      SomeReturns(out[..p.i]);
    }
  }

  /** Number of carriage returns. */
  function Returns(s: string): nat { |s| - |DropCR(s)| }

  lemma {:induction false} SomeReturns(s: string)
    ensures NoCR(s) <==> Returns(s) == 0
  {
    if s != "" {
      SomeReturns(s[1..]);
    }
  }

  // ---------------------------------------------------------------------------------------------
  // What the answers are
  // ---------------------------------------------------------------------------------------------

  /** A healthy reference never answers with an error: a chunk is answered 0, a position in it, or 20. */
  lemma {:induction false} ChunkAnswers(f: RefFile, out: string, plus: nat, back: nat)
    requires f.Valid() && !f.broken
    ensures var code := CompareChunk(f, out, plus, back).code; code == 0 || code == 20 || 1 <= code <= |out|
    decreases |out|, Positive(back - plus), |f.content| - f.off
  {
    if out != "" {
      var p := Pass(f, out, plus, back);
      PassAnswers(f, out, plus, back, p);
      if p.Continue? {
        ChunkAnswers(f.(off := p.off), out[p.i..], p.plus, p.back);
      }
    }
  }

  lemma PassAnswers(f: RefFile, out: string, plus: nat, back: nat, p: PassResult)
    requires f.Valid() && !f.broken && out != "" && p == Pass(f, out, plus, back)
    ensures p.Answer? ==> p.o.code == 0 || p.o.code == 20 || 1 <= p.o.code <= |out|
  {
    var rd := Min(Min(READ_SIZE, |out|), |f.content| - f.off);
    if rd > 0 {
      ScanAnswers(f.content[f.off..f.off + rd], out, 0, 0, plus, back);
    }
  }

  lemma {:induction false} ScanAnswers(buf: string, out: string, i: nat, j: nat, plus: nat, back: nat)
    requires i <= |out| && j <= |buf|
    ensures var s := ScanWindow(buf, out, i, j, plus, back); s.Mismatch? ==> i < s.at <= |out|
    decreases |buf| - j + |out| - i
  {
    if j < |buf| && i < |out| {
      if buf[j] == '\r' {
        ScanAnswers(buf, out, i, j + 1, plus + 1, back);
      } else if out[i] == '\r' {
        ScanAnswers(buf, out, i + 1, j, plus, back + 1);
      } else if out[i] == buf[j] {
        ScanAnswers(buf, out, i + 1, j + 1, plus, back);
      }
    }
  }

  /**
   The answers of a call: 0 for agreement; more for a difference, namely 20 for output behind the end of the
   reference and 10 for reference behind the end of the output; less for a descriptor that cannot be used.
   */
  lemma CallAnswers(f: RefFile, rx: string, stage: int)
    requires f.Valid()
    ensures stage == 0 && f.mode == Closed ==> Call(f, rx, stage).code == -10
    ensures stage == 0 && (f.mode == ReadOnly || f.mode == WriteOnly) ==> Call(f, rx, stage).code == -20
    ensures f.mode == ReadWrite && f.broken && rx != "" && stage != -1 ==> Call(f, rx, stage).code == -30
    ensures f.broken ==> Call(f, rx, -1).code == -55
    ensures !f.broken ==> Call(f, rx, -1).code == if OnlyBreaks(f.Rest()) then 0 else 10
    ensures f.mode == ReadWrite && !f.broken && f.Rest() == "" && rx != "" && stage != -1 ==>
              Call(f, rx, stage).code == if OnlyBreaks(rx) then 0 else 20
    ensures f.mode == ReadWrite && !f.broken && stage != -1 ==>
              var code := Call(f, rx, stage).code; code == 0 || code == 20 || 1 <= code <= |rx|
  {
    if !f.broken {
      EndAnswers(f);
      ChunkAnswers(f, rx, 0, 0);
    }
  }

  lemma {:induction false} EndAnswers(f: RefFile)
    requires f.Valid() && !f.broken
    ensures CompareEnd(f).code == if OnlyBreaks(f.Rest()) then 0 else 10
    decreases |f.content| - f.off
  {
    EndAccepts(f);
    if f.off < |f.content| {
      EndAnswers(f.(off := f.off + Min(READ_SIZE, |f.content| - f.off)));
    }
  }

  /** A mismatch is answered with its position, counted from 1. */
  lemma {:induction false} FirstDifference(buf: string, out: string, i: nat, k: nat, plus: nat, back: nat)
    requires i <= k < |out| && k < |buf| && NoCR(buf) && NoCR(out) && buf[k] != out[k]
    requires forall j | i <= j < k :: buf[j] == out[j]
    ensures ScanWindow(buf, out, i, i, plus, back) == Mismatch(k + 1)
    decreases k - i
  {
    assert buf[i] in buf && out[i] in out;
    if i < k {
      FirstDifference(buf, out, i + 1, k, plus, back);
    }
  }

  lemma DifferenceIsLocated(f: RefFile, out: string, k: nat)
    requires f.Valid() && !f.broken && f.mode == ReadWrite && NoCR(f.Rest()) && NoCR(out)
    requires |out| <= 256 && |out| <= |f.Rest()| && k < |out| && f.Rest()[k] != out[k] && f.Rest()[..k] == out[..k]
    ensures CompareChunk(f, out, 0, 0).code == k + 1
  {
    var rest, n := f.Rest(), |out|;
    var buf := f.content[f.off..f.off + n];
    assert buf == rest[..n];
    PrefixNoCR(rest, n);
    assert forall j | 0 <= j < k :: buf[j] == rest[..k][j] == out[..k][j];
    FirstDifference(buf, out, 0, k, 0, 0);
  }
}
