/** Receiving is independent of how a request is cut, and exact but for one length class. */
module InterfaceProofs {
  import opened Text
  import opened Buffer
  import opened Interface

  // ---------------------------------------------------------------------------------------------
  // Framing
  // ---------------------------------------------------------------------------------------------

  lemma HeaderSplit(d: string, body: string, p: string)
    requires p <= d + "\n" + body
    ensures |p| > |d| ==> p == d + ("\n" + body[..|p| - |d| - 1])
    ensures |p| <= |d| ==> p == d[..|p|]
  {
    var f := d + "\n" + body;
    assert p == f[..|p|];
  }

  lemma HeaderNewline(d: string, body: string, p: string)
    requires p <= d + "\n" + body && '\n' !in d
    ensures NewlineAt(p) == if |p| > |d| then |d| else -1
  {
    HeaderSplit(d, body, p);
    if |p| > |d| {
      NewlineIs(p, |d|);
    } else {
      NewlineNone(p);
    }
  }

  /** A prefix of the frame shows its newline, and the announced size, as soon as it reaches past the header. */
  lemma PrefixHeader(body: string, p: string)
    requires p <= Frame(body)
    ensures var h := |Dec(|body|)|;
            if |p| > h then NewlineAt(p) == h && Atoi(p) == |body| else NewlineAt(p) == -1
  {
    var d := Dec(|body|);
    DecLine(|body|);
    HeaderNewline(d, body, p);
    HeaderSplit(d, body, p);
    if |p| > |d| {
      AtoiOfDec(|body|, "\n" + body[..|p| - |d| - 1]);
    }
  }

  /** The state of the loop once the prefix `done` of the frame is in. */
  predicate After(body: string, done: string, x: Rx) {
    var h := |Dec(|body|)|;
    && done <= Frame(body)
    && x.b == Buf(done, CapFor(|done|)) && x.acc == |done|
    && (if |done| > h then x.meta && x.start == h && x.size == |Frame(body)| else !x.meta)
  }

  lemma TakeFrame(body: string, done: string, x: Rx, chunk: string)
    requires NoNul(body) && After(body, done, x) && done + chunk <= Frame(body)
    ensures After(body, done + chunk, Take(x, chunk))
  {
    DecLine(|body|);
    assert NoNul(Frame(body)) by {
      assert forall c | c in Frame(body) :: c in Dec(|body|) || c == '\n' || c in body;
    }
    assert NoNul(chunk) by {
      assert forall c | c in chunk :: c in done + chunk;
      assert forall c | c in done + chunk :: c in Frame(body);
    }
    AppendClean(x.b, chunk);
    PrefixHeader(body, done + chunk);
  }

  lemma {:induction false} LoopReadsFrame(body: string, done: string, x: Rx, chunks: seq<string>, closes: bool)
    requires NoNul(body) && |Frame(body)| < 30000000 && After(body, done, x)
    requires done + Flatten(chunks) == Frame(body) && chunks != []
    requires forall i | 0 <= i < |chunks| :: chunks[i] != ""
    ensures ReceiveLoop(x, chunks, closes) ==
            Some(Rx(Buf(Frame(body), CapFor(|Frame(body)|)), |Frame(body)|, true, |Dec(|body|)|, |Frame(body)|))
    decreases |chunks|
  {
    var c := chunks[0];
    var more := done + c;
    assert more + Flatten(chunks[1..]) == Frame(body);
    TakeFrame(body, done, x, c);
    var y := Take(x, c);
    if chunks[1..] == [] {
      assert more == Frame(body);
    } else {
      assert Flatten(chunks[1..]) == chunks[1] + Flatten(chunks[1..][1..]);
      LoopReadsFrame(body, more, y, chunks[1..], closes);
    }
  }

  /**
   For every NUL-free body and every split of its frame into received chunks below the size limit, the
   body arrives whole, except that its last byte is lost exactly when the frame's length is a multiple of
   1024: the capacity then equals the length, and the slice stops one byte short of it.
   */
  lemma FramingExact(body: string, chunks: seq<string>, closes: bool)
    requires NoNul(body) && Flatten(chunks) == Frame(body) && |Frame(body)| < 30000000
    requires forall i | 0 <= i < |chunks| :: chunks[i] != ""
    ensures |Frame(body)| % 1024 == 0 ==> body != ""
    ensures Received(chunks, closes) ==
            Some(if |Frame(body)| % 1024 == 0 then body[..|body| - 1] else body)
  {
    assert "" + Flatten(chunks) == Flatten(chunks);
    LoopReadsFrame(body, "", RX0, chunks, closes);
    ReturnedFrame(body, Frame(body), |Dec(|body|)|);
  }

  lemma ReturnedFrame(body: string, f: string, h: nat)
    requires f == Frame(body) && h == |Dec(|body|)|
    ensures |f| % 1024 == 0 ==> body != ""
    ensures CapFor(|f|) > 0 && h < |f|
    ensures Returned(Some(Rx(Buf(f, CapFor(|f|)), |f|, true, h, |f|))) ==
            Some(if |f| % 1024 == 0 then body[..|body| - 1] else body)
  {
    SliceOfFrame(body, f, h);
  }

  lemma SliceOfFrame(body: string, f: string, h: nat)
    requires f == Frame(body) && h == |Dec(|body|)|
    ensures CapFor(|f|) > 0 && Sliceable(f, h + 1, CapFor(|f|) - 1)
    ensures if |f| % 1024 == 0
            then body != "" && SliceOf(f, h + 1, CapFor(|f|) - 1) == Some(body[..|body| - 1])
            else SliceOf(f, h + 1, CapFor(|f|) - 1) == Some(body)
  {
    if body == "" {
      assert Dec(0) == "0";
    }
    CapBounds(|f|);
    SliceOfText(Dec(|body|) + "\n", body, f, CapFor(|f|) - 1);
  }

  /** The capacity exceeds the length unless the length fills its blocks. */
  lemma CapBounds(n: nat)
    ensures CapFor(n) > 0 && if n > 0 && n % 1024 == 0 then CapFor(n) == n else CapFor(n) > n
  {
    RoundUpIsLeast(n);
  }

  lemma SliceOfText(head: string, body: string, f: string, to: nat)
    requires f == head + body && (to >= |f| || (to == |f| - 1 && body != ""))
    ensures Sliceable(f, |head|, to)
    ensures SliceOf(f, |head|, to) == Some(if to == |f| - 1 then body[..|body| - 1] else body)
  {
    assert f[|head|..|f|] == body;
    if body != "" {
      assert f[|head|..|f| - 1] == body[..|body| - 1];
    }
  }

  // ---------------------------------------------------------------------------------------------
  // Frames that do not arrive
  // ---------------------------------------------------------------------------------------------

  /** The part `p` of a frame is refused: it is too long, or recv fails before the rest has come. */
  predicate Refusable(body: string, p: string, closes: bool) {
    p <= Frame(body) && (|p| >= 30000000 || (!closes && |p| < |Frame(body)|))
  }

  lemma {:induction false} LoopRefuses(body: string, done: string, x: Rx, chunks: seq<string>, closes: bool)
    requires NoNul(body) && After(body, done, x) && |done| < 30000000
    requires |done| < |Frame(body)| && Refusable(body, done + Flatten(chunks), closes)
    requires forall i | 0 <= i < |chunks| :: chunks[i] != ""
    ensures ReceiveLoop(x, chunks, closes) == None
    decreases |chunks|
  {
    if chunks == [] {
      assert done + "" == done;
    } else {
      var c, rest := chunks[0], Flatten(chunks[1..]);
      var more := done + c;
      assert done + Flatten(chunks) == more + rest;
      assert more <= more + rest;
      if |more| < 30000000 {
        TakeFrame(body, done, x, c);
        LoopRefuses(body, more, Take(x, c), chunks[1..], closes);
      }
    }
  }

  /** Nothing is received of a frame of 30,000,000 bytes or more, nor of one cut short by a failing recv. */
  lemma NothingReceived(body: string, chunks: seq<string>, closes: bool)
    requires NoNul(body) && Refusable(body, Flatten(chunks), closes)
    requires forall i | 0 <= i < |chunks| :: chunks[i] != ""
    ensures Received(chunks, closes) == None
  {
    assert "" + Flatten(chunks) == Flatten(chunks);
    LoopRefuses(body, "", RX0, chunks, closes);
  }

  lemma {:induction false} LoopCloses(body: string, done: string, x: Rx, chunks: seq<string>)
    requires NoNul(body) && After(body, done, x)
    requires var p := done + Flatten(chunks); p <= Frame(body) && |p| < |Frame(body)| && |p| < 30000000
    requires forall i | 0 <= i < |chunks| :: chunks[i] != ""
    ensures var r, p := ReceiveLoop(x, chunks, true), done + Flatten(chunks);
            r.Some? && After(body, p, r.value) && (|p| <= |Dec(|body|)| ==> r.value.start == -1)
    decreases |chunks|
  {
    if chunks == [] {
      assert done + "" == done;
      TakeFrame(body, done, x, "");
      PrefixHeader(body, done);
      CStringClean("");
    } else {
      var c, rest := chunks[0], Flatten(chunks[1..]);
      assert done + Flatten(chunks) == (done + c) + rest;
      assert done + c <= (done + c) + rest;
      TakeFrame(body, done, x, c);
      LoopCloses(body, done + c, Take(x, c), chunks[1..]);
    }
  }

  /**
   A client that closes early is heard as far as it got: what it sent behind the header or, if the header is
   not complete, all of it; in both cases without the last byte if the length is a multiple of 1024.
   */
  lemma ClosedEarly(body: string, chunks: seq<string>, p: string, from: nat, to: nat)
    requires NoNul(body) && Flatten(chunks) == p && p <= Frame(body) && |p| < |Frame(body)| && |p| < 30000000
    requires forall i | 0 <= i < |chunks| :: chunks[i] != ""
    requires from == if |p| > |Dec(|body|)| then |Dec(|body|)| + 1 else 0
    requires to == (if |p| > 0 && |p| % 1024 == 0 then |p| - 1 else |p|) && from <= to
    ensures Received(chunks, true) == Some(p[from..to])
  {
    assert "" + Flatten(chunks) == p;
    LoopCloses(body, "", RX0, chunks);
    ReturnedPart(body, p, ReceiveLoop(RX0, chunks, true), from, to);
  }

  lemma ReturnedPart(body: string, p: string, r: Option<Rx>, from: nat, to: nat)
    requires r.Some? && After(body, p, r.value) && (|p| <= |Dec(|body|)| ==> r.value.start == -1)
    requires from == if |p| > |Dec(|body|)| then |Dec(|body|)| + 1 else 0
    requires to == (if |p| > 0 && |p| % 1024 == 0 then |p| - 1 else |p|) && from <= to
    ensures Placed(r.value) && r.value.b.cap > 0 && Returned(r) == Some(p[from..to])
  {
    CapBounds(|p|);
    assert r.value.start + 1 == from;
    SliceUpTo(p, from, CapFor(|p|) - 1, to);
  }

  lemma SliceUpTo(p: string, from: nat, end: nat, to: nat)
    requires from <= to <= |p| && to == if end < |p| then end else |p|
    ensures Sliceable(p, from, end) && SliceOf(p, from, end) == Some(p[from..to])
  {
  }

  /** What starts with a newline has no header: nothing is received unless the client closes. */
  lemma LeadingNewline(text: string)
    requires NoNul(text) && |text| < 29999999
    ensures Received(["\n" + text], false) == None
  {
    var p := "\n" + text;
    assert NoNul(p) by {
      assert forall c | c in p :: c == '\n' || c in text;
    }
    CStringClean(p);
    NewlineIs(p, 0);
    assert "" + p == p;
    assert [p][1..] == [];
    var y := Take(RX0, p);
    assert !y.meta;
    assert ReceiveLoop(y, [], false) == None;
  }
}
