/**
 A judging request: forged by the client (client.c), decoded by the daemon (interface.c), and the answer a
 worker gives to it (queue.c).
 */
module Request {
  import opened Text
  import opened Buffer
  import opened Interface
  import opened InterfaceProofs
  import RunModel

  /** A test file: sent along, or a reference to one the daemon keeps. */
  datatype Feed = Data(text: string) | Reference(id: int)

  const JUDGE: int := 0
  const SETFEED: int := 1
  const DATA: int := 0
  const REFERENCE: int := 1

  datatype Request = Request(kind: int, input: Feed, output: Feed, source: Option<string>)

  /** Success, an error code, or a scan past the end of the string, which the source does not guard. */
  datatype Decoded = Decoded(req: Request) | Bad(code: int) | Overrun

  /** What is left of the string, or a pointer past its terminator. */
  datatype Cursor = At(rest: string) | Past

  /** The rest after the next newline. */
  function SkipLine(s: string): Cursor {
    var i := NewlineAt(s);
    if i < 0 then Past else At(s[i + 1..])
  }

  datatype Sized = Block(text: string, next: Cursor) | ShortBlock | LostBlock

  /** A size on a line of its own, then that many bytes and a separator. */
  function TakeSized(s: string): Sized {
    var n := Atoi(s);
    match SkipLine(s)
    case Past => LostBlock
    case At(r) =>
      if n < 0 || n > |r| then ShortBlock
      else Block(r[..n], if n < |r| then At(r[n + 1..]) else Past)
  }

  datatype FeedResult = FeedOk(feed: Feed, next: Cursor) | FeedBad(code: int) | FeedLost

  function TakeFeed(s: string): FeedResult {
    var t := Atoi(s);
    match SkipLine(s)
    case Past => FeedLost
    case At(r) =>
      if t == DATA then
        match TakeSized(r)
        case LostBlock => FeedLost
        case ShortBlock => FeedBad(-2)
        case Block(text, next) => FeedOk(Data(text), next)
      else if t == REFERENCE then
        match SkipLine(r)
        case Past => FeedLost
        case next => FeedOk(Reference(Atoi(r)), next)
      else FeedBad(-3)
  }

  function TakeTail(kind: int, input: Feed, output: Feed, c: Cursor): Decoded {
    if kind == JUDGE then
      match c
      case Past => Overrun
      case At(r) =>
        match TakeSized(r)
        case LostBlock => Overrun
        case ShortBlock => Bad(-2)
        case Block(text, _) => Decoded(Request(kind, input, output, Some(text)))
    else if kind == SETFEED then
      match c
      case Past => Overrun
      case At(r) => if |r| > 0 then Bad(-4) else Decoded(Request(kind, input, output, None))
    else Bad(-3)
  }

  /** jug_int_decode. */
  function Decode(s: string): Decoded {
    match SkipLine(s)
    case Past => Overrun
    case At(r) =>
      match TakeFeed(r)
      case FeedLost => Overrun
      case FeedBad(code) => Bad(code)
      case FeedOk(input, Past) => Overrun
      case FeedOk(input, At(r2)) =>
        match TakeFeed(r2)
        case FeedLost => Overrun
        case FeedBad(code) => Bad(code)
        case FeedOk(output, next) => TakeTail(Atoi(s), input, output, next)
  }

  // ---------------------------------------------------------------------------------------------
  // The decoder as the source runs it: one cursor moving through the string
  // ---------------------------------------------------------------------------------------------

  /** Where a cursor at index `pos` stands; past the terminator for `pos` beyond the length. */
  function CursorAt(s: string, pos: nat): Cursor { if pos <= |s| then At(s[pos..]) else Past }

  /** while (string[0] != '\n') string++; string++ */
  method Advance(s: string, pos: nat) returns (next: nat)
    requires pos <= |s|
    ensures CursorAt(s, next) == SkipLine(s[pos..])
    ensures next > pos
  {
    next := pos;
    while next < |s| && s[next] != '\n'
      invariant pos <= next <= |s|
      invariant forall k | pos <= k < next :: s[k] != '\n'
    {
      next := next + 1;
    }
    if next < |s| {
      NewlineIs(s[pos..], next - pos);
      assert s[pos..][next - pos + 1..] == s[next + 1..];
    } else {
      NewlineNone(s[pos..]);
    }
    next := next + 1;
  }

  /** Read a size, skip its line, copy the block and step over the separator. */
  method ReadSized(s: string, pos: nat) returns (b: Sized, next: nat)
    requires pos <= |s|
    ensures b == TakeSized(s[pos..])
    ensures b.Block? ==> b.next == CursorAt(s, next)
  {
    var n := Atoi(s[pos..]);
    next := Advance(s, pos);
    if next > |s| {
      return LostBlock, next;
    }
    if n < 0 || |s| - next < n {
      return ShortBlock, next;
    }
    var text := s[next..next + n];
    assert s[next..][..n] == text;
    if next + n < |s| {
      assert s[next..][n + 1..] == s[next + n + 1..];
    }
    next := next + n + 1;
    b := Block(text, if next <= |s| then At(s[next..]) else Past);
  }

  method ReadFeed(s: string, pos: nat) returns (f: FeedResult, next: nat)
    requires pos <= |s|
    ensures f == TakeFeed(s[pos..])
    ensures f.FeedOk? ==> f.next == CursorAt(s, next)
  {
    var t := Atoi(s[pos..]);
    next := Advance(s, pos);
    if next > |s| {
      return FeedLost, next;
    }
    if t == DATA {
      var b;
      b, next := ReadSized(s, next);
      match b {
        case LostBlock => f := FeedLost;
        case ShortBlock => f := FeedBad(-2);
        case Block(text, c) => f := FeedOk(Data(text), c);
      }
    } else if t == REFERENCE {
      var id := Atoi(s[next..]);
      next := Advance(s, next);
      f := if next > |s| then FeedLost else FeedOk(Reference(id), At(s[next..]));
    } else {
      f := FeedBad(-3);
    }
  }

  /** jug_int_decode over the C string `s`. */
  method DecodeBuffer(s: string) returns (r: Decoded)
    ensures r == Decode(s)
  {
    assert s[0..] == s;
    var kind := Atoi(s);
    var pos := Advance(s, 0);
    if pos > |s| {
      return Overrun;
    }
    var input;
    input, pos := ReadFeed(s, pos);
    if !input.FeedOk? {
      return if input.FeedLost? then Overrun else Bad(input.code);
    }
    if pos > |s| {
      return Overrun;
    }
    var output;
    output, pos := ReadFeed(s, pos);
    if !output.FeedOk? {
      return if output.FeedLost? then Overrun else Bad(output.code);
    }
    if kind == JUDGE {
      if pos > |s| {
        return Overrun;
      }
      var b, end := ReadSized(s, pos);
      match b {
        case LostBlock => r := Overrun;
        case ShortBlock => r := Bad(-2);
        case Block(text, _) => r := Decoded(Request(kind, input.feed, output.feed, Some(text)));
      }
    } else if kind == SETFEED {
      if pos > |s| {
        return Overrun;
      }
      r := if |s| - pos > 0 then Bad(-4) else Decoded(Request(kind, input.feed, output.feed, None));
    } else {
      r := Bad(-3);
    }
  }

  // ---------------------------------------------------------------------------------------------
  // Forging
  // ---------------------------------------------------------------------------------------------

  /** "%d\n" of a number that is never negative here. */
  function Line(n: nat): string { Dec(n) + "\n" }

  /** The last field: size and bytes, without a separator. */
  function SourceField(source: string): string { Line(|source|) + source }

  /** A data feed: type, size, bytes, separator. */
  function DataField(text: string, rest: string): string { Line(0) + (Line(|text|) + (text + ("\n" + rest))) }

  /** The body kudosdjudge_forge_dd formats: a judge request with both files sent along. */
  function Forge(input: string, output: string, source: string): string {
    Line(0) + DataField(input, DataField(output, SourceField(source)))
  }

  lemma SkipsLine(n: nat, rest: string)
    ensures SkipLine(Line(n) + rest) == At(rest) && Atoi(Line(n) + rest) == n
  {
    DecLine(n);
    var s := Line(n) + rest;
    NewlineIs(s, |Dec(n)|);
    assert s[|Dec(n)| + 1..] == rest;
    AtoiOfDec(n, "\n" + rest);
    assert Dec(n) + ("\n" + rest) == s;
  }

  lemma TakesData(text: string, rest: string)
    ensures TakeFeed(DataField(text, rest)) == FeedOk(Data(text), At(rest))
  {
    var tail := text + ("\n" + rest);
    SkipsLine(0, Line(|text|) + tail);
    SkipsLine(|text|, tail);
    assert tail[..|text|] == text && tail[|text| + 1..] == rest;
  }

  lemma ForgedPrefix(input: string, output: string, rest: string)
    ensures Decode(Line(0) + DataField(input, DataField(output, rest))) ==
            TakeTail(JUDGE, Data(input), Data(output), At(rest))
  {
    SkipsLine(0, DataField(input, DataField(output, rest)));
    TakesData(input, DataField(output, rest));
    TakesData(output, rest);
  }

  /** Request round trip: a forged body decodes to the same input, output and source, whatever they contain. */
  lemma ForgedDecodes(input: string, output: string, source: string)
    ensures Decode(Forge(input, output, source)) == Decoded(Request(JUDGE, Data(input), Data(output), Some(source)))
  {
    ForgedPrefix(input, output, SourceField(source));
    SkipsLine(|source|, source);
    assert source[..|source|] == source;
  }

  // ---------------------------------------------------------------------------------------------
  // The whole wire format
  // ---------------------------------------------------------------------------------------------

  /** Requests the format can express: only a judge request has a source, and references count from 0. */
  predicate Wire(r: Request) {
    && (r.kind == 0 || r.kind == 1) && (r.kind == 0 <==> r.source.Some?)
    && (r.input.Reference? ==> r.input.id >= 0) && (r.output.Reference? ==> r.output.id >= 0)
  }

  function FeedField(f: Feed, rest: string): string
    requires f.Reference? ==> f.id >= 0
  {
    match f
    case Data(text) => DataField(text, rest)
    case Reference(id) => Line(1) + (Line(id) + rest)
  }

  function Encode(r: Request): string
    requires Wire(r)
  {
    Line(r.kind) + FeedField(r.input, FeedField(r.output, if r.kind == JUDGE then SourceField(r.source.value) else ""))
  }

  lemma TakesFeed(f: Feed, rest: string)
    requires f.Reference? ==> f.id >= 0
    ensures TakeFeed(FeedField(f, rest)) == FeedOk(f, At(rest))
  {
    match f
    case Data(text) => TakesData(text, rest);
    case Reference(id) =>
      SkipsLine(1, Line(id) + rest);
      SkipsLine(id, rest);
  }

  /** Every request the format can express decodes to itself. */
  lemma WireRoundTrip(r: Request)
    requires Wire(r)
    ensures Decode(Encode(r)) == Decoded(r)
  {
    var last := if r.kind == JUDGE then SourceField(r.source.value) else "";
    SkipsLine(r.kind, FeedField(r.input, FeedField(r.output, last)));
    TakesFeed(r.input, FeedField(r.output, last));
    TakesFeed(r.output, last);
    TakesTail(r, last);
  }

  lemma TakesTail(r: Request, last: string)
    requires Wire(r) && last == if r.kind == JUDGE then SourceField(r.source.value) else ""
    ensures TakeTail(r.kind, r.input, r.output, At(last)) == Decoded(r)
  {
    if r.kind == JUDGE {
      var source := r.source.value;
      SkipsLine(|source|, source);
      assert source[..|source|] == source;
    }
  }

  // ---------------------------------------------------------------------------------------------
  // Requests that are refused
  // ---------------------------------------------------------------------------------------------

  /** A feed of unknown type. */
  lemma UnknownFeed(t: nat, rest: string)
    requires t > 1
    ensures TakeFeed(Line(t) + rest) == FeedBad(-3)
  {
    SkipsLine(t, rest);
  }

  /** A data feed that announces more than there is. */
  lemma ShortFeed(n: nat, rest: string)
    requires n > |rest|
    ensures TakeFeed(Line(0) + (Line(n) + rest)) == FeedBad(-2)
  {
    SkipsLine(0, Line(n) + rest);
    SkipsLine(n, rest);
  }

  /** The decoder runs off a string that ends before a line it looks for does, wherever that is. */
  lemma RunsOff(kind: nat, f: Feed, s: string)
    requires (f.Reference? ==> f.id >= 0) && '\n' !in s
    ensures Decode(s) == Overrun
    ensures Decode(Line(kind) + s) == Overrun
    ensures Decode(Line(kind) + FeedField(f, s)) == Overrun
    ensures Decode(Line(0) + FeedField(f, FeedField(f, s))) == Overrun
    ensures TakeFeed(Line(0) + s) == FeedLost && TakeFeed(Line(1) + s) == FeedLost
  {
    NewlineNone(s);
    SkipsLine(kind, s);
    SkipsLine(kind, FeedField(f, s));
    SkipsLine(0, s);
    SkipsLine(1, s);
    TakesFeed(f, s);
    TailReached(0, f, f, s);
  }

  /** So it does when a file reaches to the end of the string: the separator behind it is stepped over. */
  lemma RunsOffBehindFile(kind: nat, text: string)
    ensures Decode(Line(kind) + (Line(0) + (Line(|text|) + text))) == Overrun
  {
    SkipsLine(kind, Line(0) + (Line(|text|) + text));
    SkipsLine(0, Line(|text|) + text);
    SkipsLine(|text|, text);
  }

  /** Bad feeds refuse the request, wherever they are: -2 for a short one, -3 for an unknown type. */
  lemma BadFeedRefused(kind: nat, f: Feed, bad: string, code: int)
    requires (f.Reference? ==> f.id >= 0) && TakeFeed(bad) == FeedBad(code)
    ensures Decode(Line(kind) + bad) == Bad(code)
    ensures Decode(Line(kind) + FeedField(f, bad)) == Bad(code)
  {
    SkipsLine(kind, bad);
    SkipsLine(kind, FeedField(f, bad));
    TakesFeed(f, bad);
  }

  /** Behind two good feeds a request of unknown kind is refused with -3. */
  lemma UnknownKindRefused(kind: nat, input: Feed, output: Feed, rest: string)
    requires (input.Reference? ==> input.id >= 0) && (output.Reference? ==> output.id >= 0) && kind > 1
    ensures Decode(Line(kind) + FeedField(input, FeedField(output, rest))) == Bad(-3)
  {
    TailReached(kind, input, output, rest);
  }

  /** A set-feed request that goes on is refused with -4. */
  lemma LongSetFeedRefused(input: Feed, output: Feed, rest: string)
    requires (input.Reference? ==> input.id >= 0) && (output.Reference? ==> output.id >= 0) && rest != ""
    ensures Decode(Line(1) + FeedField(input, FeedField(output, rest))) == Bad(-4)
  {
    TailReached(1, input, output, rest);
  }

  /** A judge request that announces more source than there is is refused with -2. */
  lemma ShortSourceRefused(input: Feed, output: Feed, rest: string, n: nat)
    requires (input.Reference? ==> input.id >= 0) && (output.Reference? ==> output.id >= 0) && n > |rest|
    ensures Decode(Line(0) + FeedField(input, FeedField(output, Line(n) + rest))) == Bad(-2)
  {
    TailReached(0, input, output, Line(n) + rest);
    SkipsLine(n, rest);
  }

  lemma TailReached(kind: nat, input: Feed, output: Feed, rest: string)
    requires (input.Reference? ==> input.id >= 0) && (output.Reference? ==> output.id >= 0)
    ensures Decode(Line(kind) + FeedField(input, FeedField(output, rest))) == TakeTail(kind, input, output, At(rest))
  {
    SkipsLine(kind, FeedField(input, FeedField(output, rest)));
    TakesFeed(input, FeedField(output, rest));
    TakesFeed(output, rest);
  }

  // ---------------------------------------------------------------------------------------------
  // Requests that lost their last byte
  // ---------------------------------------------------------------------------------------------

  lemma CutField(text: string, rest: string)
    requires rest != ""
    ensures var f := DataField(text, rest); f != "" && f[..|f| - 1] == DataField(text, rest[..|rest| - 1])
  {
    var cut := rest[..|rest| - 1];
    assert rest == cut + [rest[|rest| - 1]];
    assert DataField(text, rest) == DataField(text, cut) + [rest[|rest| - 1]];
  }

  /** The source field that lost its last byte. */
  function CutSource(source: string): (r: string)
    ensures r + SourceField(source)[|SourceField(source)| - 1..] == SourceField(source)
  {
    SourceField(source)[..|SourceField(source)| - 1]
  }

  /** The body that lost its last byte. */
  lemma CutForge(input: string, output: string, source: string, f: string)
    requires f == Forge(input, output, source)
    ensures f != "" && f[..|f| - 1] == Line(0) + DataField(input, DataField(output, CutSource(source)))
  {
    var last := SourceField(source);
    CutField(output, last);
    CutField(input, DataField(output, last));
    var d := DataField(input, DataField(output, last));
    assert (Line(0) + d)[..|Line(0)| + |d| - 1] == Line(0) + d[..|d| - 1];
  }

  lemma CutTail(source: string, input: Feed, output: Feed)
    ensures TakeTail(JUDGE, input, output, At(CutSource(source))) == if source == "" then Overrun else Bad(-2)
  {
    if source == "" {
      DecLine(0);
      assert CutSource(source) == Dec(0);
      NewlineNone(Dec(0));
    } else {
      var cut := source[..|source| - 1];
      assert CutSource(source) == Line(|source|) + cut;
      SkipsLine(|source|, cut);
    }
  }

  /** Without its last byte a forged body with a source is refused as cut short; without a source it overruns. */
  lemma CutDecodes(input: string, output: string, source: string, f: string)
    requires f == Forge(input, output, source)
    ensures f != "" && Decode(f[..|f| - 1]) == if source == "" then Overrun else Bad(-2)
  {
    CutForge(input, output, source, f);
    ForgedPrefix(input, output, CutSource(source));
    CutTail(source, Data(input), Data(output));
  }

  // ---------------------------------------------------------------------------------------------
  // Serving
  // ---------------------------------------------------------------------------------------------

  /** What a worker does with a connection; feeds given by reference are not implemented. */
  datatype Act =
    | Reply(v: RunModel.Verdict)
    | Judge(input: string, output: string, source: string)
    | Unserved
    | Undefined

  /** The answer to a received body. */
  function Respond(body: string): Act {
    match Decode(body)
    case Overrun => Undefined
    case Bad(_) => Reply(RunModel.Accepted)
    case Decoded(Request(_, Data(i), Data(o), Some(s))) => Judge(i, o, s)
    case Decoded(_) => Unserved
  }

  /** queue_worker_serv up to the call of the judge. */
  function Serve(chunks: seq<string>, closes: bool): Act {
    match Received(chunks, closes)
    case None => Reply(RunModel.InternalError)
    case Some(body) => Respond(body)
  }

  method ServeConnection(chunks: seq<string>, closes: bool) returns (a: Act)
    ensures a == Serve(chunks, closes)
  {
    var body := Receive(chunks, closes);
    if body.None? {
      return Reply(RunModel.InternalError);
    }
    var d := DecodeBuffer(body.value);
    match d {
      case Overrun => a := Undefined;
      case Bad(_) => a := Reply(RunModel.Accepted);
      case Decoded(Request(_, Data(i), Data(o), Some(s))) => a := Judge(i, o, s);
      case Decoded(_) => a := Unserved;
    }
  }

  lemma RespondsToForged(input: string, output: string, source: string)
    ensures Respond(Forge(input, output, source)) == Judge(input, output, source)
  {
    ForgedDecodes(input, output, source);
  }

  lemma RespondsToCut(input: string, output: string, source: string, f: string)
    requires f == Forge(input, output, source)
    ensures f != "" && Respond(f[..|f| - 1]) == if source == "" then Undefined else Reply(RunModel.Accepted)
  {
    CutDecodes(input, output, source, f);
  }

  /** A request is judged iff it is a judge request with both files sent along; other requests are not served. */
  lemma RespondsToWire(r: Request)
    requires Wire(r)
    ensures Respond(Encode(r)) ==
            if r.kind == 0 && r.input.Data? && r.output.Data? then Judge(r.input.text, r.output.text, r.source.value)
            else Unserved
  {
    WireRoundTrip(r);
  }

  /** A body that is refused is answered ACCEPTED. */
  lemma RefusedIsAccepted(body: string)
    requires Decode(body).Bad?
    ensures Respond(body) == Reply(RunModel.Accepted)
  {
  }

  /**
   A frame of 30,000,000 bytes or more, and one cut short by a failing recv, is answered with an internal
   error, however it was cut.
   */
  lemma UnreceivedIsInternal(body: string, chunks: seq<string>, closes: bool)
    requires NoNul(body) && Flatten(chunks) <= Frame(body) && forall i | 0 <= i < |chunks| :: chunks[i] != ""
    requires |Flatten(chunks)| >= 30000000 || (!closes && |Flatten(chunks)| < |Frame(body)|)
    ensures Serve(chunks, closes) == Reply(RunModel.InternalError)
  {
    NothingReceived(body, chunks, closes);
  }

  /** A framed body is answered as it is, or without its last byte. */
  lemma ServesFrame(body: string, chunks: seq<string>, closes: bool)
    requires NoNul(body) && Flatten(chunks) == Frame(body) && |Frame(body)| < 30000000
    requires forall i | 0 <= i < |chunks| :: chunks[i] != ""
    ensures |Frame(body)| % 1024 != 0 ==> Serve(chunks, closes) == Respond(body)
    ensures |Frame(body)| % 1024 == 0 ==> body != "" && Serve(chunks, closes) == Respond(body[..|body| - 1])
  {
    FramingExact(body, chunks, closes);
  }

  lemma ForgeClean(input: string, output: string, source: string)
    requires NoNul(input) && NoNul(output) && NoNul(source)
    ensures NoNul(Forge(input, output, source))
  {
    DecLine(0);
    DecLine(|input|);
    DecLine(|output|);
    DecLine(|source|);
  }

  /**
   End to end: a client's request, however the network cuts it, is judged on exactly the three texts the
   client sent, unless its length is a multiple of 1024.  Then its last byte is lost and the client is told
   ACCEPTED without anything being run or, if the source is empty, the decoder runs off the string.
   */
  lemma ServedExactly(input: string, output: string, source: string, chunks: seq<string>, closes: bool)
    requires NoNul(input) && NoNul(output) && NoNul(source)
    requires Flatten(chunks) == Frame(Forge(input, output, source)) && forall i | 0 <= i < |chunks| :: chunks[i] != ""
    requires |Frame(Forge(input, output, source))| < 30000000
    ensures Serve(chunks, closes) ==
            if |Frame(Forge(input, output, source))| % 1024 != 0 then Judge(input, output, source)
            else if source == "" then Undefined
            else Reply(RunModel.Accepted)
  {
    ForgeClean(input, output, source);
    var f := Forge(input, output, source);
    RespondsToForged(input, output, source);
    RespondsToCut(input, output, source, f);
    ServesFrame(f, chunks, closes);
  }
}
