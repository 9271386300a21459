/**
 The wire protocol (interface.c, client.c): a request is framed as its length, a newline and a body; the
 body is decoded field by field.  The daemon's answer to a connection follows from the two.
 */
module Interface {
  import opened Text
  import opened Buffer

  const REQUEST_SIZE_MAX: nat := 30000000

  // ---------------------------------------------------------------------------------------------
  // Numbers
  // ---------------------------------------------------------------------------------------------

  predicate IsDigit(c: char) { '0' <= c <= '9' }

  function DigitOf(c: char): nat
    requires IsDigit(c)
  {
    c as int - '0' as int
  }

  /** isspace. */
  predicate IsSpace(c: char) { c == ' ' || 9 as char <= c <= 13 as char }

  /** The value of the leading digits, continuing from `acc`. */
  function Digits(s: string, acc: nat): nat {
    if s != "" && IsDigit(s[0]) then Digits(s[1..], 10 * acc + DigitOf(s[0])) else acc
  }

  /** atoi: skip white space, take a sign, read digits. */
  function Atoi(s: string): int {
    if s == "" then 0
    else if IsSpace(s[0]) then Atoi(s[1..])
    else if s[0] == '-' then -(Digits(s[1..], 0) as int)
    else if s[0] == '+' then Digits(s[1..], 0)
    else Digits(s, 0)
  }

  /** printf %d of a non-negative number. */
  function Dec(n: nat): (s: string)
    ensures s != "" && forall c | c in s :: IsDigit(c)
  {
    var d := [('0' as int + n % 10) as char];
    if n < 10 then d else Dec(n / 10) + d
  }

  lemma {:induction false} DigitsOfDec(n: nat, rest: string)
    ensures Digits(Dec(n) + rest, 0) == Digits(rest, n)
    decreases n
  {
    var d := [('0' as int + n % 10) as char];
    if n < 10 {
      assert (d + rest)[1..] == rest;
    } else {
      assert Dec(n) + rest == Dec(n / 10) + (d + rest);
      DigitsOfDec(n / 10, d + rest);
      assert (d + rest)[1..] == rest;
    }
  }

  /** atoi reads back what printf wrote, whatever non-digit follows. */
  lemma AtoiOfDec(n: nat, rest: string)
    requires rest == "" || !IsDigit(rest[0])
    ensures Atoi(Dec(n) + rest) == n
  {
    DigitsOfDec(n, rest);
    assert (Dec(n) + rest)[0] == Dec(n)[0];
    assert IsDigit(Dec(n)[0]);
  }

  /** The white space of the C locale. */
  predicate White(c: char) {
    c == ' ' || c == '\t' || c == '\n' || c == '\r' || c == 11 as char || c == 12 as char
  }

  /** atoi takes a sign and skips white space. */
  lemma AtoiSigns(n: nat, rest: string, white: char)
    requires (rest == "" || !IsDigit(rest[0])) && White(white)
    ensures Atoi("-" + (Dec(n) + rest)) == 0 - n && Atoi("+" + (Dec(n) + rest)) == n
    ensures Atoi([white] + (Dec(n) + rest)) == n
  {
    var s := Dec(n) + rest;
    AtoiOfDec(n, rest);
    DigitsOfDec(n, rest);
    assert ("-" + s)[1..] == s && ("+" + s)[1..] == s && ([white] + s)[1..] == s;
  }

  /** It reads 0 from what starts with none of these and no digit. */
  lemma AtoiOfOther(s: string)
    requires s == "" || !(White(s[0]) || s[0] == '-' || s[0] == '+' || '0' <= s[0] <= '9')
    ensures Atoi(s) == 0
  {
  }

  lemma DecLine(n: nat)
    ensures '\n' !in Dec(n) && NoNul(Dec(n))
  {
  }

  // ---------------------------------------------------------------------------------------------
  // Receiving
  // ---------------------------------------------------------------------------------------------

  /** sprintf(request, "%d\n%s", bodylen, body). */
  function Frame(body: string): string { Dec(|body|) + "\n" + body }

  /** Locals of the receive loop. */
  datatype Rx = Rx(b: Buf, acc: nat, meta: bool, start: int, size: int)

  const RX0: Rx := Rx(FRESH, 0, false, 0, 0)

  /** Taking one received chunk: append it, then look for the header until it is there. */
  function Take(x: Rx, chunk: string): Rx {
    var b := Append(x.b, chunk);
    var acc := x.acc + |chunk|;
    if x.meta then x.(b := b, acc := acc)
    else
      var start := NewlineAt(b.text);
      if start > 0 then Rx(b, acc, true, start, start + 1 + Atoi(b.text)) else Rx(b, acc, false, start, x.size)
  }

  /** The loop ends at the end of the stream or once the announced size is there. */
  predicate Complete(x: Rx, chunk: string) { chunk == "" || (x.meta && x.acc >= x.size) }

  /** The loop over what recv answers: the chunks in order, then an orderly close or an error. */
  function ReceiveLoop(x: Rx, chunks: seq<string>, closes: bool): Option<Rx>
    decreases |chunks|
  {
    if chunks == [] && !closes then None
    else
      var chunk := if chunks == [] then "" else chunks[0];
      if x.acc + |chunk| >= REQUEST_SIZE_MAX then None
      else
        var y := Take(x, chunk);
        if Complete(y, chunk) then Some(y) else ReceiveLoop(y, chunks[1..], closes)
  }

  predicate Placed(x: Rx) { -1 <= x.start < |x.b.text| }

  lemma TakePlaces(x: Rx, chunk: string)
    requires Placed(x) || !x.meta
    ensures Placed(Take(x, chunk))
  {
  }

  lemma {:induction false} LoopPlaces(x: Rx, chunks: seq<string>, closes: bool)
    requires Placed(x) || !x.meta
    ensures var r := ReceiveLoop(x, chunks, closes); r.Some? ==> Placed(r.value)
    decreases |chunks|
  {
    var chunk := if chunks == [] then "" else chunks[0];
    TakePlaces(x, chunk);
    var y := Take(x, chunk);
    if !(chunks == [] && !closes) && x.acc + |chunk| < REQUEST_SIZE_MAX && !Complete(y, chunk) {
      LoopPlaces(y, chunks[1..], closes);
    }
  }

  /** The text after the header, cut at one byte less than the capacity. */
  function Pure(x: Rx): Option<string>
    requires Placed(x) && x.b.cap > 0
  {
    SliceOf(x.b.text, x.start + 1, x.b.cap - 1)
  }

  /** The buffer never outgrows what was received by more than a block. */
  predicate Bounded(x: Rx) { |x.b.text| <= x.acc && DEFAULT_SIZE <= x.b.cap <= x.acc + BLOCK }

  lemma TakeBounds(x: Rx, chunk: string)
    requires Bounded(x)
    ensures Bounded(Take(x, chunk))
  {
    RoundUpIsLeast(|chunk| + |x.b.text|);
  }

  lemma {:induction false} LoopBounds(x: Rx, chunks: seq<string>, closes: bool)
    requires Bounded(x)
    ensures var r := ReceiveLoop(x, chunks, closes); r.Some? ==> Bounded(r.value)
    decreases |chunks|
  {
    var chunk := if chunks == [] then "" else chunks[0];
    TakeBounds(x, chunk);
    var y := Take(x, chunk);
    if !(chunks == [] && !closes) && x.acc + |chunk| < REQUEST_SIZE_MAX && !Complete(y, chunk) {
      LoopBounds(y, chunks[1..], closes);
    }
  }

  /** What the function makes of the state its loop ends in. */
  function Returned(x: Option<Rx>): Option<string>
    requires x.Some? ==> Placed(x.value) && x.value.b.cap > 0
  {
    if x.None? then None else Pure(x.value)
  }

  /** What jug_int_receive returns. */
  function Received(chunks: seq<string>, closes: bool): Option<string> {
    LoopPlaces(RX0, chunks, closes);
    LoopBounds(RX0, chunks, closes);
    Returned(ReceiveLoop(RX0, chunks, closes))
  }

  /** The part of the loop body that takes a chunk into the buffer and looks for the header. */
  method TakeChunk(buffer: StrBuf, tmp: string, ghost acc: nat, meta0: bool, start0: int, size0: int)
    returns (meta: bool, start: int, size: int)
    requires buffer.Valid() && Bounded(Rx(buffer.State(), acc, meta0, start0, size0))
    requires acc + |tmp| < REQUEST_SIZE_MAX
    modifies buffer, buffer.data
    ensures buffer.Valid() && (buffer.data == old(buffer.data) || fresh(buffer.data))
    ensures Rx(buffer.State(), acc + |tmp|, meta, start, size) ==
            Take(old(Rx(buffer.State(), acc, meta0, start0, size0)), tmp)
  {
    meta, start, size := meta0, start0, size0;
    buffer.AppendN(tmp, |tmp|);
    assert tmp[..|tmp|] == tmp;
    if !meta {
      start := buffer.IndexOf("\n");
      NewlineFirstAt(buffer.State().text);
      if start > 0 {
        meta := true;
        var text := buffer.Text();
        size := start + 1 + Atoi(text);
      }
    }
  }

  lemma LoopStep(x: Rx, chunks: seq<string>, closes: bool, chunk: string)
    requires Bounded(x) && (Placed(x) || !x.meta) && x.acc + |chunk| < REQUEST_SIZE_MAX
    requires if chunks == [] then closes && chunk == "" else chunk == chunks[0]
    ensures var y := Take(x, chunk);
            && Bounded(y) && Placed(y)
            && ReceiveLoop(x, chunks, closes) ==
               if Complete(y, chunk) then Some(y) else ReceiveLoop(y, chunks[1..], closes)
  {
    TakeBounds(x, chunk);
    TakePlaces(x, chunk);
  }

  /** One turn of the loop, from the chunk recv delivered. */
  method Turn(buffer: StrBuf, tmp: string, x: Rx) returns (y: Rx)
    requires buffer.Valid() && buffer.State() == x.b && Bounded(x) && x.acc + |tmp| < REQUEST_SIZE_MAX
    modifies buffer, buffer.data
    ensures buffer.Valid() && (buffer.data == old(buffer.data) || fresh(buffer.data))
    ensures y == Take(x, tmp) && buffer.State() == y.b
  {
    var meta, start, size := TakeChunk(buffer, tmp, x.acc, x.meta, x.start, x.size);
    var text := buffer.Text();
    y := Rx(Buf(text, buffer.len), x.acc + |tmp|, meta, start, size);
  }

  /** The receive loop. */
  method ReceiveInto(buffer: StrBuf, chunks: seq<string>, closes: bool) returns (r: Option<Rx>)
    requires buffer.Valid() && buffer.State() == FRESH
    modifies buffer, buffer.data
    ensures buffer.Valid() && r == ReceiveLoop(RX0, chunks, closes)
    ensures r.Some? ==> buffer.State() == r.value.b && Placed(r.value) && Bounded(r.value)
  {
    var x := RX0;
    var i := 0;
    assert chunks[0..] == chunks;
    while true
      invariant buffer.Valid() && (buffer.data == old(buffer.data) || fresh(buffer.data))
      invariant 0 <= i <= |chunks|
      invariant buffer.State() == x.b && Bounded(x) && (Placed(x) || !x.meta)
      invariant ReceiveLoop(x, chunks[i..], closes) == ReceiveLoop(RX0, chunks, closes)
      decreases |chunks| - i
    {
      ghost var rest := chunks[i..];
      var tmp := "";
      if i < |chunks| {
        tmp := chunks[i];
        assert rest[1..] == chunks[i + 1..];
        i := i + 1;
      } else if !closes {
        return None;
      }
      if x.acc + |tmp| >= REQUEST_SIZE_MAX {
        return None;
      }
      LoopStep(x, rest, closes, tmp);
      x := Turn(buffer, tmp, x);
      if tmp == "" || (x.meta && x.acc >= x.size) {
        return Some(x);
      }
    }
  }

  /** jug_int_receive over a connection that delivers `chunks` and then closes or fails. */
  method Receive(chunks: seq<string>, closes: bool) returns (r: Option<string>)
    ensures r == Received(chunks, closes)
  {
    var buffer := new StrBuf();
    var x := ReceiveInto(buffer, chunks, closes);
    r := CutBody(buffer, x);
  }

  /** The slice after the loop. */
  method CutBody(buffer: StrBuf, x: Option<Rx>) returns (r: Option<string>)
    requires buffer.Valid() && (x.Some? ==> buffer.State() == x.value.b && Placed(x.value) && x.value.b.cap > 0)
    ensures r == Returned(x)
  {
    if x.None? {
      return None;
    }
    r := buffer.Slice(x.value.start + 1, buffer.len - 1);
  }
}
