/** Requests that lose their last byte: nearly every request can be completed to one. */
module RequestExamples {
  import opened Text
  import opened Buffer
  import opened Interface
  import opened Request
  import RunModel

  function Pow10(k: nat): nat { if k == 0 then 1 else 10 * Pow10(k - 1) }

  /** Numbers from 10^k to 10^(k+1) have k + 1 digits. */
  lemma {:induction false} DecLength(n: nat, k: nat)
    requires Pow10(k) <= n < Pow10(k + 1)
    ensures |Dec(n)| == k + 1
  {
    if k > 0 {
      DecLength(n / 10, k - 1);
    }
  }

  lemma {:induction false} DecShort(n: nat, k: nat)
    requires k > 0 && n < Pow10(k)
    ensures |Dec(n)| <= k
  {
    if n >= 10 {
      DecShort(n / 10, k - 1);
    }
  }

  lemma Powers()
    ensures Pow10(3) == 1000 && Pow10(4) == 10000 && Pow10(7) == 10000000 && Pow10(8) == 100000000
  {
    assert Pow10(2) == 100;
    assert Pow10(5) == 100000 && Pow10(6) == 1000000;
  }

  /** Length of a frame whose body has `c` bytes besides a field of `n` bytes and its size line. */
  function FrameLength(c: nat, n: nat): nat {
    var body := c + |Dec(n)| + 1 + n;
    |Dec(body)| + 1 + body
  }

  /** Whatever else the body holds, some field fills the frame's blocks to the last byte. */
  lemma FillBlocks(c: nat) returns (n: nat)
    requires c <= 29990100
    ensures n > 0 && FrameLength(c, n) % 1024 == 0 && FrameLength(c, n) < 30000000
  {
    Powers();
    var k, low := if c < 19000000 then 7 else 3, if c < 19000000 then 10000000 else 1000;
    var fixed := 9 + c + k + 2;
    n := low + (1024 - (fixed + low) % 1024) % 1024;
    DecLength(n, k);
    DecLength(c + |Dec(n)| + 1 + n, 7);
    Filled(fixed + low);
  }

  lemma Filled(x: nat)
    ensures (x + (1024 - x % 1024) % 1024) % 1024 == 0
  {
  }

  lemma ForgeLength(input: string, output: string, source: string)
    ensures |Forge(input, output, source)| ==
            10 + |Dec(|input|)| + |input| + |Dec(|output|)| + |output| + |Dec(|source|)| + 1 + |source|
  {
    assert Dec(0) == "0";
  }

  /**
   For every input and output that leave some room below the size limit there is a source such that the
   request, sent in one piece, is answered ACCEPTED without being judged.
   */
  lemma SourceNeverJudged(input: string, output: string) returns (source: string)
    requires NoNul(input) && NoNul(output) && |input| + |output| <= 29990000
    ensures NoNul(source) && source != "" && |Frame(Forge(input, output, source))| % 1024 == 0
    ensures Serve([Frame(Forge(input, output, source))], false) == Reply(RunModel.Accepted)
  {
    Powers();
    DecShort(|input|, 8);
    DecShort(|output|, 8);
    var n := FillBlocks(10 + |Dec(|input|)| + |input| + |Dec(|output|)| + |output|);
    source := Repeat('a', n);
    ForgeLength(input, output, source);
    var f := Frame(Forge(input, output, source));
    InOnePiece(f);
    ServedExactly(input, output, source, [f], false);
  }

  /** And for every input an output such that a request with an empty source makes the decoder overrun. */
  lemma EmptySourceOverruns(input: string) returns (output: string)
    requires NoNul(input) && |input| <= 29990000
    ensures NoNul(output) && |Frame(Forge(input, output, ""))| % 1024 == 0
    ensures Serve([Frame(Forge(input, output, ""))], false) == Undefined
  {
    Powers();
    DecShort(|input|, 8);
    var n := FillBlocks(11 + |Dec(|input|)| + |input|);
    output := Repeat('a', n);
    ForgeLength(input, output, "");
    assert Dec(0) == "0";
    var f := Frame(Forge(input, output, ""));
    InOnePiece(f);
    ServedExactly(input, output, "", [f], false);
  }

  lemma InOnePiece(f: string)
    ensures Flatten([f]) == f
  {
    assert [f][1..] == [] && Flatten([]) == "";
  }
}
