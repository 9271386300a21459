/**
 The parameters of a clone request (runner.c): the runner serializes them into one block that travels
 through shared memory, and the template's handler rebuilds them.
 */
module CloneParams {
  import opened Text

  /** Sizes of struct run_params and struct sandbox, and of an int, on the 64-bit target. */
  const RUN_PARAMS: nat := 56
  const SANDBOX: nat := 48
  const INT: nat := 4
  const INT_SPAN: nat := 0x8000_0000

  /** struct clone_child_params: two structs as raw bytes, the binary's path and its arguments. */
  datatype Params = Params(run: string, sandbox: string, path: string, argv: seq<string>)

  /** What the C types guarantee: raw structs of their size, C strings, an argument count that fits an int. */
  predicate Valid(p: Params) {
    && |p.run| == RUN_PARAMS && |p.sandbox| == SANDBOX && NoNul(p.path)
    && |p.argv| < INT_SPAN && forall i | 0 <= i < |p.argv| :: NoNul(p.argv[i])
  }

  // ---------------------------------------------------------------------------------------------
  // Layout
  // ---------------------------------------------------------------------------------------------

  function Byte(n: nat): char
    requires n < 256
  {
    n as char
  }

  /** An int in memory, least significant byte first. */
  function IntBytes(n: nat): (s: string)
    requires n < INT_SPAN
    ensures |s| == INT
  {
    [Byte(n % 256), Byte(n / 256 % 256), Byte(n / 65536 % 256), Byte(n / 16777216)]
  }

  function IntOf(s: string): nat
    requires |s| == INT
  {
    s[0] as nat + 256 * s[1] as nat + 65536 * s[2] as nat + 16777216 * s[3] as nat
  }

  lemma IntRoundTrip(n: nat)
    requires n < INT_SPAN
    ensures IntOf(IntBytes(n)) == n
  {
    var a, b, c := n / 256, n / 65536, n / 16777216;
    assert b == a / 256 && c == b / 256;
    assert n == 256 * a + n % 256 && a == 256 * b + a % 256 && b == 256 * c + b % 256;
  }

  /** Each argument with its terminator. */
  function ArgBytes(argv: seq<string>): string {
    if argv == [] then "" else argv[0] + "\0" + ArgBytes(argv[1..])
  }

  /** run_params | sandbox | path, NUL | argc | argv[0], NUL | argv[1], NUL | ... */
  function Serial(p: Params): string
    requires Valid(p)
  {
    p.run + p.sandbox + (p.path + "\0") + IntBytes(|p.argv|) + ArgBytes(p.argv)
  }

  // ---------------------------------------------------------------------------------------------
  // Serializing
  // ---------------------------------------------------------------------------------------------

  lemma {:induction false} ArgBytesSnoc(argv: seq<string>, a: string)
    ensures ArgBytes(argv + [a]) == ArgBytes(argv) + (a + "\0")
  {
    if argv == [] {
      assert [a][1..] == [];
      assert ArgBytes([a]) == a + "\0" + ArgBytes([]);
      assert argv + [a] == [a];
    } else {
      assert (argv + [a])[1..] == argv[1..] + [a];
      ArgBytesSnoc(argv[1..], a);
    }
  }

  /** memcpy(serial + at, piece, |piece|). */
  method Copy(serial: array<char>, at: nat, piece: string)
    requires at + |piece| <= serial.Length
    modifies serial
    ensures serial[..at + |piece|] == old(serial[..at]) + piece
  {
    forall k | 0 <= k < |piece| {
      serial[at + k] := piece[k];
    }
    assert serial[..at] == old(serial[..at]);
  }

  /** The first pass: count the arguments and add up the size of the block. */
  method Measure(p: Params) returns (sz: nat, argc: nat)
    requires Valid(p)
    ensures sz == |Serial(p)| && argc == |p.argv|
  {
    sz := RUN_PARAMS + SANDBOX + (|p.path| + 1);
    argc := 0;
    while argc < |p.argv|
      invariant argc <= |p.argv|
      invariant sz == RUN_PARAMS + SANDBOX + |p.path| + 1 + |ArgBytes(p.argv[..argc])|
    {
      assert p.argv[..argc + 1] == p.argv[..argc] + [p.argv[argc]];
      ArgBytesSnoc(p.argv[..argc], p.argv[argc]);
      sz := sz + |p.argv[argc]| + 1;
      argc := argc + 1;
    }
    assert p.argv[..argc] == p.argv;
    sz := sz + INT;
  }

  /** jug_runner_template_serialize: the block it allocates is filled to its last byte. */
  method Serialize(p: Params) returns (serial: array<char>)
    requires Valid(p)
    ensures fresh(serial) && serial[..] == Serial(p)
  {
    var sz, argc := Measure(p);
    serial := new char[sz];
    var index := 0;
    Copy(serial, index, p.run);
    index := index + RUN_PARAMS;
    Copy(serial, index, p.sandbox);
    index := index + SANDBOX;
    Copy(serial, index, p.path + "\0");
    index := index + |p.path| + 1;
    Copy(serial, index, IntBytes(argc));
    index := index + INT;
    ghost var head := p.run + p.sandbox + (p.path + "\0") + IntBytes(argc);
    assert serial[..index] == head;
    CopyArgs(serial, index, p.argv);
    assert serial[..] == serial[..serial.Length];
  }

  /** The second pass over the arguments. */
  method CopyArgs(serial: array<char>, at: nat, argv: seq<string>)
    requires at + |ArgBytes(argv)| == serial.Length
    modifies serial
    ensures serial[..serial.Length] == old(serial[..at]) + ArgBytes(argv)
  {
    var index, i := at, 0;
    while i < |argv|
      invariant 0 <= i <= |argv|
      invariant index == at + |ArgBytes(argv[..i])| <= serial.Length
      invariant serial[..index] == old(serial[..at]) + ArgBytes(argv[..i])
    {
      assert argv[..i + 1] == argv[..i] + [argv[i]];
      ArgBytesSnoc(argv[..i], argv[i]);
      ArgBytesPrefix(argv, i + 1);
      Copy(serial, index, argv[i] + "\0");
      index := index + |argv[i]| + 1;
      i := i + 1;
    }
    assert argv[..i] == argv;
  }

  lemma {:induction false} ArgBytesPrefix(argv: seq<string>, n: nat)
    requires n <= |argv|
    ensures ArgBytes(argv[..n]) <= ArgBytes(argv)
  {
    if n > 0 {
      assert argv[..n][1..] == argv[1..][..n - 1];
      ArgBytesPrefix(argv[1..], n - 1);
      var a, b := ArgBytes(argv[1..][..n - 1]), ArgBytes(argv[1..]);
      assert argv[0] + "\0" + b == (argv[0] + "\0" + a) + b[|a|..];
    }
  }

  // ---------------------------------------------------------------------------------------------
  // Unserializing
  // ---------------------------------------------------------------------------------------------

  /** strlen from `at`: the index of the terminator. */
  method FindNul(serial: string, at: nat) returns (i: nat)
    requires exists k :: at <= k < |serial| && serial[k] == '\0'
    ensures at <= i < |serial| && serial[i] == '\0'
    ensures forall k | at <= k < i :: serial[k] != '\0'
  {
    ghost var end :| at <= end < |serial| && serial[end] == '\0';
    i := at;
    while serial[i] != '\0'
      invariant at <= i <= end
      invariant forall k | at <= k < i :: serial[k] != '\0'
      decreases end - i
    {
      i := i + 1;
    }
  }

  /** A C string at an offset is found whole. */
  lemma StringAt(serial: string, at: nat, text: string)
    requires at + |text| < |serial| && serial[at..at + |text|] == text && serial[at + |text|] == '\0' && NoNul(text)
    ensures forall i | at <= i < |serial| && serial[i] == '\0' && (forall k | at <= k < i :: serial[k] != '\0') ::
              i == at + |text|
  {
    forall k | at <= k < at + |text|
      ensures serial[k] != '\0'
    {
      assert serial[k] == text[k - at];
    }
  }

  /**
   jug_runner_template_unserialize, on a block a serializer filled, followed by anything.  It rebuilds the
   parameters and consumes exactly the serialized bytes.
   */
  method Unserialize(serial: string, ghost p: Params, ghost junk: string) returns (q: Params, index: nat)
    requires Valid(p) && serial == Serial(p) + junk
    ensures q == p && index == |Serial(p)|
  {
    FieldsInPlace(p, junk);
    index := 0;
    var run := serial[index..index + RUN_PARAMS];
    index := index + RUN_PARAMS;
    var sandbox := serial[index..index + SANDBOX];
    index := index + SANDBOX;
    StringAt(serial, index, p.path);
    var i := FindNul(serial, index);
    var path := serial[index..i];
    index := i + 1;
    var argc := IntOf(serial[index..index + INT]);
    IntRoundTrip(|p.argv|);
    index := index + INT;
    var argv;
    argv, index := ReadArgs(serial, index, argc, p, junk);
    q := Params(run, sandbox, path, argv);
  }

  /** Offset of the arguments. */
  function ArgsAt(p: Params): nat { RUN_PARAMS + SANDBOX + |p.path| + 1 + INT }

  method ReadArgs(serial: string, at: nat, argc: nat, ghost p: Params, ghost junk: string)
    returns (argv: seq<string>, index: nat)
    requires Valid(p) && serial == Serial(p) + junk && at == ArgsAt(p) && argc == |p.argv|
    ensures argv == p.argv && index == |Serial(p)|
  {
    argv := [];
    index := at;
    var i := 0;
    while i < argc
      invariant 0 <= i <= argc
      invariant argv == p.argv[..i]
      invariant index == at + |ArgBytes(p.argv[..i])|
    {
      var arg;
      arg, index := ReadArg(serial, index, i, p, junk);
      argv := argv + [arg];
      i := i + 1;
    }
    assert p.argv[..argc] == p.argv;
  }

  /** One argument: the only terminator ahead is its own, and the next one starts behind it. */
  lemma NextArg(p: Params, junk: string, i: nat, serial: string, at: nat)
    requires Valid(p) && serial == Serial(p) + junk && i < |p.argv| && at == ArgsAt(p) + |ArgBytes(p.argv[..i])|
    ensures at + |p.argv[i]| < |serial| && serial[at..at + |p.argv[i]|] == p.argv[i]
    ensures serial[at + |p.argv[i]|] == '\0'
    ensures forall e | at <= e < |serial| && serial[e] == '\0' && (forall k | at <= k < e :: serial[k] != '\0') ::
              e == at + |p.argv[i]|
    ensures at + |p.argv[i]| + 1 == ArgsAt(p) + |ArgBytes(p.argv[..i + 1])|
    ensures p.argv[..i + 1] == p.argv[..i] + [p.argv[i]]
  {
    ArgInPlace(p, junk, i);
    StringAt(serial, at, p.argv[i]);
    assert p.argv[..i + 1] == p.argv[..i] + [p.argv[i]];
    ArgBytesSnoc(p.argv[..i], p.argv[i]);
  }

  /** Copying out one argument and stepping over its terminator. */
  method ReadArg(serial: string, at: nat, ghost i: nat, ghost p: Params, ghost junk: string)
    returns (arg: string, next: nat)
    requires Valid(p) && serial == Serial(p) + junk && i < |p.argv| && at == ArgsAt(p) + |ArgBytes(p.argv[..i])|
    ensures arg == p.argv[i] && next == ArgsAt(p) + |ArgBytes(p.argv[..i + 1])|
  {
    NextArg(p, junk, i, serial, at);
    var end := FindNul(serial, at);
    arg := serial[at..end];
    next := end + 1;
  }

  /** Serializing and unserializing gives the parameters back. */
  method RoundTrip(p: Params) returns (q: Params)
    requires Valid(p)
    ensures q == p
  {
    var serial := Serialize(p);
    var consumed;
    q, consumed := Unserialize(serial[..], p, "");
  }

  /** Where the fields before the arguments lie; the count is stored least significant byte first. */
  lemma FieldsInPlace(p: Params, junk: string)
    requires Valid(p)
    ensures var s := Serial(p) + junk; var n := |p.path|;
            && |s| >= 104 + n + 5
            && s[..56] == p.run && s[56..104] == p.sandbox
            && s[104..104 + n] == p.path && s[104 + n] == '\0'
            && s[105 + n..109 + n] == IntBytes(|p.argv|)
            && s[105 + n] as int + 256 * s[106 + n] as int + 65536 * s[107 + n] as int + 16777216 * s[108 + n] as int
               == |p.argv|
  {
    IntRoundTrip(|p.argv|);
    var b := IntBytes(|p.argv|);
    var s, n := Serial(p) + junk, |p.path|;
    assert s[105 + n..109 + n] == b;
    assert forall k | 0 <= k < 4 :: s[105 + n + k] == b[k];
  }

  /** Where argument `i` lies in the block. */
  lemma ArgInPlace(p: Params, junk: string, i: nat)
    requires Valid(p) && i < |p.argv|
    ensures var at := RUN_PARAMS + SANDBOX + |p.path| + 1 + INT + |ArgBytes(p.argv[..i])|;
            var s := Serial(p) + junk; var a := p.argv[i];
            at + |a| < |s| && s[at..at + |a|] == a && s[at + |a|] == '\0'
  {
    var head := p.run + p.sandbox + (p.path + "\0") + IntBytes(|p.argv|);
    var tail := ArgBytesSplit(p.argv, i);
    ArgBetween(head, ArgBytes(p.argv[..i]), p.argv[i], tail, junk, Serial(p) + junk);
  }

  /** The argument bytes around argument `i`. */
  lemma ArgBytesSplit(argv: seq<string>, i: nat) returns (tail: string)
    requires i < |argv|
    ensures ArgBytes(argv) == ArgBytes(argv[..i]) + (argv[i] + "\0") + tail
  {
    assert argv[..i + 1] == argv[..i] + [argv[i]];
    ArgBytesSnoc(argv[..i], argv[i]);
    ArgBytesPrefix(argv, i + 1);
    tail := ArgBytes(argv)[|ArgBytes(argv[..i + 1])|..];
  }

  lemma ArgBetween(head: string, before: string, a: string, tail: string, junk: string, s: string)
    requires s == head + (before + (a + "\0") + tail) + junk
    ensures var at := |head| + |before|; at + |a| < |s| && s[at..at + |a|] == a && s[at + |a|] == '\0'
  {
    assert s == (head + before) + (a + ("\0" + (tail + junk)));
  }

  // ---------------------------------------------------------------------------------------------
  // Room for the block
  // ---------------------------------------------------------------------------------------------

  /** The template copies the block into a buffer of this size. */
  const TEMPLATE_MAX_TX: nat := 1024

  /** The shared segment: the flag byte, the block's length and the block. */
  const SEGMENT: nat := 2028

  /** The judge passes the path as the only argument, too; what it passes fits up to a path of 457 bytes. */
  lemma JudgeBlockFits(p: Params)
    requires Valid(p) && p.argv == [p.path]
    ensures |Serial(p)| <= TEMPLATE_MAX_TX <==> |p.path| <= 457
    ensures |Serial(p)| <= TEMPLATE_MAX_TX ==> 1 + INT + |Serial(p)| <= SEGMENT
  {
    assert p.argv[1..] == [];
    assert ArgBytes(p.argv) == p.path + "\0" + ArgBytes([]);
  }
}
