/** Byte strings as the daemon handles them: carriage returns, trailing newlines, C strings. */
module Text {

  datatype Option<T> = None | Some(value: T)

  function Min(a: nat, b: nat): nat { if a < b then a else b }

  function Flatten(chunks: seq<string>): string {
    if chunks == [] then "" else chunks[0] + Flatten(chunks[1..])
  }

  function Repeat(c: char, n: nat): (s: string)
    ensures |s| == n
  {
    seq(n, _ => c)
  }

  predicate NoCR(s: string) { '\r' !in s }

  /** A newline or carriage-return byte. */
  predicate Breaks(c: char) { c == '\n' || c == '\r' }

  predicate OnlyBreaks(s: string) { forall i | 0 <= i < |s| :: Breaks(s[i]) }

  predicate OnlyNewlines(s: string) { forall i | 0 <= i < |s| :: s[i] == '\n' }

  /** `s` without its carriage returns. */
  function DropCR(s: string): (r: string)
    ensures NoCR(r) && |r| <= |s|
  {
    if s == "" then "" else (if s[0] == '\r' then "" else [s[0]]) + DropCR(s[1..])
  }

  /** `s` without its trailing newlines. */
  function StripNewlines(s: string): string {
    if s != "" && s[|s| - 1] == '\n' then StripNewlines(s[..|s| - 1]) else s
  }

  /** The judge's notion of equal output: carriage returns and trailing newlines do not count. */
  predicate SameText(a: string, b: string) {
    StripNewlines(DropCR(a)) == StripNewlines(DropCR(b))
  }

  /** Number of bytes that are neither newline nor carriage return. */
  function Ink(s: string): nat {
    if s == "" then 0 else (if Breaks(s[0]) then 0 else 1) + Ink(s[1..])
  }

  /** The C string held in memory `s`: everything before the first NUL. */
  function CString(s: string): (r: string)
    ensures '\0' !in r && r <= s
  {
    if s == "" || s[0] == '\0' then "" else [s[0]] + CString(s[1..])
  }

  predicate NoNul(s: string) { '\0' !in s }

  lemma {:induction false} CStringClean(s: string)
    requires NoNul(s)
    ensures CString(s) == s
  {
    if s != "" {
      assert s[0] in s;
      CStringClean(s[1..]);
    }
  }

  lemma Assoc<T>(a: seq<T>, b: seq<T>, c: seq<T>)
    ensures a + b + c == a + (b + c)
  {
  }

  lemma DropDrop<T>(s: seq<T>, a: nat, b: nat)
    requires a + b <= |s|
    ensures s[a..][b..] == s[a + b..]
  {
  }

  lemma SuffixNoCR(s: string, n: nat)
    requires NoCR(s) && n <= |s|
    ensures NoCR(s[n..])
  {
    assert forall x | x in s[n..] :: x in s;
  }

  lemma PrefixNoCR(s: string, n: nat)
    requires NoCR(s) && n <= |s|
    ensures NoCR(s[..n])
  {
    assert forall x | x in s[..n] :: x in s;
  }

  lemma {:induction false} FlattenAppend(chunks: seq<string>, c: string)
    ensures Flatten(chunks + [c]) == Flatten(chunks) + c
  {
    if chunks == [] {
      assert chunks + [c] == [c];
      assert Flatten([c]) == c + Flatten([]);
    } else {
      assert (chunks + [c])[1..] == chunks[1..] + [c];
      FlattenAppend(chunks[1..], c);
    }
  }

  lemma {:induction false} DropCRAppend(a: string, b: string)
    ensures DropCR(a + b) == DropCR(a) + DropCR(b)
  {
    if a == "" {
      assert a + b == b;
    } else {
      assert (a + b)[1..] == a[1..] + b;
      DropCRAppend(a[1..], b);
    }
  }

  lemma {:induction false} DropCRClean(s: string)
    requires NoCR(s)
    ensures DropCR(s) == s
  {
    if s != "" {
      DropCRClean(s[1..]);
    }
  }

  lemma {:induction false} DropCRBreaks(s: string)
    ensures OnlyBreaks(s) <==> OnlyNewlines(DropCR(s))
  {
    if s != "" {
      DropCRBreaks(s[1..]);
      assert s == [s[0]] + s[1..];
      var rest := DropCR(s[1..]);
      if s[0] != '\r' {
        assert DropCR(s) == [s[0]] + rest;
        assert DropCR(s)[1..] == rest;
        assert forall i | 0 <= i < |rest| :: rest[i] == DropCR(s)[i + 1];
      } else {
        assert DropCR(s) == rest;
      }
      assert forall i | 0 <= i < |s| - 1 :: s[1..][i] == s[i + 1];
    }
  }

  lemma {:induction false} StripPadding(s: string, pad: string)
    requires OnlyNewlines(pad)
    ensures StripNewlines(s + pad) == StripNewlines(s)
  {
    if pad == "" {
      assert s + pad == s;
    } else {
      var n := |pad| - 1;
      assert (s + pad)[..|s + pad| - 1] == s + pad[..n];
      assert (s + pad)[|s + pad| - 1] == pad[n];
      StripPadding(s, pad[..n]);
    }
  }

  lemma {:induction false} StripSplits(s: string) returns (pad: string)
    ensures OnlyNewlines(pad) && s == StripNewlines(s) + pad
  {
    if s != "" && s[|s| - 1] == '\n' {
      var p := StripSplits(s[..|s| - 1]);
      pad := p + "\n";
      assert s == s[..|s| - 1] + "\n";
    } else {
      pad := "";
    }
  }

  /** `b` is `a` followed by newlines only. */
  predicate PaddedBy(a: string, b: string) { a <= b && OnlyNewlines(b[|a|..]) }

  lemma PaddedStrip(a: string, b: string)
    requires PaddedBy(a, b)
    ensures StripNewlines(a) == StripNewlines(b)
  {
    assert b == a + b[|a|..];
    StripPadding(a, b[|a|..]);
  }

  lemma PaddedCores(core: string, pa: string, pb: string)
    requires OnlyNewlines(pa) && OnlyNewlines(pb) && |pa| <= |pb|
    ensures PaddedBy(core + pa, core + pb)
  {
    assert pb[..|pa|] == pa;
    assert core + pb == (core + pa) + pb[|pa|..];
  }

  /** Two texts agree up to trailing newlines iff one is the other followed by newlines. */
  lemma StripEqual(a: string, b: string)
    ensures StripNewlines(a) == StripNewlines(b) <==> PaddedBy(a, b) || PaddedBy(b, a)
  {
    if PaddedBy(a, b) {
      PaddedStrip(a, b);
    } else if PaddedBy(b, a) {
      PaddedStrip(b, a);
    } else if StripNewlines(a) == StripNewlines(b) {
      var pa := StripSplits(a);
      var pb := StripSplits(b);
      if |pa| <= |pb| {
        PaddedCores(StripNewlines(a), pa, pb);
      } else {
        PaddedCores(StripNewlines(a), pb, pa);
      }
    }
  }

  lemma {:induction false} InkAppend(a: string, b: string)
    ensures Ink(a + b) == Ink(a) + Ink(b)
  {
    if a == "" {
      assert a + b == b;
    } else {
      assert (a + b)[1..] == a[1..] + b;
      InkAppend(a[1..], b);
    }
  }

  lemma {:induction false} InkDropCR(s: string)
    ensures Ink(DropCR(s)) == Ink(s)
  {
    if s != "" {
      InkDropCR(s[1..]);
      InkAppend(if s[0] == '\r' then "" else [s[0]], DropCR(s[1..]));
    }
  }

  lemma {:induction false} InkOfBreaks(s: string)
    requires OnlyBreaks(s)
    ensures Ink(s) == 0
  {
    if s != "" {
      InkOfBreaks(s[1..]);
    }
  }

  /** Equal texts carry the same number of visible bytes. */
  lemma SameTextSameInk(a: string, b: string)
    requires SameText(a, b)
    ensures Ink(a) == Ink(b)
  {
    InkStrip(DropCR(a));
    InkStrip(DropCR(b));
    InkDropCR(a);
    InkDropCR(b);
  }

  lemma InkStrip(s: string)
    ensures Ink(StripNewlines(s)) == Ink(s)
  {
    var pad := StripSplits(s);
    InkAppend(StripNewlines(s), pad);
    InkOfBreaks(pad);
  }
}
