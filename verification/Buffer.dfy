/**
 The growable string buffer (buffer/buffer.c): a heap block of `len + 1` bytes holding a C string.  A fresh
 buffer has 64 bytes; appending grows it to multiples of 1024.
 */
module Buffer {
  import opened Text

  const DEFAULT_SIZE: nat := 64
  const BLOCK: nat := 1024

  // ---------------------------------------------------------------------------------------------
  // The rounding macro
  // ---------------------------------------------------------------------------------------------

  /** Number of values of a 64-bit size_t. */
  const SPAN: nat := 0x1_0000_0000_0000_0000

  function Pow2(n: nat): (p: nat)
    ensures p > 0
  {
    if n == 0 then 1 else 2 * Pow2(n - 1)
  }

  /** Bitwise and of two naturals. */
  function BitAnd(a: nat, b: nat): nat {
    if a == 0 || b == 0 then 0
    else 2 * BitAnd(a / 2, b / 2) + (if a % 2 == 1 && b % 2 == 1 then 1 else 0)
  }

  /** Bitwise complement of a size_t. */
  function BitNot(a: nat): nat
    requires a < SPAN
  {
    SPAN - 1 - a
  }

  function Wrap(a: nat): (r: nat)
    ensures r < SPAN
  {
    a % SPAN
  }

  /** nearest_multiple_of(a, b): (b + (a - 1)) & ~(a - 1), in size_t arithmetic. */
  function NearestMultipleOf(a: nat, b: nat): nat
    requires 0 < a <= SPAN
  {
    BitAnd(Wrap(b + (a - 1)), BitNot(a - 1))
  }

  lemma {:induction false} AndAllOnes(a: nat, k: nat)
    requires a < Pow2(k)
    ensures BitAnd(a, Pow2(k) - 1) == a
  {
    if a > 0 {
      assert k > 0;
      assert (Pow2(k) - 1) / 2 == Pow2(k - 1) - 1;
      AndAllOnes(a / 2, k - 1);
    }
  }

  lemma {:induction false} PowGrows(j: nat, k: nat)
    ensures Pow2(j) <= Pow2(j + k)
  {
    if k > 0 {
      PowGrows(j, k - 1);
      assert Pow2(j + k) == 2 * Pow2(j + (k - 1));
    }
  }

  lemma HalfMask(j: nat, k: nat, m: nat) returns (half: nat)
    requires j > 0 && m == Pow2(j + k) - Pow2(j)
    ensures m == 2 * half && half == Pow2(j - 1 + k) - Pow2(j - 1) && Pow2(j + k) == 2 * Pow2(j - 1 + k)
  {
    PowGrows(j - 1, k);
    half := Pow2(j - 1 + k) - Pow2(j - 1);
  }

  /** Masking with k ones above j zeros clears the low j bits. */
  lemma {:induction false} AndShifted(a: nat, j: nat, k: nat, m: nat)
    requires a < Pow2(j + k) && m == Pow2(j + k) - Pow2(j)
    ensures BitAnd(a, m) == a - a % Pow2(j)
    decreases j
  {
    if j == 0 {
      AndAllOnes(a, k);
    } else {
      var half := HalfMask(j, k, m);
      AndDouble(a, half);
      AndShifted(a / 2, j - 1, k, half);
      HalfMod(a, Pow2(j - 1));
    }
  }

  lemma AndDouble(a: nat, m: nat)
    ensures BitAnd(a, 2 * m) == 2 * BitAnd(a / 2, m)
  {
    if a > 0 && m > 0 {
      assert (2 * m) / 2 == m && (2 * m) % 2 == 0;
      assert BitAnd(a, 2 * m) == 2 * BitAnd(a / 2, (2 * m) / 2);
    }
  }

  lemma HalfMod(a: nat, p: nat)
    requires p > 0
    ensures 2 * (a / 2 - (a / 2) % p) == a - a % (2 * p)
  {
    var h := a / 2;
    var q, r := h / p, h % p;
    var bit := a % 2;
    assert a == 2 * h + bit;
    assert h == q * p + r;
    assert a == q * (2 * p) + (2 * r + bit);
    ModUnique(a, 2 * p, q, 2 * r + bit);
  }

  lemma MulAtLeast(d: int, m: nat)
    requires d >= 1
    ensures d * m >= m
  {
    assert d * m == (d - 1) * m + m;
  }

  lemma ModUnique(a: nat, m: nat, q: nat, r: nat)
    requires m > 0 && r < m && a == q * m + r
    ensures a % m == r
  {
    var q', r' := a / m, a % m;
    assert a == q' * m + r';
    assert (q - q') * m == q * m - q' * m == r' - r;
    assert (q' - q) * m == r - r';
    if q > q' {
      MulAtLeast(q - q', m);
    } else if q < q' {
      MulAtLeast(q' - q, m);
    }
  }

  /** The least multiple of 1024 at or above `n`. */
  function RoundUp(n: nat): nat { (n + (BLOCK - 1)) / BLOCK * BLOCK }

  lemma RoundUpIsLeast(n: nat)
    ensures n <= RoundUp(n) < n + BLOCK && RoundUp(n) % BLOCK == 0
    ensures forall m: nat | m % BLOCK == 0 && n <= m :: RoundUp(n) <= m
  {
  }

  /** The mask of a block size 2^j in a word of j + k bits. */
  lemma MaskRoundsAt(n: nat, j: nat, k: nat, w: nat, block: nat)
    requires block == Pow2(j) && w == Pow2(j + k) && n + block <= w
    ensures block <= w
    ensures BitAnd((n + (block - 1)) % w, w - 1 - (block - 1)) == (n + (block - 1)) - (n + (block - 1)) % block
  {
    var a := n + (block - 1);
    PowGrows(j, k);
    ModUnique(a, w, 0, a);
    AndShifted(a, j, k, w - block);
  }

  lemma MaskRounds(n: nat)
    requires n + BLOCK <= SPAN
    ensures NearestMultipleOf(BLOCK, n) == RoundUp(n)
  {
    SpanIsPower(0);
    MaskRoundsAt(n, 10, 54, SPAN, BLOCK);
  }

  lemma PowByte(k: nat)
    ensures Pow2(k + 8) == 256 * Pow2(k)
  {
    assert Pow2(k + 8) == 2 * Pow2(k + 7);
    assert Pow2(k + 7) == 2 * Pow2(k + 6);
    assert Pow2(k + 6) == 2 * Pow2(k + 5);
    assert Pow2(k + 5) == 2 * Pow2(k + 4);
    assert Pow2(k + 4) == 2 * Pow2(k + 3);
    assert Pow2(k + 3) == 2 * Pow2(k + 2);
    assert Pow2(k + 2) == 2 * Pow2(k + 1);
  }

  lemma SpanIsPower(k: nat)
    requires k == 0
    ensures Pow2(k + 10) == BLOCK && Pow2(k + 64) == SPAN
  {
    PowByte(k);
    PowByte(k + 2);
    PowByte(k + 8);
    PowByte(k + 16);
    PowByte(k + 24);
    PowByte(k + 32);
    PowByte(k + 40);
    PowByte(k + 48);
    PowByte(k + 56);
  }

  /** Below overflow the bit mask computes the least multiple of 1024 that is not smaller. */
  lemma MaskIsLeastMultiple(n: nat)
    requires n + 1024 <= 0x1_0000_0000_0000_0000
    ensures var r := NearestMultipleOf(1024, n);
            && n <= r && r % 1024 == 0
            && forall m: nat | m % 1024 == 0 && n <= m :: r <= m
  {
    MaskRounds(n);
    RoundUpIsLeast(n);
  }

  // ---------------------------------------------------------------------------------------------
  // The buffer as a value
  // ---------------------------------------------------------------------------------------------

  /** Its string and its capacity. */
  datatype Buf = Buf(text: string, cap: nat)

  const FRESH: Buf := Buf("", DEFAULT_SIZE)

  /** Appending the C string held in `chunk`; the growth test counts the bytes of the whole chunk. */
  function Append(b: Buf, chunk: string): Buf {
    var needed := |chunk| + |b.text|;
    Buf(b.text + CString(chunk), if b.cap > needed then b.cap else RoundUp(needed))
  }

  function AppendAll(b: Buf, chunks: seq<string>): Buf
    decreases |chunks|
  {
    if chunks == [] then b else AppendAll(Append(b, chunks[0]), chunks[1..])
  }

  /** The capacity a string of `n` bytes ends up with. */
  function CapFor(n: nat): nat { if n < DEFAULT_SIZE then DEFAULT_SIZE else RoundUp(n) }

  /** 64 bytes, or the least multiple of 1024 that holds the string. */
  lemma CapacityIs(n: nat)
    ensures n < 64 ==> CapFor(n) == 64
    ensures n >= 64 ==> CapFor(n) % 1024 == 0 && n <= CapFor(n) < n + 1024
  {
    RoundUpIsLeast(n);
  }

  lemma AppendClean(b: Buf, chunk: string)
    requires NoNul(chunk) && b.cap == CapFor(|b.text|)
    ensures Append(b, chunk) == Buf(b.text + chunk, CapFor(|b.text + chunk|))
    ensures Append(b, chunk).cap >= b.cap && |b.text + chunk| <= Append(b, chunk).cap
  {
    CStringClean(chunk);
    RoundUpIsLeast(|b.text|);
    RoundUpIsLeast(|b.text| + |chunk|);
  }

  /**
   Buffer refinement: NUL-free appends to a buffer yield the concatenation, within a capacity that
   depends on the length alone (64, or the least multiple of 1024) and never shrinks.
   */
  lemma {:induction false} AppendsConcatenate(b: Buf, chunks: seq<string>)
    requires b.cap == CapFor(|b.text|) && NoNul(Flatten(chunks))
    ensures AppendAll(b, chunks) == Buf(b.text + Flatten(chunks), CapFor(|b.text + Flatten(chunks)|))
    ensures b.cap <= AppendAll(b, chunks).cap
    ensures var n, cap := |b.text + Flatten(chunks)|, AppendAll(b, chunks).cap;
            if n < 64 then cap == 64 else cap % 1024 == 0 && n <= cap < n + 1024
    decreases |chunks|
  {
    CapacityIs(|b.text + Flatten(chunks)|);
    if chunks == [] {
      assert b.text + "" == b.text;
    } else {
      var c, rest := chunks[0], Flatten(chunks[1..]);
      assert forall x | x in c || x in rest :: x in c + rest;
      AppendClean(b, c);
      AppendsConcatenate(Append(b, c), chunks[1..]);
      assert (b.text + c) + rest == b.text + (c + rest);
    }
  }

  // ---------------------------------------------------------------------------------------------
  // The buffer on the heap
  // ---------------------------------------------------------------------------------------------

  lemma {:induction false} CStringAt(s: string, n: nat)
    requires n <= |s| && (n == |s| || s[n] == '\0') && forall i | 0 <= i < n :: s[i] != '\0'
    ensures CString(s) == s[..n]
  {
    if n > 0 {
      CStringAt(s[1..], n - 1);
      assert s[..n] == [s[0]] + s[1..][..n - 1];
    }
  }

  lemma Glued(after: string, before: string, p: nat, str: string, i: nat)
    requires p <= |before| && i <= |str| && p + i <= |after|
    requires forall j | 0 <= j < p :: after[j] == before[j]
    requires forall j | p <= j < p + i :: after[j] == str[j - p]
    ensures after[..p + i] == before[..p] + str[..i]
  {
  }

  /** What realloc leaves in memory: as many of the old bytes as fit, the last one overwritten by NUL. */
  lemma Reallocated(before: string, after: string, p: nat, size: nat)
    requires p < |before| && before[p] == '\0' && (forall j | 0 <= j < p :: before[j] != '\0')
    requires |after| == size + 1 && after[size] == '\0'
    requires forall j | 0 <= j < |before| && j < size :: after[j] == before[j]
    ensures CString(after) == Shortened(CString(before), size)
  {
    var q := Min(p, size);
    CStringAt(before, p);
    CStringAt(after, q);
    assert after[..q] == before[..p][..q];
  }

  /** What strncat leaves in memory: the old string up to `p`, then `i` bytes of the new one, then NUL. */
  lemma Concatenated(before: string, after: string, p: nat, str: string, i: nat)
    requires p < |before| && before[p] == '\0' && (forall j | 0 <= j < p :: before[j] != '\0')
    requires i <= |str| && (i == |str| || str[i] == '\0') && p + i < |after| && after[p + i] == '\0'
    requires forall j | 0 <= j < p :: after[j] == before[j]
    requires forall j | p <= j < p + i :: after[j] == str[j - p] && after[j] != '\0'
    ensures CString(after) == CString(before) + CString(str)
  {
    CStringAt(before, p);
    forall k | 0 <= k < i
      ensures str[k] != '\0'
    {
      assert after[p + k] == str[k];
    }
    CStringAt(str, i);
    CStringAt(after, p + i);
    Glued(after, before, p, str, i);
  }

  class StrBuf {
    var len: nat
    var data: array<char>

    ghost predicate Valid()
      reads this, data
    {
      data.Length == len + 1 && data[len] == '\0'
    }

    ghost function State(): (b: Buf)
      reads this, data
    {
      Buf(CString(data[..]), len)
    }

    /** buffer_new: a zeroed block. */
    constructor ()
      ensures Valid() && fresh(data) && State() == FRESH
    {
      len := DEFAULT_SIZE;
      var block := new char[DEFAULT_SIZE + 1](_ => '\0');
      data := block;
      new;
      CStringAt(data[..], 0);
      assert data[..][..0] == "";
    }

    /** strlen of the block. */
    method Length() returns (n: nat)
      requires Valid()
      ensures n == |State().text| <= len
      ensures data[n] == '\0' && forall i | 0 <= i < n :: data[i] != '\0'
    {
      n := 0;
      while data[n] != '\0'
        invariant 0 <= n <= len
        invariant forall i | 0 <= i < n :: data[i] != '\0'
        decreases len - n
      {
        n := n + 1;
      }
      CStringAt(data[..], n);
    }

    /** buffer_resize: realloc keeps the old bytes that fit, others are arbitrary, the last one is NUL. */
    method Resize(n: nat)
      requires Valid() && n + BLOCK <= SPAN
      modifies this
      ensures Valid() && fresh(data)
      ensures State() == Buf(Shortened(old(State().text), RoundUp(n)), RoundUp(n))
    {
      var p := Length();
      ghost var before := data[..];
      MaskRounds(n);
      var size := NearestMultipleOf(BLOCK, n);
      var block := new char[size + 1];
      forall i | 0 <= i < data.Length && i < size {
        block[i] := data[i];
      }
      block[size] := '\0';
      Reallocated(before, block[..], p, size);
      len, data := size, block;
    }

    /** strncat(data, str, n): copy up to n bytes or the first NUL, then terminate. */
    method Concat(str: string, n: nat)
      requires Valid() && n <= |str| && |State().text| + n <= len
      modifies data
      ensures Valid() && State() == Buf(old(State().text) + CString(str[..n]), len)
    {
      var p := Length();
      ghost var before := data[..];
      var i := 0;
      while i < n && str[i] != '\0'
        invariant 0 <= i <= n && data[len] == '\0'
        invariant forall j | 0 <= j < p :: data[j] == before[j]
        invariant forall j | p <= j < p + i :: data[j] == str[j - p] && data[j] != '\0'
      {
        data[p + i] := str[i];
        i := i + 1;
      }
      data[p + i] := '\0';
      Concatenated(before, data[..], p, str[..n], i);
    }

    /** buffer_append_n. */
    method AppendN(str: string, n: nat)
      requires Valid() && n <= |str| && len + n + BLOCK <= SPAN
      modifies this, data
      ensures Valid() && (data == old(data) || fresh(data))
      ensures State() == Append(old(State()), str[..n])
    {
      var prev := Length();
      var needed := n + prev;
      if len > needed {
        Concat(str, n);
        return;
      }
      RoundUpIsLeast(needed);
      Resize(needed);
      ShortenedWhole(old(State().text), RoundUp(needed));
      Concat(str, n);
    }

    /** Does `sub` start at `k`? */
    method Matches(sub: string, k: nat) returns (ok: bool)
      requires Valid() && k + |sub| <= |State().text|
      ensures ok == (State().text[k..k + |sub|] == sub)
    {
      ghost var text := State().text;
      var i := 0;
      while i < |sub|
        invariant 0 <= i <= |sub|
        invariant forall j | 0 <= j < i :: text[k + j] == sub[j]
      {
        assert data[..][k + i] == text[k + i];
        if data[k + i] != sub[i] {
          assert text[k..k + |sub|][i] != sub[i];
          return false;
        }
        i := i + 1;
      }
      ok := true;
    }

    /** buffer_indexof: where `sub` first occurs, or -1. */
    method IndexOf(sub: string) returns (i: int)
      requires Valid()
      ensures i == FirstAt(State().text, sub)
    {
      var n := Length();
      var k := 0;
      while k + |sub| <= n
        invariant 0 <= k <= n + 1
        invariant forall j | 0 <= j < k :: !OccursAt(State().text, sub, j)
      {
        var here := Matches(sub, k);
        if here {
          FirstAtIs(State().text, sub, k);
          return k;
        }
        k := k + 1;
      }
      FirstAtNone(State().text, sub);
      i := -1;
    }

    /** buffer_slice, as a string: none if the range is bad; a negative end counts from the end. */
    method Slice(from: nat, to: int) returns (r: Option<string>)
      requires Valid() && Sliceable(State().text, from, to)
      ensures r == SliceOf(State().text, from, to)
    {
      var n := Length();
      CStringAt(data[..], n);
      if 0 <= to < from {
        return None;
      }
      var end := if to < 0 then n + to + 1 else to;
      if end < 0 || end > n {
        end := n;
      }
      assert data[..][..n][from..end] == data[from..end];
      r := Some(data[from..end]);
    }

    /** The C string. */
    method Text() returns (s: string)
      requires Valid()
      ensures s == State().text
    {
      var n := Length();
      CStringAt(data[..], n);
      s := data[..n];
    }
  }

  /** Index of the first newline, or -1. */
  function NewlineAt(s: string): (i: int)
    ensures -1 <= i < |s|
    ensures i >= 0 ==> s[i] == '\n'
  {
    if s == "" then -1
    else if s[0] == '\n' then 0
    else
      var i := NewlineAt(s[1..]);
      if i < 0 then -1 else i + 1
  }

  lemma {:induction false} NewlineIs(s: string, k: nat)
    requires k < |s| && s[k] == '\n' && forall j | 0 <= j < k :: s[j] != '\n'
    ensures NewlineAt(s) == k
  {
    if k > 0 {
      NewlineIs(s[1..], k - 1);
    }
  }

  lemma {:induction false} NewlineNone(s: string)
    requires forall j | 0 <= j < |s| :: s[j] != '\n'
    ensures NewlineAt(s) == -1
  {
    if s != "" {
      NewlineNone(s[1..]);
    }
  }

  /** The end of a slice: negative counts from the end, and anything out of range is the end. */
  function SliceEnd(s: string, to: int): (e: nat)
    ensures e <= |s|
  {
    var end := if to < 0 then |s| + to + 1 else to;
    if end < 0 || end > |s| then |s| else end
  }

  /** The source refuses an end before the start, but computes a negative length if the start is past the end. */
  predicate Sliceable(s: string, from: nat, to: int) { 0 <= to < from || from <= SliceEnd(s, to) }

  function SliceOf(s: string, from: nat, to: int): Option<string>
    requires Sliceable(s, from, to)
  {
    if 0 <= to < from then None else Some(s[from..SliceEnd(s, to)])
  }

  /** A slice is the middle part, whether its end is counted from the start or from the end; or nothing. */
  lemma SliceIsMiddle(a: string, b: string, c: string, s: string)
    requires s == a + b + c
    ensures SliceOf(s, |a|, |a| + |b|) == Some(b)
    ensures SliceOf(s, |a|, -1 - |c|) == Some(b)
    ensures SliceOf(s, |a|, |s| + 1) == Some(b + c)
    ensures forall to | 0 <= to < |a| :: SliceOf(s, |a|, to) == None
  {
    assert s[|a|..|a| + |b|] == b && s[|a|..] == b + c && s[|a|..|s|] == b + c;
  }

  predicate OccursAt(s: string, sub: string, k: nat) { k + |sub| <= |s| && s[k..k + |sub|] == sub }

  lemma OccursShift(s: string, sub: string, k: nat)
    requires s != "" && k > 0
    ensures OccursAt(s, sub, k) <==> OccursAt(s[1..], sub, k - 1)
  {
    if k + |sub| <= |s| {
      assert s[k..k + |sub|] == s[1..][k - 1..k - 1 + |sub|];
    }
  }

  /** Index of the first occurrence, or -1. */
  function FirstAt(s: string, sub: string): (i: int)
    ensures i == -1 || (i >= 0 && OccursAt(s, sub, i))
    ensures forall k: nat | OccursAt(s, sub, k) :: 0 <= i <= k
  {
    if OccursAt(s, sub, 0) then 0
    else if s == "" then -1
    else
      var i := FirstAt(s[1..], sub);
      assert forall k: nat | k > 0 :: OccursAt(s, sub, k) <==> OccursAt(s[1..], sub, k - 1) by {
        forall k: nat | k > 0
          ensures OccursAt(s, sub, k) <==> OccursAt(s[1..], sub, k - 1)
        {
          OccursShift(s, sub, k);
        }
      }
      if i < 0 then -1 else i + 1
  }

  lemma FirstAtIs(s: string, sub: string, k: nat)
    requires OccursAt(s, sub, k) && forall j | 0 <= j < k :: !OccursAt(s, sub, j)
    ensures FirstAt(s, sub) == k
  {
  }

  lemma FirstAtNone(s: string, sub: string)
    requires forall j: nat | j + |sub| <= |s| :: !OccursAt(s, sub, j)
    ensures FirstAt(s, sub) == -1
  {
  }

  /** A newline is found where the first newline is. */
  lemma NewlineFirstAt(s: string)
    ensures FirstAt(s, "\n") == NewlineAt(s)
  {
    var i := FirstAt(s, "\n");
    assert forall k | 0 <= k < |s| :: OccursAt(s, "\n", k) <==> s[k] == '\n';
    if i >= 0 {
      NewlineIs(s, i);
    } else {
      NewlineNone(s);
    }
  }

  lemma ShortenedWhole(s: string, n: nat)
    requires |s| <= n
    ensures Shortened(s, n) == s
  {
  }

  /** What is left of a string in a smaller block. */
  function Shortened(s: string, n: nat): string { s[..Min(|s|, n)] }
}
