/** Bytes, C strings and the handful of byte classes that the JSON engine tests for. */
module Text {
  type Byte = b: int | 0 <= b < 256
  type Bytes = seq<Byte>

  datatype Option<+T> = None | Some(value: T)

  /** The outcome of a scan: a value, or the index at which the scan gave up. */
  datatype Result<+T> = Ok(value: T) | Err(at: nat)

  const NUL: Byte := 0
  const BS: Byte := 8
  const TAB: Byte := 9
  const LF: Byte := 10
  const FF: Byte := 12
  const CR: Byte := 13
  const SPACE: Byte := 32
  const QUOTE: Byte := 34
  const STAR: Byte := 42
  const PLUS: Byte := 43
  const COMMA: Byte := 44
  const MINUS: Byte := 45
  const DOT: Byte := 46
  const SLASH: Byte := 47
  const COLON: Byte := 58
  const LBRACKET: Byte := 91
  const BACKSLASH: Byte := 92
  const RBRACKET: Byte := 93
  const LBRACE: Byte := 123
  const RBRACE: Byte := 125

  /** A byte that buffer_skip_whitespace steps over inside a C string. */
  predicate IsGapByte(b: Byte) {
    1 <= b <= 32
  }

  /** Bytes that may stand between two tokens. */
  ghost predicate IsGap(s: Bytes) {
    forall k | 0 <= k < |s| :: IsGapByte(s[k])
  }

  predicate IsDigit(b: Byte) {
    48 <= b <= 57
  }

  /** The C string held in a block: everything before the first NUL. */
  function CStr(s: Bytes): (r: Bytes)
    ensures r <= s && 0 !in r
    ensures |r| < |s| ==> s[|r|] == 0
  {
    if s == [] || s[0] == 0 then [] else [s[0]] + CStr(s[1..])
  }

  /** The C string is determined by where the first NUL is. */
  lemma {:induction false} CStrIs(s: Bytes, n: nat)
    requires n < |s| && s[n] == 0 && 0 !in s[..n]
    ensures CStr(s) == s[..n]
  {
    if n > 0 {
      assert s[..n][0] == s[0] && s[1..][..n - 1] == s[..n][1..];
      CStrIs(s[1..], n - 1);
    }
  }

  lemma {:induction false} CStrId(s: Bytes)
    requires 0 !in s
    ensures CStr(s) == s
  {
    if s != [] {
      CStrId(s[1..]);
    }
  }

  /** Stores the next byte of a text that is written from left to right. */
  method PutByte(a: array<Byte>, i: nat, x: Byte)
    requires i < a.Length
    modifies a
    ensures a[..i + 1] == old(a[..i]) + [x]
  {
    a[i] := x;
    assert a[..i + 1] == a[..i] + [x];
  }

  /** memcpy from the start of one block into another. */
  method CopyBytes(to: array<Byte>, at: nat, from: array<Byte>, n: nat)
    requires at + n <= to.Length && n <= from.Length && to != from
    modifies to
    ensures to[..at] == old(to[..at]) && to[at..at + n] == from[..n] && to[..at + n] == old(to[..at]) + from[..n]
  {
    var i := 0;
    while i < n
      invariant i <= n && to[..at + i] == old(to[..at]) + from[..i]
    {
      PutByte(to, at + i, from[i]);
      assert from[..i + 1] == from[..i] + [from[i]];
      i := i + 1;
    }
    assert to[..at] == to[..at + n][..at] && to[at..at + n] == to[..at + n][at..];
  }

  /** Stores a terminator behind a text. */
  method PutNul(a: array<Byte>, i: nat)
    requires i < a.Length
    modifies a
    ensures a[..i] == old(a[..i]) && a[i] == 0
  {
    a[i] := NUL;
  }

  lemma Behind(s: Bytes, t: Bytes)
    ensures (s + t)[|s|..] == t
  {
  }

  /** strlen */
  method StrLen(a: array<Byte>, from: nat) returns (n: nat)
    requires from <= a.Length && NUL in a[from..]
    ensures from + n < a.Length && CStr(a[from..]) == a[from..from + n] && a[from + n] == 0
  {
    n := 0;
    ghost var s := a[from..];
    ghost var k :| 0 <= k < |s| && s[k] == NUL;
    while a[from + n] != 0
      invariant n <= k && 0 !in s[..n]
      decreases k - n
    {
      assert s[n] == a[from + n];
      assert s[..n + 1] == s[..n] + [s[n]];
      n := n + 1;
    }
    assert s[n] == 0 && s[..n] == a[from..from + n];
    CStrIs(s, n);
  }

  /** A parse buffer built by strlen: the only NUL is the last byte. */
  ghost predicate Terminated(c: Bytes) {
    |c| > 0 && c[|c| - 1] == 0 && forall k | 0 <= k < |c| - 1 :: c[k] != 0
  }

  /** `s` stands in `c` at position `i`. */
  predicate At(c: Bytes, i: nat, s: Bytes) {
    i + |s| <= |c| && c[i..i + |s|] == s
  }

  lemma AtConcat(c: Bytes, i: nat, a: Bytes, b: Bytes)
    ensures At(c, i, a + b) <==> At(c, i, a) && At(c, i + |a|, b)
  {
    if i + |a| + |b| <= |c| {
      var w := c[i..i + |a| + |b|];
      assert w[..|a|] == c[i..i + |a|] && w[|a|..] == c[i + |a|..i + |a| + |b|];
      assert w == w[..|a|] + w[|a|..];
      assert (a + b)[..|a|] == a && (a + b)[|a|..] == b;
    }
  }

  lemma AtByte(c: Bytes, i: nat, b: Byte)
    ensures At(c, i, [b]) <==> i < |c| && c[i] == b
  {
    if i < |c| {
      assert c[i..i + 1] == [c[i]];
    }
  }

  lemma AtIndex(c: Bytes, i: nat, s: Bytes, k: nat)
    requires At(c, i, s) && k < |s|
    ensures i + k < |c| && c[i + k] == s[k]
  {
    assert c[i..i + |s|][k] == s[k];
  }
}
