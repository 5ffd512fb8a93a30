/**
 Numbers: the span strtod consumes of the bytes parse_number collects, the exact value of that span, and the plain
 decimal form that "%1.15g" gives to integers below 10^15.
 */
module Numbers {
  import opened Text

  /** The bytes that parse_number copies for strtod. */
  predicate IsNumberByte(b: Byte) {
    IsDigit(b) || b == PLUS || b == MINUS || b == DOT || b == 101 || b == 69
  }

  /** parse_number copies at most this many bytes. */
  const INT_MAX: int := 0x7FFF_FFFF
  const INT_MIN: int := -0x8000_0000

  const WINDOW: nat := 63

  /** How many bytes are copied from i on, with room for n more. */
  function WindowLength(c: Bytes, i: nat, n: nat): (r: nat)
    requires i <= |c|
    ensures i + r <= |c| && r <= n
    ensures forall k | i <= k < i + r :: IsNumberByte(c[k])
    ensures r < n && i + r < |c| ==> !IsNumberByte(c[i + r])
    decreases n
  {
    if n == 0 || i == |c| || !IsNumberByte(c[i]) then 0 else 1 + WindowLength(c, i + 1, n - 1)
  }

  function DigitsEnd(w: Bytes, i: nat): (r: nat)
    requires i <= |w|
    ensures i <= r <= |w|
    ensures forall k | i <= k < r :: IsDigit(w[k])
    ensures r < |w| ==> !IsDigit(w[r])
    decreases |w| - i
  {
    if i == |w| || !IsDigit(w[i]) then i else DigitsEnd(w, i + 1)
  }

  predicate SignAt(w: Bytes, i: nat) {
    i < |w| && (w[i] == MINUS || w[i] == PLUS)
  }

  /** Where the integer digits, the fraction and the exponent of a decimal floating constant end. */
  function SignEnd(w: Bytes): (r: nat)
    ensures r <= |w|
  {
    if SignAt(w, 0) then 1 else 0
  }

  function IntEnd(w: Bytes): (r: nat)
    ensures SignEnd(w) <= r <= |w|
  {
    DigitsEnd(w, SignEnd(w))
  }

  function FracEnd(w: Bytes): (r: nat)
    ensures IntEnd(w) <= r <= |w|
  {
    var a := IntEnd(w);
    if a < |w| && w[a] == DOT then DigitsEnd(w, a + 1) else a
  }

  /** Where the exponent digits start when w[b..] opens with an exponent. */
  function ExpStart(w: Bytes, b: nat): (r: nat)
    requires b < |w|
    ensures b < r <= |w|
  {
    if SignAt(w, b + 1) then b + 2 else b + 1
  }

  predicate HasExp(w: Bytes, b: nat) {
    b < |w| && (w[b] == 101 || w[b] == 69) && DigitsEnd(w, ExpStart(w, b)) > ExpStart(w, b)
  }

  function FracDigits(w: Bytes): nat {
    if FracEnd(w) > IntEnd(w) then FracEnd(w) - IntEnd(w) - 1 else 0
  }

  /** How many bytes of w strtod consumes: sign, digits with an optional point, optional exponent; 0 without digits. */
  function StrtodLength(w: Bytes): (r: nat)
    ensures r <= |w|
  {
    if IntEnd(w) - SignEnd(w) + FracDigits(w) == 0 then 0
    else if HasExp(w, FracEnd(w)) then DigitsEnd(w, ExpStart(w, FracEnd(w)))
    else FracEnd(w)
  }

  /** A number as it may stand in a text: a span that one call of parse_number consumes. */
  predicate IsLexeme(raw: Bytes) {
    0 < |raw| <= WINDOW && StrtodLength(raw) == |raw| && (raw[0] == MINUS || IsDigit(raw[0]))
  }

  lemma {:induction false} DigitsEndOfPrefix(w: Bytes, i: nat, n: nat)
    requires i <= n <= |w|
    ensures DigitsEnd(w[..n], i) == if DigitsEnd(w, i) <= n then DigitsEnd(w, i) else n
    decreases n - i
  {
    if i < n && IsDigit(w[i]) {
      DigitsEndOfPrefix(w, i + 1, n);
    }
  }

  /** Cutting w at n, behind its integer digits or behind its fraction, keeps those ends. */
  lemma EndsOfPrefix(w: Bytes, n: nat)
    requires FracEnd(w) <= n <= |w| && n > 0
    ensures SignEnd(w[..n]) == SignEnd(w) && IntEnd(w[..n]) == IntEnd(w) && FracEnd(w[..n]) == FracEnd(w)
  {
    DigitsEndOfPrefix(w, SignEnd(w), n);
    if IntEnd(w) < |w| && w[IntEnd(w)] == DOT {
      DigitsEndOfPrefix(w, IntEnd(w) + 1, n);
    }
  }

  /** Cutting w behind what strtod consumes changes nothing. */
  lemma StrtodOfPrefix(w: Bytes)
    ensures StrtodLength(w[..StrtodLength(w)]) == StrtodLength(w)
  {
    hide SignEnd, IntEnd, FracEnd, DigitsEnd;
    var n := StrtodLength(w);
    if n > 0 {
      EndsOfPrefix(w, n);
      if HasExp(w, FracEnd(w)) {
        DigitsEndOfPrefix(w, ExpStart(w, FracEnd(w)), n);
      }
    }
  }

  /** Everything strtod consumes is a byte that parse_number copies. */
  lemma LexemeBytes(raw: Bytes)
    requires StrtodLength(raw) == |raw|
    ensures forall k | 0 <= k < |raw| :: IsNumberByte(raw[k])
  {
    forall k | 0 <= k < |raw| ensures IsNumberByte(raw[k]) {
      var a, b := IntEnd(raw), FracEnd(raw);
      assert k < a || k == a || k < b || k == b || k >= ExpStart(raw, b) || k == b + 1;
    }
  }

  /** Where a lexeme stands and no number byte follows, parse_number consumes exactly that lexeme. */
  lemma WindowOfLexeme(c: Bytes, i: nat, raw: Bytes)
    requires IsLexeme(raw) && At(c, i, raw)
    requires i + |raw| < |c| ==> !IsNumberByte(c[i + |raw|])
    ensures WindowLength(c, i, WINDOW) == |raw|
  {
    LexemeBytes(raw);
    forall k | i <= k < i + |raw| ensures IsNumberByte(c[k]) {
      AtIndex(c, i, raw, k - i);
    }
    WindowIs(c, i, WINDOW, |raw|);
  }

  lemma {:induction false} WindowIs(c: Bytes, i: nat, n: nat, m: nat)
    requires i + m <= |c| && m <= n
    requires forall k | i <= k < i + m :: IsNumberByte(c[k])
    requires i + m < |c| && m < n ==> !IsNumberByte(c[i + m])
    ensures WindowLength(c, i, n) == m
    decreases m
  {
    if m > 0 {
      WindowIs(c, i + 1, n - 1, m - 1);
    }
  }

  // ---------- values ----------

  function DigitsValue(d: Bytes): nat
    requires forall k | 0 <= k < |d| :: IsDigit(d[k])
  {
    if d == [] then 0
    else
      assert IsDigit(d[|d| - 1]);
      10 * DigitsValue(d[..|d| - 1]) + (d[|d| - 1] as int - 48)
  }

  function Pow10(e: nat): (r: real)
    ensures r > 0.0
  {
    if e == 0 then 1.0 else 10.0 * Pow10(e - 1)
  }

  function Scale(m: real, e: int): real {
    if e >= 0 then m * Pow10(e) else m / Pow10(-e)
  }

  /** The exponent written in the lexeme. */
  function Exponent(w: Bytes): int {
    var b := FracEnd(w);
    if !HasExp(w, b) then 0
    else
      var s := ExpStart(w, b);
      var e: int := DigitsValue(w[s..DigitsEnd(w, s)]);
      if w[b + 1] == MINUS then -e else e
  }

  /** The exact number that a lexeme spells. */
  function ExactValue(w: Bytes): real {
    var m := Scale(Mantissa(w) as real, Exponent(w) - FracDigits(w));
    if |w| > 0 && w[0] == MINUS then -m else m
  }

  /** All the digits in front of the exponent, the point left out. */
  function Mantissa(w: Bytes): nat {
    DigitsValue(IntPart(w) + FracPart(w))
  }

  function IntPart(w: Bytes): (d: Bytes)
    ensures forall k | 0 <= k < |d| :: IsDigit(d[k])
  {
    w[SignEnd(w)..IntEnd(w)]
  }

  function FracPart(w: Bytes): (d: Bytes)
    ensures forall k | 0 <= k < |d| :: IsDigit(d[k])
  {
    if FracEnd(w) > IntEnd(w) then w[IntEnd(w) + 1..FracEnd(w)] else []
  }

  // ---------- printing integers ----------

  const LIMIT15: int := 1_000_000_000_000_000

  function Digits(n: nat): (d: Bytes)
    ensures |d| > 0 && forall k | 0 <= k < |d| :: IsDigit(d[k])
  {
    if n < 10 then [48 + n] else Digits(n / 10) + [48 + n % 10]
  }

  function PrintInt(n: int): (s: Bytes)
    ensures |s| > 0
  {
    if n < 0 then [MINUS] + Digits(-n) else Digits(n)
  }

  /** The numbers whose "%1.15g" form is plain decimal and exact. */
  predicate IsPlain(r: real) {
    r == r.Floor as real && -LIMIT15 < r.Floor < LIMIT15
  }

  /**
   What the C library makes of an exact number: some fixed rounding, of which nothing is known but that it keeps the
   plain numbers. Whatever it makes of numbers too large for it is a number like any other here.
   */
  ghost function Rounded(r: real): (s: real)
    ensures IsPlain(r) ==> s == r
  {
    var s: real :| IsPlain(r) ==> s == r;
    s
  }

  /** The rounding as a function that can be called. */
  ghost predicate IsRounding(f: real -> real) {
    forall r: real :: f(r) == Rounded(r)
  }

  /** The number that strtod returns for a lexeme. */
  ghost function NumberValue(w: Bytes): real {
    Rounded(ExactValue(w))
  }

  lemma {:induction false} DigitsRoundTrip(n: nat)
    ensures DigitsValue(Digits(n)) == n
  {
    if n >= 10 {
      DigitsRoundTrip(n / 10);
      var d := Digits(n);
      assert d[..|d| - 1] == Digits(n / 10);
    } else {
      assert [48 + n][..0] == [];
    }
  }

  lemma {:induction false} DigitsShort(n: nat, k: nat, bound: nat)
    requires n < bound && bound == PowerOfTen(k) && k > 0
    ensures |Digits(n)| <= k
    decreases k
  {
    if n >= 10 {
      assert k > 1;
      DigitsShort(n / 10, k - 1, PowerOfTen(k - 1));
    }
  }

  function PowerOfTen(k: nat): nat {
    if k == 0 then 1 else 10 * PowerOfTen(k - 1)
  }

  lemma Limit15IsPowerOfTen()
    ensures PowerOfTen(15) == LIMIT15
  {
    assert PowerOfTen(5) == 100_000;
    assert PowerOfTen(10) == 10_000_000_000;
  }

  lemma AllDigitsEnd(w: Bytes, i: nat)
    requires i <= |w| && forall k | i <= k < |w| :: IsDigit(w[k])
    ensures DigitsEnd(w, i) == |w|
  {
  }

  /** An integer below 10^15 in size is a plain number. */
  lemma IntegersArePlain(n: int)
    requires -1_000_000_000_000_000 < n < 1_000_000_000_000_000
    ensures IsPlain(n as real) && Rounded(n as real) == n as real
  {
  }

  lemma UnitScale(m: real)
    ensures Scale(m, 0) == m
  {
    assert Pow10(0) == 1.0;
  }

  /** The printed form of an integer is at most 16 bytes, is one lexeme, and denotes that integer. */
  lemma PrintIntRoundTrip(n: int)
    requires -1_000_000_000_000_000 < n < 1_000_000_000_000_000
    ensures |PrintInt(n)| <= 16
    ensures IsLexeme(PrintInt(n)) && NumberValue(PrintInt(n)) == n as real
    ensures 0 !in PrintInt(n)
  {
    hide Digits, DigitsValue, Scale, ExactValue, Rounded, IsLexeme, IsPlain, IsDigit, PowerOfTen;
    var m: nat := if n < 0 then -n else n;
    Limit15IsPowerOfTen();
    DigitsShort(m, 15, LIMIT15);
    DigitsRoundTrip(m);
    SignedDigitsLexeme(n < 0, Digits(m));
    SignedDigitsValue(n < 0, Digits(m));
    UnitScale(m as real);
    IntegersArePlain(n);
    assert PrintInt(n) == (if n < 0 then [MINUS] else []) + Digits(m);
  }

  /** Where the parts of a signed run of digits end. */
  lemma SignedDigitsEnds(minus: bool, d: Bytes)
    requires |d| > 0 && forall k | 0 <= k < |d| :: IsDigit(d[k])
    ensures var s := (if minus then [MINUS] else []) + d;
            SignEnd(s) == (if minus then 1 else 0) && IntEnd(s) == |s| && FracEnd(s) == |s|
  {
    var s := (if minus then [MINUS] else []) + d;
    var i := if minus then 1 else 0;
    assert forall k | i <= k < |s| :: s[k] == d[k - i];
    AllDigitsEnd(s, i);
  }

  lemma NoExpAtEnd(s: Bytes)
    ensures !HasExp(s, |s|)
  {
  }

  /** A run of digits, with or without a minus in front, is a lexeme. */
  lemma SignedDigitsLexeme(minus: bool, d: Bytes)
    requires 0 < |d| <= 15 && forall k | 0 <= k < |d| :: IsDigit(d[k])
    ensures var s := (if minus then [MINUS] else []) + d; IsLexeme(s) && 0 !in s
  {
    hide SignEnd, IntEnd, FracEnd, DigitsEnd, HasExp;
    var s := (if minus then [MINUS] else []) + d;
    SignedDigitsEnds(minus, d);
    NoExpAtEnd(s);
    assert |s| == |d| + if minus then 1 else 0;
    assert s[0] == if minus then MINUS else d[0];
  }

  lemma NoScale(s: Bytes)
    requires IntEnd(s) == FracEnd(s) == |s|
    ensures Exponent(s) == 0 && FracDigits(s) == 0
  {
    hide IntEnd, FracEnd;
    NoExpAtEnd(s);
  }

  lemma SignedDigitsValue(minus: bool, d: Bytes)
    requires |d| > 0 && forall k | 0 <= k < |d| :: IsDigit(d[k])
    ensures ExactValue((if minus then [MINUS] else []) + d)
         == if minus then -Scale(DigitsValue(d) as real, 0) else Scale(DigitsValue(d) as real, 0)
  {
    hide SignEnd, IntEnd, FracEnd, DigitsEnd, Scale, DigitsValue, Exponent, FracDigits, Mantissa;
    var s := (if minus then [MINUS] else []) + d;
    SignedDigitsEnds(minus, d);
    NoScale(s);
    SignedMantissa(minus, d);
    assert s[0] == if minus then MINUS else d[0];
  }

  lemma SignedMantissa(minus: bool, d: Bytes)
    requires |d| > 0 && forall k | 0 <= k < |d| :: IsDigit(d[k])
    ensures Mantissa((if minus then [MINUS] else []) + d) == DigitsValue(d)
  {
    hide SignEnd, IntEnd, FracEnd, DigitsEnd, DigitsValue, IntPart, FracPart;
    SignedParts(minus, d);
    assert d + [] == d;
  }

  lemma SignedParts(minus: bool, d: Bytes)
    requires |d| > 0 && forall k | 0 <= k < |d| :: IsDigit(d[k])
    ensures var s := (if minus then [MINUS] else []) + d; IntPart(s) == d && FracPart(s) == []
  {
    hide SignEnd, IntEnd, FracEnd, DigitsEnd, IsDigit;
    var s := (if minus then [MINUS] else []) + d;
    SignedDigitsEnds(minus, d);
    assert s[if minus then 1 else 0..|s|] == d;
  }
}
