/**
 Numbers as they are spelled: a sign, digits with an optional point, and an optional power of ten. The span that strtod
 takes and the value it computes from meet this reading.
 */
module NumberStandard {
  import opened Text
  import opened Numbers

  datatype Sign = NoSign | Plus | Minus

  datatype Power = Power(letter: Byte, sign: Sign, digits: Bytes)

  datatype Spelled = Spelled(sign: Sign, whole: Bytes, point: bool, fraction: Bytes, power: Option<Power>)

  predicate AllDigits(d: Bytes) {
    forall k | 0 <= k < |d| :: 48 <= d[k] <= 57
  }

  predicate IsPower(p: Power) {
    (p.letter == 101 || p.letter == 69) && p.digits != [] && AllDigits(p.digits)
  }

  /** At least one digit before or behind the point, and a power with at least one digit. */
  predicate IsNumber(n: Spelled) {
    && AllDigits(n.whole) && AllDigits(n.fraction) && n.whole + n.fraction != []
    && (!n.point ==> n.fraction == []) && (n.power.Some? ==> IsPower(n.power.value))
  }

  function SpellSign(s: Sign): Bytes {
    match s case NoSign => [] case Plus => [43] case Minus => [45]
  }

  function SpellFraction(point: bool, fraction: Bytes): Bytes {
    if point then [46] + fraction else []
  }

  function SpellPower(p: Option<Power>): Bytes {
    match p
    case None => []
    case Some(q) => [q.letter] + (SpellSign(q.sign) + q.digits)
  }

  function Spell(n: Spelled): Bytes {
    SpellSign(n.sign) + (n.whole + (SpellFraction(n.point, n.fraction) + SpellPower(n.power)))
  }

  // ---------- the span ----------

  /** A run of digits that stands in a text ends where it ends, unless another digit follows. */
  lemma RunEnds(w: Bytes, i: nat, d: Bytes)
    requires At(w, i, d) && AllDigits(d) && (i + |d| < |w| ==> !IsDigit(w[i + |d|]))
    ensures DigitsEnd(w, i) == i + |d| && w[i..DigitsEnd(w, i)] == d
  {
    forall k | i <= k < i + |d| ensures IsDigit(w[k]) {
      AtIndex(w, i, d, k - i);
    }
  }

  /** What stands in front of the power: neither a digit nor a point. */
  predicate EndsNumber(p: Bytes) {
    p == [] || (!IsDigit(p[0]) && p[0] != DOT)
  }

  /** Where the parts in front of the power end. */
  lemma PartsOf(n: Spelled, w: Bytes)
    requires IsNumber(n) && w == Spell(n)
    ensures SignEnd(w) == |SpellSign(n.sign)| && IntEnd(w) == SignEnd(w) + |n.whole|
    ensures FracEnd(w) == IntEnd(w) + |SpellFraction(n.point, n.fraction)|
    ensures IntPart(w) == n.whole && FracPart(w) == n.fraction && FracDigits(w) == |n.fraction|
    ensures At(w, FracEnd(w), SpellPower(n.power)) && |w| == FracEnd(w) + |SpellPower(n.power)|
  {
    hide DigitsEnd, Spell, At;
    Places(n, w);
    var s, f, p := |SpellSign(n.sign)|, SpellFraction(n.point, n.fraction), SpellPower(n.power);
    SignOf(n, w);
    NextByte(w, s + |n.whole|, f + p);
    RunEnds(w, s, n.whole);
    var a := s + |n.whole|;
    if n.point {
      AtConcat(w, a, [46], n.fraction);
      AtByte(w, a, 46);
      NextByte(w, a + 1 + |n.fraction|, p);
      RunEnds(w, a + 1, n.fraction);
    }
  }

  lemma NextByte(w: Bytes, i: nat, s: Bytes)
    requires At(w, i, s) && |w| == i + |s|
    ensures i < |w| ==> s != [] && w[i] == s[0]
  {
    if s != [] {
      AtIndex(w, i, s, 0);
    }
  }

  lemma Places(n: Spelled, w: Bytes)
    requires IsNumber(n) && w == Spell(n)
    ensures var s := |SpellSign(n.sign)|; var f := SpellFraction(n.point, n.fraction); var p := SpellPower(n.power);
            && At(w, 0, SpellSign(n.sign)) && At(w, s, n.whole) && At(w, s + |n.whole|, f + p)
            && At(w, s + |n.whole|, f) && At(w, s + |n.whole| + |f|, p) && |w| == s + |n.whole| + |f| + |p|
            && EndsNumber(p)
  {
    var s, f, p := SpellSign(n.sign), SpellFraction(n.point, n.fraction), SpellPower(n.power);
    assert At(w, 0, w);
    AtConcat(w, 0, s, n.whole + (f + p));
    AtConcat(w, |s|, n.whole, f + p);
    AtConcat(w, |s| + |n.whole|, f, p);
  }

  lemma SignOf(n: Spelled, w: Bytes)
    requires IsNumber(n) && w == Spell(n)
    ensures SignEnd(w) == |SpellSign(n.sign)| && (n.sign.Minus? <==> w[0] == MINUS) && w != []
  {
    var f, p := SpellFraction(n.point, n.fraction), SpellPower(n.power);
    if n.sign.NoSign? {
      assert w == n.whole + (f + p);
      if n.whole == [] {
        assert w == f + p;
      }
    }
  }

  /** A power that stands at the end of a text. */
  lemma PowerStands(w: Bytes, b: nat, q: Power)
    requires IsPower(q) && At(w, b, SpellPower(Some(q))) && |w| == b + |SpellPower(Some(q))|
    ensures b + 1 < |w| && w[b] == q.letter && (w[b + 1] == MINUS <==> q.sign.Minus?)
    ensures ExpStart(w, b) == b + 1 + |SpellSign(q.sign)| && |w| == ExpStart(w, b) + |q.digits|
    ensures At(w, ExpStart(w, b), q.digits)
  {
    hide At;
    AtConcat(w, b, [q.letter], SpellSign(q.sign) + q.digits);
    AtByte(w, b, q.letter);
    AtConcat(w, b + 1, SpellSign(q.sign), q.digits);
    AtIndex(w, b + 1 + |SpellSign(q.sign)|, q.digits, 0);
    if !q.sign.NoSign? {
      AtIndex(w, b + 1, SpellSign(q.sign), 0);
    }
  }

  /** The power and its value. */
  lemma PowerOf(n: Spelled, w: Bytes)
    requires IsNumber(n) && w == Spell(n)
    ensures var b := FracEnd(w);
            && HasExp(w, b) == n.power.Some?
            && (n.power.Some? ==>
                  && DigitsEnd(w, ExpStart(w, b)) == |w| && w[ExpStart(w, b)..|w|] == n.power.value.digits
                  && b + 1 < |w| && (w[b + 1] == MINUS <==> n.power.value.sign.Minus?))
  {
    hide DigitsEnd, Spell, At, FracEnd, SpellPower, IntEnd, SignEnd, ExpStart, AllDigits, IntPart, FracPart, FracDigits;
    PartsOf(n, w);
    var b := FracEnd(w);
    if n.power.Some? {
      PowerStands(w, b, n.power.value);
      RunEnds(w, ExpStart(w, b), n.power.value.digits);
    } else {
      assert SpellPower(None) == [] by { NoPower(); }
    }
  }

  lemma NoPower()
    ensures SpellPower(None) == []
  {
  }

  /** strtod takes a spelled number to its end. */
  lemma SpanOfSpelled(n: Spelled)
    requires IsNumber(n)
    ensures StrtodLength(Spell(n)) == |Spell(n)| > 0
  {
    hide SignEnd, IntEnd, FracEnd, FracDigits, HasExp, DigitsEnd, Spell;
    var w := Spell(n);
    PartsOf(n, w);
    PowerOf(n, w);
    SignOf(n, w);
  }

  /** The sign that a text has at i. */
  function SignIn(w: Bytes, i: nat): Sign {
    if i < |w| && w[i] == 45 then Minus else if i < |w| && w[i] == 43 then Plus else NoSign
  }

  /** The number that a span spells. */
  function Reading(w: Bytes): Spelled
    requires StrtodLength(w) == |w| > 0
  {
    var a, b := IntEnd(w), FracEnd(w);
    var power := if b == |w| then None else Some(Power(w[b], SignIn(w, b + 1), w[ExpStart(w, b)..]));
    Spelled(SignIn(w, 0), IntPart(w), a < b, FracPart(w), power)
  }

  lemma SignSpells(w: Bytes, i: nat)
    requires i <= |w|
    ensures SpellSign(SignIn(w, i)) == w[i..if SignAt(w, i) then i + 1 else i]
  {
  }

  lemma FractionSpells(w: Bytes)
    ensures SpellFraction(IntEnd(w) < FracEnd(w), FracPart(w)) == w[IntEnd(w)..FracEnd(w)]
    ensures AllDigits(IntPart(w)) && AllDigits(FracPart(w))
    ensures IntEnd(w) == FracEnd(w) ==> FracPart(w) == []
    ensures |IntPart(w) + FracPart(w)| == IntEnd(w) - SignEnd(w) + FracDigits(w)
  {
    hide DigitsEnd, IntEnd, SignEnd;
    var a, b := IntEnd(w), FracEnd(w);
    if a < b {
      assert w[a..b] == [w[a]] + w[a + 1..b];
    }
  }

  lemma PowerSpells(w: Bytes)
    requires StrtodLength(w) == |w| > 0
    ensures var p := Reading(w).power; (p.Some? ==> IsPower(p.value)) && SpellPower(p) == w[FracEnd(w)..]
  {
    hide DigitsEnd, IntEnd, SignEnd, FracEnd, FracDigits;
    var b := FracEnd(w);
    if b < |w| {
      SignSpells(w, b + 1);
      var s := ExpStart(w, b);
      assert w[b..] == [w[b]] + (w[b + 1..s] + w[s..]);
    }
  }

  /** A span consists of its sign, its digits, its fraction and its power. */
  lemma SpanParts(w: Bytes)
    requires StrtodLength(w) == |w| > 0
    ensures var n := Reading(w); var s, a, b := SignEnd(w), IntEnd(w), FracEnd(w);
            && s <= a <= b <= |w| && n.whole == w[s..a] && n.fraction == FracPart(w) && n.point == (a < b)
            && SpellSign(n.sign) == w[..s] && n.whole == IntPart(w) && a - s + FracDigits(w) > 0
  {
    hide DigitsEnd, IntEnd, FracEnd, FracDigits, FracPart;
    SignSpells(w, 0);
  }

  lemma ReadingSpells(w: Bytes)
    requires StrtodLength(w) == |w| > 0
    ensures IsNumber(Reading(w)) && Spell(Reading(w)) == w
  {
    hide SignEnd, IntEnd, FracEnd, FracDigits, FracPart, IntPart, StrtodLength, Reading, SpellSign, SpellFraction,
      SpellPower, IsPower, AllDigits;
    SpanParts(w);
    FractionSpells(w);
    PowerSpells(w);
    var s, a, b := SignEnd(w), IntEnd(w), FracEnd(w);
    assert w == w[..s] + (w[s..a] + (w[a..b] + w[b..]));
  }

  /** Some number is spelled by the text. */
  ghost predicate IsSpelled(w: Bytes) {
    exists n :: IsNumber(n) && Spell(n) == w
  }

  lemma SpelledIff(w: Bytes)
    ensures IsSpelled(w) <==> StrtodLength(w) == |w| > 0
  {
    hide StrtodLength, IsNumber, Spell;
    if IsSpelled(w) {
      var n :| IsNumber(n) && Spell(n) == w;
      SpanOfSpelled(n);
    }
    if StrtodLength(w) == |w| > 0 {
      ReadingSpells(w);
    }
  }

  /** A span stays inside the span of every longer text. */
  lemma SpanGrows(w: Bytes, m: nat)
    requires m <= |w| && StrtodLength(w[..m]) == m > 0
    ensures StrtodLength(w) >= m
  {
    hide DigitsEnd;
    var u := w[..m];
    DigitsEndOfPrefix(w, SignEnd(w), m);
    assert SignEnd(u) == SignEnd(w);
    if IntEnd(u) < m {
      if u[IntEnd(u)] == DOT {
        DigitsEndOfPrefix(w, IntEnd(w) + 1, m);
      }
      if FracEnd(u) < m {
        assert HasExp(u, FracEnd(u));
        DigitsEndOfPrefix(w, ExpStart(w, FracEnd(w)), m);
      }
    }
  }

  /** strtod takes the longest spelled number that a text starts with, and nothing when there is none. */
  lemma StrtodIsLongest(w: Bytes, m: nat)
    requires m <= |w|
    ensures StrtodLength(w) > 0 ==> IsSpelled(w[..StrtodLength(w)])
    ensures StrtodLength(w) < m ==> !IsSpelled(w[..m])
  {
    hide StrtodLength, IsSpelled;
    StrtodOfPrefix(w);
    SpelledIff(w[..StrtodLength(w)]);
    SpelledIff(w[..m]);
    if IsSpelled(w[..m]) {
      SpanGrows(w, m);
    }
  }

  /** A number that parse_value takes up: it starts with a minus, or with a digit. */
  predicate IsOpening(n: Spelled) {
    n.sign.Minus? || (n.sign.NoSign? && n.whole != [])
  }

  /** A number of the texts: it starts with a minus or a digit, and has at most 63 bytes. */
  lemma LexemeIs(raw: Bytes)
    ensures IsLexeme(raw) <==>
            |raw| <= 63 && exists n :: IsNumber(n) && Spell(n) == raw && IsOpening(n)
  {
    hide StrtodLength, IsNumber, Spell;
    SpelledIff(raw);
    forall n | IsNumber(n) && Spell(n) == raw
      ensures IsOpening(n) <==> raw != [] && (raw[0] == MINUS || IsDigit(raw[0]))
    {
      FirstByte(n);
    }
  }

  lemma FirstByte(n: Spelled)
    requires IsNumber(n)
    ensures var w := Spell(n);
            w != [] && (IsOpening(n) <==> w[0] == MINUS || IsDigit(w[0]))
  {
    SignOf(n, Spell(n));
    var f, p := SpellFraction(n.point, n.fraction), SpellPower(n.power);
    if n.sign.NoSign? {
      assert Spell(n) == n.whole + (f + p);
      if n.whole == [] {
        assert Spell(n) == f + p;
      }
    }
  }

  // ---------- the value ----------

  function TenTo(k: nat): nat {
    if k == 0 then 1 else 10 * TenTo(k - 1)
  }

  /** The number that decimal digits write: each digit counts for its place. */
  function Decimal(d: Bytes): nat
    requires AllDigits(d)
  {
    if d == [] then 0 else (d[0] as int - 48) * TenTo(|d| - 1) + Decimal(d[1..])
  }

  /** Multiplied by ten, n times. */
  function Tenfold(r: real, n: nat): real {
    if n == 0 then r else 10.0 * Tenfold(r, n - 1)
  }

  function Signed(s: Sign, m: nat): real {
    if s.Minus? then -(m as real) else m as real
  }

  lemma TenTimes(x: int, t: int)
    ensures x * (10 * t) == 10 * (x * t)
  {
  }

  lemma {:induction false} DecimalSnoc(d: Bytes, b: Byte)
    requires AllDigits(d) && IsDigit(b)
    ensures AllDigits(d + [b]) && Decimal(d + [b]) == 10 * Decimal(d) + (b as int - 48)
  {
    if d == [] {
      assert d + [b] == [b] && [b][1..] == [];
      assert TenTo(0) == 1;
    } else {
      DecimalSnoc(d[1..], b);
      assert (d + [b])[1..] == d[1..] + [b];
      var x := d[0] as int - 48;
      assert TenTo(|d|) == 10 * TenTo(|d| - 1);
      TenTimes(x, TenTo(|d| - 1));
    }
  }

  lemma {:induction false} DecimalIs(d: Bytes)
    requires AllDigits(d)
    ensures DigitsValue(d) == Decimal(d)
  {
    if d != [] {
      var init, last := d[..|d| - 1], d[|d| - 1];
      DecimalIs(init);
      DecimalSnoc(init, last);
      assert d == init + [last];
    }
  }

  lemma {:induction false} TenfoldIs(r: real, n: nat)
    ensures Tenfold(r, n) == r * Pow10(n)
  {
    if n > 0 {
      TenfoldIs(r, n - 1);
      assert 10.0 * (r * Pow10(n - 1)) == r * (10.0 * Pow10(n - 1));
    }
  }

  lemma {:induction false} TenfoldTwice(r: real, m: nat, n: nat)
    ensures Tenfold(Tenfold(r, m), n) == Tenfold(r, m + n)
  {
    if n > 0 {
      TenfoldTwice(r, m, n - 1);
    }
  }

  lemma {:induction false} TenfoldMinus(r: real, n: nat)
    ensures Tenfold(-r, n) == -Tenfold(r, n)
  {
    if n > 0 {
      TenfoldMinus(r, n - 1);
    }
  }

  lemma Undivided(m: real, p: real)
    requires p > 0.0
    ensures m / p * p == m
  {
  }

  /** Scaling by a power of ten and multiplying by ten k times more. */
  lemma TenfoldScale(m: real, e: int, k: nat)
    requires e + k >= 0
    ensures Tenfold(Scale(m, e), k) == Tenfold(m, e + k)
  {
    hide Tenfold, Pow10;
    var r := Scale(m, e);
    if e >= 0 {
      TenfoldIs(m, e);
      TenfoldTwice(m, e, k);
      assert r == Tenfold(m, e);
    } else {
      Undivided(m, Pow10(-e));
      TenfoldIs(r, -e);
      TenfoldTwice(r, -e, e + k);
      assert Tenfold(r, -e) == m;
    }
  }

  lemma DigitsTogether(c: Bytes, d: Bytes)
    requires AllDigits(c) && AllDigits(d)
    ensures AllDigits(c + d)
  {
  }

  function PowerValue(p: Option<Power>): int
    requires p.Some? ==> IsPower(p.value)
  {
    if p.None? then 0
    else
      var x: int := Decimal(p.value.digits);
      if p.value.sign.Minus? then -x else x
  }

  /** Mantissa and exponent of a spelled number. */
  lemma PartsValue(n: Spelled, w: Bytes)
    requires IsNumber(n) && w == Spell(n)
    ensures AllDigits(n.whole + n.fraction) && Mantissa(w) == Decimal(n.whole + n.fraction)
    ensures FracDigits(w) == |n.fraction|
    ensures Exponent(w) == PowerValue(n.power)
  {
    hide SignEnd, IntEnd, FracEnd, FracDigits, HasExp, DigitsEnd, ExpStart, IntPart, FracPart, Spell, SpellPower,
      SpellSign, Decimal, DigitsValue, AllDigits, At;
    PartsOf(n, w);
    PowerOf(n, w);
    DigitsTogether(n.whole, n.fraction);
    DecimalIs(n.whole + n.fraction);
    if n.power.Some? {
      DecimalIs(n.power.value.digits);
    }
  }

  /**
   The value of a spelled number. Multiplied by ten for every digit behind the point it is the number that the digits
   write, multiplied by ten as often as the power says; a negative power counts on the other side.
   */
  lemma ValueOfSpelled(n: Spelled)
    requires IsNumber(n)
    ensures AllDigits(n.whole + n.fraction)
    ensures var v := ExactValue(Spell(n));
            var m := Signed(n.sign, Decimal(n.whole + n.fraction));
            match n.power
            case None => Tenfold(v, |n.fraction|) == m
            case Some(q) =>
              var x := Decimal(q.digits);
              if q.sign.Minus? then Tenfold(v, |n.fraction| + x) == m else Tenfold(v, |n.fraction|) == Tenfold(m, x)
  {
    hide Spell, Decimal, Scale, Mantissa, Exponent, FracDigits, Tenfold;
    var w := Spell(n);
    PartsValue(n, w);
    SignOf(n, w);
    var m, e, k := Mantissa(w) as real, Exponent(w) - FracDigits(w), |n.fraction|;
    var l := if n.power.Some? && n.power.value.sign.Minus? then k + Decimal(n.power.value.digits) else k;
    TenfoldScale(m, e, l);
    TenfoldMinus(Scale(m, e), l);
    TenfoldMinus(m, e + l);
    assert Tenfold(m, 0) == m by { TenfoldNone(m); }
  }

  lemma TenfoldNone(r: real)
    ensures Tenfold(r, 0) == r
  {
  }

  // ---------- integers ----------

  /** An integer is printed as an optional minus and its decimal digits, without a leading zero. */
  lemma IntegerText(n: int)
    ensures var s := Spelled(if n < 0 then Minus else NoSign, Digits(if n < 0 then -n else n), false, [], None);
            && IsNumber(s) && PrintInt(n) == Spell(s) && Signed(s.sign, Decimal(s.whole)) == n as real
            && (s.whole[0] == 48 ==> s.whole == [48])
  {
    var m: nat := if n < 0 then -n else n;
    DigitsRoundTrip(m);
    DecimalIs(Digits(m));
    NoLeadingZero(m);
    assert Digits(m) + [] == Digits(m);
  }

  lemma {:induction false} NoLeadingZero(n: nat)
    ensures Digits(n)[0] == 48 ==> n == 0 && Digits(n) == [48]
  {
    if n >= 10 {
      NoLeadingZero(n / 10);
    }
  }

  /** The bytes that parse_number copies are those that numbers are spelled with. */
  lemma NumberBytes(b: Byte)
    ensures IsNumberByte(b) <==> b in [48, 49, 50, 51, 52, 53, 54, 55, 56, 57, 43, 45, 46, 101, 69]
  {
  }
}
