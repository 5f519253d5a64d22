/** Curve points as decimal strings, as big-endian hex, and as byte arrays. */
module PointCodec {
  import opened PrimeField

  // ----- Numerals -----

  function Digit(d: nat): (c: char)
    requires d < 16
    ensures DigitValue(c) == d && IsLower(c)
    ensures d < 10 <==> '0' <= c <= '9'
  {
    "0123456789abcdef"[d]
  }

  /** The value of a digit character, or -1. */
  function DigitValue(c: char): int {
    if '0' <= c <= '9' then c as int - '0' as int
    else if 'a' <= c <= 'f' then c as int - 'a' as int + 10
    else if 'A' <= c <= 'F' then c as int - 'A' as int + 10
    else -1
  }

  predicate IsLower(c: char) {
    !('A' <= c <= 'F')
  }

  predicate AreDigits(s: string, base: nat) {
    forall i | 0 <= i < |s| :: 0 <= DigitValue(s[i]) < base
  }

  lemma DivMod(n: nat, base: nat)
    requires base >= 2
    ensures n == n / base * base + n % base && n % base < base
    ensures n >= base ==> 0 < n / base < n
    ensures n < base ==> n / base == 0 && n % base == n
  {
    if n >= base {
      var q := n / base;
      assert n == q * base + n % base;
      if q == 0 {
        assert false;
      }
      assert q * base >= 2 * q by { MulAtLeast(q, base); }
    }
  }

  lemma MulAtLeast(q: nat, base: nat)
    requires base >= 2
    ensures q * base >= 2 * q
  {
    assert q * base == q * (base - 2) + 2 * q;
  }

  /** Lower-case digits without leading zeros. */
  function Numeral(n: nat, base: nat): (s: string)
    requires 2 <= base <= 16
    ensures |s| > 0
    decreases n
  {
    DivMod(n, base);
    if n < base then [Digit(n)] else Numeral(n / base, base) + [Digit(n % base)]
  }

  function Value(s: string, base: nat): nat
    requires AreDigits(s, base)
  {
    if s == [] then 0 else Value(s[..|s| - 1], base) * base + DigitValue(s[|s| - 1])
  }

  /** Starts with a zero only if it is the single digit zero. */
  predicate NoLeadingZero(s: string) {
    |s| == 1 || (|s| > 1 && s[0] != '0')
  }

  function Zeros(n: nat): (s: string)
    ensures |s| == n && forall i | 0 <= i < n :: s[i] == '0'
  {
    seq(n, _ => '0')
  }

  function Pad(s: string, width: nat): (r: string)
    ensures |r| == if |s| < width then width else |s|
  {
    if |s| < width then Zeros(width - |s|) + s else s
  }

  function LowerChar(c: char): char {
    if 'A' <= c <= 'F' then (c as int - 'A' as int + 'a' as int) as char else c
  }

  function Lower(s: string): (r: string)
    ensures |r| == |s| && forall i | 0 <= i < |s| :: r[i] == LowerChar(s[i])
  {
    seq(|s|, i requires 0 <= i < |s| => LowerChar(s[i]))
  }

  lemma ValueSnoc(s: string, c: char, base: nat)
    requires AreDigits(s, base) && 0 <= DigitValue(c) < base
    ensures AreDigits(s + [c], base) && Value(s + [c], base) == Value(s, base) * base + DigitValue(c)
  {
    assert (s + [c])[..|s|] == s;
  }

  lemma {:induction false} ValueNumeral(n: nat, base: nat)
    requires 2 <= base <= 16
    ensures AreDigits(Numeral(n, base), base) && Value(Numeral(n, base), base) == n
    decreases n
  {
    DivMod(n, base);
    if n < base {
      ValueSnoc([], Digit(n), base);
      assert [] + [Digit(n)] == [Digit(n)];
    } else {
      ValueNumeral(n / base, base);
      ValueSnoc(Numeral(n / base, base), Digit(n % base), base);
    }
  }

  lemma {:induction false} NumeralCanonical(n: nat, base: nat)
    requires 2 <= base <= 16
    ensures NoLeadingZero(Numeral(n, base)) && (Numeral(n, base)[0] == '0' <==> n == 0)
    decreases n
  {
    DivMod(n, base);
    if n >= base {
      NumeralCanonical(n / base, base);
    }
  }

  lemma {:induction false} ValueZeros(n: nat, s: string, base: nat)
    requires AreDigits(s, base) && base > 0
    ensures AreDigits(Zeros(n) + s, base) && Value(Zeros(n) + s, base) == Value(s, base)
    decreases |s|, n
  {
    var t := Zeros(n) + s;
    if s == [] {
      assert t == Zeros(n);
      if n > 0 {
        ValueZeros(n - 1, s, base);
        assert t[..n - 1] == Zeros(n - 1) + s;
      }
    } else {
      ValueZeros(n, s[..|s| - 1], base);
      assert t[..|t| - 1] == Zeros(n) + s[..|s| - 1];
    }
  }

  lemma ValuePad(s: string, width: nat, base: nat)
    requires AreDigits(s, base) && base > 0
    ensures AreDigits(Pad(s, width), base) && Value(Pad(s, width), base) == Value(s, base)
  {
    if |s| < width {
      ValueZeros(width - |s|, s, base);
    }
  }

  lemma PadSnoc(s: string, c: char, width: nat)
    requires width > 0
    ensures Pad(s + [c], width) == Pad(s, width - 1) + [c]
  {
  }

  lemma DigitOf(c: char)
    requires DigitValue(c) >= 0
    ensures DigitValue(c) < 16 && Digit(DigitValue(c)) == LowerChar(c)
  {
  }

  lemma QuotientOf(v: nat, d: nat, base: nat, n: int)
    requires d < base && base >= 2 && n == v * base + d
    ensures n >= 0 && n / base == v && n % base == d
    ensures v > 0 ==> n >= base
  {
    MulSign(v, base);
    DivMod(n, base);
    var q, r := n / base, n % base;
    assert (q - v) * base == d - r;
    SmallMultipleIsZero(q - v, base, d - r);
    if v > 0 {
      assert v * base == (v - 1) * base + base;
      MulSign(v - 1, base);
    }
  }

  lemma AppendDigit(v: nat, d: nat, base: nat, n: nat)
    requires d < base && 2 <= base <= 16 && n == v * base + d
    ensures Numeral(n, base) == if v == 0 then [Digit(d)] else Numeral(v, base) + [Digit(d)]
  {
    QuotientOf(v, d, base, n);
  }

  lemma PadDigit(c: char, width: nat)
    requires width > 0
    ensures Pad([c], width) == Zeros(width - 1) + [c]
  {
  }

  lemma ZeroNumeral(base: nat)
    requires 2 <= base <= 16
    ensures Numeral(0, base) == ['0']
  {
  }

  lemma LowerSnoc(s: string)
    requires |s| > 0
    ensures Lower(s) == Lower(s[..|s| - 1]) + [LowerChar(s[|s| - 1])]
  {
  }

  /** Writing a value back with the original number of digits gives the digits in lower case. */
  lemma {:induction false} NumeralValue(s: string, base: nat)
    requires AreDigits(s, base) && 2 <= base <= 16 && |s| > 0
    ensures Pad(Numeral(Value(s, base), base), |s|) == Lower(s)
  {
    var t, c := s[..|s| - 1], s[|s| - 1];
    var v, d := Value(t, base), DigitValue(c);
    DigitOf(c);
    AppendDigit(v, d, base, Value(s, base));
    LowerSnoc(s);
    hide *;
    PadDigit(Digit(d), |s|);
    PadSnoc(Numeral(v, base), Digit(d), |s|);
    if t != [] {
      NumeralValue(t, base);
      if v == 0 {
        ZeroNumeral(base);
        PadDigit('0', |t|);
        ZerosSnoc(|t|);
      }
    } else {
      NoDigits(t, base);
    }
  }

  lemma ZerosSnoc(n: nat)
    requires n > 0
    ensures Zeros(n) == Zeros(n - 1) + ['0']
  {
  }

  lemma NoDigits(t: string, base: nat)
    requires t == [] && AreDigits(t, base)
    ensures Value(t, base) == 0 && Zeros(0) == Lower(t)
  {
  }

  lemma SmallMultipleIsZero(x: int, base: nat, y: int)
    requires x * base == y && 0 - base < y < base
    ensures x == 0
  {
    if x >= 1 {
      assert x * base == (x - 1) * base + base;
      MulSign(x - 1, base);
    } else if x <= -1 {
      assert x * base == -((-x - 1) * base) - base;
      MulSign(-x - 1, base);
    }
  }

  lemma MulSign(x: nat, base: nat)
    ensures x * base >= 0
  {
  }

  /** Reading and writing a decimal string changes it exactly when it has a leading zero. */
  lemma CanonicalDecimal(s: string)
    requires AreDigits(s, 10) && |s| > 0
    ensures Numeral(Value(s, 10), 10) == s <==> NoLeadingZero(s)
  {
    var n := Numeral(Value(s, 10), 10);
    NumeralValue(s, 10);
    NumeralCanonical(Value(s, 10), 10);
    assert Lower(s) == s;
    if |n| < |s| {
      assert s[0] == Pad(n, |s|)[0] == '0';
    }
  }

  /** A value has at most `width` hex digits exactly when it is below 16^width. */
  lemma {:induction false} FitsIff(n: nat, width: nat)
    requires width > 0
    ensures |Numeral(n, 16)| <= width <==> n < Pow(16, width)
    decreases width
  {
    DivMod(n, 16);
    if width == 1 {
      assert Pow(16, 1) == 16 * Pow(16, 0);
    } else if n < 16 {
      PowAtLeast(width);
    } else {
      FitsIff(n / 16, width - 1);
      Below(n, Pow(16, width - 1));
    }
  }

  lemma Below(n: nat, m: int)
    ensures n / 16 < m <==> n < 16 * m
  {
  }

  lemma {:induction false} PowAtLeast(width: nat)
    requires width > 0
    ensures Pow(16, width) >= 16
  {
    if width == 1 {
      assert Pow(16, 1) == 16 * Pow(16, 0);
    } else {
      PowAtLeast(width - 1);
    }
  }

  // ----- Positional notation -----

  lemma DigitValues(d: nat)
    requires d < 16
    ensures DigitValue("0123456789abcdef"[d]) == d && DigitValue("0123456789ABCDEF"[d]) == d
  {
  }

  /** Big-endian: digits in front weigh more by the base for every digit behind them. */
  lemma {:induction false} ValueConcat(a: string, b: string, base: nat)
    requires AreDigits(a, base) && AreDigits(b, base)
    ensures AreDigits(a + b, base) && Value(a + b, base) == Value(a, base) * Pow(base, |b|) + Value(b, base)
  {
    hide *;
    if b == [] {
      NoTail(a, b, base);
    } else {
      var n := |b| - 1;
      LastDigit(b, base);
      ValueConcat(a, b[..n], base);
      ValueSnoc(a + b[..n], b[n], base);
      assert a + b == (a + b[..n]) + [b[n]];
      Weigh(Value(a, base), Pow(base, n), Value(b[..n], base), base, DigitValue(b[n]));
    }
  }

  lemma NoTail(a: string, b: string, base: nat)
    requires b == [] && AreDigits(a, base)
    ensures AreDigits(b, base) && a + b == a && Value(b, base) == 0 && Value(a, base) * Pow(base, |b|) == Value(a, base)
  {
  }

  lemma LastDigit(s: string, base: nat)
    requires |s| > 0 && AreDigits(s, base)
    ensures var n := |s| - 1;
            && AreDigits(s[..n], base) && 0 <= DigitValue(s[n]) < base
            && Value(s, base) == Value(s[..n], base) * base + DigitValue(s[n])
            && Pow(base, |s|) == base * Pow(base, n)
  {
  }

  lemma Weigh(v: int, q: int, w: int, base: int, d: int)
    ensures (v * q + w) * base + d == v * (base * q) + (w * base + d)
  {
    assert v * (base * q) == (v * q) * base;
    assert (v * q + w) * base == (v * q) * base + w * base;
  }

  // ----- Words: 32 bytes as 64 hex digits -----

  function ParseDecimal(s: string): Option<nat> {
    if |s| > 0 && AreDigits(s, 10) then Some(Value(s, 10)) else None
  }

  function Hex(n: nat): string {
    Pad(Numeral(n, 16), 64)
  }

  function DecodeWord(h: string): Option<nat> {
    if |h| == 64 && AreDigits(h, 16) then Some(Value(h, 16)) else None
  }

  /** A decimal string without leading zeros and below 2^256. */
  ghost predicate Canonical(s: string) {
    |s| > 0 && AreDigits(s, 10) && NoLeadingZero(s) && Value(s, 10) < Pow(16, 64)
  }

  lemma WordRoundTrip(n: nat)
    ensures |Hex(n)| >= 64 && (|Hex(n)| == 64 <==> n < Pow(16, 64))
    ensures AreDigits(Hex(n), 16)
    ensures n < Pow(16, 64) ==> DecodeWord(Hex(n)) == Some(n)
  {
    hide Pow, Numeral;
    FitsIff(n, 64);
    ValueNumeral(n, 16);
    ValuePad(Numeral(n, 16), 64, 16);
  }

  lemma WordBack(h: string)
    requires |h| == 64 && AreDigits(h, 16)
    ensures Hex(Value(h, 16)) == Lower(h)
  {
    NumeralValue(h, 16);
  }

  lemma DecimalRoundTrip(n: nat)
    ensures ParseDecimal(Numeral(n, 10)) == Some(n)
  {
    ValueNumeral(n, 10);
  }

  // ----- Pairs of words -----

  function EncodePair(s: string, t: string): Option<string> {
    var x, y := ParseDecimal(s), ParseDecimal(t);
    if x.Some? && y.Some? then Some(Hex(x.value) + Hex(y.value)) else None
  }

  function DecodePair(h: string): Option<(string, string)> {
    if |h| != 128 then None
    else
      var x, y := DecodeWord(h[..64]), DecodeWord(h[64..]);
      if x.Some? && y.Some? then Some((Numeral(x.value, 10), Numeral(y.value, 10))) else None
  }

  lemma PairRoundTrip(s: string, t: string)
    requires EncodePair(s, t).Some?
    ensures |EncodePair(s, t).value| >= 128
    ensures DecodePair(EncodePair(s, t).value) == Some((s, t)) <==> Canonical(s) && Canonical(t)
    ensures |EncodePair(s, t).value| == 128 <==> Value(s, 10) < Pow(16, 64) && Value(t, 10) < Pow(16, 64)
  {
    var x, y := Value(s, 10), Value(t, 10);
    CanonicalDecimal(s);
    CanonicalDecimal(t);
    WordRoundTrip(x);
    WordRoundTrip(y);
    hide Pow, Numeral, Hex, Value, NoLeadingZero, DecodeWord;
    var h := Hex(x) + Hex(y);
    if |h| == 128 {
      assert h[..64] == Hex(x) && h[64..] == Hex(y);
    }
  }

  /** Exactly the strings of 128 hex digits decode, and encoding gives them back in lower case. */
  lemma PairBack(h: string)
    requires |h| == 128
    ensures DecodePair(h).Some? <==> AreDigits(h, 16)
    ensures DecodePair(h).Some? ==> EncodePair(DecodePair(h).value.0, DecodePair(h).value.1) == Some(Lower(h))
  {
    var a, b := h[..64], h[64..];
    assert h == a + b;
    DigitsConcat(a, b, 16);
    hide Value, Hex, Numeral, AreDigits, ParseDecimal, Lower;
    if AreDigits(h, 16) {
      WordBack(a);
      WordBack(b);
      DecimalRoundTrip(Value(a, 16));
      DecimalRoundTrip(Value(b, 16));
      LowerConcat(a, b);
    }
  }

  lemma DigitsConcat(a: string, b: string, base: nat)
    ensures AreDigits(a + b, base) <==> AreDigits(a, base) && AreDigits(b, base)
  {
    var h := a + b;
    assert forall i | 0 <= i < |a| :: h[i] == a[i];
    assert forall i | 0 <= i < |b| :: h[|a| + i] == b[i];
  }

  lemma LowerConcat(a: string, b: string)
    ensures Lower(a + b) == Lower(a) + Lower(b)
  {
  }

  // ----- Points -----

  /** A snarkjs point [x, y, z]; only the first two coordinates are encoded. */
  type G1 = seq<string>

  /** A snarkjs point [[x.c0, x.c1], [y.c0, y.c1], [z.c0, z.c1]]. */
  type G2 = seq<seq<string>>

  /** x || y, or None where the program throws. */
  function ConvertG1(p: G1): Option<string> {
    if |p| < 2 then None else EncodePair(p[0], p[1])
  }

  /** x.c1 || x.c0 || y.c1 || y.c0: imaginary before real. */
  function ConvertG2(p: G2): Option<string> {
    if |p| < 2 || |p[0]| < 2 || |p[1]| < 2 then None
    else
      var x, y := EncodePair(p[0][1], p[0][0]), EncodePair(p[1][1], p[1][0]);
      if x.Some? && y.Some? then Some(x.value + y.value) else None
  }

  function DecodeG1(h: string): Option<G1> {
    var pair := DecodePair(h);
    if pair.Some? then Some([pair.value.0, pair.value.1, "1"]) else None
  }

  function DecodeG2(h: string): Option<G2> {
    if |h| != 256 then None
    else
      var x, y := DecodePair(h[..128]), DecodePair(h[128..]);
      if x.Some? && y.Some? then
        Some([[x.value.1, x.value.0], [y.value.1, y.value.0], ["1", "0"]])
      else None
  }

  /** An affine point in canonical decimal form. */
  ghost predicate CanonicalG1(p: G1) {
    |p| == 3 && Canonical(p[0]) && Canonical(p[1]) && p[2] == "1"
  }

  ghost predicate CanonicalG2(p: G2) {
    && |p| == 3 && |p[0]| == 2 && |p[1]| == 2 && p[2] == ["1", "0"]
    && Canonical(p[0][0]) && Canonical(p[0][1]) && Canonical(p[1][0]) && Canonical(p[1][1])
  }

  ghost predicate RoundTripsG1(p: G1) {
    ConvertG1(p).Some? && DecodeG1(ConvertG1(p).value) == Some(p)
  }

  ghost predicate RoundTripsG2(p: G2) {
    ConvertG2(p).Some? && DecodeG2(ConvertG2(p).value) == Some(p)
  }

  /** Decoding an encoded point gives it back exactly when it is affine, canonical and below 2^256. */
  lemma G1RoundTrip(p: G1)
    ensures RoundTripsG1(p) <==> CanonicalG1(p)
  {
    hide EncodePair, DecodePair, Canonical;
    if |p| >= 2 {
      PairDefined(p[0], p[1]);
      if EncodePair(p[0], p[1]).Some? {
        PairRoundTrip(p[0], p[1]);
        if |p| == 3 {
          assert p == [p[0], p[1], p[2]];
        }
      }
    }
  }

  lemma PairDefined(s: string, t: string)
    ensures Canonical(s) && Canonical(t) ==> EncodePair(s, t).Some?
  {
    hide Pow, Value;
  }

  lemma G2RoundTrip(p: G2)
    ensures RoundTripsG2(p) <==> CanonicalG2(p)
  {
    hide EncodePair, DecodePair, Canonical;
    if |p| >= 2 && |p[0]| >= 2 && |p[1]| >= 2 {
      var x, y := EncodePair(p[0][1], p[0][0]), EncodePair(p[1][1], p[1][0]);
      PairDefined(p[0][1], p[0][0]);
      PairDefined(p[1][1], p[1][0]);
      if x.Some? && y.Some? {
        PairRoundTrip(p[0][1], p[0][0]);
        PairRoundTrip(p[1][1], p[1][0]);
        Halves(x.value, y.value);
        if DecodePair(x.value).Some? && DecodePair(y.value).Some? {
          Reassemble(p, DecodePair(x.value), DecodePair(y.value));
        }
        CanonicalLength(p[0][1], p[0][0]);
        CanonicalLength(p[1][1], p[1][0]);
      }
    }
  }

  lemma Halves(x: string, y: string)
    requires |x| >= 128 && |y| >= 128
    ensures |x + y| == 256 <==> |x| == 128 && |y| == 128
    ensures |x| == 128 ==> (x + y)[..128] == x && (x + y)[128..] == y
  {
  }

  /** A decoded point is p exactly when both pairs decode to p's coordinates and p has the affine shape. */
  lemma Reassemble(p: G2, x: Option<(string, string)>, y: Option<(string, string)>)
    requires |p| >= 2 && |p[0]| >= 2 && |p[1]| >= 2 && x.Some? && y.Some?
    ensures [[x.value.1, x.value.0], [y.value.1, y.value.0], ["1", "0"]] == p <==>
            && x == Some((p[0][1], p[0][0])) && y == Some((p[1][1], p[1][0]))
            && |p| == 3 && |p[0]| == 2 && |p[1]| == 2 && p[2] == ["1", "0"]
  {
    var q := [[x.value.1, x.value.0], [y.value.1, y.value.0], ["1", "0"]];
    if |p| == 3 && |p[0]| == 2 && |p[1]| == 2 {
      assert p == [p[0], p[1], p[2]] && p[0] == [p[0][0], p[0][1]] && p[1] == [p[1][0], p[1][1]];
      assert q == p <==> q[0] == p[0] && q[1] == p[1] && q[2] == p[2];
      assert q[0] == p[0] <==> q[0][0] == p[0][0] && q[0][1] == p[0][1];
      assert q[1] == p[1] <==> q[1][0] == p[1][0] && q[1][1] == p[1][1];
    }
  }

  lemma CanonicalLength(s: string, t: string)
    requires EncodePair(s, t).Some?
    ensures Canonical(s) && Canonical(t) ==> |EncodePair(s, t).value| == 128
  {
    PairRoundTrip(s, t);
  }

  /** Exactly the strings of 128 hex digits decode to a G1 point, which encodes to the same string in lower case. */
  lemma G1Back(h: string)
    ensures DecodeG1(h).Some? <==> |h| == 128 && AreDigits(h, 16)
    ensures DecodeG1(h).Some? ==> ConvertG1(DecodeG1(h).value) == Some(Lower(h))
  {
    if |h| == 128 {
      PairBack(h);
    }
  }

  lemma G2Back(h: string)
    ensures DecodeG2(h).Some? <==> |h| == 256 && AreDigits(h, 16)
    ensures DecodeG2(h).Some? ==> ConvertG2(DecodeG2(h).value) == Some(Lower(h))
  {
    if |h| == 256 {
      var a, b := h[..128], h[128..];
      assert h == a + b;
      hide AreDigits, EncodePair, DecodePair, Lower;
      PairBack(a);
      PairBack(b);
      DigitsConcat(a, b, 16);
      LowerConcat(a, b);
    }
  }

  // ----- Where the coordinates are -----

  /** A decimal string below 2^256. */
  ghost predicate Fits(s: string) {
    |s| > 0 && AreDigits(s, 10) && Value(s, 10) < Pow(16, 64)
  }

  /** 64 hex digits, big-endian, with the value of the decimal string. */
  ghost predicate IsWord(h: string, s: string)
    requires AreDigits(s, 10)
  {
    |h| == 64 && AreDigits(h, 16) && Value(h, 16) == Value(s, 10)
  }

  /** x in the first word, y in the second. */
  ghost predicate LaysOutG1(h: string, p: G1) {
    && |p| >= 2 && Fits(p[0]) && Fits(p[1])
    && |h| == 128 && IsWord(h[0..64], p[0]) && IsWord(h[64..128], p[1])
  }

  /** Imaginary before real, in x and in y. */
  ghost predicate LaysOutG2(h: string, p: G2) {
    && |p| >= 2 && |p[0]| >= 2 && |p[1]| >= 2 && Fits(p[0][0]) && Fits(p[0][1]) && Fits(p[1][0]) && Fits(p[1][1])
    && |h| == 256 && IsWord(h[0..64], p[0][1]) && IsWord(h[64..128], p[0][0])
    && IsWord(h[128..192], p[1][1]) && IsWord(h[192..256], p[1][0])
  }

  ghost predicate FitsG1(p: G1) {
    |p| >= 2 && Fits(p[0]) && Fits(p[1])
  }

  ghost predicate FitsG2(p: G2) {
    |p| >= 2 && |p[0]| >= 2 && |p[1]| >= 2 && Fits(p[0][0]) && Fits(p[0][1]) && Fits(p[1][0]) && Fits(p[1][1])
  }

  lemma PairLayout(s: string, t: string)
    requires Fits(s) && Fits(t)
    ensures EncodePair(s, t).Some?
    ensures var h := EncodePair(s, t).value; |h| == 128 && IsWord(h[..64], s) && IsWord(h[64..], t)
  {
    WordRoundTrip(Value(s, 10));
    WordRoundTrip(Value(t, 10));
    hide Pow, Value, Hex;
    var a, b := Hex(Value(s, 10)), Hex(Value(t, 10));
    assert (a + b)[..64] == a && (a + b)[64..] == b;
  }

  lemma G1Layout(p: G1)
    requires FitsG1(p)
    ensures ConvertG1(p).Some? && LaysOutG1(ConvertG1(p).value, p)
  {
    PairLayout(p[0], p[1]);
    hide EncodePair, IsWord, Fits;
    var h := EncodePair(p[0], p[1]).value;
    assert h[0..64] == h[..64] && h[64..128] == h[64..];
  }

  lemma G2Layout(p: G2)
    requires FitsG2(p)
    ensures ConvertG2(p).Some? && LaysOutG2(ConvertG2(p).value, p)
  {
    PairLayout(p[0][1], p[0][0]);
    PairLayout(p[1][1], p[1][0]);
    hide EncodePair, IsWord, Fits;
    FourWords(EncodePair(p[0][1], p[0][0]).value, EncodePair(p[1][1], p[1][0]).value);
  }

  lemma FourWords(x: string, y: string)
    requires |x| == 128 && |y| == 128
    ensures (x + y)[0..64] == x[..64] && (x + y)[64..128] == x[64..]
    ensures (x + y)[128..192] == y[..64] && (x + y)[192..256] == y[64..]
  {
  }

  // ----- Proofs and verification keys -----

  datatype Proof = Proof(piA: G1, piB: G2, piC: G1)

  datatype SorobanProof = SorobanProof(a: string, b: string, c: string)

  datatype VKey = VKey(alpha: G1, beta: G2, gamma: G2, delta: G2, ic: seq<G1>)

  datatype SorobanVKey = SorobanVKey(alpha: string, beta: string, gamma: string, delta: string, ic: seq<string>)

  function ConvertProof(p: Proof): Option<SorobanProof> {
    var a, b, c := ConvertG1(p.piA), ConvertG2(p.piB), ConvertG1(p.piC);
    if a.Some? && b.Some? && c.Some? then Some(SorobanProof(a.value, b.value, c.value)) else None
  }

  function DecodeProof(s: SorobanProof): Option<Proof> {
    var a, b, c := DecodeG1(s.a), DecodeG2(s.b), DecodeG1(s.c);
    if a.Some? && b.Some? && c.Some? then Some(Proof(a.value, b.value, c.value)) else None
  }

  function ConvertAll(points: seq<G1>): Option<seq<string>> {
    if points == [] then Some([])
    else
      var first, rest := ConvertG1(points[0]), ConvertAll(points[1..]);
      if first.Some? && rest.Some? then Some([first.value] + rest.value) else None
  }

  function DecodeAll(hexes: seq<string>): Option<seq<G1>> {
    if hexes == [] then Some([])
    else
      var first, rest := DecodeG1(hexes[0]), DecodeAll(hexes[1..]);
      if first.Some? && rest.Some? then Some([first.value] + rest.value) else None
  }

  function ConvertVKey(k: VKey): Option<SorobanVKey> {
    var alpha, beta, gamma, delta := ConvertG1(k.alpha), ConvertG2(k.beta), ConvertG2(k.gamma), ConvertG2(k.delta);
    var ic := ConvertAll(k.ic);
    if ic.Some? && alpha.Some? && beta.Some? && gamma.Some? && delta.Some? then
      Some(SorobanVKey(alpha.value, beta.value, gamma.value, delta.value, ic.value))
    else None
  }

  function DecodeVKey(s: SorobanVKey): Option<VKey> {
    var alpha, beta, gamma, delta := DecodeG1(s.alpha), DecodeG2(s.beta), DecodeG2(s.gamma), DecodeG2(s.delta);
    var ic := DecodeAll(s.ic);
    if ic.Some? && alpha.Some? && beta.Some? && gamma.Some? && delta.Some? then
      Some(VKey(alpha.value, beta.value, gamma.value, delta.value, ic.value))
    else None
  }

  /** Each field of an encoded proof lays out the point of the same name. */
  lemma ProofLayout(p: Proof)
    requires FitsG1(p.piA) && FitsG2(p.piB) && FitsG1(p.piC)
    ensures ConvertProof(p).Some?
    ensures var s := ConvertProof(p).value;
            LaysOutG1(s.a, p.piA) && LaysOutG2(s.b, p.piB) && LaysOutG1(s.c, p.piC)
  {
    G1Layout(p.piA);
    G2Layout(p.piB);
    G1Layout(p.piC);
    hide ConvertG1, ConvertG2, LaysOutG1, LaysOutG2, FitsG1, FitsG2;
  }

  lemma {:induction false} AllLayout(points: seq<G1>)
    requires forall i | 0 <= i < |points| :: FitsG1(points[i])
    ensures ConvertAll(points).Some? && |ConvertAll(points).value| == |points|
    ensures forall i | 0 <= i < |points| :: LaysOutG1(ConvertAll(points).value[i], points[i])
  {
    hide ConvertG1, LaysOutG1, FitsG1;
    if points != [] {
      G1Layout(points[0]);
      AllLayout(points[1..]);
    }
  }

  /** Each field of an encoded key lays out the point of the same name. */
  lemma VKeyLayout(k: VKey)
    requires FitsG1(k.alpha) && FitsG2(k.beta) && FitsG2(k.gamma) && FitsG2(k.delta)
    requires forall i | 0 <= i < |k.ic| :: FitsG1(k.ic[i])
    ensures ConvertVKey(k).Some?
    ensures var s := ConvertVKey(k).value;
            && LaysOutG1(s.alpha, k.alpha) && LaysOutG2(s.beta, k.beta) && LaysOutG2(s.gamma, k.gamma)
            && LaysOutG2(s.delta, k.delta) && |s.ic| == |k.ic|
            && forall i | 0 <= i < |k.ic| :: LaysOutG1(s.ic[i], k.ic[i])
  {
    G1Layout(k.alpha);
    G2Layout(k.beta);
    G2Layout(k.gamma);
    G2Layout(k.delta);
    AllLayout(k.ic);
    hide ConvertG1, ConvertG2, ConvertAll, LaysOutG1, LaysOutG2, FitsG1, FitsG2;
  }

  function LowerAll(hexes: seq<string>): seq<string> {
    if hexes == [] then [] else [Lower(hexes[0])] + LowerAll(hexes[1..])
  }

  /** A proof survives the round trip exactly when its three points are canonical. */
  lemma ProofRoundTrip(p: Proof)
    ensures ConvertProof(p).Some? && DecodeProof(ConvertProof(p).value) == Some(p) <==>
            CanonicalG1(p.piA) && CanonicalG2(p.piB) && CanonicalG1(p.piC)
  {
    G1RoundTrip(p.piA);
    G2RoundTrip(p.piB);
    G1RoundTrip(p.piC);
    hide CanonicalG1, CanonicalG2, ConvertG1, ConvertG2, DecodeG1, DecodeG2;
  }

  /** A Soroban proof that decodes is encoded again as its own lower-case form. */
  lemma ProofBack(s: SorobanProof)
    requires DecodeProof(s).Some?
    ensures ConvertProof(DecodeProof(s).value) == Some(SorobanProof(Lower(s.a), Lower(s.b), Lower(s.c)))
  {
    G1Back(s.a);
    G2Back(s.b);
    G1Back(s.c);
    hide ConvertG1, ConvertG2, DecodeG1, DecodeG2, Lower, AreDigits;
  }

  lemma {:induction false} AllRoundTrip(points: seq<G1>)
    ensures ConvertAll(points).Some? && DecodeAll(ConvertAll(points).value) == Some(points) <==>
            forall i | 0 <= i < |points| :: CanonicalG1(points[i])
  {
    hide CanonicalG1, ConvertG1, DecodeG1;
    if points == [] {
    } else {
      var p, rest := points[0], points[1..];
      AllRoundTrip(rest);
      FirstRoundTrips(p);
      assert points == [p] + rest;
      if ConvertG1(p).Some? && ConvertAll(rest).Some? {
        assert ([ConvertG1(p).value] + ConvertAll(rest).value)[1..] == ConvertAll(rest).value;
      }
    }
  }

  lemma FirstRoundTrips(p: G1)
    ensures ConvertG1(p).Some? && DecodeG1(ConvertG1(p).value) == Some(p) <==> CanonicalG1(p)
  {
    G1RoundTrip(p);
  }

  lemma {:induction false} AllBack(hexes: seq<string>)
    requires DecodeAll(hexes).Some?
    ensures ConvertAll(DecodeAll(hexes).value) == Some(LowerAll(hexes))
  {
    if hexes == [] {
    } else {
      hide ConvertG1, DecodeG1, Lower, AreDigits;
      var first, rest := DecodeG1(hexes[0]), DecodeAll(hexes[1..]);
      G1Back(hexes[0]);
      AllBack(hexes[1..]);
      assert ([first.value] + rest.value)[1..] == rest.value;
    }
  }

  lemma VKeyRoundTrip(k: VKey)
    ensures ConvertVKey(k).Some? && DecodeVKey(ConvertVKey(k).value) == Some(k) <==>
            && CanonicalG1(k.alpha) && CanonicalG2(k.beta) && CanonicalG2(k.gamma) && CanonicalG2(k.delta)
            && forall i | 0 <= i < |k.ic| :: CanonicalG1(k.ic[i])
  {
    G1RoundTrip(k.alpha);
    G2RoundTrip(k.beta);
    G2RoundTrip(k.gamma);
    G2RoundTrip(k.delta);
    AllRoundTrip(k.ic);
    hide CanonicalG1, CanonicalG2, ConvertG1, ConvertG2, DecodeG1, DecodeG2, ConvertAll, DecodeAll;
  }

  lemma VKeyBack(s: SorobanVKey)
    requires DecodeVKey(s).Some?
    ensures ConvertVKey(DecodeVKey(s).value) ==
            Some(SorobanVKey(Lower(s.alpha), Lower(s.beta), Lower(s.gamma), Lower(s.delta), LowerAll(s.ic)))
  {
    G1Back(s.alpha);
    G2Back(s.beta);
    G2Back(s.gamma);
    G2Back(s.delta);
    AllBack(s.ic);
    hide ConvertG1, ConvertG2, DecodeG1, DecodeG2, Lower, AreDigits, ConvertAll, DecodeAll, LowerAll;
  }

  // ----- The byte-array encoders -----

  function Chunk(hex: string, i: nat): string
    requires i < |hex|
  {
    if i + 2 <= |hex| then hex[i..i + 2] else hex[i..]
  }

  function BytesOf(hex: string, i: nat): seq<nat>
    requires AreDigits(hex, 16)
    decreases |hex| - i
  {
    if i >= |hex| then [] else [Value(Chunk(hex, i), 16)] + BytesOf(hex, i + 2)
  }

  function ByteHex(b: nat): string {
    Pad(Numeral(b, 16), 2)
  }

  function ToHexString(bytes: seq<nat>): string {
    if bytes == [] then [] else ByteHex(bytes[0]) + ToHexString(bytes[1..])
  }

  predicate IsLowerCase(s: string) {
    forall i | 0 <= i < |s| :: IsLower(s[i])
  }

  lemma ByteBack(chunk: string)
    requires AreDigits(chunk, 16) && IsLowerCase(chunk) && 0 < |chunk| <= 2
    ensures |ByteHex(Value(chunk, 16))| == 2
    ensures |chunk| == 2 ==> ByteHex(Value(chunk, 16)) == chunk
  {
    NumeralValue(chunk, 16);
    assert |Pad(Numeral(Value(chunk, 16), 16), |chunk|)| == |chunk|;
    assert Lower(chunk) == chunk;
  }

  lemma ToHexCons(b: nat, rest: seq<nat>)
    ensures ToHexString([b] + rest) == ByteHex(b) + ToHexString(rest)
  {
    assert ([b] + rest)[1..] == rest;
  }

  lemma ChunkOf(hex: string, i: nat)
    requires AreDigits(hex, 16) && IsLowerCase(hex) && i < |hex|
    ensures var chunk := Chunk(hex, i);
            && AreDigits(chunk, 16) && IsLowerCase(chunk) && 0 < |chunk| <= 2
            && (i + 2 <= |hex| ==> |chunk| == 2 && hex[i..] == chunk + hex[i + 2..])
  {
  }

  lemma FirstByte(hex: string, i: nat)
    requires AreDigits(hex, 16) && IsLowerCase(hex) && i + 2 <= |hex|
    ensures ToHexString(BytesOf(hex, i)) == hex[i..i + 2] + ToHexString(BytesOf(hex, i + 2))
  {
    hide ByteHex, Value, ToHexString, BytesOf, AreDigits, IsLowerCase;
    ChunkOf(hex, i);
    ByteBack(Chunk(hex, i));
    BytesNext(hex, i);
    ToHexCons(Value(Chunk(hex, i), 16), BytesOf(hex, i + 2));
  }

  /** Chunking into m bytes and printing them back: exact for an even number of digits. */
  lemma {:induction false} EvenBack(hex: string, i: nat, m: nat)
    requires AreDigits(hex, 16) && IsLowerCase(hex) && |hex| == i + 2 * m
    ensures ToHexString(BytesOf(hex, i)) == hex[i..]
    decreases m
  {
    hide ToHexString, BytesOf, AreDigits, IsLowerCase;
    if m > 0 {
      FirstByte(hex, i);
      EvenBack(hex, i + 2, m - 1);
    } else {
      BytesEnd(hex, i);
      NoBytes();
    }
  }

  /** For an odd number of digits the last byte prints with a leading zero of its own. */
  lemma {:induction false} OddBack(hex: string, i: nat, m: nat)
    requires AreDigits(hex, 16) && IsLowerCase(hex) && |hex| == i + 2 * m + 1
    ensures |ToHexString(BytesOf(hex, i))| == 2 * m + 2
    decreases m
  {
    hide ToHexString, BytesOf, AreDigits, IsLowerCase, Value, ByteHex;
    if m > 0 {
      FirstByte(hex, i);
      OddBack(hex, i + 2, m - 1);
    } else {
      ChunkOf(hex, i);
      ByteBack(Chunk(hex, i));
      BytesNext(hex, i);
      BytesEnd(hex, i + 2);
      ToHexCons(Value(Chunk(hex, i), 16), []);
      NoBytes();
    }
  }

  lemma NoBytes()
    ensures ToHexString([]) == []
  {
  }

  lemma {:induction false} NumeralLower(n: nat, base: nat)
    requires 2 <= base <= 16
    ensures IsLowerCase(Numeral(n, base))
    decreases n
  {
    DivMod(n, base);
    if n >= base {
      NumeralLower(n / base, base);
    }
  }

  lemma PaddedDigits(n: nat, width: nat)
    ensures AreDigits(Pad(Numeral(n, 16), width), 16) && IsLowerCase(Pad(Numeral(n, 16), width))
  {
    ValueNumeral(n, 16);
    NumeralLower(n, 16);
    ValuePad(Numeral(n, 16), width, 16);
  }

  lemma BytesExact(n: nat, width: nat)
    ensures AreDigits(Pad(Numeral(n, 16), width), 16)
    ensures var hex := Pad(Numeral(n, 16), width);
            && (ToHexString(BytesOf(hex, 0)) == hex <==> |hex| % 2 == 0)
            && |ToHexString(BytesOf(hex, 0))| == |hex| + |hex| % 2
  {
    PaddedDigits(n, width);
    var hex := Pad(Numeral(n, 16), width);
    hide ToHexString, BytesOf, AreDigits, IsLowerCase, Pad, Numeral;
    if |hex| % 2 == 0 {
      EvenBack(hex, 0, |hex| / 2);
      assert hex[0..] == hex;
    } else {
      OddBack(hex, 0, |hex| / 2);
    }
  }

  /** The bytes read as a big-endian number. */
  function BytesValue(bytes: seq<nat>): nat {
    if bytes == [] then 0 else BytesValue(bytes[..|bytes| - 1]) * 256 + bytes[|bytes| - 1]
  }

  lemma {:induction false} BytesValueCons(b: nat, rest: seq<nat>)
    ensures BytesValue([b] + rest) == b * Pow(256, |rest|) + BytesValue(rest)
  {
    if rest == [] {
      assert [b] + rest == [b] && [b][..0] == [];
    } else {
      var n := |rest| - 1;
      BytesValueCons(b, rest[..n]);
      assert ([b] + rest)[..|rest|] == [b] + rest[..n];
      assert Pow(256, |rest|) == 256 * Pow(256, n);
      var v, q, w := BytesValue([b] + rest[..n]), Pow(256, n), BytesValue(rest[..n]);
      assert BytesValue([b] + rest) == v * 256 + rest[n] && BytesValue(rest) == w * 256 + rest[n];
      hide *;
      Weigh(b, q, w, 256, rest[n]);
    }
  }

  lemma {:induction false} PowBytes(m: nat)
    ensures Pow(16, 2 * m) == Pow(256, m)
  {
    if m > 0 {
      PowBytes(m - 1);
      assert Pow(16, 2 * m) == 16 * Pow(16, 2 * m - 1);
    }
  }

  ghost predicate AreBytes(bytes: seq<nat>) {
    forall i | 0 <= i < |bytes| :: bytes[i] < 256
  }

  lemma ChunkBelow(chunk: string)
    requires AreDigits(chunk, 16) && |chunk| <= 2
    ensures Value(chunk, 16) < 256
  {
    if |chunk| > 0 {
      assert Value(chunk[..|chunk| - 1], 16) < 16 by {
        if |chunk| == 2 {
          assert chunk[..1][..0] == [];
        }
      }
    }
  }

  /** An even number of digits is kept: half as many bytes, with the same value. */
  lemma {:induction false} BytesKeepValue(hex: string, i: nat, m: nat)
    requires AreDigits(hex, 16) && |hex| == i + 2 * m
    ensures |BytesOf(hex, i)| == m && AreBytes(BytesOf(hex, i)) && AreDigits(hex[i..], 16)
    ensures BytesValue(BytesOf(hex, i)) == Value(hex[i..], 16)
    decreases m
  {
    hide *;
    if m == 0 {
      NoBytesValue(hex, i);
    } else {
      BytesKeepValue(hex, i + 2, m - 1);
      BytesNext(hex, i);
      FullChunk(hex, i);
      var chunk, rest := Chunk(hex, i), hex[i + 2..];
      ValueConcat(chunk, rest, 16);
      BytesValueCons(Value(chunk, 16), BytesOf(hex, i + 2));
      PowBytes(m - 1);
      ChunkBelow(chunk);
      FirstIsByte(Value(chunk, 16), BytesOf(hex, i + 2));
    }
  }

  lemma NoBytesValue(hex: string, i: nat)
    requires AreDigits(hex, 16) && |hex| == i
    ensures BytesOf(hex, i) == [] && AreBytes([]) && BytesValue([]) == 0
    ensures AreDigits(hex[i..], 16) && Value(hex[i..], 16) == 0
  {
  }

  lemma FullChunk(hex: string, i: nat)
    requires i + 2 <= |hex|
    ensures |Chunk(hex, i)| == 2 && hex[i..] == Chunk(hex, i) + hex[i + 2..]
  {
  }

  lemma FirstIsByte(b: nat, rest: seq<nat>)
    requires b < 256 && AreBytes(rest)
    ensures AreBytes([b] + rest)
  {
  }

  lemma BytesOfFitting(n: nat, length: nat)
    ensures var hex := Pad(Numeral(n, 16), 2 * length);
            && AreDigits(hex, 16)
            && (length > 0 && n < Pow(16, 2 * length) ==>
                  && |BytesOf(hex, 0)| == length && AreBytes(BytesOf(hex, 0))
                  && BytesValue(BytesOf(hex, 0)) == n)
  {
    hide *;
    ValueNumeral(n, 16);
    ValuePad(Numeral(n, 16), 2 * length, 16);
    var hex := Pad(Numeral(n, 16), 2 * length);
    if length > 0 && n < Pow(16, 2 * length) {
      FitsIff(n, 2 * length);
      BytesKeepValue(hex, 0, length);
      assert hex[0..] == hex;
    }
  }

  /**
   * A number that fits is written big-endian on exactly that many bytes; whatever the length, the bytes print as the
   * padded numeral exactly when it has an even number of digits.
   */
  method BigintToBytes(n: nat, length: nat) returns (bytes: seq<nat>)
    ensures var hex := Pad(Numeral(n, 16), 2 * length);
            && AreDigits(hex, 16) && bytes == BytesOf(hex, 0)
            && (ToHexString(bytes) == hex <==> |hex| % 2 == 0)
            && |ToHexString(bytes)| == |hex| + |hex| % 2
    ensures length > 0 && n < Pow(16, 2 * length) ==>
              |bytes| == length && AreBytes(bytes) && BytesValue(bytes) == n
  {
    hide *;
    BytesExact(n, 2 * length);
    BytesOfFitting(n, length);
    var hex := Pad(Numeral(n, 16), 2 * length);
    bytes := [];
    var i := 0;
    while i < |hex|
      invariant 0 <= i && bytes + BytesOf(hex, i) == BytesOf(hex, 0)
    {
      BytesNext(hex, i);
      var byte := Value(Chunk(hex, i), 16);
      assert (bytes + [byte]) + BytesOf(hex, i + 2) == bytes + ([byte] + BytesOf(hex, i + 2));
      bytes := bytes + [byte];
      i := i + 2;
    }
    BytesEnd(hex, i);
  }

  lemma BytesNext(hex: string, i: nat)
    requires AreDigits(hex, 16) && i < |hex|
    ensures AreDigits(Chunk(hex, i), 16) && BytesOf(hex, i) == [Value(Chunk(hex, i), 16)] + BytesOf(hex, i + 2)
  {
  }

  lemma BytesEnd(hex: string, i: nat)
    requires AreDigits(hex, 16) && i >= |hex|
    ensures BytesOf(hex, i) == []
  {
  }

  lemma Assoc(a: string, b: string, c: string)
    ensures a + (b + c) == (a + b) + c
  {
  }

  lemma {:induction false} ToHexConcat(a: seq<nat>, b: seq<nat>)
    ensures ToHexString(a + b) == ToHexString(a) + ToHexString(b)
  {
    hide ByteHex;
    if a == [] {
      assert a + b == b;
    } else {
      ToHexConcat(a[1..], b);
      assert (a + b)[1..] == a[1..] + b;
      Assoc(ByteHex(a[0]), ToHexString(a[1..]), ToHexString(b));
    }
  }

  /** Both padded hex numerals have an even number of digits. */
  ghost predicate EvenPair(s: string, t: string)
    requires EncodePair(s, t).Some?
  {
    |Hex(Value(s, 10))| % 2 == 0 && |Hex(Value(t, 10))| % 2 == 0
  }

  /** In particular for coordinates below 2^256. */
  lemma FittingIsEven(s: string, t: string)
    requires EncodePair(s, t).Some? && Value(s, 10) < Pow(16, 64) && Value(t, 10) < Pow(16, 64)
    ensures EvenPair(s, t)
  {
    hide Pow, Numeral, Pad, Value;
    WordRoundTrip(Value(s, 10));
    WordRoundTrip(Value(t, 10));
  }

  lemma SameConcat(a: string, b: string, c: string, d: string)
    requires |a| >= |c| && |b| >= |d|
    ensures a + b == c + d <==> a == c && b == d
  {
    if a + b == c + d {
      assert |a + b| == |a| + |b| && |c + d| == |c| + |d|;
      assert a == (a + b)[..|a|] && b == (a + b)[|a|..];
      assert c == (c + d)[..|c|] && d == (c + d)[|c|..];
    }
  }

  /** Throws where the hex encoder does, and prints as its output exactly when the numerals have even lengths. */
  method PairToBytes(s: string, t: string) returns (bytes: Option<seq<nat>>)
    ensures bytes.Some? <==> EncodePair(s, t).Some?
    ensures bytes.Some? ==> (ToHexString(bytes.value) == EncodePair(s, t).value <==> EvenPair(s, t))
    ensures bytes.Some? ==> |ToHexString(bytes.value)| >= |EncodePair(s, t).value|
    ensures Fits(s) && Fits(t) ==> bytes.Some? && |bytes.value| == 64 && AreBytes(bytes.value)
    ensures Fits(s) && Fits(t) ==>
              BytesValue(bytes.value[..32]) == Value(s, 10) && BytesValue(bytes.value[32..]) == Value(t, 10)
  {
    hide Numeral, Pad, BytesOf, ToHexString, Value, AreDigits, Pow, BytesValue;
    var x, y := ParseDecimal(s), ParseDecimal(t);
    if x.None? || y.None? {
      return None;
    }
    var a := BigintToBytes(x.value, 32);
    var b := BigintToBytes(y.value, 32);
    bytes := Some(a + b);
    assert (a + b)[..|a|] == a && (a + b)[|a|..] == b;
    ToHexConcat(a, b);
    SameConcat(ToHexString(a), ToHexString(b), Hex(x.value), Hex(y.value));
  }

  method G1ToBytes(p: G1) returns (bytes: Option<seq<nat>>)
    ensures bytes.Some? <==> ConvertG1(p).Some?
    ensures bytes.Some? ==> (ToHexString(bytes.value) == ConvertG1(p).value <==> EvenPair(p[0], p[1]))
    ensures FitsG1(p) ==> bytes.Some? && |bytes.value| == 64 && AreBytes(bytes.value)
    ensures FitsG1(p) ==> BytesValue(bytes.value[0..32]) == Value(p[0], 10) &&
                          BytesValue(bytes.value[32..64]) == Value(p[1], 10)
  {
    hide BytesValue, ToHexString, EvenPair, EncodePair;
    if |p| < 2 {
      return None;
    }
    bytes := PairToBytes(p[0], p[1]);
    if bytes.Some? && |bytes.value| == 64 {
      assert bytes.value[0..32] == bytes.value[..32] && bytes.value[32..64] == bytes.value[32..];
    }
  }

  method G2ToBytes(p: G2) returns (bytes: Option<seq<nat>>)
    ensures bytes.Some? <==> ConvertG2(p).Some?
    ensures bytes.Some? ==> (ToHexString(bytes.value) == ConvertG2(p).value <==>
                             EvenPair(p[0][1], p[0][0]) && EvenPair(p[1][1], p[1][0]))
    ensures FitsG2(p) ==> bytes.Some? && |bytes.value| == 128 && AreBytes(bytes.value)
    ensures FitsG2(p) ==> BytesValue(bytes.value[0..32]) == Value(p[0][1], 10) &&
                          BytesValue(bytes.value[32..64]) == Value(p[0][0], 10) &&
                          BytesValue(bytes.value[64..96]) == Value(p[1][1], 10) &&
                          BytesValue(bytes.value[96..128]) == Value(p[1][0], 10)
  {
    if |p| < 2 || |p[0]| < 2 || |p[1]| < 2 {
      return None;
    }
    hide EncodePair, ToHexString, EvenPair, BytesValue;
    var x := PairToBytes(p[0][1], p[0][0]);
    var y := PairToBytes(p[1][1], p[1][0]);
    if x.None? || y.None? {
      return None;
    }
    ToHexConcat(x.value, y.value);
    SameConcat(ToHexString(x.value), ToHexString(y.value), EncodePair(p[0][1], p[0][0]).value,
      EncodePair(p[1][1], p[1][0]).value);
    bytes := Some(x.value + y.value);
    if |x.value| == 64 && |y.value| == 64 {
      FourParts(x.value, y.value);
    }
  }

  lemma FourParts(x: seq<nat>, y: seq<nat>)
    requires |x| == 64 && |y| == 64
    ensures (x + y)[0..32] == x[..32] && (x + y)[32..64] == x[32..]
    ensures (x + y)[64..96] == y[..32] && (x + y)[96..128] == y[32..]
  {
  }
}
