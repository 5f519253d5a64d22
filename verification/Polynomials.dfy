/** Polynomials over F_p, lowest degree first: coefficients, values, divisibility. */
module Polynomials {
  import opened PrimeField
  import opened Vectors

  type Poly = seq<int>

  function Coef(a: Poly, i: int): int {
    if 0 <= i < |a| then a[i] else 0
  }

  /** Coefficient k of a * b, summed over the first n coefficients of a. */
  ghost function MulTo(a: Poly, b: Poly, k: int, n: nat): int {
    if n == 0 then 0 else MulTo(a, b, k, n - 1) + Coef(a, n - 1) * Coef(b, k - (n - 1))
  }

  ghost function MulCoef(a: Poly, b: Poly, k: int): int {
    MulTo(a, b, k, |a|)
  }

  ghost function EvalTo(f: Poly, x: int, n: nat): int {
    if n == 0 then 0 else EvalTo(f, x, n - 1) + Coef(f, n - 1) * Pow(x, n - 1)
  }

  ghost function Eval(f: Poly, x: int): int {
    EvalTo(f, x, |f|)
  }

  ghost predicate Root(p: Prime, f: Poly, x: int) {
    Cong(p, Eval(f, x), 0)
  }

  /** z is f + c * X^s * b. */
  ghost predicate IsShiftAdd(p: Prime, f: Poly, c: int, s: nat, b: Poly, z: Poly) {
    forall k: int {:trigger Coef(z, k)} :: Cong(p, Coef(z, k), Coef(f, k) + c * Coef(b, k - s))
  }

  ghost predicate IsMultipleBy(p: Prime, q: Poly, g: Poly, f: Poly) {
    forall k: int {:trigger Coef(f, k)} :: Cong(p, Coef(f, k), MulCoef(q, g, k))
  }

  ghost predicate Divides(p: Prime, g: Poly, f: Poly) {
    exists q: Poly {:trigger IsMultipleBy(p, q, g, f)} :: IsMultipleBy(p, q, g, f)
  }

  /** a = q * b + r. */
  ghost predicate QuotRem(p: Prime, a: Poly, b: Poly, q: Poly, r: Poly) {
    forall k: int {:trigger Coef(a, k)} {:trigger Coef(r, k)} :: Cong(p, Coef(a, k), MulCoef(q, b, k) + Coef(r, k))
  }

  // ----- Values -----

  lemma {:induction false} EvalTail(f: Poly, x: int, n: nat)
    requires n >= |f|
    ensures EvalTo(f, x, n) == Eval(f, x)
  {
    if n > |f| {
      EvalTail(f, x, n - 1);
    }
  }

  lemma {:induction false} MulTail(a: Poly, b: Poly, k: int, n: nat)
    requires n >= |a|
    ensures MulTo(a, b, k, n) == MulCoef(a, b, k)
  {
    if n > |a| {
      MulTail(a, b, k, n - 1);
    }
  }

  lemma {:induction false} PowAdd(x: int, s: nat, k: nat)
    ensures Pow(x, s + k) == Pow(x, s) * Pow(x, k)
  {
    if s == 0 {
    } else {
      PowAdd(x, s - 1, k);
      assert x * (Pow(x, s - 1) * Pow(x, k)) == (x * Pow(x, s - 1)) * Pow(x, k);
    }
  }

  ghost predicate EvalStep(p: Prime, z: int, f: int, c: int, w: int, b: int) {
    Cong(p, z, f + c * (w * b))
  }

  lemma {:induction false} ShiftAddEvalTo(p: Prime, f: Poly, c: int, s: nat, b: Poly, z: Poly, x: int, n: nat)
    requires IsShiftAdd(p, f, c, s, b, z)
    ensures EvalStep(p, EvalTo(z, x, n), EvalTo(f, x, n), c, Pow(x, s), EvalTo(b, x, if n < s then 0 else n - s))
  {
    hide Multiple, Cong, EvalStep;
    if n == 0 {
      EvalStepZero(p, c, Pow(x, s));
    } else {
      ShiftAddEvalTo(p, f, c, s, b, z, x, n - 1);
      ShiftAddNext(p, f, c, s, b, z, x, n - 1);
    }
  }

  lemma ShiftAddNext(p: Prime, f: Poly, c: int, s: nat, b: Poly, z: Poly, x: int, i: nat)
    requires IsShiftAdd(p, f, c, s, b, z)
    requires EvalStep(p, EvalTo(z, x, i), EvalTo(f, x, i), c, Pow(x, s), EvalTo(b, x, if i < s then 0 else i - s))
    ensures EvalStep(p, EvalTo(z, x, i + 1), EvalTo(f, x, i + 1), c, Pow(x, s),
                     EvalTo(b, x, if i + 1 < s then 0 else i + 1 - s))
  {
    var y, w := Pow(x, i), Pow(x, s);
    var zi, fi, bi := Coef(z, i), Coef(f, i), Coef(b, i - s);
    assert Cong(p, zi, fi + c * bi);
    var ez, ef, eb := EvalTo(z, x, i), EvalTo(f, x, i), EvalTo(b, x, if i < s then 0 else i - s);
    assert EvalTo(z, x, i + 1) == ez + zi * y && EvalTo(f, x, i + 1) == ef + fi * y;
    if i < s {
      assert bi == 0 && EvalTo(b, x, 0) == 0;
      hide *;
      EvalStepNext(p, ez, ef, c, w, eb, zi, fi, bi, 0, y);
    } else {
      var u := Pow(x, i - s);
      assert EvalTo(b, x, i + 1 - s) == eb + bi * u;
      hide *;
      PowAdd(x, s, i - s);
      EvalStepNext(p, ez, ef, c, w, eb, zi, fi, bi, u, y);
    }
  }

  lemma EvalStepZero(p: Prime, c: int, w: int)
    ensures EvalStep(p, 0, 0, c, w, 0)
  {
    CongRefl(p, 0);
  }

  lemma EvalStepNext(p: Prime, z: int, f: int, c: int, w: int, b: int, zi: int, fi: int, bi: int, u: int, y: int)
    requires EvalStep(p, z, f, c, w, b) && Cong(p, zi, fi + c * bi) && (y == w * u || bi == 0)
    ensures EvalStep(p, z + zi * y, f + fi * y, c, w, b + bi * u)
  {
    hide Multiple;
    var e, g := f + c * (w * b), fi + c * bi;
    StepSum(f, c, w, b, fi, bi, u, y);
    StepDifference(z, e, zi, g, y);
    Combine(p, (z + zi * y) - (e + y * g), 1, z - e, y, zi - g);
  }

  lemma StepSum(f: int, c: int, w: int, b: int, fi: int, bi: int, u: int, y: int)
    requires y == w * u || bi == 0
    ensures (f + fi * y) + c * (w * (b + bi * u)) == (f + c * (w * b)) + y * (fi + c * bi)
  {
    var t := bi * y;
    assert t == w * (bi * u) by {
      if bi != 0 {
        assert bi * (w * u) == w * (bi * u);
      }
    }
    assert w * (b + bi * u) == w * b + t;
    assert c * (w * b + t) == c * (w * b) + c * t;
    assert y * (c * bi) == c * t;
  }

  lemma StepDifference(z: int, e: int, zi: int, g: int, y: int)
    ensures (z + zi * y) - (e + y * g) == (z - e) + y * (zi - g)
  {
  }

  lemma ShiftAddEval(p: Prime, f: Poly, c: int, s: nat, b: Poly, z: Poly, x: int)
    requires IsShiftAdd(p, f, c, s, b, z)
    ensures EvalStep(p, Eval(z, x), Eval(f, x), c, Pow(x, s), Eval(b, x))
  {
    var n := |z| + |f| + s + |b|;
    ShiftAddEvalTo(p, f, c, s, b, z, x, n);
    EvalTail(z, x, n);
    EvalTail(f, x, n);
    EvalTail(b, x, n - s);
  }

  // ----- Products as repeated shifted additions -----

  /** The sum of a[i] * X^i * b over i < n. */
  ghost function Partial(a: Poly, b: Poly, n: nat): (z: Poly)
    requires n <= |a|
    ensures |z| == |a| + |b|
    ensures forall k: int {:trigger Coef(z, k)} :: Coef(z, k) == MulTo(a, b, k, n)
  {
    PartialOutside(a, b, n);
    seq(|a| + |b|, k requires 0 <= k < |a| + |b| => MulTo(a, b, k, n))
  }

  lemma {:induction false} PartialOutside(a: Poly, b: Poly, n: nat)
    requires n <= |a|
    ensures forall k: int {:trigger MulTo(a, b, k, n)} | k < 0 || k >= |a| + |b| :: MulTo(a, b, k, n) == 0
  {
    if n == 0 {
    } else {
      PartialOutside(a, b, n - 1);
    }
  }

  lemma PartialStep(p: Prime, a: Poly, b: Poly, n: nat)
    requires 1 <= n <= |a|
    ensures IsShiftAdd(p, Partial(a, b, n - 1), a[n - 1], n - 1, b, Partial(a, b, n))
  {
    var f, z := Partial(a, b, n - 1), Partial(a, b, n);
    forall k: int
      ensures Cong(p, Coef(z, k), Coef(f, k) + a[n - 1] * Coef(b, k - (n - 1)))
    {
      CongRefl(p, Coef(z, k));
    }
  }

  lemma {:induction false} PartialEval(p: Prime, a: Poly, b: Poly, x: int, n: nat)
    requires n <= |a|
    ensures Cong(p, Eval(Partial(a, b, n), x), EvalTo(a, x, n) * Eval(b, x))
  {
    if n == 0 {
      ZeroPolyEval(Partial(a, b, 0), x, |a| + |b|);
      CongRefl(p, 0);
    } else {
      hide Multiple, Cong, EvalStep;
      PartialEval(p, a, b, x, n - 1);
      PartialStep(p, a, b, n);
      ShiftAddEval(p, Partial(a, b, n - 1), a[n - 1], n - 1, b, Partial(a, b, n), x);
      EvalProductStep(p, Eval(Partial(a, b, n), x), Eval(Partial(a, b, n - 1), x), a[n - 1], Pow(x, n - 1), Eval(b, x),
                      EvalTo(a, x, n - 1));
    }
  }

  lemma EvalProductStep(p: Prime, z: int, f: int, c: int, w: int, b: int, e: int)
    requires EvalStep(p, z, f, c, w, b) && Cong(p, f, e * b)
    ensures Cong(p, z, (e + c * w) * b)
  {
    assert (e + c * w) * b == e * b + c * (w * b);
    Combine(p, z - (e + c * w) * b, 1, z - (f + c * (w * b)), 1, f - e * b);
  }

  lemma {:induction false} ZeroPolyEval(f: Poly, x: int, n: nat)
    requires forall i | 0 <= i < n :: Coef(f, i) == 0
    ensures EvalTo(f, x, n) == 0
  {
    if n == 0 {
    } else {
      ZeroPolyEval(f, x, n - 1);
    }
  }

  /** Congruent coefficients give congruent values. */
  lemma EvalCong(p: Prime, f: Poly, z: Poly, x: int)
    requires forall k: int {:trigger Coef(z, k)} :: Cong(p, Coef(z, k), Coef(f, k))
    ensures Cong(p, Eval(z, x), Eval(f, x))
  {
    forall k: int
      ensures Cong(p, Coef(z, k), Coef(f, k) + 0 * Coef([], k - 0))
    {
    }
    assert IsShiftAdd(p, f, 0, 0, [], z);
    ShiftAddEval(p, f, 0, 0, [], z, x);
  }

  /** The value of q * b + r. */
  lemma QuotRemEval(p: Prime, a: Poly, b: Poly, q: Poly, r: Poly, x: int)
    requires QuotRem(p, a, b, q, r)
    ensures Cong(p, Eval(a, x), Eval(q, x) * Eval(b, x) + Eval(r, x))
  {
    var z := Partial(q, b, |q|);
    assert IsShiftAdd(p, z, 1, 0, r, a) by {
      forall k: int
        ensures Cong(p, Coef(a, k), Coef(z, k) + 1 * Coef(r, k - 0))
      {
      }
    }
    hide QuotRem, IsShiftAdd;
    ShiftAddEval(p, z, 1, 0, r, a, x);
    PartialEval(p, q, b, x, |q|);
    CombineEval(p, Eval(a, x), Eval(z, x), Eval(r, x), Eval(q, x) * Eval(b, x));
  }

  lemma CombineEval(p: Prime, a: int, z: int, r: int, m: int)
    requires EvalStep(p, a, z, 1, 1, r) && Cong(p, z, m)
    ensures Cong(p, a, m + r)
  {
    Combine(p, a - (m + r), 1, a - (z + 1 * (1 * r)), 1, z - m);
  }

  // ----- The multiples of a polynomial -----

  lemma {:induction false} MulShiftLinear(f: Poly, c: int, s: nat, b: Poly, z: Poly, g: Poly, k: int, n: nat)
    requires forall i: int {:trigger Coef(z, i)} :: Coef(z, i) == Coef(f, i) + c * Coef(b, i - s)
    ensures MulTo(z, g, k, n) == MulTo(f, g, k, n) + c * MulTo(b, g, k - s, if n < s then 0 else n - s)
  {
    if n == 0 {
    } else {
      MulShiftLinear(f, c, s, b, z, g, k, n - 1);
      var i := n - 1;
      assert Coef(z, i) == Coef(f, i) + c * Coef(b, i - s);
      MulShiftStep(MulTo(z, g, k, i), MulTo(f, g, k, i), c, MulTo(b, g, k - s, if i < s then 0 else i - s),
                   Coef(f, i), Coef(b, i - s), Coef(g, k - i));
    }
  }

  lemma MulShiftStep(z: int, f: int, c: int, b: int, fi: int, bi: int, g: int)
    requires z == f + c * b
    ensures z + (fi + c * bi) * g == (f + fi * g) + c * (b + bi * g)
    ensures bi == 0 ==> z + fi * g == (f + fi * g) + c * b
  {
    assert (fi + c * bi) * g == fi * g + c * (bi * g);
    assert c * (b + bi * g) == c * b + c * (bi * g);
  }

  ghost function ShiftAdd(f: Poly, c: int, s: nat, b: Poly): (z: Poly)
    ensures forall i: int {:trigger Coef(z, i)} :: Coef(z, i) == Coef(f, i) + c * Coef(b, i - s)
  {
    var n := |f| + s + |b|;
    seq(n, i requires 0 <= i < n => Coef(f, i) + c * Coef(b, i - s))
  }

  /** Multiples of g are closed under adding c * X^s times a multiple. */
  lemma DividesShiftAdd(p: Prime, g: Poly, f: Poly, c: int, s: nat, b: Poly, z: Poly)
    requires Divides(p, g, f) && Divides(p, g, b) && IsShiftAdd(p, f, c, s, b, z)
    ensures Divides(p, g, z)
  {
    var u: Poly :| IsMultipleBy(p, u, g, f);
    var v: Poly :| IsMultipleBy(p, v, g, b);
    var w := ShiftAdd(u, c, s, v);
    hide Multiple, Cong;
    forall k: int
      ensures Cong(p, Coef(z, k), MulCoef(w, g, k))
    {
      var n := |u| + |v| + |w| + s;
      MulShiftLinear(u, c, s, v, w, g, k, n);
      MulTail(u, g, k, n);
      MulTail(w, g, k, n);
      MulTail(v, g, k - s, n - s);
      assert Cong(p, Coef(f, k), MulCoef(u, g, k)) && Cong(p, Coef(b, k - s), MulCoef(v, g, k - s));
      CongAxpy(p, Coef(f, k), MulCoef(u, g, k), c, Coef(b, k - s), MulCoef(v, g, k - s));
      CongTrans(p, Coef(z, k), Coef(f, k) + c * Coef(b, k - s), MulCoef(w, g, k));
    }
    assert IsMultipleBy(p, w, g, z);
  }

  lemma DividesZero(p: Prime, g: Poly, z: Poly)
    requires forall k: int {:trigger Coef(z, k)} :: Cong(p, Coef(z, k), 0)
    ensures Divides(p, g, z)
  {
    forall k: int
      ensures Cong(p, Coef(z, k), MulCoef([], g, k))
    {
    }
    assert IsMultipleBy(p, [], g, z);
  }

  lemma DividesSelf(p: Prime, g: Poly)
    ensures Divides(p, g, g)
  {
    forall k: int
      ensures Cong(p, Coef(g, k), MulCoef([1], g, k))
    {
      assert MulTo([1], g, k, 0) == 0;
      assert Coef([1], 0) == 1;
      CongRefl(p, Coef(g, k));
    }
    assert IsMultipleBy(p, [1], g, g);
  }

  lemma {:induction false} DividesPartial(p: Prime, d: Poly, a: Poly, b: Poly, n: nat)
    requires n <= |a| && Divides(p, d, b)
    ensures Divides(p, d, Partial(a, b, n))
  {
    hide Divides;
    if n == 0 {
      CongRefl(p, 0);
      DividesZero(p, d, Partial(a, b, 0));
    } else {
      DividesPartial(p, d, a, b, n - 1);
      PartialStep(p, a, b, n);
      DividesShiftAdd(p, d, Partial(a, b, n - 1), a[n - 1], n - 1, b, Partial(a, b, n));
    }
  }

  /** With a = q * b + r, a divisor of b divides a exactly when it divides r. */
  lemma DividesQuotRem(p: Prime, d: Poly, a: Poly, b: Poly, q: Poly, r: Poly)
    requires QuotRem(p, a, b, q, r) && Divides(p, d, b)
    ensures Divides(p, d, a) <==> Divides(p, d, r)
  {
    var z := Partial(q, b, |q|);
    DividesPartial(p, d, q, b, |q|);
    hide Divides;
    assert IsShiftAdd(p, r, 1, 0, z, a) && IsShiftAdd(p, a, -1, 0, z, r) by {
      hide Multiple;
      forall k: int
        ensures Cong(p, Coef(a, k), Coef(r, k) + 1 * Coef(z, k - 0))
        ensures Cong(p, Coef(r, k), Coef(a, k) + (-1) * Coef(z, k - 0))
      {
        var x, y, w := Coef(a, k), Coef(z, k), Coef(r, k);
        assert Cong(p, x, y + w);
        Combine(p, x - (w + 1 * y), 1, x - (y + w), 0, x - (y + w));
        Combine(p, w - (x + (-1) * y), -1, x - (y + w), 0, x - (y + w));
      }
    }
    if Divides(p, d, r) {
      DividesShiftAdd(p, d, r, 1, 0, z, a);
    }
    if Divides(p, d, a) {
      DividesShiftAdd(p, d, a, -1, 0, z, r);
    }
  }

  // ----- Degree -----

  /** The index of the last nonzero coefficient among the first n, or -1. */
  function DegTo(a: Poly, n: nat): (d: int)
    requires n <= |a|
    ensures -1 <= d < n && (d >= 0 ==> a[d] != 0) && forall i | d < i < n :: a[i] == 0
  {
    if n == 0 then -1 else if a[n - 1] != 0 then n - 1 else DegTo(a, n - 1)
  }

  function Deg(a: Poly): (d: int)
    ensures -1 <= d < |a| && (d >= 0 ==> a[d] != 0) && forall i | d < i < |a| :: a[i] == 0
  {
    DegTo(a, |a|)
  }

  function Trim(a: Poly): (t: Poly)
    ensures |t| >= 1 && Deg(t) == Deg(a) && |t| == (if Deg(a) < 0 then 1 else Deg(a) + 1)
    ensures forall k: int {:trigger Coef(t, k)} :: Coef(t, k) == Coef(a, k)
  {
    var d := Deg(a);
    if d < 0 then [0] else a[..d + 1]
  }

  /** The single product that can contribute to coefficient e + d when a stops at e and b at d. */
  lemma {:induction false} TopTerm(p: Prime, a: Poly, b: Poly, e: nat, d: nat, n: nat)
    requires forall i | i > e :: Multiple(Coef(a, i), p)
    requires forall i | i > d :: Coef(b, i) == 0
    ensures Cong(p, MulTo(a, b, e + d, n), if e < n then Coef(a, e) * Coef(b, d) else 0)
  {
    hide Multiple;
    if n == 0 {
      CongRefl(p, 0);
    } else {
      TopTerm(p, a, b, e, d, n - 1);
      var i := n - 1;
      var m, x, y := MulTo(a, b, e + d, i), Coef(a, i), Coef(b, e + d - i);
      if i == e {
        Combine(p, (m + x * y) - x * y, 1, m - 0, 0, m - 0);
      } else if i < e {
        assert y == 0 && x * y == 0;
      } else {
        var t := Coef(a, e) * Coef(b, d);
        Combine(p, (m + x * y) - t, 1, m - t, y, x);
      }
    }
  }

  /** A multiple of b of smaller degree has only zero cofactors. */
  lemma {:induction false} CofactorZero(p: Prime, b: Poly, d: nat, q: Poly, r: Poly, n: nat)
    requires !Multiple(Coef(b, d), p) && (forall i | i > d :: Coef(b, i) == 0)
    requires IsMultipleBy(p, q, b, r) && forall i | i >= d :: Coef(r, i) == 0
    requires forall i | i >= n :: Multiple(Coef(q, i), p)
    ensures forall i: int {:trigger Coef(q, i)} | i >= 0 :: Multiple(Coef(q, i), p)
  {
    hide Multiple;
    if n == 0 {
    } else {
      var e := n - 1;
      TopTerm(p, q, b, e, d, |q|);
      var l := Coef(r, e + d);
      assert Cong(p, l, MulCoef(q, b, e + d));
      CongRefl(p, 0);
      if e < |q| {
        var t := Coef(q, e) * Coef(b, d);
        CongTrans(p, 0, MulCoef(q, b, e + d), t);
        Combine(p, t, -1, 0 - t, 0, 0 - t);
        EuclidLemma(p, Coef(q, e), Coef(b, d));
      }
      CofactorZero(p, b, d, q, r, e);
    }
  }

  /** A multiple of b whose degree is below that of b is zero. */
  lemma SmallMultipleZero(p: Prime, b: Poly, r: Poly)
    requires Canon(p, b) && Canon(p, r) && Deg(r) < Deg(b) && Divides(p, b, r)
    ensures Deg(r) == -1
  {
    var d := Deg(b);
    var q: Poly :| IsMultipleBy(p, q, b, r);
    NotZero(p, b[d]);
    MultipleOf(0, p);
    CofactorZero(p, b, d, q, r, |q|);
    hide Multiple;
    if Deg(r) >= 0 {
      var k := Deg(r);
      ZeroCofactors(p, q, b, k, |q|);
      assert Cong(p, Coef(r, k), MulCoef(q, b, k));
      CongTrans(p, r[k], MulCoef(q, b, k), 0);
      NotZero(p, r[k]);
      assert false;
    }
  }

  lemma {:induction false} ZeroCofactors(p: Prime, q: Poly, b: Poly, k: int, n: nat)
    requires forall i: int {:trigger Coef(q, i)} | i >= 0 :: Multiple(Coef(q, i), p)
    ensures Cong(p, MulTo(q, b, k, n), 0)
  {
    hide Multiple;
    if n == 0 {
      CongRefl(p, 0);
    } else {
      ZeroCofactors(p, q, b, k, n - 1);
      var m, x, y := MulTo(q, b, k, n - 1), Coef(q, n - 1), Coef(b, k - (n - 1));
      Combine(p, (m + x * y) - 0, 1, m - 0, y, x);
    }
  }
}
