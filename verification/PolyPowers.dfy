/** The ring of polynomials modulo another polynomial, and powers in it. */
module PolyPowers {
  import opened PrimeField
  import opened Vectors
  import opened Polynomials
  import opened PolyAlgorithms

  // ----- Products commute and associate -----

  ghost function Mul(a: Poly, b: Poly): (z: Poly)
    ensures forall k: int {:trigger Coef(z, k)} :: Coef(z, k) == MulCoef(a, b, k)
  {
    Partial(a, b, |a|)
  }

  ghost predicate Same(a: Poly, b: Poly) {
    forall k: int {:trigger Coef(a, k)} {:trigger Coef(b, k)} :: Coef(a, k) == Coef(b, k)
  }

  lemma {:induction false} MulPast(a: Poly, b: Poly, k: int, m: nat, n: nat)
    requires k < m <= n
    ensures MulTo(a, b, k, n) == MulTo(a, b, k, m)
  {
    if n > m {
      MulPast(a, b, k, m, n - 1);
      assert Coef(b, k - (n - 1)) == 0;
    }
  }

  /** The first products of a * b, read from the top, are the last ones of b * a. */
  lemma {:induction false} Reversed(a: Poly, b: Poly, k: nat, j: nat)
    requires j <= k + 1
    ensures MulTo(a, b, k, k + 1) == MulTo(a, b, k, k + 1 - j) + MulTo(b, a, k, j)
  {
    if j == 0 {
    } else {
      Reversed(a, b, k, j - 1);
      var i := k + 1 - j;
      assert MulTo(a, b, k, i + 1) == MulTo(a, b, k, i) + Coef(a, i) * Coef(b, k - i);
      assert MulTo(b, a, k, j) == MulTo(b, a, k, j - 1) + Coef(b, j - 1) * Coef(a, k - (j - 1));
    }
  }

  lemma MulCommutes(a: Poly, b: Poly, k: int)
    ensures MulCoef(a, b, k) == MulCoef(b, a, k)
  {
    var m: nat := if k < 0 then 0 else k + 1;
    var n := |a| + |b| + m;
    MulTail(a, b, k, n);
    MulTail(b, a, k, n);
    MulPast(a, b, k, m, n);
    MulPast(b, a, k, m, n);
    if k >= 0 {
      Reversed(a, b, k, k + 1);
    }
  }

  lemma {:induction false} PartialAssociates(a: Poly, b: Poly, c: Poly, bc: Poly, k: int, n: nat, total: nat)
    requires n <= |a| && total == |a| + |b| && bc == Mul(b, c)
    ensures MulTo(Partial(a, b, n), c, k, total) == MulTo(a, bc, k, n)
  {
    if n == 0 {
      ZeroMul(Partial(a, b, 0), c, k, total);
    } else {
      PartialAssociates(a, b, c, bc, k, n - 1, total);
      var f, z := Partial(a, b, n - 1), Partial(a, b, n);
      MulShiftLinear(f, a[n - 1], n - 1, b, z, c, k, total);
      MulTail(b, c, k - (n - 1), total - (n - 1));
      assert Coef(bc, k - (n - 1)) == MulCoef(b, c, k - (n - 1));
    }
  }

  lemma {:induction false} ZeroMul(a: Poly, b: Poly, k: int, n: nat)
    requires forall i: int {:trigger Coef(a, i)} :: Coef(a, i) == 0
    ensures MulTo(a, b, k, n) == 0
  {
    if n == 0 {
    } else {
      ZeroMul(a, b, k, n - 1);
    }
  }

  lemma MulAssociates(a: Poly, b: Poly, c: Poly, k: int)
    ensures MulCoef(Mul(a, b), c, k) == MulCoef(a, Mul(b, c), k)
  {
    PartialAssociates(a, b, c, Mul(b, c), k, |a|, |a| + |b|);
  }

  // ----- Congruence modulo m -----

  ghost function Sub(a: Poly, b: Poly): (z: Poly)
    ensures forall k: int {:trigger Coef(z, k)} :: Coef(z, k) == Coef(a, k) - Coef(b, k)
  {
    ShiftAdd(a, -1, 0, b)
  }

  /** a and b differ by a multiple of m. */
  ghost predicate EqMod(p: Prime, m: Poly, a: Poly, b: Poly) {
    Divides(p, m, Sub(a, b))
  }

  lemma SumDivides(p: Prime, m: Poly, f: Poly, c: int, b: Poly, z: Poly)
    requires Divides(p, m, f) && Divides(p, m, b)
    requires forall k: int {:trigger Coef(z, k)} :: Cong(p, Coef(z, k), Coef(f, k) + c * Coef(b, k))
    ensures Divides(p, m, z)
  {
    hide Divides, Cong, Multiple;
    assert IsShiftAdd(p, f, c, 0, b, z) by {
      forall k: int
        ensures Cong(p, Coef(z, k), Coef(f, k) + c * Coef(b, k - 0))
      {
      }
    }
    DividesShiftAdd(p, m, f, c, 0, b, z);
  }

  lemma EqModCong(p: Prime, m: Poly, a: Poly, b: Poly)
    requires forall k: int {:trigger Coef(a, k)} {:trigger Coef(b, k)} :: Cong(p, Coef(a, k), Coef(b, k))
    ensures EqMod(p, m, a, b)
  {
    var z := Sub(a, b);
    forall k: int
      ensures Cong(p, Coef(z, k), 0)
    {
      assert Cong(p, Coef(a, k), Coef(b, k));
    }
    DividesZero(p, m, z);
  }

  lemma EqModSame(p: Prime, m: Poly, a: Poly, b: Poly)
    requires Same(a, b)
    ensures EqMod(p, m, a, b)
  {
    forall k: int
      ensures Cong(p, Coef(a, k), Coef(b, k))
    {
      CongRefl(p, Coef(a, k));
    }
    EqModCong(p, m, a, b);
  }

  lemma EqModTrans(p: Prime, m: Poly, a: Poly, b: Poly, c: Poly)
    requires EqMod(p, m, a, b) && EqMod(p, m, b, c)
    ensures EqMod(p, m, a, c)
  {
    var x, y, z := Sub(a, b), Sub(b, c), Sub(a, c);
    forall k: int
      ensures Cong(p, Coef(z, k), Coef(x, k) + 1 * Coef(y, k))
    {
      CongRefl(p, Coef(z, k));
    }
    hide Divides;
    SumDivides(p, m, x, 1, y, z);
  }

  lemma EqModSym(p: Prime, m: Poly, a: Poly, b: Poly)
    requires EqMod(p, m, a, b)
    ensures EqMod(p, m, b, a)
  {
    var x, y, z := Sub(a, b), Sub(a, a), Sub(b, a);
    EqModSame(p, m, a, a);
    forall k: int
      ensures Cong(p, Coef(z, k), Coef(y, k) + (-1) * Coef(x, k))
    {
      CongRefl(p, Coef(z, k));
    }
    hide Divides;
    SumDivides(p, m, y, -1, x, z);
  }

  lemma {:induction false} MulSub(c: Poly, a: Poly, b: Poly, k: int, n: nat)
    ensures MulTo(c, Sub(a, b), k, n) == MulTo(c, a, k, n) - MulTo(c, b, k, n)
  {
    if n == 0 {
    } else {
      MulSub(c, a, b, k, n - 1);
      var x, y, z := Coef(c, n - 1), Coef(a, k - (n - 1)), Coef(b, k - (n - 1));
      assert x * (y - z) == x * y - x * z;
    }
  }

  lemma EqModMulLeft(p: Prime, m: Poly, c: Poly, a: Poly, b: Poly)
    requires EqMod(p, m, a, b)
    ensures EqMod(p, m, Mul(c, a), Mul(c, b))
  {
    var x, z := Mul(c, Sub(a, b)), Sub(Mul(c, a), Mul(c, b));
    DividesPartial(p, m, c, Sub(a, b), |c|);
    forall k: int
      ensures Cong(p, Coef(z, k), Coef(x, k) + 0 * Coef(x, k))
    {
      MulSub(c, a, b, k, |c|);
      CongRefl(p, Coef(z, k));
    }
    hide Divides;
    SumDivides(p, m, x, 0, x, z);
  }

  lemma EqModCommute(p: Prime, m: Poly, a: Poly, b: Poly)
    ensures EqMod(p, m, Mul(a, b), Mul(b, a))
  {
    forall k: int
      ensures Coef(Mul(a, b), k) == Coef(Mul(b, a), k)
    {
      MulCommutes(a, b, k);
    }
    EqModSame(p, m, Mul(a, b), Mul(b, a));
  }

  lemma EqModAssociate(p: Prime, m: Poly, a: Poly, b: Poly, c: Poly)
    ensures EqMod(p, m, Mul(Mul(a, b), c), Mul(a, Mul(b, c)))
  {
    forall k: int
      ensures Coef(Mul(Mul(a, b), c), k) == Coef(Mul(a, Mul(b, c)), k)
    {
      MulAssociates(a, b, c, k);
    }
    EqModSame(p, m, Mul(Mul(a, b), c), Mul(a, Mul(b, c)));
  }

  lemma EqModMul(p: Prime, m: Poly, a: Poly, a': Poly, b: Poly, b': Poly)
    requires EqMod(p, m, a, a') && EqMod(p, m, b, b')
    ensures EqMod(p, m, Mul(a, b), Mul(a', b'))
  {
    hide *;
    EqModMulLeft(p, m, a, b, b');
    EqModCommute(p, m, a, b');
    EqModMulLeft(p, m, b', a, a');
    EqModCommute(p, m, b', a');
    EqModTrans(p, m, Mul(a, b), Mul(a, b'), Mul(b', a));
    EqModTrans(p, m, Mul(a, b), Mul(b', a), Mul(b', a'));
    EqModTrans(p, m, Mul(a, b), Mul(b', a'), Mul(a', b'));
  }

  // ----- Powers -----

  ghost function Power(b: Poly, e: nat): Poly {
    if e == 0 then [1] else Mul(b, Power(b, e - 1))
  }

  lemma EqModRefl(p: Prime, m: Poly, a: Poly)
    ensures EqMod(p, m, a, a)
  {
    EqModSame(p, m, a, a);
  }

  lemma {:induction false} PowerCong(p: Prime, m: Poly, a: Poly, b: Poly, e: nat)
    requires EqMod(p, m, a, b)
    ensures EqMod(p, m, Power(a, e), Power(b, e))
  {
    hide EqMod, Mul;
    if e == 0 {
      EqModRefl(p, m, [1]);
    } else {
      PowerCong(p, m, a, b, e - 1);
      EqModMul(p, m, a, b, Power(a, e - 1), Power(b, e - 1));
    }
  }

  /** (b^2)^h is b^(2h). */
  lemma {:induction false} PowerSquare(p: Prime, m: Poly, b: Poly, h: nat)
    ensures EqMod(p, m, Power(Mul(b, b), h), Power(b, 2 * h))
  {
    hide EqMod, Mul;
    if h == 0 {
      EqModRefl(p, m, [1]);
    } else {
      var bb, x, y := Mul(b, b), Power(Mul(b, b), h - 1), Power(b, 2 * h - 2);
      PowerSquare(p, m, b, h - 1);
      EqModMulLeft(p, m, bb, x, y);
      EqModAssociate(p, m, b, b, y);
      EqModTrans(p, m, Mul(bb, x), Mul(bb, y), Mul(b, Mul(b, y)));
      assert Power(b, 2 * h - 1) == Mul(b, y);
      assert Power(b, 2 * h) == Mul(b, Power(b, 2 * h - 1));
    }
  }

  /** One round of square-and-multiply keeps result * b^e. */
  lemma PowerRound(p: Prime, m: Poly, result: Poly, b: Poly, e: nat, result': Poly, b': Poly, h: nat)
    requires e > 0 && h == e / 2 && EqMod(p, m, b', Mul(b, b))
    requires if e % 2 == 1 then EqMod(p, m, result', Mul(result, b)) else result' == result
    ensures EqMod(p, m, Mul(result', Power(b', h)), Mul(result, Power(b, e)))
  {
    hide EqMod, Mul;
    var x, y := Power(b', h), Power(b, 2 * h);
    PowerCong(p, m, b', Mul(b, b), h);
    PowerSquare(p, m, b, h);
    EqModTrans(p, m, x, Power(Mul(b, b), h), y);
    if e % 2 == 1 {
      assert Power(b, e) == Mul(b, y);
      EqModMul(p, m, result', Mul(result, b), x, y);
      EqModAssociate(p, m, result, b, y);
      EqModTrans(p, m, Mul(result', x), Mul(Mul(result, b), y), Mul(result, Mul(b, y)));
    } else {
      EqModMulLeft(p, m, result, x, y);
    }
  }

  // ----- Values -----

  lemma {:induction false} PowerEval(p: Prime, b: Poly, e: nat, c: int)
    ensures Cong(p, Eval(Power(b, e), c), Pow(Eval(b, c), e))
  {
    if e == 0 {
      assert EvalTo([1], c, 0) == 0 && Coef([1], 0) == 1;
      CongRefl(p, 1);
    } else {
      var x, y := Eval(b, c), Eval(Power(b, e - 1), c);
      PowerEval(p, b, e - 1, c);
      PartialEval(p, b, Power(b, e - 1), c, |b|);
      hide Cong;
      CongRefl(p, x);
      CongMul(p, x, x, y, Pow(x, e - 1));
      CongTrans(p, Eval(Power(b, e), c), x * y, x * Pow(x, e - 1));
    }
  }

  /** Polynomials congruent modulo m take the same value at every root of m. */
  lemma EqModEval(p: Prime, m: Poly, a: Poly, b: Poly, c: int)
    requires EqMod(p, m, a, b) && Root(p, m, c)
    ensures Cong(p, Eval(a, c), Eval(b, c))
  {
    var q: Poly :| IsMultipleBy(p, q, m, Sub(a, b));
    forall k: int
      ensures Cong(p, Coef(a, k), MulCoef(q, m, k) + Coef(b, k))
    {
      var s, t := Coef(Sub(a, b), k), MulCoef(q, m, k);
      assert Cong(p, s, t);
      Combine(p, Coef(a, k) - (t + Coef(b, k)), 1, s - t, 0, s - t);
    }
    assert QuotRem(p, a, m, q, b);
    hide QuotRem, IsMultipleBy;
    QuotRemEval(p, a, m, q, b, c);
    CongruentValues(p, Eval(a, c), Eval(q, c), Eval(m, c), Eval(b, c));
  }

  lemma CongruentValues(p: Prime, a: int, q: int, m: int, b: int)
    requires Cong(p, a, q * m + b) && Cong(p, m, 0)
    ensures Cong(p, a, b)
  {
    Combine(p, a - b, 1, a - (q * m + b), q, m - 0);
  }

  // ----- Square and multiply modulo a polynomial -----

  lemma RemainderEqMod(p: Prime, a: Poly, m: Poly, q: Poly, r: Poly)
    requires QuotRem(p, a, m, q, r)
    ensures EqMod(p, m, r, a)
  {
    var z := Sub(a, r);
    forall k: int
      ensures Cong(p, Coef(z, k), MulCoef(q, m, k))
    {
      var x, y := Coef(a, k), Coef(r, k);
      assert Cong(p, x, MulCoef(q, m, k) + y);
    }
    assert IsMultipleBy(p, q, m, z);
    EqModSym(p, m, a, r);
  }

  lemma ProductEqMod(p: Prime, m: Poly, a: Poly, b: Poly, r: Poly)
    requires IsProductTo(p, a, b, |a|, r)
    ensures EqMod(p, m, r, Mul(a, b))
  {
    EqModCong(p, m, r, Mul(a, b));
  }

  method MulModPoly(p: Prime, a: Poly, b: Poly, modulus: Poly) returns (r: Poly)
    requires IsPoly(p, a) && IsPoly(p, b) && Canon(p, modulus) && Deg(modulus) >= 0
    ensures IsPoly(p, r) && Deg(r) < Deg(modulus) && EqMod(p, modulus, r, Mul(a, b))
  {
    hide QuotRem, IsProductTo, EqMod, Mul;
    var product := PolyMul(p, a, b);
    var rem, q := PolyMod(p, product, modulus);
    r := rem.value;
    ProductEqMod(p, modulus, a, b, product);
    RemainderEqMod(p, product, modulus, q, r);
    EqModTrans(p, modulus, r, product, Mul(a, b));
  }

  /** base^exp modulo modulus, or None where the program throws; exponent 0 gives the unreduced 1. */
  method PolyPowMod(p: Prime, base: Poly, exp: nat, modulus: Poly) returns (power: Option<Poly>)
    requires Canon(p, base) && Canon(p, modulus)
    ensures power.None? <==> Deg(modulus) < 0
    ensures power.Some? ==> IsPoly(p, power.value) && EqMod(p, modulus, power.value, Power(base, exp))
    ensures power.Some? ==> if exp == 0 then power.value == [1] else Deg(power.value) < Deg(modulus)
  {
    hide QuotRem, EqMod, Mul, Power;
    var result := [1];
    var rem, q := PolyMod(p, base, modulus);
    if rem.None? {
      return None;
    }
    var b := rem.value;
    var e := exp;
    PowerStart(p, modulus, base, exp, q, b);
    while e > 0
      invariant IsPoly(p, result) && IsPoly(p, b)
      invariant EqMod(p, modulus, Mul(result, Power(b, e)), Power(base, exp))
      invariant if exp == 0 then result == [1] else e > 0 || Deg(result) < Deg(modulus)
    {
      ghost var result0, b0, e0 := result, b, e;
      if e % 2 == 1 {
        result := MulModPoly(p, result, b, modulus);
      }
      b := MulModPoly(p, b, b, modulus);
      e := e / 2;
      PowerRound(p, modulus, result0, b0, e0, result, b, e);
      EqModTrans(p, modulus, Mul(result, Power(b, e)), Mul(result0, Power(b0, e0)), Power(base, exp));
    }
    PowerDone(p, modulus, result, b);
    EqModTrans(p, modulus, result, Mul(result, Power(b, 0)), Power(base, exp));
    power := Some(result);
  }

  lemma PowerStart(p: Prime, m: Poly, base: Poly, exp: nat, q: Poly, b: Poly)
    requires QuotRem(p, base, m, q, b)
    ensures EqMod(p, m, Mul([1], Power(b, exp)), Power(base, exp))
  {
    hide QuotRem, EqMod, Mul, Power;
    RemainderEqMod(p, base, m, q, b);
    PowerCong(p, m, b, base, exp);
    OneMul(p, m, Power(b, exp));
    EqModTrans(p, m, Mul([1], Power(b, exp)), Power(b, exp), Power(base, exp));
  }

  lemma OneMul(p: Prime, m: Poly, a: Poly)
    ensures EqMod(p, m, Mul([1], a), a)
  {
    forall k: int
      ensures Coef(Mul([1], a), k) == Coef(a, k)
    {
      assert MulTo([1], a, k, 0) == 0 && Coef([1], 0) == 1;
    }
    EqModSame(p, m, Mul([1], a), a);
  }

  lemma PowerDone(p: Prime, m: Poly, result: Poly, b: Poly)
    ensures EqMod(p, m, result, Mul(result, Power(b, 0)))
  {
    hide EqMod, Mul;
    EqModCommute(p, m, result, [1]);
    OneMul(p, m, result);
    EqModTrans(p, m, Mul(result, [1]), Mul([1], result), result);
    EqModSym(p, m, Mul(result, [1]), result);
  }

  /** The value of a power modulo m at a root of m. */
  lemma PowerValue(p: Prime, m: Poly, base: Poly, exp: nat, power: Poly, c: int)
    requires EqMod(p, m, power, Power(base, exp)) && Root(p, m, c)
    ensures Cong(p, Eval(power, c), Pow(Eval(base, c), exp))
  {
    hide EqMod, Root, Cong;
    EqModEval(p, m, power, Power(base, exp), c);
    PowerEval(p, base, exp, c);
    CongTrans(p, Eval(power, c), Eval(Power(base, exp), c), Pow(Eval(base, c), exp));
  }
}
