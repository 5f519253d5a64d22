/** Divisors of x^p - x have as many roots in F_p as their degree. */
module TotalSplitting {
  import opened PrimeField
  import opened Vectors
  import opened Polynomials
  import opened PolyAlgorithms
  import opened PolyPowers

  /** The distinct roots of f in F_p. */
  ghost function RootSet(p: Prime, f: Poly): set<int> {
    set c: int | 0 <= c < p && Root(p, f, c)
  }

  // ----- A polynomial has at most as many roots as its degree -----

  lemma {:induction false} EvalToTail(f: Poly, x: int, n: nat)
    requires |f| >= 1
    ensures EvalTo(f, x, n + 1) == f[0] + x * EvalTo(f[1..], x, n)
  {
    if n > 0 {
      EvalToTail(f, x, n - 1);
      var r := f[1..];
      assert Coef(f, n) == Coef(r, n - 1);
      TailTerm(x, EvalTo(r, x, n - 1), Coef(r, n - 1), Pow(x, n - 1));
    } else {
      assert EvalTo(f, x, 0) == 0 && Pow(x, 0) == 1;
    }
  }

  lemma TailTerm(x: int, e: int, c: int, w: int)
    ensures x * (e + c * w) == x * e + c * (x * w)
  {
  }

  lemma EvalHead(f: Poly, x: int)
    requires |f| >= 1
    ensures Eval(f, x) == f[0] + x * Eval(f[1..], x)
  {
    EvalToTail(f, x, |f| - 1);
  }

  /** The quotient of f by x - c. */
  function Synthetic(f: Poly, c: int): (q: Poly)
    ensures |q| == if |f| == 0 then 0 else |f| - 1
    ensures |f| >= 2 ==> q[|f| - 2] == f[|f| - 1]
  {
    if |f| <= 1 then []
    else
      var r, q := f[1..], Synthetic(f[1..], c);
      seq(|f| - 1, i requires 0 <= i < |f| - 1 => r[i] + c * Coef(q, i))
  }

  lemma SyntheticShift(p: Prime, f: Poly, c: int)
    requires |f| >= 2
    ensures IsShiftAdd(p, f[1..], c, 0, Synthetic(f[1..], c), Synthetic(f, c))
  {
    var r, q, z := f[1..], Synthetic(f[1..], c), Synthetic(f, c);
    forall k: int
      ensures Cong(p, Coef(z, k), Coef(r, k) + c * Coef(q, k - 0))
    {
      CongRefl(p, Coef(z, k));
    }
  }

  /** f(x) - f(c) is x - c times the value of the quotient. */
  lemma {:induction false} SyntheticEval(p: Prime, f: Poly, c: int, x: int)
    ensures Cong(p, Eval(f, x) - Eval(f, c), (x - c) * Eval(Synthetic(f, c), x))
  {
    if |f| == 0 {
      CongRefl(p, 0);
    } else if |f| == 1 {
      EvalHead(f, x);
      EvalHead(f, c);
      CongRefl(p, 0);
    } else {
      var r, z := f[1..], Synthetic(f, c);
      var q := Synthetic(r, c);
      SyntheticShift(p, f, c);
      hide IsShiftAdd, Cong, Synthetic;
      SyntheticEval(p, r, c, x);
      EvalHead(f, x);
      EvalHead(f, c);
      ShiftAddEval(p, r, c, 0, q, z, x);
      SyntheticBalance(p, f[0], x, c, Eval(r, x), Eval(r, c), Eval(q, x), Eval(z, x));
    }
  }

  lemma SyntheticBalance(p: Prime, a: int, x: int, c: int, rx: int, rc: int, q: int, z: int)
    requires Cong(p, rx - rc, (x - c) * q) && EvalStep(p, z, rx, c, 1, q)
    ensures Cong(p, (a + x * rx) - (a + c * rc), (x - c) * z)
  {
    var d, e := (rx - rc) - (x - c) * q, z - (rx + c * (1 * q));
    var l := ((a + x * rx) - (a + c * rc)) - (x - c) * z;
    assert l == c * d + (-(x - c)) * e by {
      Expand(x, c, rx, rc, q, z);
    }
    Combine(p, l, c, d, -(x - c), e);
  }

  lemma Expand(x: int, c: int, rx: int, rc: int, q: int, z: int)
    ensures x * rx - c * rc - (x - c) * z == c * ((rx - rc) - (x - c) * q) + (-(x - c)) * (z - (rx + c * q))
  {
    var d := x - c;
    assert x * rx == c * rx + d * rx;
    assert c * ((rx - rc) - d * q) == c * rx - c * rc - c * (d * q);
    assert d * (z - (rx + c * q)) == d * z - d * rx - d * (c * q);
    assert c * (d * q) == d * (c * q);
  }

  lemma OtherRoots(p: Prime, f: Poly, c: int)
    requires |f| >= 2 && c in RootSet(p, f)
    ensures RootSet(p, f) - {c} <= RootSet(p, Synthetic(f, c))
  {
    hide Multiple;
    forall x | x in RootSet(p, f) && x != c
      ensures x in RootSet(p, Synthetic(f, c))
    {
      SyntheticEval(p, f, c, x);
      OtherRoot(p, Eval(f, x), Eval(f, c), x, c, Eval(Synthetic(f, c), x));
    }
  }

  lemma OtherRoot(p: Prime, fx: int, fc: int, x: int, c: int, q: int)
    requires Cong(p, fx, 0) && Cong(p, fc, 0) && Cong(p, fx - fc, (x - c) * q)
    requires 0 <= x < p && 0 <= c < p && x != c
    ensures Cong(p, q, 0)
  {
    var m := (x - c) * q;
    Combine(p, fx - fc, 1, fx - 0, -1, fc - 0);
    Combine(p, m, 1, fx - fc, -1, (fx - fc) - m);
    EuclidLemma(p, x - c, q);
    if Multiple(x - c, p) {
      CongEqual(p, x, c);
    }
  }

  lemma {:induction false} RootBound(p: Prime, f: Poly)
    requires |f| >= 1 && !Multiple(f[|f| - 1], p)
    ensures |RootSet(p, f)| <= |f| - 1
    decreases |f|
  {
    hide Root, Multiple;
    if |f| == 1 {
      NoConstantRoots(p, f);
    } else if RootSet(p, f) != {} {
      var c := Pick(RootSet(p, f));
      var q := Synthetic(f, c);
      OtherRoots(p, f, c);
      RootBound(p, q);
      SubsetSize(RootSet(p, f) - {c}, RootSet(p, q));
    }
  }

  lemma NoConstantRoots(p: Prime, f: Poly)
    requires |f| == 1 && !Multiple(f[0], p)
    ensures RootSet(p, f) == {}
  {
    forall c | 0 <= c < p
      ensures !Root(p, f, c)
    {
      EvalHead(f, c);
      assert EvalTo(f[1..], c, 0) == 0;
    }
  }

  // ----- x^p - x -----

  const X: Poly := [0, 1]

  lemma {:induction false} PowerOfX(n: nat, k: int)
    ensures Coef(Power(X, n), k) == if k == n then 1 else 0
  {
    if n == 0 {
    } else {
      PowerOfX(n - 1, k - 1);
      var r := Power(X, n - 1);
      assert MulTo(X, r, k, 0) == 0;
      assert MulTo(X, r, k, 1) == 0;
      assert MulTo(X, r, k, 2) == Coef(r, k - 1);
    }
  }

  ghost function Frobenius(p: Prime): Poly {
    Sub(Power(X, p), X)
  }

  lemma FrobeniusCoef(p: Prime, k: int)
    requires k >= p
    ensures Coef(Frobenius(p), k) == if k == p then 1 else 0
  {
    PowerOfX(p, k);
  }

  lemma EvalX(c: int)
    ensures Eval(X, c) == c
  {
    EvalHead(X, c);
    EvalHead(X[1..], c);
    assert EvalTo(X[1..][1..], c, 0) == 0;
  }

  /** Every residue is a root of x^p - x. */
  lemma FrobeniusRoot(p: Prime, c: int)
    ensures Root(p, Frobenius(p), c)
  {
    var a, z := Power(X, p), Frobenius(p);
    PowerEval(p, X, p, c);
    EvalX(c);
    FermatAll(p, c);
    assert IsShiftAdd(p, a, -1, 0, X, z) by {
      forall k: int
        ensures Cong(p, Coef(z, k), Coef(a, k) + (-1) * Coef(X, k - 0))
      {
        CongRefl(p, Coef(z, k));
      }
    }
    hide IsShiftAdd, Power, Frobenius;
    ShiftAddEval(p, a, -1, 0, X, z, c);
    CongTrans(p, Eval(a, c), Pow(c, p), c);
    FrobeniusZero(p, Eval(z, c), Eval(a, c), c);
  }

  lemma FrobeniusZero(p: Prime, z: int, a: int, c: int)
    requires EvalStep(p, z, a, -1, 1, c) && Cong(p, a, c)
    ensures Cong(p, z, 0)
  {
    Combine(p, z - 0, 1, z - (a + (-1) * (1 * c)), 1, a - c);
  }

  // ----- Total splitting -----

  /** The last index below n at which q is not a multiple of p. */
  lemma {:induction false} Top(p: Prime, q: Poly, n: nat) returns (e: int)
    requires n <= |q|
    ensures -1 <= e < n && (e >= 0 ==> !Multiple(q[e], p))
    ensures forall i | e < i < n :: Multiple(q[i], p)
  {
    if n == 0 {
      e := -1;
    } else if Multiple(q[n - 1], p) {
      e := Top(p, q, n - 1);
    } else {
      e := n - 1;
    }
  }

  /** The cofactor of a monic divisor of degree d of x^p - x is not zero, and its degree is at most p - d. */
  lemma CofactorDegree(p: Prime, g: Poly, q: Poly) returns (e: nat)
    requires Monic(p, g) && IsMultipleBy(p, q, g, Frobenius(p))
    ensures e < |q| && !Multiple(q[e], p) && e + (|g| - 1) <= p
    ensures forall i | e < i < |q| :: Multiple(q[i], p)
  {
    var d := |g| - 1;
    var top := Top(p, q, |q|);
    if top < 0 {
      ZeroProduct(p, q, g, p);
      FrobeniusCoef(p, p);
      assert Cong(p, Coef(Frobenius(p), p), MulCoef(q, g, p));
      CongTrans(p, 1, MulCoef(q, g, p), 0);
      NotZero(p, 1);
      assert false;
    }
    e := top;
    if e + d > p {
      MultipleOf(0, p);
      TopTerm(p, q, g, e, d, |q|);
      FrobeniusCoef(p, e + d);
      assert Cong(p, Coef(Frobenius(p), e + d), MulCoef(q, g, e + d));
      CongTrans(p, 0, MulCoef(q, g, e + d), q[e] * 1);
      Combine(p, q[e], -1, 0 - q[e] * 1, 0, 0 - q[e] * 1);
      assert false;
    }
  }

  lemma ZeroProduct(p: Prime, q: Poly, g: Poly, k: int)
    requires forall i | 0 <= i < |q| :: Multiple(q[i], p)
    ensures Cong(p, MulCoef(q, g, k), 0)
  {
    CongRefl(p, 0);
    ZeroCofactors(p, q, g, k, |q|);
  }

  /** Every residue is a root of the divisor or of the cut-off cofactor. */
  lemma RootsCover(p: Prime, g: Poly, q: Poly, e: nat)
    requires IsMultipleBy(p, q, g, Frobenius(p)) && e < |q| && forall i | e < i < |q| :: Multiple(q[i], p)
    ensures Range(p - 1) + {0} <= RootSet(p, g) + RootSet(p, q[..e + 1])
  {
    hide Frobenius, IsMultipleBy;
    var f, cut := Frobenius(p), q[..e + 1];
    forall c | 0 <= c < p
      ensures Root(p, g, c) || Root(p, cut, c)
    {
      FrobeniusRoot(p, c);
      CutEval(p, q, e, c);
      ProductRoot(p, f, g, q, c);
      if !Root(p, g, c) {
        CongTrans(p, Eval(cut, c), Eval(q, c), 0);
      }
    }
  }

  lemma CutEval(p: Prime, q: Poly, e: nat, c: int)
    requires e < |q| && forall i | e < i < |q| :: Multiple(q[i], p)
    ensures Cong(p, Eval(q[..e + 1], c), Eval(q, c))
  {
    var cut := q[..e + 1];
    forall k: int
      ensures Cong(p, Coef(cut, k), Coef(q, k))
    {
      CongRefl(p, Coef(q, k));
      if e < k < |q| {
        Combine(p, 0 - q[k], -1, q[k], 0, q[k]);
      }
    }
    EvalCong(p, q, cut, c);
  }

  lemma ProductRoot(p: Prime, f: Poly, g: Poly, q: Poly, c: int)
    requires IsMultipleBy(p, q, g, f) && Root(p, f, c)
    ensures Root(p, g, c) || Cong(p, Eval(q, c), 0)
  {
    assert QuotRem(p, f, g, q, []);
    QuotRemEval(p, f, g, q, [], c);
    assert EvalTo([], c, 0) == 0;
    var fc, m := Eval(f, c), Eval(q, c) * Eval(g, c);
    assert Cong(p, fc, m + 0) && Cong(p, fc, 0);
    hide Multiple;
    Combine(p, m, 1, fc - 0, -1, fc - (m + 0));
    EuclidLemma(p, Eval(q, c), Eval(g, c));
  }

  /** A monic divisor of x^p - x has exactly as many distinct roots in F_p as its degree. */
  lemma TotallySplit(p: Prime, g: Poly)
    requires Monic(p, g) && Divides(p, g, Frobenius(p))
    ensures |RootSet(p, g)| == |g| - 1
  {
    hide Root, Multiple, Frobenius, IsMultipleBy;
    var q: Poly :| IsMultipleBy(p, q, g, Frobenius(p));
    var e := CofactorDegree(p, g, q);
    var cut := q[..e + 1];
    RootsCover(p, g, q, e);
    RootBound(p, cut);
    NotZero(p, 1);
    RootBound(p, g);
    assert |Range(p - 1) + {0}| == p;
    SubsetSize(Range(p - 1) + {0}, RootSet(p, g) + RootSet(p, cut));
  }

  // ----- Parts of x^p - x -----

  /** A monic divisor of x^p - x. */
  ghost predicate IsPart(p: Prime, f: Poly) {
    Monic(p, f) && Divides(p, f, Frobenius(p))
  }

  lemma DividesTrans(p: Prime, a: Poly, b: Poly, c: Poly)
    requires Divides(p, a, b) && Divides(p, b, c)
    ensures Divides(p, a, c)
  {
    var u: Poly :| IsMultipleBy(p, u, b, c);
    var z := Mul(u, b);
    DividesPartial(p, a, u, b, |u|);
    forall k: int
      ensures Cong(p, Coef(c, k), Coef(z, k) + 0 * Coef(z, k))
    {
      assert Cong(p, Coef(c, k), MulCoef(u, b, k));
    }
    hide Divides;
    SumDivides(p, a, z, 0, z, c);
  }

  lemma PartDivisor(p: Prime, f: Poly, g: Poly)
    requires IsPart(p, f) && Monic(p, g) && Divides(p, g, f)
    ensures IsPart(p, g)
  {
    hide Divides;
    DividesTrans(p, g, f, Frobenius(p));
  }

  /** A common divisor of f and x^p - x modulo f divides x^p - x. */
  lemma CommonPart(p: Prime, f: Poly, power: Poly, h: Poly, g: Poly)
    requires EqMod(p, f, power, Power(X, p)) && IsShiftAdd(p, power, -1, 0, X, h)
    requires Divides(p, g, f) && Divides(p, g, h)
    ensures Divides(p, g, Frobenius(p))
  {
    var w, z := Sub(power, Power(X, p)), Frobenius(p);
    DividesTrans(p, g, f, w);
    forall k: int
      ensures Cong(p, Coef(z, k), Coef(h, k) + (-1) * Coef(w, k))
    {
      CommonEntry(p, power, h, k);
    }
    hide *;
    SumDivides(p, g, h, -1, w, z);
  }

  lemma CommonEntry(p: Prime, power: Poly, h: Poly, k: int)
    requires IsShiftAdd(p, power, -1, 0, X, h)
    ensures Cong(p, Coef(Frobenius(p), k), Coef(h, k) + (-1) * Coef(Sub(power, Power(X, p)), k))
  {
    hide Multiple, Coef, Power;
    assert Cong(p, Coef(h, k), Coef(power, k) + (-1) * Coef(X, k - 0));
    PartEntry(p, Coef(h, k), Coef(power, k), Coef(Power(X, p), k), Coef(X, k));
  }

  lemma PartEntry(p: Prime, h: int, power: int, a: int, x: int)
    requires Cong(p, h, power + (-1) * x)
    ensures Cong(p, a - x, h + (-1) * (power - a))
  {
    Combine(p, (a - x) - (h + (-1) * (power - a)), -1, h - (power + (-1) * x), 0, h - (power + (-1) * x));
  }

  /** The quotient of an exact division divides the dividend too. */
  lemma QuotientDivides(p: Prime, f: Poly, g: Poly, q: Poly, r: Poly)
    requires QuotRem(p, f, g, q, r) && Deg(r) < 0
    ensures Divides(p, q, f)
  {
    forall k: int
      ensures Cong(p, Coef(f, k), MulCoef(g, q, k))
    {
      assert Cong(p, Coef(f, k), MulCoef(q, g, k) + Coef(r, k));
      MulCommutes(q, g, k);
    }
    assert IsMultipleBy(p, g, q, f);
  }
}
