/** The program's polynomial arithmetic over F_p: subtraction, product, division, gcd, modular power. */
module PolyAlgorithms {
  import opened PrimeField
  import opened Vectors
  import opened Polynomials

  ghost predicate IsPoly(p: Prime, a: Poly) {
    |a| > 0 && Canon(p, a)
  }

  ghost predicate IsTrimmed(a: Poly) {
    |a| == if Deg(a) < 0 then 1 else Deg(a) + 1
  }

  ghost predicate Monic(p: Prime, a: Poly) {
    IsPoly(p, a) && a[|a| - 1] == 1
  }

  ghost predicate ShiftAddBefore(p: Prime, f: Poly, c: int, s: nat, b: Poly, z: Poly, n: nat)
    requires n <= |b| && s + n <= |f|
  {
    |z| == |f| && Canon(p, z)
    && (forall k | 0 <= k < |f| && !(s <= k < s + n) :: z[k] == f[k])
    && (forall i | 0 <= i < n :: Cong(p, z[s + i], f[s + i] + c * b[i]))
  }

  /** Adds c * X^s * b into f in place, using the first n coefficients of b. */
  method AddShifted(p: Prime, f: Poly, c: int, s: nat, b: Poly, n: nat) returns (z: Poly)
    requires Canon(p, f) && n <= |b| && s + n <= |f| && forall i | n <= i < |b| :: b[i] == 0
    ensures |z| == |f| && Canon(p, z) && IsShiftAdd(p, f, c, s, b, z)
  {
    z := f;
    for i := 0 to n
      invariant ShiftAddBefore(p, f, c, s, b, z, i)
    {
      hide Multiple, Cong;
      z := z[s + i := Mod(p, z[s + i] + c * b[i])];
    }
    ShiftAddDone(p, f, c, s, b, z, n);
  }

  lemma ShiftAddDone(p: Prime, f: Poly, c: int, s: nat, b: Poly, z: Poly, n: nat)
    requires n <= |b| && s + n <= |f| && ShiftAddBefore(p, f, c, s, b, z, n)
    requires forall i | n <= i < |b| :: b[i] == 0
    ensures IsShiftAdd(p, f, c, s, b, z)
  {
    hide Cong;
    forall k: int
      ensures Cong(p, Coef(z, k), Coef(f, k) + c * Coef(b, k - s))
    {
      if s <= k < s + n {
        assert Cong(p, z[s + (k - s)], f[s + (k - s)] + c * b[k - s]);
      } else {
        assert Coef(b, k - s) == 0 && Coef(z, k) == Coef(f, k);
        CongRefl(p, Coef(f, k));
      }
    }
  }

  lemma TrimCanon(p: Prime, a: Poly)
    requires Canon(p, a)
    ensures IsPoly(p, Trim(a))
  {
  }

  lemma ShiftAddTrim(p: Prime, f: Poly, c: int, s: nat, b: Poly, z: Poly)
    requires IsShiftAdd(p, f, c, s, b, z)
    ensures IsShiftAdd(p, f, c, s, b, Trim(z))
  {
    forall k: int
      ensures Cong(p, Coef(Trim(z), k), Coef(f, k) + c * Coef(b, k - s))
    {
      assert Coef(Trim(z), k) == Coef(z, k);
    }
  }

  method PolySub(p: Prime, a: Poly, b: Poly) returns (r: Poly)
    ensures IsPoly(p, r) && IsShiftAdd(p, a, -1, 0, b, r)
  {
    var n := if |a| < |b| then |b| else |a|;
    var out := seq(n, _ => 0);
    for i := 0 to n
      invariant |out| == n && Canon(p, out)
      invariant forall k | 0 <= k < i :: Cong(p, out[k], Coef(a, k) - Coef(b, k))
    {
      out := out[i := Mod(p, Coef(a, i) - Coef(b, i))];
    }
    forall k: int
      ensures Cong(p, Coef(out, k), Coef(a, k) + (-1) * Coef(b, k - 0))
    {
      if !(0 <= k < n) {
        CongRefl(p, 0);
      }
    }
    TrimCanon(p, out);
    ShiftAddTrim(p, a, -1, 0, b, out);
    r := Trim(out);
  }

  ghost predicate IsProductTo(p: Prime, a: Poly, b: Poly, n: nat, z: Poly) {
    forall k: int {:trigger Coef(z, k)} :: Cong(p, Coef(z, k), MulTo(a, b, k, n))
  }

  lemma ProductStep(p: Prime, a: Poly, b: Poly, i: nat, f: Poly, z: Poly)
    requires IsProductTo(p, a, b, i, f) && IsShiftAdd(p, f, Coef(a, i), i, b, z)
    ensures IsProductTo(p, a, b, i + 1, z)
  {
    hide Multiple, Cong;
    forall k: int
      ensures Cong(p, Coef(z, k), MulTo(a, b, k, i + 1))
    {
      var x := Coef(a, i) * Coef(b, k - i);
      assert Cong(p, Coef(f, k), MulTo(a, b, k, i));
      CongRefl(p, x);
      CongAxpy(p, Coef(f, k), MulTo(a, b, k, i), 1, x, x);
      CongTrans(p, Coef(z, k), Coef(f, k) + 1 * x, MulTo(a, b, k, i + 1));
    }
  }

  lemma ProductSkip(p: Prime, a: Poly, b: Poly, i: nat, f: Poly)
    requires IsProductTo(p, a, b, i, f) && Coef(a, i) == 0
    ensures IsProductTo(p, a, b, i + 1, f)
  {
    forall k: int
      ensures Cong(p, Coef(f, k), MulTo(a, b, k, i + 1))
    {
      assert Cong(p, Coef(f, k), MulTo(a, b, k, i));
      assert Coef(a, i) * Coef(b, k - i) == 0;
    }
  }

  method PolyMul(p: Prime, a: Poly, b: Poly) returns (r: Poly)
    requires |a| > 0 && |b| > 0
    ensures IsPoly(p, r) && IsProductTo(p, a, b, |a|, r)
  {
    var out := seq(|a| + |b| - 1, _ => 0);
    CongRefl(p, 0);
    for i := 0 to |a|
      invariant |out| == |a| + |b| - 1 && Canon(p, out) && IsProductTo(p, a, b, i, out)
    {
      if a[i] == 0 {
        ProductSkip(p, a, b, i, out);
        continue;
      }
      var z := AddShifted(p, out, a[i], i, b, |b|);
      ProductStep(p, a, b, i, out, z);
      out := z;
    }
    TrimCanon(p, out);
    r := Trim(out);
    forall k: int
      ensures Cong(p, Coef(r, k), MulTo(a, b, k, |a|))
    {
      assert Coef(r, k) == Coef(out, k);
    }
  }

  lemma ProductEval(p: Prime, a: Poly, b: Poly, r: Poly, x: int)
    requires IsProductTo(p, a, b, |a|, r)
    ensures Cong(p, Eval(r, x), Eval(a, x) * Eval(b, x))
  {
    var z := Partial(a, b, |a|);
    EvalCong(p, z, r, x);
    PartialEval(p, a, b, x, |a|);
    CongTrans(p, Eval(r, x), Eval(z, x), Eval(a, x) * Eval(b, x));
  }

  // ----- Division -----

  /** One division step: r loses its leading term, q gains factor * X^s. */
  lemma DivisionStep(p: Prime, a: Poly, b: Poly, q: Poly, r: Poly, factor: int, s: nat, q': Poly, r': Poly)
    requires QuotRem(p, a, b, q, r) && IsShiftAdd(p, r, -factor, s, b, r')
    requires forall i: int {:trigger Coef(q', i)} :: Coef(q', i) == Coef(q, i) + factor * Coef([1], i - s)
    ensures QuotRem(p, a, b, q', r')
  {
    forall k: int
      ensures Cong(p, Coef(a, k), MulCoef(q', b, k) + Coef(r', k))
    {
      var n := |q| + |q'| + s + 1;
      MulShiftLinear(q, factor, s, [1], q', b, k, n);
      MulTail(q, b, k, n);
      MulTail(q', b, k, n);
      MulTail([1], b, k - s, n - s);
      MulOne(b, k - s);
      hide Multiple;
      assert Cong(p, Coef(a, k), MulCoef(q, b, k) + Coef(r, k));
      assert Cong(p, Coef(r', k), Coef(r, k) + (-factor) * Coef(b, k - s));
      StepBalance(p, Coef(a, k), MulCoef(q, b, k), Coef(r, k), Coef(r', k), factor, Coef(b, k - s), MulCoef(q', b, k));
    }
  }

  lemma MulOne(b: Poly, k: int)
    ensures MulCoef([1], b, k) == Coef(b, k)
  {
    assert MulTo([1], b, k, 0) == 0;
    assert Coef([1], 0) == 1;
  }

  lemma StepBalance(p: Prime, a: int, m: int, r: int, r': int, f: int, b: int, m': int)
    requires Cong(p, a, m + r) && Cong(p, r', r + (-f) * b) && m' == m + f * b
    ensures Cong(p, a, m' + r')
  {
    Combine(p, a - (m' + r'), 1, a - (m + r), -1, r' - (r + (-f) * b));
  }

  /** After a step the leading coefficient is gone. */
  lemma LeadingGone(p: Prime, r: Poly, b: Poly, dr: nat, db: nat, inv: int, factor: int, r': Poly)
    requires Canon(p, r) && Canon(p, r') && Deg(r) == dr && Deg(b) == db && db <= dr < |r|
    requires Cong(p, b[db] * inv, 1) && Cong(p, factor, r[dr] * inv) && IsShiftAdd(p, r, -factor, dr - db, b, r')
    ensures Deg(r') < dr
  {
    hide Multiple, Cong, IsShiftAdd;
    forall k | dr <= k < |r'|
      ensures r'[k] == 0
    {
      GoneFrom(p, r, b, dr, db, inv, factor, r', k);
    }
  }

  lemma GoneFrom(p: Prime, r: Poly, b: Poly, dr: nat, db: nat, inv: int, factor: int, r': Poly, k: nat)
    requires Canon(p, r) && Canon(p, r') && Deg(r) == dr && Deg(b) == db && db <= dr < |r| && dr <= k < |r'|
    requires Cong(p, b[db] * inv, 1) && Cong(p, factor, r[dr] * inv) && IsShiftAdd(p, r, -factor, dr - db, b, r')
    ensures r'[k] == 0
  {
    hide Multiple, Cong;
    var x, y, w := Coef(r', k), Coef(r, k), Coef(b, k - (dr - db));
    assert Cong(p, x, y + (-factor) * w) && x == r'[k];
    assert if k == dr then y == r[dr] && w == b[db] else y == 0 && w == 0;
    hide *;
    if k == dr {
      LeadBalance(p, x, y, factor, w, inv);
    } else {
      AboveLead(p, x, y, factor, w);
    }
    CongEqual(p, x, 0);
  }

  lemma AboveLead(p: Prime, x: int, r: int, f: int, b: int)
    requires Cong(p, x, r + (-f) * b) && r == 0 && b == 0
    ensures Cong(p, x, 0)
  {
    hide *;
    assert r + (-f) * b == 0;
  }

  lemma LeadBalance(p: Prime, x: int, r: int, f: int, b: int, inv: int)
    requires Cong(p, x, r + (-f) * b) && Cong(p, f, r * inv) && Cong(p, b * inv, 1)
    ensures Cong(p, x, 0)
  {
    hide Multiple;
    var e, g := f - r * inv, b * inv - 1;
    LeadSum(r, f, b, inv);
    Combine(p, r + (-f) * b, -b, e, -r, g);
    Combine(p, x - 0, 1, x - (r + (-f) * b), 1, r + (-f) * b);
  }

  lemma LeadSum(r: int, f: int, b: int, inv: int)
    ensures r + (-f) * b == (-b) * (f - r * inv) + (-r) * (b * inv - 1)
  {
    assert b * (r * inv) == r * (b * inv);
    assert b * (f - r * inv) == b * f - b * (r * inv);
    assert r * (b * inv - 1) == r * (b * inv) - r;
  }

  lemma QuotRemStart(p: Prime, a: Poly, b: Poly, q: Poly)
    requires forall i: int {:trigger Coef(q, i)} :: Coef(q, i) == 0
    ensures QuotRem(p, a, b, q, Trim(a))
  {
    forall k: int
      ensures Cong(p, Coef(a, k), MulCoef(q, b, k) + Coef(Trim(a), k))
    {
      MulZero(q, b, k, |q|);
      CongRefl(p, Coef(a, k));
    }
  }

  lemma {:induction false} MulZero(q: Poly, b: Poly, k: int, n: nat)
    requires forall i: int {:trigger Coef(q, i)} :: Coef(q, i) == 0
    ensures MulTo(q, b, k, n) == 0
  {
    if n == 0 {
    } else {
      MulZero(q, b, k, n - 1);
    }
  }

  /** The division loop's body: subtracts the right multiple of b from r, and trims. */
  method DivideOnce(p: Prime, r: Poly, b: Poly, leadInv: int) returns (factor: int, r': Poly)
    requires IsPoly(p, r) && Canon(p, b) && 0 <= Deg(b) <= Deg(r) && Cong(p, b[Deg(b)] * leadInv, 1)
    ensures IsPoly(p, r') && IsTrimmed(r') && Deg(r') < Deg(r) && 0 <= factor < p &&
      Cong(p, factor, r[Deg(r)] * leadInv)
    ensures var s := Deg(r) - Deg(b); IsShiftAdd(p, r, -factor, s, b, r')
  {
    hide Cong, Multiple, IsShiftAdd;
    var dr, db := Deg(r), Deg(b);
    factor := Mod(p, r[dr] * leadInv);
    var z := AddShifted(p, r, -factor, dr - db, b, db + 1);
    LeadingGone(p, r, b, dr, db, leadInv, factor, z);
    TrimCanon(p, z);
    ShiftAddTrim(p, r, -factor, dr - db, b, z);
    r' := Trim(z);
  }

  /** The remainder of a by b, or None where the program throws. */
  method PolyMod(p: Prime, a: Poly, b: Poly) returns (rem: Option<Poly>, ghost q: Poly)
    requires Canon(p, a) && Canon(p, b)
    ensures rem.None? <==> Deg(b) < 0
    ensures rem.Some? ==> IsPoly(p, rem.value) && IsTrimmed(rem.value)
    ensures rem.Some? ==> Deg(rem.value) < Deg(b) && QuotRem(p, a, b, q, rem.value)
  {
    q := [];
    var db := Deg(b);
    if db < 0 {
      return None, q;
    }
    NotZero(p, b[db]);
    var inv := FInv(p, b[db]);
    var leadInv := inv.value;
    var r := Trim(a);
    TrimCanon(p, a);
    QuotRemStart(p, a, b, q);
    while Deg(r) >= db
      invariant IsPoly(p, r) && IsTrimmed(r) && QuotRem(p, a, b, q, r)
      decreases Deg(r)
    {
      var factor, r' := DivideOnce(p, r, b, leadInv);
      ghost var s := Deg(r) - db;
      ghost var q' := ShiftAdd(q, factor, s, [1]);
      DivisionStep(p, a, b, q, r, factor, s, q', r');
      q, r := q', r';
    }
    return Some(r), q;
  }

  /** Between two passes: a = q * b + rem, and no quotient entry at or below rem's next one is set. */
  ghost predicate DivState(p: Prime, a: Poly, b: Poly, q: Poly, rem: Poly) {
    && IsPoly(p, rem) && QuotRem(p, a, b, q, rem) && Deg(rem) <= Deg(a) && Canon(p, q)
    && |q| == (if Deg(a) - Deg(b) + 1 < 1 then 1 else Deg(a) - Deg(b) + 1)
    && forall i | 0 <= i < |q| && i <= Deg(rem) - Deg(b) :: q[i] == 0
  }

  /** For monic a and b: the first pass writes a leading 1, later passes leave it. */
  ghost predicate MonicState(a: Poly, q: Poly, rem: Poly) {
    if Deg(rem) == Deg(a) >= 0 then rem[Deg(a)] == 1 else |q| > 0 && q[|q| - 1] == 1
  }

  method DivExactStep(p: Prime, ghost a: Poly, b: Poly, q: Poly, rem: Poly, leadInv: int)
    returns (q': Poly, rem': Poly)
    requires Canon(p, b) && 0 <= Deg(b) <= Deg(rem) && DivState(p, a, b, q, rem) && Cong(p, b[Deg(b)] * leadInv, 1)
    ensures DivState(p, a, b, q', rem') && Deg(rem') < Deg(rem)
    ensures b[Deg(b)] == 1 && MonicState(a, q, rem) ==> MonicState(a, q', rem')
  {
    hide QuotRem, IsShiftAdd, Multiple, Cong;
    var factor;
    factor, rem' := DivideOnce(p, rem, b, leadInv);
    var s := Deg(rem) - Deg(b);
    q' := q[s := factor];
    QuotientEntry(q, factor, s, q');
    DivisionStep(p, a, b, q, rem, factor, s, q', rem');
    if b[Deg(b)] == 1 && rem[Deg(rem)] == 1 {
      MonicFactor(p, rem[Deg(rem)], b[Deg(b)], leadInv, factor);
    }
  }

  /** The quotient of a by b; when b divides a the remainder is zero and this is exact. */
  method PolyDivExact(p: Prime, a: Poly, b: Poly) returns (quot: Poly, ghost r: Poly)
    requires Canon(p, a) && Canon(p, b) && Deg(b) >= 0
    ensures IsPoly(p, quot) && QuotRem(p, a, b, quot, r) && IsPoly(p, r) && Deg(r) < Deg(b)
    ensures Monic(p, a) && Monic(p, b) && |b| <= |a| ==> Monic(p, quot) && |quot| == |a| - |b| + 1
  {
    var db, da := Deg(b), Deg(a);
    NotZero(p, b[db]);
    var inv := FInv(p, b[db]);
    var leadInv := inv.value;
    var rem := Trim(a);
    TrimCanon(p, a);
    var size := if da - db + 1 < 1 then 1 else da - db + 1;
    var q := seq(size, _ => 0);
    QuotRemStart(p, a, b, q);
    hide QuotRem, Multiple, Cong;
    ghost var monic := Monic(p, a) && Monic(p, b) && |b| <= |a|;
    MonicStart(p, a, q, rem);
    while Deg(rem) >= db
      invariant DivState(p, a, b, q, rem) && (monic ==> MonicState(a, q, rem))
      decreases Deg(rem)
    {
      q, rem := DivExactStep(p, a, b, q, rem, leadInv);
    }
    r := rem;
    TrimCanon(p, q);
    TrimQuotient(p, a, b, q, rem);
    quot := Trim(q);
  }

  lemma MonicStart(p: Prime, a: Poly, q: Poly, rem: Poly)
    requires rem == Trim(a)
    ensures Monic(p, a) ==> MonicState(a, q, rem)
  {
    if Monic(p, a) {
      assert Deg(a) == |a| - 1;
      assert Coef(rem, |a| - 1) == Coef(a, |a| - 1);
    }
  }

  lemma QuotientEntry(q: Poly, factor: int, s: nat, q': Poly)
    requires s < |q| && q[s] == 0 && q' == q[s := factor]
    ensures forall i: int {:trigger Coef(q', i)} :: Coef(q', i) == Coef(q, i) + factor * Coef([1], i - s)
  {
    assert Coef([1], 0) == 1;
  }

  lemma MonicFactor(p: Prime, r: int, b: int, inv: int, factor: int)
    requires r == 1 && b == 1 && Cong(p, b * inv, 1) && Cong(p, factor, r * inv) && 0 <= factor < p
    ensures factor == 1
  {
    CongTrans(p, factor, inv, 1);
    CongEqual(p, factor, 1);
  }

  lemma TrimQuotient(p: Prime, a: Poly, b: Poly, q: Poly, r: Poly)
    requires QuotRem(p, a, b, q, r)
    ensures QuotRem(p, a, b, Trim(q), r)
  {
    forall k: int
      ensures Cong(p, Coef(a, k), MulCoef(Trim(q), b, k) + Coef(r, k))
    {
      var n := |q| + |Trim(q)|;
      SameMul(Trim(q), q, b, k, n);
      MulTail(q, b, k, n);
      MulTail(Trim(q), b, k, n);
      assert Cong(p, Coef(a, k), MulCoef(q, b, k) + Coef(r, k));
    }
  }

  lemma {:induction false} SameMul(q: Poly, q': Poly, b: Poly, k: int, n: nat)
    requires forall i: int {:trigger Coef(q, i)} :: Coef(q, i) == Coef(q', i)
    ensures MulTo(q, b, k, n) == MulTo(q', b, k, n)
  {
    if n == 0 {
    } else {
      SameMul(q, q', b, k, n - 1);
    }
  }

  // ----- Greatest common divisor -----

  /** The common divisors, and the common roots, of (a, b) are those of (x, y). */
  ghost predicate SameCommon(p: Prime, a: Poly, b: Poly, x: Poly, y: Poly) {
    && (forall d: Poly {:trigger CommonDivisor(p, d, x, y)} :: CommonDivisor(p, d, a, b) <==> CommonDivisor(p, d, x, y))
    && (forall c: int {:trigger CommonRoot(p, c, x, y)} :: CommonRoot(p, c, a, b) <==> CommonRoot(p, c, x, y))
  }

  ghost predicate CommonDivisor(p: Prime, d: Poly, a: Poly, b: Poly) {
    Divides(p, d, a) && Divides(p, d, b)
  }

  ghost predicate CommonRoot(p: Prime, c: int, a: Poly, b: Poly) {
    Root(p, a, c) && Root(p, b, c)
  }

  lemma EuclidStep(p: Prime, a: Poly, b: Poly, x: Poly, y: Poly, q: Poly, r: Poly)
    requires SameCommon(p, a, b, x, y) && QuotRem(p, x, y, q, r)
    ensures SameCommon(p, a, b, y, r)
  {
    hide Divides, Root, QuotRem;
    forall d: Poly
      ensures CommonDivisor(p, d, a, b) <==> CommonDivisor(p, d, y, r)
    {
      assert CommonDivisor(p, d, a, b) <==> CommonDivisor(p, d, x, y);
      if Divides(p, d, y) {
        DividesQuotRem(p, d, x, y, q, r);
      }
    }
    forall c: int
      ensures CommonRoot(p, c, a, b) <==> CommonRoot(p, c, y, r)
    {
      assert CommonRoot(p, c, a, b) <==> CommonRoot(p, c, x, y);
      if Root(p, y, c) {
        RootQuotRem(p, c, x, y, q, r);
      }
    }
  }

  lemma RootQuotRem(p: Prime, c: int, x: Poly, y: Poly, q: Poly, r: Poly)
    requires QuotRem(p, x, y, q, r) && Root(p, y, c)
    ensures Root(p, x, c) <==> Root(p, r, c)
  {
    QuotRemEval(p, x, y, q, r, c);
    RemainderRoot(p, Eval(x, c), Eval(q, c), Eval(y, c), Eval(r, c));
  }

  lemma RemainderRoot(p: Prime, x: int, q: int, y: int, r: int)
    requires Cong(p, x, q * y + r) && Cong(p, y, 0)
    ensures Cong(p, x, 0) <==> Cong(p, r, 0)
  {
    Combine(p, x - r, 1, x - (q * y + r), q, y - 0);
    if Cong(p, x, 0) {
      Combine(p, r - 0, 1, x - 0, -1, x - r);
    }
    if Cong(p, r, 0) {
      Combine(p, x - 0, 1, r - 0, 1, x - r);
    }
  }

  /** g is the monic greatest common divisor of a and b, and [0] when both are zero. */
  ghost predicate IsGcd(p: Prime, a: Poly, b: Poly, g: Poly) {
    && IsPoly(p, g)
    && (if Deg(a) < 0 && Deg(b) < 0 then g == [0] else Monic(p, g))
    && (forall d: Poly {:trigger Divides(p, d, g)} :: Divides(p, d, g) <==> CommonDivisor(p, d, a, b))
    && (forall c: int {:trigger Root(p, g, c)} :: Root(p, g, c) <==> CommonRoot(p, c, a, b))
  }

  lemma TrimCommon(p: Prime, a: Poly, b: Poly)
    ensures SameCommon(p, a, b, Trim(a), Trim(b))
  {
    forall d: Poly
      ensures CommonDivisor(p, d, a, b) <==> CommonDivisor(p, d, Trim(a), Trim(b))
    {
      SameDivides(p, d, a, Trim(a));
      SameDivides(p, d, b, Trim(b));
    }
    forall c: int
      ensures CommonRoot(p, c, a, b) <==> CommonRoot(p, c, Trim(a), Trim(b))
    {
      SameRoot(p, a, Trim(a), c);
      SameRoot(p, b, Trim(b), c);
    }
  }

  lemma SameDivides(p: Prime, d: Poly, a: Poly, t: Poly)
    requires forall k: int {:trigger Coef(t, k)} :: Coef(t, k) == Coef(a, k)
    ensures Divides(p, d, a) <==> Divides(p, d, t)
  {
    if Divides(p, d, a) {
      var q: Poly :| IsMultipleBy(p, q, d, a);
      forall k: int
        ensures Cong(p, Coef(t, k), MulCoef(q, d, k))
      {
        assert Coef(t, k) == Coef(a, k);
      }
      assert IsMultipleBy(p, q, d, t);
    }
    if Divides(p, d, t) {
      var q: Poly :| IsMultipleBy(p, q, d, t);
      forall k: int
        ensures Cong(p, Coef(a, k), MulCoef(q, d, k))
      {
        assert Coef(t, k) == Coef(a, k);
      }
      assert IsMultipleBy(p, q, d, a);
    }
  }

  lemma SameRoot(p: Prime, a: Poly, t: Poly, c: int)
    requires forall k: int {:trigger Coef(t, k)} :: Coef(t, k) == Coef(a, k)
    ensures Root(p, a, c) <==> Root(p, t, c)
  {
    forall k: int
      ensures Cong(p, Coef(t, k), Coef(a, k))
    {
      CongRefl(p, Coef(a, k));
    }
    EvalCong(p, a, t, c);
    SameZero(p, Eval(t, c), Eval(a, c));
  }

  /** Scaling by a unit changes neither divisors nor roots. */
  lemma ScaledCommon(p: Prime, x: Poly, u: int, v: int, g: Poly)
    requires Cong(p, u * v, 1) && IsShiftAdd(p, [], u, 0, x, g)
    ensures forall d: Poly {:trigger Divides(p, d, g)} :: Divides(p, d, g) <==> Divides(p, d, x)
    ensures forall c: int {:trigger Root(p, g, c)} :: Root(p, g, c) <==> Root(p, x, c)
  {
    ScaleBack(p, x, u, v, g);
    hide IsShiftAdd, Multiple, Divides, Root;
    forall d: Poly
      ensures Divides(p, d, g) <==> Divides(p, d, x)
    {
      EmptyDivides(p, d);
      if Divides(p, d, x) {
        DividesShiftAdd(p, d, [], u, 0, x, g);
      }
      if Divides(p, d, g) {
        DividesShiftAdd(p, d, [], v, 0, g, x);
      }
    }
    forall c: int
      ensures Root(p, g, c) <==> Root(p, x, c)
    {
      ScaledRoot(p, x, u, g, c);
      ScaledRoot(p, g, v, x, c);
    }
  }

  lemma EmptyDivides(p: Prime, d: Poly)
    ensures Divides(p, d, [])
  {
    CongRefl(p, 0);
    DividesZero(p, d, []);
  }

  lemma ScaledRoot(p: Prime, x: Poly, u: int, g: Poly, c: int)
    requires IsShiftAdd(p, [], u, 0, x, g)
    ensures Root(p, x, c) ==> Root(p, g, c)
  {
    ShiftAddEval(p, [], u, 0, x, g, c);
    assert Eval([], c) == 0 && Pow(c, 0) == 1;
    if Root(p, x, c) {
      Combine(p, Eval(g, c) - 0, 1, Eval(g, c) - (0 + u * (1 * Eval(x, c))), u, Eval(x, c) - 0);
    }
  }

  lemma ScaleBack(p: Prime, x: Poly, u: int, v: int, g: Poly)
    requires Cong(p, u * v, 1) && IsShiftAdd(p, [], u, 0, x, g)
    ensures IsShiftAdd(p, [], v, 0, g, x)
  {
    forall k: int
      ensures Cong(p, Coef(x, k), Coef([], k) + v * Coef(g, k - 0))
    {
      assert Cong(p, Coef(g, k), Coef([], k) + u * Coef(x, k - 0));
      ScaleBackEntry(p, Coef(x, k), u, v, Coef(g, k));
    }
  }

  lemma ScaleBackEntry(p: Prime, x: int, u: int, v: int, g: int)
    requires Cong(p, u * v, 1) && Cong(p, g, 0 + u * x)
    ensures Cong(p, x, 0 + v * g)
  {
    var e, f := u * v - 1, g - u * x;
    assert v * g == v * f + x * (u * v);
    assert x - v * g == -(v * f) - x * e;
    Combine(p, x - (0 + v * g), -v, f, -x, e);
  }

  method Normalize(p: Prime, x: Poly) returns (g: Poly)
    requires IsPoly(p, x) && Deg(x) == |x| - 1
    ensures Monic(p, g) && |g| == |x|
    ensures forall d: Poly {:trigger Divides(p, d, g)} :: Divides(p, d, g) <==> Divides(p, d, x)
    ensures forall c: int {:trigger Root(p, g, c)} :: Root(p, g, c) <==> Root(p, x, c)
  {
    var dx := Deg(x);
    NotZero(p, x[dx]);
    var inv := FInv(p, x[dx]);
    var leadInv := inv.value;
    g := seq(|x|, i requires 0 <= i < |x| => Mod(p, x[i] * leadInv));
    ScaledIsShiftAdd(p, x, leadInv, g);
    hide IsShiftAdd, Multiple, Divides, Root;
    UnitLead(p, g[dx], x[dx], leadInv);
    ScaledCommon(p, x, leadInv, x[dx], g);
  }

  lemma UnitLead(p: Prime, g: int, x: int, inv: int)
    requires Cong(p, g, x * inv) && Cong(p, x * inv, 1) && 0 <= g < p
    ensures g == 1 && Cong(p, inv * x, 1)
  {
    CongTrans(p, g, x * inv, 1);
    CongEqual(p, g, 1);
    assert inv * x == x * inv;
  }

  lemma ScaledIsShiftAdd(p: Prime, x: Poly, u: int, g: Poly)
    requires |g| == |x| && forall i | 0 <= i < |x| :: Cong(p, g[i], x[i] * u)
    ensures IsShiftAdd(p, [], u, 0, x, g)
  {
    hide Multiple;
    forall k: int
      ensures Cong(p, Coef(g, k), Coef([], k) + u * Coef(x, k - 0))
    {
      if 0 <= k < |x| {
        assert x[k] * u == 0 + u * x[k];
      } else {
        CongRefl(p, 0);
      }
    }
  }

  method PolyGcd(p: Prime, a: Poly, b: Poly) returns (g: Poly)
    requires Canon(p, a) && Canon(p, b)
    ensures IsGcd(p, a, b, g)
  {
    var x, y := Trim(a), Trim(b);
    TrimCanon(p, a);
    TrimCanon(p, b);
    TrimCommon(p, a, b);
    hide SameCommon, QuotRem;
    while Deg(y) >= 0
      invariant IsPoly(p, x) && IsPoly(p, y) && SameCommon(p, a, b, x, y) && IsTrimmed(x) && IsTrimmed(y)
      invariant (Deg(x) < 0 && Deg(y) < 0) <==> (Deg(a) < 0 && Deg(b) < 0)
      decreases Deg(y)
    {
      var rem, q := PolyMod(p, x, y);
      EuclidStep(p, a, b, x, y, q, rem.value);
      x, y := y, rem.value;
    }
    if Deg(x) < 0 {
      ZeroGcd(p, a, b, x, y);
      return [0];
    }
    g := Normalize(p, x);
    FinishGcd(p, a, b, x, y, g);
  }

  lemma ZeroPoly(p: Prime, y: Poly)
    requires Deg(y) < 0
    ensures forall d: Poly {:trigger Divides(p, d, y)} :: Divides(p, d, y)
    ensures forall c: int {:trigger Root(p, y, c)} :: Root(p, y, c)
  {
    CongRefl(p, 0);
    forall d: Poly
      ensures Divides(p, d, y)
    {
      DividesZero(p, d, y);
    }
    forall c: int
      ensures Root(p, y, c)
    {
      ZeroPolyEval(y, c, |y|);
    }
  }

  lemma ZeroGcd(p: Prime, a: Poly, b: Poly, x: Poly, y: Poly)
    requires SameCommon(p, a, b, x, y) && Deg(x) < 0 && Deg(y) < 0 && Deg(a) < 0 && Deg(b) < 0
    ensures IsGcd(p, a, b, [0])
  {
    ZeroPoly(p, x);
    ZeroPoly(p, y);
    ZeroPoly(p, [0]);
    hide Divides, Root;
    forall d: Poly
      ensures Divides(p, d, [0]) <==> CommonDivisor(p, d, a, b)
    {
      assert CommonDivisor(p, d, x, y);
    }
    forall c: int
      ensures Root(p, [0], c) <==> CommonRoot(p, c, a, b)
    {
      assert CommonRoot(p, c, x, y);
    }
  }

  lemma FinishGcd(p: Prime, a: Poly, b: Poly, x: Poly, y: Poly, g: Poly)
    requires SameCommon(p, a, b, x, y) && Deg(y) < 0 && Monic(p, g) && !(Deg(a) < 0 && Deg(b) < 0)
    requires forall d: Poly {:trigger Divides(p, d, g)} :: Divides(p, d, g) <==> Divides(p, d, x)
    requires forall c: int {:trigger Root(p, g, c)} :: Root(p, g, c) <==> Root(p, x, c)
    ensures IsGcd(p, a, b, g)
  {
    ZeroPoly(p, y);
    hide Divides, Root;
    forall d: Poly
      ensures Divides(p, d, g) <==> CommonDivisor(p, d, a, b)
    {
      assert CommonDivisor(p, d, a, b) <==> CommonDivisor(p, d, x, y);
      assert Divides(p, d, y);
    }
    forall c: int
      ensures Root(p, g, c) <==> CommonRoot(p, c, a, b)
    {
      assert CommonRoot(p, c, a, b) <==> CommonRoot(p, c, x, y);
      assert Root(p, y, c);
    }
  }
}
