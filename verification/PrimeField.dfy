/** Arithmetic modulo a prime: congruence, exponentiation, Fermat's little theorem and inversion. */
module PrimeField {

  datatype Option<+T> = None | Some(value: T)

  predicate Multiple(x: int, d: int)
    requires d > 0
  {
    x % d == 0
  }

  ghost predicate IsPrime(p: int) {
    2 <= p && forall d :: 2 <= d < p ==> !Multiple(p, d)
  }

  type Prime = p: int | 2 <= p && IsPrime(p) witness 2

  ghost predicate Cong(p: Prime, a: int, b: int) {
    Multiple(a - b, p)
  }

  /** The remainder of a division that truncates toward zero. */
  function TruncRem(a: int, b: int): int
    requires b > 0
  {
    if a >= 0 then a % b else -((-a) % b)
  }

  /** The program's reduction, written with the truncating remainder it is built on. */
  function Mod(p: Prime, a: int): (r: int)
    ensures 0 <= r < p && Cong(p, r, a)
  {
    ModIsEuclidean(p, a);
    TruncRem(TruncRem(a, p) + p, p)
  }

  // ----- Multiples -----

  /** The only multiple of d strictly between -d and d is 0. */
  lemma SmallMultiple(k: int, d: int)
    requires d > 0
    ensures k >= 1 ==> k * d >= d
    ensures k <= -1 ==> k * d <= -d
  {
  }

  lemma MultipleOf(k: int, d: int)
    requires d > 0
    ensures Multiple(k * d, d)
  {
    var q, r := (k * d) / d, (k * d) % d;
    assert k * d == d * q + r;
    assert r == (k - q) * d;
    SmallMultiple(k - q, d);
  }

  lemma Quotient(x: int, d: int) returns (k: int)
    requires d > 0 && Multiple(x, d)
    ensures x == k * d
  {
    k := x / d;
  }

  /** An integer combination of multiples is a multiple. */
  lemma Combine(p: int, x: int, k: int, e: int, l: int, f: int)
    requires p > 0 && Multiple(e, p) && Multiple(f, p)
    requires x == k * e + l * f
    ensures Multiple(x, p)
  {
    var a := Quotient(e, p);
    var b := Quotient(f, p);
    assert x == (k * a + l * b) * p;
    MultipleOf(k * a + l * b, p);
  }

  lemma ModIsEuclidean(p: Prime, a: int)
    ensures TruncRem(TruncRem(a, p) + p, p) == a % p
    ensures 0 <= a % p < p && Cong(p, a % p, a)
  {
    RemCong(p, a);
    var t := TruncRem(a, p);
    assert Cong(p, t, a) by {
      if a < 0 {
        RemCong(p, -a);
        Combine(p, t - a, -1, (-a) % p - (-a), 0, 0);
      }
    }
    RemCong(p, t + p);
    ShiftUnique(p, a, t, TruncRem(t + p, p));
  }

  lemma RemCong(p: Prime, a: int)
    ensures 0 <= a % p < p && Cong(p, a % p, a)
  {
    assert a % p - a == -(a / p) * p;
    MultipleOf(-(a / p), p);
  }

  lemma ShiftUnique(p: Prime, a: int, t: int, u: int)
    requires Cong(p, t, a) && Cong(p, u, t + p) && 0 <= u < p
    ensures u == a % p
  {
    RemCong(p, a);
    MultipleOf(1, p);
    hide *;
    Combine(p, u - t, 1, u - (t + p), 1, p);
    CongTrans(p, u, t, a);
    CongSym(p, a % p, a);
    CongTrans(p, u, a, a % p);
    CongEqual(p, u, a % p);
  }

  // ----- Congruence -----

  lemma CongEqual(p: Prime, a: int, b: int)
    requires 0 <= a < p && 0 <= b < p && Cong(p, a, b)
    ensures a == b
  {
    var k := Quotient(a - b, p);
    SmallMultiple(k, p);
  }

  lemma CongRefl(p: Prime, a: int)
    ensures Cong(p, a, a)
  {
  }

  lemma CongSym(p: Prime, a: int, b: int)
    requires Cong(p, a, b)
    ensures Cong(p, b, a)
  {
    Combine(p, b - a, -1, a - b, 0, a - b);
  }

  lemma CongTrans(p: Prime, a: int, b: int, c: int)
    requires Cong(p, a, b) && Cong(p, b, c)
    ensures Cong(p, a, c)
  {
    Combine(p, a - c, 1, a - b, 1, b - c);
  }

  lemma CongAxpy(p: Prime, a: int, b: int, k: int, c: int, d: int)
    requires Cong(p, a, b) && Cong(p, c, d)
    ensures Cong(p, a + k * c, b + k * d)
  {
    Combine(p, (a + k * c) - (b + k * d), 1, a - b, k, c - d);
  }

  lemma CongMul(p: Prime, a: int, b: int, c: int, d: int)
    requires Cong(p, a, b) && Cong(p, c, d)
    ensures Cong(p, a * c, b * d)
  {
    Combine(p, a * c - b * d, c, a - b, b, c - d);
  }

  lemma SameZero(p: Prime, x: int, y: int)
    requires Cong(p, x, y)
    ensures Cong(p, x, 0) <==> Cong(p, y, 0)
  {
    if Cong(p, x, 0) {
      CongSym(p, x, y);
      CongTrans(p, y, x, 0);
    }
    if Cong(p, y, 0) {
      CongTrans(p, x, y, 0);
    }
  }

  lemma NotZero(p: Prime, a: int)
    requires 0 < a < p
    ensures !Multiple(a, p)
  {
  }

  // ----- Primality -----

  /** The descent behind Euclid's lemma: p = q*a + r with r < a, and r*b stays a multiple. */
  lemma {:induction false} EuclidDescent(p: Prime, a: int, b: int)
    requires 1 <= a < p && Multiple(a * b, p)
    ensures Multiple(b, p)
    decreases a
  {
    if a > 1 {
      var q, r := p / a, p % a;
      assert IsPrime(p) && 2 <= a < p;
      assert !Multiple(p, a);
      assert p == q * a + r;
      MultipleOf(b, p);
      assert r * b == b * p + (-q) * (a * b);
      Combine(p, r * b, 1, b * p, -q, a * b);
      EuclidDescent(p, r, b);
    }
  }

  lemma EuclidLemma(p: Prime, a: int, b: int)
    requires Multiple(a * b, p)
    ensures Multiple(a, p) || Multiple(b, p)
  {
    if !Multiple(a, p) {
      ModIsEuclidean(p, a);
      var r := a % p;
      Combine(p, r * b, 1, a * b, b, r - a);
      EuclidDescent(p, r, b);
    }
  }

  /** A nonzero factor cancels. */
  lemma Cancel(p: Prime, k: int, a: int, b: int)
    requires !Multiple(k, p) && Cong(p, k * a, k * b)
    ensures Cong(p, a, b)
  {
    assert k * a - k * b == k * (a - b);
    EuclidLemma(p, k, a - b);
  }

  // ----- Powers -----

  function Pow(b: int, e: nat): int {
    if e == 0 then 1 else b * Pow(b, e - 1)
  }

  lemma {:induction false} PowPositive(b: int, e: nat)
    requires b > 0
    ensures Pow(b, e) > 0
  {
    if e == 0 {
    } else {
      PowPositive(b, e - 1);
    }
  }

  lemma {:induction false} PowSquare(b: int, e: nat)
    ensures Pow(b * b, e) == Pow(b, 2 * e)
  {
    if e == 0 {
    } else {
      PowSquare(b, e - 1);
      assert Pow(b, 2 * e) == b * (b * Pow(b, 2 * e - 2));
    }
  }

  lemma {:induction false} PowCong(p: Prime, a: int, b: int, e: nat)
    requires Cong(p, a, b)
    ensures Cong(p, Pow(a, e), Pow(b, e))
  {
    if e == 0 {
    } else {
      PowCong(p, a, b, e - 1);
      CongMul(p, a, b, Pow(a, e - 1), Pow(b, e - 1));
    }
  }

  // ----- Fermat's little theorem -----

  function MulMod(p: Prime, a: int, b: int): (r: int)
    ensures 0 <= r < p && Cong(p, r, a * b)
  {
    ModIsEuclidean(p, a * b);
    (a * b) % p
  }

  ghost function Pick<T>(s: set<T>): (x: T)
    requires s != {}
    ensures x in s
  {
    var x :| x in s;
    x
  }

  ghost function SetProd(s: set<int>): int {
    if s == {} then 1 else var x := Pick(s); x * SetProd(s - {x})
  }

  lemma {:induction false} SetProdRemove(s: set<int>, y: int)
    requires y in s
    ensures SetProd(s) == y * SetProd(s - {y})
  {
    var x := Pick(s);
    if x != y {
      SetProdRemove(s - {x}, y);
      SetProdRemove(s - {y}, x);
      assert s - {x} - {y} == s - {y} - {x};
    }
  }

  lemma SetProdAdd(s: set<int>, y: int)
    requires y !in s
    ensures SetProd(s + {y}) == y * SetProd(s)
  {
    SetProdRemove(s + {y}, y);
    assert s + {y} - {y} == s;
  }

  ghost function Range(n: nat): (s: set<int>)
    ensures |s| == n && forall k :: k in s <==> 1 <= k <= n
  {
    if n == 0 then {} else Range(n - 1) + {n}
  }

  /** The residues a*1, ..., a*n. */
  ghost function Residues(p: Prime, a: int, n: nat): set<int> {
    if n == 0 then {} else Residues(p, a, n - 1) + {MulMod(p, a, n)}
  }

  lemma {:induction false} ResiduesMember(p: Prime, a: int, n: nat, y: int) returns (k: int)
    requires y in Residues(p, a, n)
    ensures 1 <= k <= n && y == MulMod(p, a, k)
  {
    if y == MulMod(p, a, n) {
      k := n;
    } else {
      k := ResiduesMember(p, a, n - 1, y);
    }
  }

  lemma ResidueNotZero(p: Prime, a: int, n: int, y: int)
    requires !Multiple(a, p) && !Multiple(n, p) && Cong(p, y, a * n)
    ensures y != 0
  {
    var m := a * n;
    assert Multiple(y - m, p);
    hide *;
    if y == 0 {
      Combine(p, m, -1, y - m, 0, y - m);
      EuclidLemma(p, a, n);
    }
  }

  lemma ResiduesDiffer(p: Prime, a: int, n: int, k: int, y: int)
    requires !Multiple(a, p) && 1 <= k < n < p && Cong(p, y, a * n)
    ensures !Cong(p, y, a * k)
  {
    hide *;
    NotZero(p, n - k);
    if Cong(p, y, a * k) {
      CongSym(p, y, a * n);
      CongTrans(p, a * n, y, a * k);
      Cancel(p, a, n, k);
      CongDifference(p, n, k);
    }
  }

  lemma CongDifference(p: Prime, a: int, b: int)
    ensures Cong(p, a, b) <==> Multiple(a - b, p)
  {
  }

  /** a*n leaves a nonzero residue that none of a*1, ..., a*(n-1) leaves. */
  lemma FreshResidue(p: Prime, a: int, n: nat)
    requires !Multiple(a, p) && 1 <= n < p
    ensures 1 <= MulMod(p, a, n) < p && MulMod(p, a, n) !in Residues(p, a, n - 1)
  {
    hide *;
    var y := MulMod(p, a, n);
    NotZero(p, n);
    ResidueNotZero(p, a, n, y);
    if y in Residues(p, a, n - 1) {
      var k := ResiduesMember(p, a, n - 1, y);
      ResiduesDiffer(p, a, n, k, y);
    }
  }

  lemma ProductStep(p: Prime, y: int, s: int, a: int, n: int, w: int, f: int)
    requires Cong(p, y, a * n) && Cong(p, s, w * f)
    ensures Cong(p, y * s, (a * w) * (n * f))
  {
    CongMul(p, y, a * n, s, w * f);
    assert (a * n) * (w * f) == (a * w) * (n * f);
  }

  lemma {:induction false} RangeProduct(p: Prime, n: nat)
    requires n < p
    ensures n > 0 ==> SetProd(Range(n)) == n * SetProd(Range(n - 1))
    ensures !Multiple(SetProd(Range(n)), p)
  {
    if n == 0 {
      NotZero(p, 1);
    } else {
      RangeProduct(p, n - 1);
      SetProdRemove(Range(n), n);
      assert Range(n) - {n} == Range(n - 1);
      hide *;
      NotZero(p, n);
      ProductNotZero(p, n, SetProd(Range(n - 1)));
    }
  }

  lemma ProductNotZero(p: Prime, a: int, b: int)
    requires !Multiple(a, p) && !Multiple(b, p)
    ensures !Multiple(a * b, p)
  {
    hide *;
    if Multiple(a * b, p) {
      EuclidLemma(p, a, b);
      assert false;
    }
  }

  lemma {:induction false} ResiduesSet(p: Prime, a: int, n: nat)
    requires !Multiple(a, p) && n < p
    ensures Residues(p, a, n) <= Range(p - 1) && |Residues(p, a, n)| == n
  {
    if n == 0 {
    } else {
      ResiduesSet(p, a, n - 1);
      FreshResidue(p, a, n);
      hide Multiple, MulMod, Range;
    }
  }

  lemma {:induction false} ResiduesProduct(p: Prime, a: int, n: nat)
    requires !Multiple(a, p) && n < p
    ensures Cong(p, SetProd(Residues(p, a, n)), Pow(a, n) * SetProd(Range(n)))
  {
    hide Multiple, MulMod, SetProd, Range;
    RangeProduct(p, n);
    if n == 0 {
      SetProdEmpty();
      CongRefl(p, 1);
    } else {
      ResiduesProduct(p, a, n - 1);
      FreshResidue(p, a, n);
      var s, y := Residues(p, a, n - 1), MulMod(p, a, n);
      SetProdAdd(s, y);
      ProductStep(p, y, SetProd(s), a, n, Pow(a, n - 1), SetProd(Range(n - 1)));
    }
  }

  lemma SetProdEmpty()
    ensures SetProd({}) == 1 && Range(0) == {}
  {
  }

  lemma SubsetSize<T>(a: set<T>, b: set<T>)
    requires a <= b
    ensures |a| <= |b|
  {
    assert b == a + (b - a);
  }

  lemma SubsetSameSize(a: set<int>, b: set<int>)
    requires a <= b && |a| == |b|
    ensures a == b
  {
    assert |b - a| == |b| - |a|;
  }

  lemma Fermat(p: Prime, a: int)
    requires !Multiple(a, p)
    ensures Cong(p, Pow(a, p - 1), 1)
  {
    hide *;
    ResiduesSet(p, a, p - 1);
    ResiduesProduct(p, a, p - 1);
    RangeProduct(p, p - 1);
    SubsetSameSize(Residues(p, a, p - 1), Range(p - 1));
    var f := SetProd(Range(p - 1));
    assert Cong(p, f, Pow(a, p - 1) * f);
    CongSym(p, f, Pow(a, p - 1) * f);
    assert f * Pow(a, p - 1) == Pow(a, p - 1) * f && f * 1 == f;
    Cancel(p, f, Pow(a, p - 1), 1);
  }

  /** x^p - x vanishes at every residue. */
  lemma FermatAll(p: Prime, a: int)
    ensures Cong(p, Pow(a, p), a)
  {
    if Multiple(a, p) {
      Combine(p, Pow(a, p) - a, Pow(a, p - 1) - 1, a, 0, 0);
    } else {
      Fermat(p, a);
      CongMul(p, a, a, Pow(a, p - 1), 1);
    }
  }

  // ----- The program's exponentiation and inversion -----

  /** One round of square-and-multiply keeps result * b^e fixed modulo p. */
  lemma SquareStep(p: Prime, r0: int, b0: int, e: nat, r: int, b: int)
    requires e > 0 && Cong(p, b, b0 * b0)
    requires Cong(p, r, if e % 2 == 1 then r0 * b0 else r0)
    ensures Cong(p, r * Pow(b, e / 2), r0 * Pow(b0, e))
  {
    hide Multiple;
    var h := e / 2;
    PowSquare(b0, h);
    PowCong(p, b, b0 * b0, h);
    var x := if e % 2 == 1 then r0 * b0 else r0;
    CongMul(p, r, x, Pow(b, h), Pow(b0, 2 * h));
    if e % 2 == 1 {
      assert e == 2 * h + 1;
      assert (r0 * b0) * Pow(b0, 2 * h) == r0 * (b0 * Pow(b0, 2 * h));
    }
  }

  method FPow(p: Prime, base: int, exp: int) returns (result: int)
    ensures 0 <= result < p
    ensures Cong(p, result, Pow(base, if exp < 0 then 0 else exp))
  {
    result := 1;
    var b := Mod(p, base);
    var e := exp;
    ghost var goal := Pow(base, if exp < 0 then 0 else exp);
    PowCong(p, b, base, if exp < 0 then 0 else exp);
    while e > 0
      invariant 0 <= result < p
      invariant Cong(p, result * Pow(b, if e < 0 then 0 else e), goal)
    {
      var r0, b0 := result, b;
      if e % 2 == 1 {
        result := MulMod(p, result, b);
      }
      b := MulMod(p, b, b);
      SquareStep(p, r0, b0, e, result, b);
      CongTrans(p, result * Pow(b, e / 2), r0 * Pow(b0, e), goal);
      e := e / 2;
    }
  }

  lemma InverseByPower(p: Prime, a: int, v: int, i: int)
    requires Cong(p, v, a) && !Multiple(v, p) && Cong(p, i, Pow(v, p - 2))
    ensures Cong(p, a * i, 1)
  {
    Fermat(p, v);
    assert Pow(v, p - 1) == v * Pow(v, p - 2);
    var w := Pow(v, p - 2);
    hide *;
    InverseBalance(p, a, v, i, w, v * w);
  }

  lemma InverseBalance(p: Prime, a: int, v: int, i: int, w: int, one: int)
    requires Cong(p, v, a) && Cong(p, i, w) && one == v * w && Cong(p, one, 1)
    ensures Cong(p, a * i, 1)
  {
    assert v * i - 1 == v * (i - w) + 1 * (one - 1);
    Combine(p, v * i - 1, v, i - w, 1, one - 1);
    assert a * i - 1 == 1 * (v * i - 1) + (-i) * (v - a);
    Combine(p, a * i - 1, 1, v * i - 1, -i, v - a);
  }

  /** The inverse of a, or None where the program throws. */
  method FInv(p: Prime, a: int) returns (r: Option<int>)
    ensures r.None? <==> Multiple(a, p)
    ensures r.Some? ==> 0 <= r.value < p && Cong(p, a * r.value, 1)
  {
    var v := Mod(p, a);
    if v == 0 {
      Combine(p, a, -1, v - a, 0, 0);
      return None;
    }
    if Multiple(a, p) {
      Combine(p, v, 1, a, 1, v - a);
      NotZero(p, v);
    }
    var i := FPow(p, v, p - 2);
    NotZero(p, v);
    InverseByPower(p, a, v, i);
    r := Some(i);
  }

  lemma InverseNonzero(p: Prime, a: int, b: int)
    requires Cong(p, a * b, 1)
    ensures !Multiple(a, p) && !Multiple(b, p)
  {
    if Multiple(a, p) || Multiple(b, p) {
      if Multiple(a, p) {
        Combine(p, 1, b, a, -1, a * b - 1);
      } else {
        Combine(p, 1, a, b, -1, a * b - 1);
      }
      NotZero(p, 1);
    }
  }
}
