/** Matrix products and powers over F_p. */
module Matrices {
  import opened PrimeField
  import opened Vectors
  import opened Echelon
  import opened RowReduction
  import opened Subspaces

  predicate Square(m: Mat, t: nat) {
    Rect(m, t) && |m| == t
  }

  /** m applied k times to v. */
  ghost function Orbit(m: Mat, k: nat, v: Vec): (z: Vec)
    requires Square(m, |v|)
    ensures |z| == |v|
  {
    if k == 0 then v else Apply(m, Orbit(m, k - 1, v))
  }

  // ----- Matrix times vector -----

  function DotMod(p: Prime, row: Vec, v: Vec, k: nat): (r: int)
    requires k <= |row| && k <= |v|
    ensures 0 <= r < p && Cong(p, r, Dot(row, v, k))
  {
    if k == 0 then
      CongRefl(p, 0);
      0
    else
      var acc := DotMod(p, row, v, k - 1);
      var r := Mod(p, acc + row[k - 1] * v[k - 1]);
      DotModStep(p, acc, Dot(row, v, k - 1), row[k - 1] * v[k - 1], r);
      r
  }

  lemma DotModStep(p: Prime, acc: int, d: int, x: int, r: int)
    requires Cong(p, acc, d) && Cong(p, r, acc + x)
    ensures Cong(p, r, d + x)
  {
    Combine(p, r - (d + x), 1, r - (acc + x), 1, acc - d);
  }

  function MatVec(p: Prime, m: Mat, v: Vec): (z: Vec)
    requires Rect(m, |v|)
    ensures |z| == |m| && Canon(p, z) && VCong(p, z, Apply(m, v))
  {
    seq(|m|, i requires 0 <= i < |m| => DotMod(p, m[i], v, |v|))
  }

  // ----- Matrix times matrix -----

  ghost predicate IsProduct(p: Prime, a: Mat, b: Mat, n: nat, c: Mat)
    requires Rect(a, |b|) && Rect(b, n)
  {
    CanonMat(p, c, n) && |c| == |a| && forall i | 0 <= i < |a| :: VCong(p, c[i], Comb(a[i], b, n, |b|))
  }

  method MatMul(p: Prime, a: Mat, b: Mat) returns (out: Mat)
    requires |b| > 0 && Rect(a, |b|) && CanonMat(p, b, |b[0]|)
    ensures IsProduct(p, a, b, |b[0]|, out)
  {
    out := [];
    for i := 0 to |a|
      invariant |out| == i && CanonMat(p, out, |b[0]|)
      invariant forall k | 0 <= k < i :: VCong(p, out[k], Comb(a[k], b, |b[0]|, |b|))
    {
      var row := Recombine(p, b, a[i], |b[0]|);
      out := out + [row];
    }
  }

  /** A product acts as one factor after the other. */
  lemma ProductApplies(p: Prime, a: Mat, b: Mat, n: nat, c: Mat, v: Vec)
    requires Rect(a, |b|) && Rect(b, n) && IsProduct(p, a, b, n, c) && |v| == n
    ensures VCong(p, Apply(c, v), Apply(a, Apply(b, v)))
  {
    var w := Apply(b, v);
    hide Multiple, Cong;
    forall i | 0 <= i < |a|
      ensures Cong(p, Dot(c[i], v, n), Dot(a[i], w, |b|))
    {
      var z := Comb(a[i], b, n, |b|);
      DotSwap(a[i], b, v, w, z, n);
      DotCong(p, c[i], z, v, n);
    }
  }

  // ----- Powers -----

  ghost predicate ActsOn(p: Prime, a: Mat, m: Mat, k: nat, v: Vec)
    requires Square(m, |v|) && Rect(a, |v|)
  {
    VCong(p, Apply(a, v), Orbit(m, k, v))
  }

  /** a acts on every vector as m applied k times. */
  ghost predicate Acts(p: Prime, t: nat, a: Mat, m: Mat, k: nat)
    requires Square(m, t)
  {
    CanonMat(p, a, t) && |a| == t && forall v: Vec {:trigger ActsOn(p, a, m, k, v)} | |v| == t :: ActsOn(p, a, m, k, v)
  }

  lemma {:induction false} OrbitAdd(m: Mat, j: nat, k: nat, v: Vec)
    requires Square(m, |v|)
    ensures Orbit(m, j + k, v) == Orbit(m, j, Orbit(m, k, v))
  {
    if j == 0 {
    } else {
      OrbitAdd(m, j - 1, k, v);
    }
  }

  lemma {:induction false} OrbitCong(p: Prime, m: Mat, t: nat, k: nat, u: Vec, v: Vec)
    requires Square(m, t) && |v| == t && VCong(p, u, v)
    ensures VCong(p, Orbit(m, k, u), Orbit(m, k, v))
  {
    if k == 0 {
    } else {
      OrbitCong(p, m, t, k - 1, u, v);
      ApplyCong(p, m, t, Orbit(m, k - 1, u), Orbit(m, k - 1, v));
    }
  }

  lemma ActsProduct(p: Prime, t: nat, m: Mat, a: Mat, j: nat, b: Mat, k: nat, c: Mat, n: nat)
    requires Square(m, t) && Acts(p, t, a, m, j) && Acts(p, t, b, m, k) && IsProduct(p, a, b, t, c) && n == j + k
    ensures Acts(p, t, c, m, n)
  {
    forall v: Vec | |v| == t
      ensures ActsOn(p, c, m, n, v)
    {
      assert ActsOn(p, b, m, k, v) && ActsOn(p, a, m, j, Orbit(m, k, v));
      ProductActsOn(p, t, m, a, j, b, k, c, n, v);
    }
  }

  lemma ProductActsOn(p: Prime, t: nat, m: Mat, a: Mat, j: nat, b: Mat, k: nat, c: Mat, n: nat, v: Vec)
    requires Square(m, t) && Square(a, t) && Square(b, t) && IsProduct(p, a, b, t, c) && n == j + k && |v| == t
    requires ActsOn(p, b, m, k, v) && ActsOn(p, a, m, j, Orbit(m, k, v))
    ensures ActsOn(p, c, m, n, v)
  {
    assert Rect(c, t);
    hide VCong, IsProduct;
    var w, o := Apply(b, v), Orbit(m, k, v);
    ProductApplies(p, a, b, t, c, v);
    ApplyCong(p, a, t, w, o);
    VCongTrans(p, Apply(c, v), Apply(a, w), Apply(a, o));
    VCongTrans(p, Apply(c, v), Apply(a, o), Orbit(m, j, o));
    OrbitAdd(m, j, k, v);
  }

  lemma UnitApplies(p: Prime, a: Mat, t: nat, j: nat)
    requires Rect(a, t) && j < t
    ensures VCong(p, Apply(a, Identity(t)[j]), Col(a, j))
  {
    var e := Identity(t)[j];
    hide Multiple;
    forall i | 0 <= i < |a|
      ensures Cong(p, Dot(a[i], e, t), a[i][j])
    {
      forall k | 0 <= k < t && k != j
        ensures Multiple(a[i][k] * e[k], p)
      {
        CongRefl(p, 0);
        assert a[i][k] * e[k] == 0;
      }
      DotOne(p, a[i], e, t, j);
      assert a[i][j] * e[j] == a[i][j];
    }
  }

  /** A canonical matrix is determined by how it acts. */
  lemma ActsUnique(p: Prime, t: nat, m: Mat, a: Mat, b: Mat, k: nat)
    requires Square(m, t) && Acts(p, t, a, m, k) && Acts(p, t, b, m, k)
    ensures a == b
  {
    forall i, j | 0 <= i < t && 0 <= j < t
      ensures a[i][j] == b[i][j]
    {
      var e := Identity(t)[j];
      assert ActsOn(p, a, m, k, e) && ActsOn(p, b, m, k, e);
      ColumnsAgree(p, t, a, b, j, Orbit(m, k, e));
      assert Canon(p, a[i]) && Canon(p, b[i]);
      CongEqual(p, a[i][j], b[i][j]);
    }
    assert forall i | 0 <= i < t :: a[i] == b[i];
  }

  lemma ColumnsAgree(p: Prime, t: nat, a: Mat, b: Mat, j: nat, o: Vec)
    requires Square(a, t) && Square(b, t) && j < t
    requires VCong(p, Apply(a, Identity(t)[j]), o) && VCong(p, Apply(b, Identity(t)[j]), o)
    ensures forall i | 0 <= i < t :: Cong(p, a[i][j], b[i][j])
  {
    var x, y := Apply(a, Identity(t)[j]), Apply(b, Identity(t)[j]);
    UnitApplies(p, a, t, j);
    UnitApplies(p, b, t, j);
    VCongSym(p, x, Col(a, j));
    VCongSym(p, y, o);
    VCongTrans(p, Col(a, j), x, o);
    VCongTrans(p, Col(a, j), o, y);
    VCongTrans(p, Col(a, j), y, Col(b, j));
  }

  lemma IdentityActs(p: Prime, t: nat, m: Mat)
    requires Square(m, t)
    ensures Acts(p, t, Identity(t), m, 0)
  {
    IdentityCanonical(p, t);
    forall v: Vec | |v| == t
      ensures ActsOn(p, Identity(t), m, 0, v)
    {
      forall i | 0 <= i < t
        ensures Cong(p, Dot(Identity(t)[i], v, t), v[i])
      {
        var e := Identity(t)[i];
        forall k | 0 <= k < t && k != i
          ensures Multiple(e[k] * v[k], p)
        {
          CongRefl(p, 0);
        }
        DotOne(p, e, v, t, i);
      }
    }
  }

  lemma SelfActs(p: Prime, t: nat, m: Mat)
    requires Square(m, t) && CanonMat(p, m, t)
    ensures Acts(p, t, m, m, 1)
  {
    forall v: Vec | |v| == t
      ensures ActsOn(p, m, m, 1, v)
    {
      assert Orbit(m, 0, v) == v;
      VCongRefl(p, Apply(m, v));
    }
  }

  ghost function Product(p: Prime, a: Mat, b: Mat, n: nat): (c: Mat)
    requires Rect(a, |b|) && Rect(b, n)
    ensures IsProduct(p, a, b, n, c)
  {
    seq(|a|, i requires 0 <= i < |a| => Reduce(p, Comb(a[i], b, n, |b|)))
  }

  ghost function Reduce(p: Prime, v: Vec): (z: Vec)
    ensures |z| == |v| && Canon(p, z) && VCong(p, z, v)
  {
    seq(|v|, j requires 0 <= j < |v| => Mod(p, v[j]))
  }

  /** The iterated product m * (m * (... * I)). */
  ghost function Power(p: Prime, m: Mat, t: nat, k: nat): (a: Mat)
    requires Square(m, t)
    ensures Square(a, t)
  {
    if k == 0 then Identity(t) else Product(p, m, Power(p, m, t, k - 1), t)
  }

  lemma PowerNext(p: Prime, m: Mat, t: nat, k: nat)
    requires Square(m, t) && k > 0
    ensures IsProduct(p, m, Power(p, m, t, k - 1), t, Power(p, m, t, k))
  {
  }

  lemma {:induction false} PowerActs(p: Prime, m: Mat, t: nat, k: nat)
    requires Square(m, t) && CanonMat(p, m, t)
    ensures Acts(p, t, Power(p, m, t, k), m, k)
  {
    hide Acts, CanonMat, IsProduct;
    if k == 0 {
      IdentityActs(p, t, m);
    } else {
      PowerNext(p, m, t, k);
      PowerActs(p, m, t, k - 1);
      SelfActs(p, t, m);
      ActsProduct(p, t, m, m, 1, Power(p, m, t, k - 1), k - 1, Power(p, m, t, k), k);
    }
  }

  method MatPow(p: Prime, m: Mat, e: nat) returns (result: Mat)
    requires |m| > 0 && CanonMat(p, m, |m|)
    ensures result == Power(p, m, |m|, e)
  {
    ghost var t := |m|;
    result := Identity(|m|);
    var base := m;
    var n := e;
    ghost var done, step: nat := 0, 1;
    IdentityActs(p, t, m);
    SelfActs(p, t, m);
    while n > 0
      invariant Acts(p, t, result, m, done) && Acts(p, t, base, m, step)
      invariant done + step * n == e
    {
      hide Acts, IsProduct;
      ghost var h := n / 2;
      if n % 2 == 1 {
        ActsShape(p, t, result, m, done);
        ActsShape(p, t, base, m, step);
        var r := MatMul(p, result, base);
        ActsProduct(p, t, m, result, done, base, step, r, done + step);
        result := r;
        done := done + step;
      }
      ActsShape(p, t, base, m, step);
      var b := MatMul(p, base, base);
      ActsProduct(p, t, m, base, step, base, step, b, step + step);
      base := b;
      HalveStep(step, n, h);
      step := step + step;
      n := n / 2;
    }
    PowerActs(p, m, t, e);
    ActsUnique(p, t, m, result, Power(p, m, t, e), e);
  }

  lemma ActsShape(p: Prime, t: nat, a: Mat, m: Mat, k: nat)
    requires Square(m, t) && Acts(p, t, a, m, k)
    ensures CanonMat(p, a, t) && |a| == t && Rect(a, t)
  {
  }

  lemma HalveStep(s: int, n: int, h: int)
    requires n == 2 * h || n == 2 * h + 1
    ensures (s + s) * h == if n == 2 * h then s * n else s * n - s
  {
  }

  predicate MatEq(a: Mat, b: Mat)
    requires |a| <= |b| && forall i | 0 <= i < |a| :: |a[i]| <= |b[i]|
  {
    forall i, j | 0 <= i < |a| && 0 <= j < |a[i]| :: a[i][j] == b[i][j]
  }

  // ----- Image of a subspace -----

  method SpanTimesMatrix(p: Prime, basis: Mat, m: Mat, ghost n: nat) returns (r: Mat)
    requires Rect(m, n) && Rect(basis, n)
    ensures Canonical(p, r, |m|) && Span(p, r, |m|) == Image(p, m, n, Span(p, basis, n))
  {
    var images := seq(|basis|, i requires 0 <= i < |basis| => MatVec(p, m, basis[i]));
    ImageOfSpan(p, m, n, basis, images);
    r := SpanBasis(p, images, |m|);
  }
}
