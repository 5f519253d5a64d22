/** Vectors and matrices over F_p: integer entries, read modulo p; spans as sets of vectors. */
module Vectors {
  import opened PrimeField

  type Vec = seq<int>
  type Mat = seq<Vec>

  predicate Rect(m: Mat, n: nat) {
    forall i | 0 <= i < |m| :: |m[i]| == n
  }

  predicate Canon(p: Prime, v: Vec) {
    forall j | 0 <= j < |v| :: 0 <= v[j] < p
  }

  /** A matrix as the program holds it: n columns, every entry in [0, p). */
  predicate CanonMat(p: Prime, m: Mat, n: nat) {
    Rect(m, n) && forall i | 0 <= i < |m| :: Canon(p, m[i])
  }

  ghost predicate VCong(p: Prime, u: Vec, v: Vec) {
    |u| == |v| && forall j | 0 <= j < |u| :: Cong(p, u[j], v[j])
  }

  ghost function Zeros(n: nat): (z: Vec)
    ensures |z| == n && forall j | 0 <= j < n :: z[j] == 0
  {
    seq(n, _ => 0)
  }

  ghost function Col(m: Mat, j: nat): (c: Vec)
    requires forall i | 0 <= i < |m| :: j < |m[i]|
    ensures |c| == |m| && forall i | 0 <= i < |m| :: c[i] == m[i][j]
  {
    seq(|m|, i requires 0 <= i < |m| => m[i][j])
  }

  /** The sum of u[i] * v[i] over i < n. */
  ghost function Dot(u: Vec, v: Vec, n: nat): int
    requires n <= |u| && n <= |v|
  {
    if n == 0 then 0 else Dot(u, v, n - 1) + u[n - 1] * v[n - 1]
  }

  /** The combination of the first k rows of m with coefficients c. */
  ghost function Comb(c: Vec, m: Mat, n: nat, k: nat): (z: Vec)
    requires Rect(m, n) && k <= |c| && k <= |m|
    ensures |z| == n && forall j | 0 <= j < n :: z[j] == Dot(c, Col(m, j), k)
  {
    seq(n, j requires 0 <= j < n => Dot(c, Col(m, j), k))
  }

  /** The product of m with the column vector v. */
  ghost function Apply(m: Mat, v: Vec): (z: Vec)
    requires Rect(m, |v|)
    ensures |z| == |m| && forall i | 0 <= i < |m| :: z[i] == Dot(m[i], v, |v|)
  {
    seq(|m|, i requires 0 <= i < |m| => Dot(m[i], v, |v|))
  }

  ghost predicate InSpan(p: Prime, m: Mat, n: nat, v: Vec)
    requires Rect(m, n)
  {
    exists c: Vec {:trigger Comb(c, m, n, |m|)} :: |c| == |m| && VCong(p, v, Comb(c, m, n, |m|))
  }

  ghost function Span(p: Prime, m: Mat, n: nat): iset<Vec>
    requires Rect(m, n)
  {
    iset v: Vec | InSpan(p, m, n, v)
  }

  ghost function Everything(n: nat): iset<Vec> {
    iset v: Vec | |v| == n
  }

  /** All v with m * v = 0. */
  ghost function Kernel(p: Prime, m: Mat, n: nat): iset<Vec>
    requires Rect(m, n)
  {
    iset v: Vec | |v| == n && VCong(p, Apply(m, v), Zeros(|m|))
  }

  // ----- Dot products -----

  lemma {:induction false} DotLinear(u: Vec, k: int, v: Vec, z: Vec, w: Vec, n: nat)
    requires n <= |u| && n <= |v| && n <= |z| && n <= |w|
    requires forall i | 0 <= i < n :: z[i] == u[i] + k * v[i]
    ensures Dot(z, w, n) == Dot(u, w, n) + k * Dot(v, w, n)
  {
    if n == 0 {
    } else {
      DotLinear(u, k, v, z, w, n - 1);
      LinearTerm(Dot(z, w, n - 1), Dot(u, w, n - 1), k, Dot(v, w, n - 1), u[n - 1], v[n - 1], w[n - 1]);
    }
  }

  lemma LinearTerm(s: int, e: int, k: int, f: int, a: int, b: int, c: int)
    requires s == e + k * f
    ensures s + (a + k * b) * c == (e + a * c) + k * (f + b * c)
  {
  }

  lemma {:induction false} DotComm(u: Vec, v: Vec, n: nat)
    requires n <= |u| && n <= |v|
    ensures Dot(u, v, n) == Dot(v, u, n)
  {
    if n == 0 {
    } else {
      DotComm(u, v, n - 1);
    }
  }

  lemma {:induction false} DotCong(p: Prime, u: Vec, v: Vec, w: Vec, n: nat)
    requires n <= |u| && n <= |v| && n <= |w|
    requires forall i | 0 <= i < n :: Cong(p, u[i], v[i])
    ensures Cong(p, Dot(u, w, n), Dot(v, w, n))
  {
    hide Multiple, Cong;
    if n == 0 {
      CongRefl(p, 0);
    } else {
      DotCong(p, u, v, w, n - 1);
      CongAxpy(p, Dot(u, w, n - 1), Dot(v, w, n - 1), w[n - 1], u[n - 1], v[n - 1]);
    }
  }

  /** A dot product in which only position k can contribute. */
  lemma {:induction false} DotOne(p: Prime, u: Vec, v: Vec, n: nat, k: int)
    requires n <= |u| && n <= |v|
    requires forall i | 0 <= i < n && i != k :: Multiple(u[i] * v[i], p)
    ensures Cong(p, Dot(u, v, n), if 0 <= k < n then u[k] * v[k] else 0)
  {
    hide Multiple;
    if n == 0 {
      CongRefl(p, 0);
    } else {
      DotOne(p, u, v, n - 1, k);
      var d, x := Dot(u, v, n - 1), u[n - 1] * v[n - 1];
      if k == n - 1 {
        Combine(p, (d + x) - x, 1, d - 0, 0, d - 0);
      } else {
        var y := if 0 <= k < n then u[k] * v[k] else 0;
        Combine(p, (d + x) - y, 1, d - y, 1, x);
      }
    }
  }

  lemma {:induction false} DotSplit(u: Vec, v: Vec, w: Vec, x: Vec, z: Vec, y: Vec, n: nat)
    requires z == u + w && y == v + x && |u| == |v| && n <= |w| && n <= |x|
    ensures Dot(z, y, |u| + n) == Dot(u, v, |u|) + Dot(w, x, n)
    decreases n
  {
    if n == 0 {
      DotPrefix(u, v, z, y, |u|);
    } else {
      DotSplit(u, v, w, x, z, y, n - 1);
    }
  }

  lemma {:induction false} DotPrefix(u: Vec, v: Vec, w: Vec, x: Vec, n: nat)
    requires n <= |u| && n <= |v| && n <= |w| && n <= |x|
    requires forall i | 0 <= i < n :: u[i] == w[i] && v[i] == x[i]
    ensures Dot(u, v, n) == Dot(w, x, n)
  {
    if n == 0 {
    } else {
      DotPrefix(u, v, w, x, n - 1);
    }
  }

  /** c * (m * v) = (c * m) * v, stated on any vectors w, z holding the two inner products. */
  lemma {:induction false} DotSwap(c: Vec, m: Mat, v: Vec, w: Vec, z: Vec, n: nat)
    requires |c| == |m| == |w| && n <= |v| && n <= |z|
    requires forall i | 0 <= i < |m| :: n <= |m[i]|
    requires forall i | 0 <= i < |m| :: w[i] == Dot(m[i], v, n)
    requires forall j | 0 <= j < n :: z[j] == Dot(c, Col(m, j), |m|)
    ensures Dot(c, w, |m|) == Dot(z, v, n)
    decreases n
  {
    if n == 0 {
      DotZero(c, w, |m|);
    } else {
      var w' := seq(|m|, i requires 0 <= i < |m| => Dot(m[i], v, n - 1));
      DotSwap(c, m, v, w', z, n - 1);
      DotNext(z, v, n - 1);
      hide Dot;
      DotSwapColumn(c, m, v, w', w, n - 1);
    }
  }

  lemma DotNext(u: Vec, v: Vec, n: nat)
    requires n < |u| && n < |v|
    ensures Dot(u, v, n + 1) == Dot(u, v, n) + v[n] * u[n]
  {
  }

  lemma DotSwapColumn(c: Vec, m: Mat, v: Vec, w: Vec, w': Vec, n: nat)
    requires |c| == |m| == |w| == |w'| && n < |v| && forall i | 0 <= i < |m| :: n < |m[i]|
    requires forall i | 0 <= i < |m| :: w[i] == Dot(m[i], v, n)
    requires forall i | 0 <= i < |m| :: w'[i] == Dot(m[i], v, n + 1)
    ensures Dot(c, w', |m|) == Dot(c, w, |m|) + v[n] * Dot(c, Col(m, n), |m|)
  {
    hide Dot;
    var col := Col(m, n);
    forall i | 0 <= i < |m|
      ensures w'[i] == w[i] + v[n] * col[i]
    {
      DotNext(m[i], v, n);
    }
    DotLinear(w, v[n], col, w', c, |m|);
    DotComm(c, w', |m|);
    DotComm(c, w, |m|);
    DotComm(c, col, |m|);
  }

  lemma {:induction false} DotZero(c: Vec, w: Vec, n: nat)
    requires n <= |c| && n <= |w| && forall i | 0 <= i < n :: w[i] == 0
    ensures Dot(c, w, n) == 0
  {
    if n == 0 {
    } else {
      DotZero(c, w, n - 1);
    }
  }

  // ----- Subspaces -----

  ghost predicate IsAxpy(p: Prime, u: Vec, k: int, v: Vec, z: Vec) {
    |u| == |v| == |z| && forall j | 0 <= j < |z| :: Cong(p, z[j], u[j] + k * v[j])
  }

  ghost predicate IsSubspace(p: Prime, n: nat, s: iset<Vec>) {
    && (forall v {:trigger v in s} | v in s :: |v| == n)
    && Zeros(n) in s
    && (forall u: Vec, k: int, v: Vec, z: Vec | u in s && v in s && IsAxpy(p, u, k, v, z) :: z in s)
  }

  lemma VCongRefl(p: Prime, v: Vec)
    ensures VCong(p, v, v)
  {
    forall j | 0 <= j < |v|
      ensures Cong(p, v[j], v[j])
    {
      CongRefl(p, v[j]);
    }
  }

  lemma VCongSym(p: Prime, u: Vec, v: Vec)
    requires VCong(p, u, v)
    ensures VCong(p, v, u)
  {
    hide Cong;
    forall j | 0 <= j < |v|
      ensures Cong(p, v[j], u[j])
    {
      CongSym(p, u[j], v[j]);
    }
  }

  lemma VCongTrans(p: Prime, u: Vec, v: Vec, w: Vec)
    requires VCong(p, u, v) && VCong(p, v, w)
    ensures VCong(p, u, w)
  {
    hide Cong;
    forall j | 0 <= j < |v|
      ensures Cong(p, u[j], w[j])
    {
      CongTrans(p, u[j], v[j], w[j]);
    }
  }

  /** Congruent canonical vectors are equal. */
  lemma VCongEqual(p: Prime, u: Vec, v: Vec)
    requires VCong(p, u, v) && Canon(p, u) && Canon(p, v)
    ensures u == v
  {
    hide Cong;
    forall j | 0 <= j < |v|
      ensures u[j] == v[j]
    {
      CongEqual(p, u[j], v[j]);
    }
  }

  lemma ClosedUnderCong(p: Prime, n: nat, s: iset<Vec>, u: Vec, v: Vec)
    requires IsSubspace(p, n, s) && u in s && VCong(p, v, u)
    ensures v in s
  {
    assert IsAxpy(p, u, 0, u, v);
  }

  /** A span is the least subspace that holds its generators. */
  lemma {:induction false} CombInSubspace(p: Prime, m: Mat, n: nat, s: iset<Vec>, c: Vec, k: nat)
    requires Rect(m, n) && IsSubspace(p, n, s) && forall i | 0 <= i < |m| :: m[i] in s
    requires k <= |m| && |c| == |m|
    ensures Comb(c, m, n, k) in s
  {
    if k == 0 {
      assert Comb(c, m, n, 0) == Zeros(n);
    } else {
      CombInSubspace(p, m, n, s, c, k - 1);
      var u, z := Comb(c, m, n, k - 1), Comb(c, m, n, k);
      CombStep(p, m, n, c, k);
      assert IsAxpy(p, u, c[k - 1], m[k - 1], z);
    }
  }

  lemma CombStep(p: Prime, m: Mat, n: nat, c: Vec, k: nat)
    requires Rect(m, n) && 1 <= k <= |m| && |c| == |m|
    ensures IsAxpy(p, Comb(c, m, n, k - 1), c[k - 1], m[k - 1], Comb(c, m, n, k))
  {
    var u, z := Comb(c, m, n, k - 1), Comb(c, m, n, k);
    forall j | 0 <= j < n
      ensures Cong(p, z[j], u[j] + c[k - 1] * m[k - 1][j])
    {
      CongRefl(p, z[j]);
    }
  }

  lemma SpanMinimal(p: Prime, m: Mat, n: nat, s: iset<Vec>)
    requires Rect(m, n) && IsSubspace(p, n, s) && forall i | 0 <= i < |m| :: m[i] in s
    ensures Span(p, m, n) <= s
  {
    hide IsSubspace, VCong, Comb;
    forall v | v in Span(p, m, n)
      ensures v in s
    {
      var c: Vec :| |c| == |m| && VCong(p, v, Comb(c, m, n, |m|));
      CombInSubspace(p, m, n, s, c, |m|);
      ClosedUnderCong(p, n, s, Comb(c, m, n, |m|), v);
    }
  }

  lemma SpanLength(p: Prime, m: Mat, n: nat)
    requires Rect(m, n)
    ensures forall v {:trigger v in Span(p, m, n)} | v in Span(p, m, n) :: |v| == n
  {
  }

  lemma InSpanByCoefficients(p: Prime, m: Mat, n: nat, c: Vec, v: Vec)
    requires Rect(m, n) && |c| == |m| && VCong(p, v, Comb(c, m, n, |m|))
    ensures v in Span(p, m, n)
  {
  }

  /** Coefficients for u + k*v from coefficients for u and v. */
  lemma CombAxpy(p: Prime, m: Mat, n: nat, c: Vec, k: int, d: Vec, e: Vec)
    requires Rect(m, n) && |c| == |d| == |e| == |m|
    requires forall i | 0 <= i < |m| :: e[i] == c[i] + k * d[i]
    ensures IsAxpy(p, Comb(c, m, n, |m|), k, Comb(d, m, n, |m|), Comb(e, m, n, |m|))
  {
    hide Multiple, Cong;
    forall j | 0 <= j < n
      ensures Cong(p, Dot(e, Col(m, j), |m|), Dot(c, Col(m, j), |m|) + k * Dot(d, Col(m, j), |m|))
    {
      DotLinear(c, k, d, e, Col(m, j), |m|);
      CongRefl(p, Dot(e, Col(m, j), |m|));
    }
  }

  lemma AxpyCong(p: Prime, u: Vec, u': Vec, k: int, v: Vec, v': Vec, z: Vec, z': Vec)
    requires IsAxpy(p, u, k, v, z) && IsAxpy(p, u', k, v', z') && VCong(p, u, u') && VCong(p, v, v')
    ensures VCong(p, z, z')
  {
    hide Multiple, Cong;
    forall j | 0 <= j < |z|
      ensures Cong(p, z[j], z'[j])
    {
      CongAxpy(p, u[j], u'[j], k, v[j], v'[j]);
      CongSym(p, z'[j], u'[j] + k * v'[j]);
      CongTrans(p, z[j], u[j] + k * v[j], u'[j] + k * v'[j]);
      CongTrans(p, z[j], u'[j] + k * v'[j], z'[j]);
    }
  }

  lemma SpanAxpy(p: Prime, m: Mat, n: nat, u: Vec, k: int, v: Vec, z: Vec)
    requires Rect(m, n) && u in Span(p, m, n) && v in Span(p, m, n) && IsAxpy(p, u, k, v, z)
    ensures z in Span(p, m, n)
  {
    hide IsAxpy, VCong, Comb;
    var c: Vec :| |c| == |m| && VCong(p, u, Comb(c, m, n, |m|));
    var d: Vec :| |d| == |m| && VCong(p, v, Comb(d, m, n, |m|));
    var e := seq(|m|, i requires 0 <= i < |m| => c[i] + k * d[i]);
    CombAxpy(p, m, n, c, k, d, e);
    AxpyCong(p, u, Comb(c, m, n, |m|), k, v, Comb(d, m, n, |m|), z, Comb(e, m, n, |m|));
  }

  lemma ZerosInSpan(p: Prime, m: Mat, n: nat)
    requires Rect(m, n)
    ensures Zeros(n) in Span(p, m, n)
  {
    var c := Zeros(|m|);
    forall j | 0 <= j < n
      ensures Dot(c, Col(m, j), |m|) == 0
    {
      DotComm(c, Col(m, j), |m|);
      DotZero(Col(m, j), c, |m|);
    }
    assert Comb(c, m, n, |m|) == Zeros(n);
    VCongRefl(p, Zeros(n));
  }

  lemma SpanIsSubspace(p: Prime, m: Mat, n: nat)
    requires Rect(m, n)
    ensures IsSubspace(p, n, Span(p, m, n))
  {
    ZerosInSpan(p, m, n);
    forall u: Vec, k: int, v: Vec, z: Vec | u in Span(p, m, n) && v in Span(p, m, n) && IsAxpy(p, u, k, v, z)
      ensures z in Span(p, m, n)
    {
      SpanAxpy(p, m, n, u, k, v, z);
    }
  }

  lemma RowInSpan(p: Prime, m: Mat, n: nat, i: nat)
    requires Rect(m, n) && i < |m|
    ensures m[i] in Span(p, m, n)
  {
    var c := Zeros(|m|)[i := 1];
    hide Multiple;
    forall j | 0 <= j < n
      ensures Cong(p, m[i][j], Dot(c, Col(m, j), |m|))
    {
      var col := Col(m, j);
      forall k | 0 <= k < |m| && k != i
        ensures Multiple(c[k] * col[k], p)
      {
        assert c[k] * col[k] == 0;
        CongRefl(p, 0);
      }
      DotOne(p, c, col, |m|, i);
      CongSym(p, Dot(c, col, |m|), m[i][j]);
    }
    assert VCong(p, m[i], Comb(c, m, n, |m|));
  }

  lemma SpanSubset(p: Prime, a: Mat, b: Mat, n: nat)
    requires Rect(a, n) && Rect(b, n) && forall i | 0 <= i < |b| :: b[i] in Span(p, a, n)
    ensures Span(p, b, n) <= Span(p, a, n)
  {
    SpanIsSubspace(p, a, n);
    SpanMinimal(p, b, n, Span(p, a, n));
  }

  // ----- Kernels -----

  lemma KernelIsSubspace(p: Prime, m: Mat, n: nat)
    requires Rect(m, n)
    ensures IsSubspace(p, n, Kernel(p, m, n))
  {
    forall i | 0 <= i < |m|
      ensures Dot(m[i], Zeros(n), n) == 0
    {
      DotZero(m[i], Zeros(n), n);
    }
    assert Apply(m, Zeros(n)) == Zeros(|m|);
    VCongRefl(p, Zeros(|m|));
    forall u: Vec, k: int, v: Vec, z: Vec | u in Kernel(p, m, n) && v in Kernel(p, m, n) && IsAxpy(p, u, k, v, z)
      ensures z in Kernel(p, m, n)
    {
      KernelAxpy(p, m, n, u, k, v, z);
    }
  }

  /** Applying a matrix respects u + k*v. */
  lemma ApplyAxpy(p: Prime, m: Mat, n: nat, u: Vec, k: int, v: Vec, z: Vec)
    requires Rect(m, n) && |z| == n && IsAxpy(p, u, k, v, z)
    ensures IsAxpy(p, Apply(m, u), k, Apply(m, v), Apply(m, z))
  {
    hide Multiple, Cong;
    var s := seq(n, j requires 0 <= j < n => u[j] + k * v[j]);
    forall i | 0 <= i < |m|
      ensures Cong(p, Dot(m[i], z, n), Dot(m[i], u, n) + k * Dot(m[i], v, n))
    {
      DotLinear(u, k, v, s, m[i], n);
      DotCong(p, z, s, m[i], n);
      DotComm(m[i], z, n);
      DotComm(m[i], u, n);
      DotComm(m[i], v, n);
    }
  }

  lemma KernelAxpy(p: Prime, m: Mat, n: nat, u: Vec, k: int, v: Vec, z: Vec)
    requires Rect(m, n) && u in Kernel(p, m, n) && v in Kernel(p, m, n) && IsAxpy(p, u, k, v, z)
    ensures z in Kernel(p, m, n)
  {
    ApplyAxpy(p, m, n, u, k, v, z);
    hide Multiple;
    var a, b, c := Apply(m, u), Apply(m, v), Apply(m, z);
    forall i | 0 <= i < |m|
      ensures Cong(p, c[i], 0)
    {
      CongAxpy(p, a[i], 0, k, b[i], 0);
      CongTrans(p, c[i], a[i] + k * b[i], 0);
    }
  }

  /** A kernel vector annihilates the whole row span. */
  lemma KernelAnnihilates(p: Prime, m: Mat, n: nat, u: Vec, v: Vec)
    requires Rect(m, n) && v in Kernel(p, m, n) && u in Span(p, m, n)
    ensures Cong(p, Dot(u, v, n), 0)
  {
    var c: Vec :| |c| == |m| && VCong(p, u, Comb(c, m, n, |m|));
    var z, w := Comb(c, m, n, |m|), Apply(m, v);
    hide Multiple, Cong;
    DotSwap(c, m, v, w, z, n);
    DotCong(p, u, z, v, n);
    DotCong(p, w, Zeros(|m|), c, |m|);
    DotComm(c, w, |m|);
    DotComm(Zeros(|m|), c, |m|);
    DotZero(c, Zeros(|m|), |m|);
    CongTrans(p, Dot(u, v, n), Dot(z, v, n), 0);
  }

  /** The kernel depends on the rows only through their span. */
  lemma KernelOfSpan(p: Prime, a: Mat, b: Mat, n: nat)
    requires Rect(a, n) && Rect(b, n) && Span(p, b, n) <= Span(p, a, n)
    ensures Kernel(p, a, n) <= Kernel(p, b, n)
  {
    hide Cong, Span;
    forall v | v in Kernel(p, a, n)
      ensures v in Kernel(p, b, n)
    {
      forall i | 0 <= i < |b|
        ensures Cong(p, Dot(b[i], v, n), 0)
      {
        RowInSpan(p, b, n, i);
        KernelAnnihilates(p, a, n, b[i], v);
      }
    }
  }
}
