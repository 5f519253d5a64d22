/** The MDS candidate: a Cauchy matrix, every square submatrix of which has a trivial kernel. */
module Cauchy {
  import opened PrimeField
  import opened Vectors
  import opened Grain

  ghost predicate Incongruent(p: Prime, s: seq<int>) {
    forall i, j | 0 <= i < j < |s| :: !Cong(p, s[i], s[j])
  }

  /** m[i][j] is the inverse of xs[i] + ys[j]. */
  ghost predicate IsCauchy(p: Prime, xs: seq<int>, ys: seq<int>, m: Mat) {
    |m| == |xs| && Rect(m, |ys|)
    && forall i, j | 0 <= i < |xs| && 0 <= j < |ys| :: IsInverse(p, xs[i] + ys[j], m[i][j])
  }

  ghost predicate IsInverse(p: Prime, a: int, u: int) {
    Cong(p, a * u, 1)
  }

  lemma Spread(q: int, a: int, b: int, x: int)
    requires q == a + b
    ensures q * x == a * x + b * x
  {
  }

  lemma Regroup(b: int, u: int, c: int, s: int, w: int, d: int, f: int)
    requires d == c * (s * w) && b * w == 1 + f
    ensures b * (u * d) == (c * s * u) * (1 + f)
  {
    assert b * (u * d) == (c * s * u) * (b * w);
  }

  lemma RegroupSame(a: int, u: int, c: int, s: int, w: int, d: int, e: int)
    requires d == c * (s * w) && a * u == 1 + e
    ensures a * (u * d) == (c * s * w) * (1 + e)
  {
    assert a * (u * d) == (c * s * w) * (a * u);
  }

  lemma Rescale(r: int, a: int, s: int, u: int, c: int, e: int)
    requires r == a + s && a * u == 1 + e
    ensures r * (u * c) == c * (1 + e) + c * s * u
  {
    Spread(r, a, s, u * c);
    assert a * (u * c) == c * (a * u);
    assert s * (u * c) == c * s * u;
  }

  lemma ErrorTerms(l: int, m: int, n: int, c: int, e: int, f: int, g: int, h: int)
    requires l == g * (1 + f) - h * (1 + e) && m == c * (1 + e) + g && n == c * (1 + f) + h
    ensures l - (m - n) == (g + c) * f + (-(h + c)) * e
  {
  }

  /** The identity behind one elimination step, for one column. */
  lemma TermCong(p: Prime, a: int, b: int, s: int, u: int, w: int, c: int, d: int, q: int, r: int, r': int)
    requires IsInverse(p, a, u) && IsInverse(p, b, w) && d == c * (s * w)
    requires q == b - a && r == a + s && r' == b + s
    ensures Balanced(p, q, u * d, r, u * c, r', w * c)
  {
    var e, f := a * u - 1, b * w - 1;
    hide Multiple;
    Spread(q, b, -a, u * d);
    assert (-a) * (u * d) == -(a * (u * d));
    Regroup(b, u, c, s, w, d, f);
    RegroupSame(a, u, c, s, w, d, e);
    Rescale(r, a, s, u, c, e);
    Rescale(r', b, s, w, c, f);
    var l, m, n := q * (u * d), r * (u * c), r' * (w * c);
    ErrorTerms(l, m, n, c, e, f, c * s * u, c * s * w);
    Combine(p, l - (m - n), c * s * u + c, f, -(c * s * w + c), e);
  }

  /** Weights for the columns that remain when the last row and column are eliminated. */
  ghost predicate Reweighted(ys: seq<int>, n: nat, un: Vec, c: Vec, d: Vec)
    requires n < |ys| && n < |un| && n < |c|
  {
    |d| == n && forall j | 0 <= j < n :: d[j] == c[j] * ((ys[n] - ys[j]) * un[j])
  }

  ghost predicate Balanced(p: Prime, q: int, a: int, r: int, b: int, s: int, c: int) {
    Cong(p, q * a, r * b - s * c)
  }

  /** Row i and the last row, combined so that the last column drops out. */
  lemma {:induction false} EliminateSum(p: Prime, xi: int, xn: int, ys: seq<int>, n: nat, ui: Vec, un: Vec,
                                        c: Vec, d: Vec, k: nat, q: int, r: int, r': int)
    requires n < |ys| && n < |un| && n < |c| && n < |ui| && k <= n && Reweighted(ys, n, un, c, d)
    requires forall j | 0 <= j < n :: IsInverse(p, xi + ys[j], ui[j]) && IsInverse(p, xn + ys[j], un[j])
    requires q == xn - xi && r == xi + ys[n] && r' == xn + ys[n]
    ensures Balanced(p, q, Dot(ui, d, k), r, Dot(ui, c, k), r', Dot(un, c, k))
  {
    hide Multiple, Cong, IsInverse, Reweighted, Balanced;
    if k == 0 {
      ZeroSum(p, q, r, r');
    } else {
      EliminateSum(p, xi, xn, ys, n, ui, un, c, d, k - 1, q, r, r');
      var j := k - 1;
      ReweightedAt(ys, n, un, c, d, j);
      TermCong(p, xi + ys[j], xn + ys[j], ys[n] - ys[j], ui[j], un[j], c[j], d[j], q, r, r');
      SumStep(p, q, Dot(ui, d, j), ui[j] * d[j], r, Dot(ui, c, j), ui[j] * c[j], r', Dot(un, c, j), un[j] * c[j]);
    }
  }

  lemma ZeroSum(p: Prime, q: int, r: int, r': int)
    ensures Balanced(p, q, 0, r, 0, r', 0)
  {
    CongRefl(p, 0);
  }

  lemma ReweightedAt(ys: seq<int>, n: nat, un: Vec, c: Vec, d: Vec, j: nat)
    requires n < |ys| && n < |un| && n < |c| && Reweighted(ys, n, un, c, d) && j < n
    ensures |d| == n && d[j] == c[j] * ((ys[n] - ys[j]) * un[j])
  {
  }

  lemma SumStep(p: Prime, q: int, a: int, a': int, r: int, b: int, b': int, s: int, c: int, c': int)
    requires Balanced(p, q, a, r, b, s, c) && Balanced(p, q, a', r, b', s, c')
    ensures Balanced(p, q, a + a', r, b + b', s, c + c')
  {
    var l, m := q * (a + a'), r * (b + b') - s * (c + c');
    assert l == q * a + q * a' && m == (r * b - s * c) + (r * b' - s * c');
    Combine(p, l - m, 1, q * a - (r * b - s * c), 1, q * a' - (r * b' - s * c'));
  }

  /** The last column drops out: eliminating it leaves a smaller Cauchy system. */
  lemma EliminatedRow(p: Prime, xi: int, xn: int, ys: seq<int>, n: nat, ui: Vec, un: Vec, c: Vec, d: Vec)
    requires |ys| == |ui| == |un| == |c| == n + 1 && Reweighted(ys, n, un, c, d) && !Cong(p, xi, xn)
    requires forall j | 0 <= j <= n :: IsInverse(p, xi + ys[j], ui[j]) && IsInverse(p, xn + ys[j], un[j])
    requires Cong(p, Dot(ui, c, n + 1), 0) && Cong(p, Dot(un, c, n + 1), 0)
    ensures Cong(p, Dot(ui, d, n), 0)
  {
    hide Multiple, IsInverse;
    EliminateSum(p, xi, xn, ys, n, ui, un, c, d, n, xn - xi, xi + ys[n], xn + ys[n]);
    LastTerm(p, xi + ys[n], ui[n], xn + ys[n], un[n], c[n]);
    FinishRow(p, xi, xn, Dot(ui, d, n),
      xi + ys[n], Dot(ui, c, n), ui[n] * c[n],
      xn + ys[n], Dot(un, c, n), un[n] * c[n]);
  }

  lemma LastTerm(p: Prime, a: int, u: int, b: int, w: int, c: int)
    requires IsInverse(p, a, u) && IsInverse(p, b, w)
    ensures Cong(p, a * (u * c), b * (w * c))
  {
    var e, f := a * u - 1, b * w - 1;
    assert a * (u * c) == c * (1 + e) && b * (w * c) == c * (1 + f);
    Combine(p, a * (u * c) - b * (w * c), c, e, -c, f);
  }

  lemma FinishRow(p: Prime, xi: int, xn: int, d: int, r: int, b: int, b': int, s: int, c: int, c': int)
    requires Balanced(p, xn - xi, d, r, b, s, c) && Cong(p, r * b', s * c') && !Cong(p, xi, xn)
    requires Cong(p, b + b', 0) && Cong(p, c + c', 0)
    ensures Cong(p, d, 0)
  {
    var l := (xn - xi) * d;
    var x := r * b - s * c;
    assert x == r * (b + b') - s * (c + c') - (r * b' - s * c');
    hide Multiple;
    Combine(p, r * (b + b') - s * (c + c'), r, (b + b') - 0, -s, (c + c') - 0);
    Combine(p, x, 1, r * (b + b') - s * (c + c'), -1, r * b' - s * c');
    Combine(p, l, 1, l - x, 1, x);
    EuclidLemma(p, xn - xi, d);
    if Multiple(xn - xi, p) {
      Combine(p, xi - xn, -1, xn - xi, 0, 0);
    }
  }

  lemma FactorZero(p: Prime, c: int, s: int, w: int, a: int)
    requires Cong(p, c * (s * w), 0) && !Multiple(s, p) && IsInverse(p, a, w)
    ensures Cong(p, c, 0)
  {
    InverseNonzero(p, a, w);
    EuclidLemma(p, c, s * w);
    if Multiple(s * w, p) {
      EuclidLemma(p, s, w);
    }
  }

  /** A Cauchy matrix on distinct points has a trivial kernel. */
  lemma {:induction false} CauchyKernel(p: Prime, xs: seq<int>, ys: seq<int>, u: Mat, c: Vec)
    requires |xs| == |ys| == |c| && Incongruent(p, xs) && Incongruent(p, ys) && IsCauchy(p, xs, ys, u)
    requires forall i | 0 <= i < |xs| :: Cong(p, Dot(u[i], c, |c|), 0)
    ensures forall j | 0 <= j < |c| :: Cong(p, c[j], 0)
    decreases |c|
  {
    if |c| == 0 {
    } else {
      var n := |c| - 1;
      var d := seq(n, j requires 0 <= j < n => c[j] * ((ys[n] - ys[j]) * u[n][j]));
      assert Reweighted(ys, n, u[n], c, d);
      var xs', ys' := xs[..n], ys[..n];
      var u' := seq(n, i requires 0 <= i < n => u[i][..n]);
      hide Multiple, Cong, IsInverse, Reweighted;
      forall i | 0 <= i < n
        ensures Cong(p, Dot(u'[i], d, n), 0)
      {
        EliminatedRow(p, xs[i], xs[n], ys, n, u[i], u[n], c, d);
        DotPrefix(u'[i], d, u[i], d, n);
      }
      CauchyKernel(p, xs', ys', u', d);
      BackSubstitute(p, xs[n], ys, n, u[n], c, d);
    }
  }

  lemma BackSubstitute(p: Prime, xn: int, ys: seq<int>, n: nat, un: Vec, c: Vec, d: Vec)
    requires |ys| == |un| == |c| == n + 1 && Reweighted(ys, n, un, c, d) && Incongruent(p, ys)
    requires forall j | 0 <= j <= n :: IsInverse(p, xn + ys[j], un[j])
    requires Cong(p, Dot(un, c, n + 1), 0) && forall j | 0 <= j < n :: Cong(p, d[j], 0)
    ensures forall j | 0 <= j <= n :: Cong(p, c[j], 0)
  {
    forall j | 0 <= j < n
      ensures Cong(p, c[j], 0)
    {
      hide Multiple;
      assert !Cong(p, ys[j], ys[n]);
      if Multiple(ys[n] - ys[j], p) {
        Combine(p, ys[j] - ys[n], -1, ys[n] - ys[j], 0, 0);
      }
      FactorZero(p, c[j], ys[n] - ys[j], un[j], xn + ys[j]);
    }
    hide Multiple;
    forall j | 0 <= j < n + 1 && j != n
      ensures Multiple(un[j] * c[j], p)
    {
      Combine(p, un[j] * c[j], un[j], c[j] - 0, 0, c[j] - 0);
    }
    DotOne(p, un, c, n + 1, n);
    var x := Dot(un, c, n + 1);
    CongSym(p, x, un[n] * c[n]);
    CongTrans(p, un[n] * c[n], x, 0);
    InverseNonzero(p, xn + ys[n], un[n]);
    EuclidLemma(p, un[n], c[n]);
  }

  ghost predicate DistinctIndices(s: seq<nat>, t: nat) {
    (forall k | 0 <= k < |s| :: s[k] < t) && forall k, l | 0 <= k < l < |s| :: s[k] != s[l]
  }

  /** Row rs[i] of m, restricted to the columns cs. */
  ghost function Submatrix(m: Mat, rs: seq<nat>, cs: seq<nat>): (u: Mat)
    requires forall i | 0 <= i < |rs| :: rs[i] < |m| && forall j | 0 <= j < |cs| :: cs[j] < |m[rs[i]]|
    ensures |u| == |rs| && Rect(u, |cs|)
    ensures forall i, j | 0 <= i < |rs| && 0 <= j < |cs| :: u[i][j] == m[rs[i]][cs[j]]
  {
    seq(|rs|, i requires 0 <= i < |rs| => seq(|cs|, j requires 0 <= j < |cs| => m[rs[i]][cs[j]]))
  }

  /** MDS: every square submatrix of a Cauchy matrix on distinct points has a trivial kernel. */
  lemma CauchyIsMds(p: Prime, xs: seq<int>, ys: seq<int>, m: Mat, rs: seq<nat>, cs: seq<nat>, c: Vec)
    requires Incongruent(p, xs) && Incongruent(p, ys) && IsCauchy(p, xs, ys, m)
    requires DistinctIndices(rs, |xs|) && DistinctIndices(cs, |ys|) && |rs| == |cs| == |c|
    requires VCong(p, Apply(Submatrix(m, rs, cs), c), Zeros(|c|))
    ensures VCong(p, c, Zeros(|c|))
  {
    var u := Submatrix(m, rs, cs);
    var xs' := seq(|rs|, i requires 0 <= i < |rs| => xs[rs[i]]);
    var ys' := seq(|cs|, j requires 0 <= j < |cs| => ys[cs[j]]);
    IncongruentSelection(p, xs, rs, xs');
    IncongruentSelection(p, ys, cs, ys');
    hide Multiple, IsInverse, Cong;
    assert IsCauchy(p, xs', ys', u);
    var z := Apply(u, c);
    forall i | 0 <= i < |rs|
      ensures Cong(p, Dot(u[i], c, |c|), 0)
    {
      assert Cong(p, z[i], Zeros(|c|)[i]);
    }
    CauchyKernel(p, xs', ys', u, c);
  }

  lemma IncongruentSelection(p: Prime, s: seq<int>, ks: seq<nat>, s': seq<int>)
    requires Incongruent(p, s) && DistinctIndices(ks, |s|) && |s'| == |ks|
    requires forall k | 0 <= k < |ks| :: s'[k] == s[ks[k]]
    ensures Incongruent(p, s')
  {
    hide Multiple, Cong;
    forall i, j | 0 <= i < j < |s'|
      ensures !Cong(p, s'[i], s'[j])
    {
      if Cong(p, s'[i], s'[j]) {
        CongSym(p, s'[i], s'[j]);
      }
    }
  }

  // ----- Drawing the points -----

  /** The 2t points read from position first of the stream on: consecutive 254-bit draws, reduced. */
  ghost function Window(p: Prime, init: Bits, t: nat, first: nat): (w: seq<int>)
    requires Seeded(init)
    ensures |w| == 2 * t && Canon(p, w)
    ensures forall i | 0 <= i < 2 * t :: w[i] == Mod(p, Draw(init, first + 254 * i))
  {
    seq(2 * t, i requires 0 <= i < 2 * t => Mod(p, Draw(init, first + FIELD_BITS * i)))
  }

  /** Where window k begins when window 0 begins at base. */
  ghost function WindowStart(t: nat, base: nat, k: nat): nat {
    if k == 0 then base else WindowStart(t, base, k - 1) + FIELD_BITS * (2 * t)
  }

  /** Windows follow each other without a gap: 2t draws of 254 bits each. */
  lemma {:induction false} WindowPlace(t: nat, base: nat, k: nat)
    ensures WindowStart(t, base, k) == base + k * (508 * t)
  {
    if k > 0 {
      WindowPlace(t, base, k - 1);
      assert k * (508 * t) == (k - 1) * (508 * t) + 508 * t;
    }
  }

  ghost function WindowAt(p: Prime, init: Bits, t: nat, base: nat, k: nat): (w: seq<int>)
    requires Seeded(init)
    ensures |w| == 2 * t
  {
    Window(p, init, t, WindowStart(t, base, k))
  }

  ghost predicate Distinct(s: seq<int>) {
    forall i, j | 0 <= i < j < |s| :: s[i] != s[j]
  }

  ghost predicate SomeSumVanishes(p: Prime, xs: seq<int>, ys: seq<int>) {
    exists i, j | 0 <= i < |xs| && 0 <= j < |ys| :: Multiple(xs[i] + ys[j], p)
  }

  /** The points of one attempt are usable: pairwise distinct, and no x + y vanishes. */
  ghost predicate Usable(p: Prime, w: seq<int>, t: nat)
    requires |w| == 2 * t
  {
    Distinct(w) && !SomeSumVanishes(p, w[..t], w[t..])
  }

  function Elements(s: seq<int>): set<int> {
    set x | x in s
  }

  lemma {:induction false} SizeCountsDistinct(s: seq<int>)
    ensures |Elements(s)| <= |s|
    ensures |Elements(s)| == |s| <==> Distinct(s)
  {
    if |s| == 0 {
    } else {
      var n := |s| - 1;
      var s', x := s[..n], s[n];
      SizeCountsDistinct(s');
      assert s == s' + [x];
      assert Elements(s) == Elements(s') + {x};
      if x in s' {
        var i :| 0 <= i < n && s'[i] == x;
        assert s[i] == s[n] && Elements(s) == Elements(s');
      }
    }
  }

  datatype Candidate = Candidate(mds: Mat, xs: seq<int>, ys: seq<int>)

  /** The inverses of x + y; degenerate when some x + y vanishes. */
  method CauchyRow(p: Prime, x: int, ys: seq<int>) returns (row: Vec, degenerate: bool)
    ensures |row| == |ys| && Canon(p, row)
    ensures degenerate <==> exists j | 0 <= j < |ys| :: Multiple(x + ys[j], p)
    ensures !degenerate ==> forall j | 0 <= j < |ys| :: IsInverse(p, x + ys[j], row[j])
  {
    row, degenerate := [], false;
    for j := 0 to |ys|
      invariant |row| == j && Canon(p, row)
      invariant degenerate <==> exists k | 0 <= k < j :: Multiple(x + ys[k], p)
      invariant !degenerate ==> forall k | 0 <= k < j :: IsInverse(p, x + ys[k], row[k])
    {
      var entry;
      entry, degenerate := CauchyEntry(p, x + ys[j], degenerate);
      row := row + [entry];
    }
  }

  method CauchyEntry(p: Prime, sum: int, degenerate: bool) returns (entry: int, d: bool)
    ensures 0 <= entry < p && (d <==> degenerate || Multiple(sum, p))
    ensures !d ==> IsInverse(p, sum, entry)
  {
    hide *;
    var denominator := Mod(p, sum);
    ResidueZero(p, sum, denominator);
    if denominator == 0 {
      return 0, true;
    }
    var inv := FInv(p, denominator);
    InverseOfResidue(p, sum, denominator, inv.value);
    return inv.value, degenerate;
  }

  lemma ResidueZero(p: Prime, a: int, r: int)
    requires Cong(p, r, a) && 0 <= r < p
    ensures Multiple(a, p) <==> r == 0
    ensures Multiple(r, p) <==> r == 0
  {
    MultipleOf(0, p);
    if r == 0 {
      Combine(p, a, -1, r - a, 0, 0);
    } else {
      NotZero(p, r);
      if Multiple(a, p) {
        Combine(p, r, 1, a, 1, r - a);
      }
    }
  }

  lemma InverseOfResidue(p: Prime, a: int, r: int, u: int)
    requires Cong(p, r, a) && Cong(p, r * u, 1)
    ensures IsInverse(p, a, u)
  {
    hide Multiple;
    Combine(p, a * u - 1, -u, r - a, 1, r * u - 1);
  }

  /** One attempt on the points w. */
  method TryPoints(p: Prime, w: seq<int>, t: nat) returns (c: Option<Candidate>)
    requires |w| == 2 * t
    ensures c.Some? <==> Usable(p, w, t)
    ensures c.Some? ==> c.value.xs == w[..t] && c.value.ys == w[t..] && CanonMat(p, c.value.mds, t)
    ensures c.Some? ==> IsCauchy(p, c.value.xs, c.value.ys, c.value.mds)
  {
    SizeCountsDistinct(w);
    if |Elements(w)| != 2 * t {
      return None;
    }
    var xs, ys := w[..t], w[t..];
    var m, degenerate := CauchyRows(p, xs, ys);
    if degenerate {
      return None;
    }
    return Some(Candidate(m, xs, ys));
  }

  method CauchyRows(p: Prime, xs: seq<int>, ys: seq<int>) returns (m: Mat, degenerate: bool)
    ensures CanonMat(p, m, |ys|) && |m| == |xs| && (degenerate <==> SomeSumVanishes(p, xs, ys))
    ensures !degenerate ==> IsCauchy(p, xs, ys, m)
  {
    hide Multiple, IsInverse;
    m, degenerate := [], false;
    for i := 0 to |xs|
      invariant |m| == i && CanonMat(p, m, |ys|)
      invariant degenerate <==> exists k, j | 0 <= k < i && 0 <= j < |ys| :: Multiple(xs[k] + ys[j], p)
      invariant !degenerate ==> forall k, j | 0 <= k < i && 0 <= j < |ys| :: IsInverse(p, xs[k] + ys[j], m[k][j])
    {
      var row, d := CauchyRow(p, xs[i], ys);
      m := m + [row];
      degenerate := degenerate || d;
    }
  }

  /** The candidate built from the points w. */
  ghost predicate IsCandidate(p: Prime, w: seq<int>, t: nat, c: Candidate)
    requires |w| == 2 * t
  {
    && Usable(p, w, t) && c.xs == w[..t] && c.ys == w[t..]
    && CanonMat(p, c.mds, t) && IsCauchy(p, c.xs, c.ys, c.mds)
  }

  /** No window from lo up to hi is usable. */
  ghost predicate NoneUsable(p: Prime, init: Bits, t: nat, base: nat, lo: nat, hi: nat)
    requires Seeded(init)
  {
    forall k | lo <= k < hi :: !Usable(p, WindowAt(p, init, t, base, k), t)
  }

  /**
   * Reads windows from window `first` on until one is usable, or gives up after maxTries; `used` counts the unusable
   * ones. Window 0 begins at position base of the stream.
   */
  method CreateMdsCandidate(p: Prime, stream: GrainStream, t: nat, maxTries: nat, ghost base: nat, ghost first: nat)
    returns (c: Option<Candidate>, ghost used: nat)
    requires stream.Valid() && |stream.yielded| == WindowStart(t, base, first)
    modifies stream
    ensures stream.Valid()
    ensures |stream.yielded| == WindowStart(t, base, first + used + if c.Some? then 1 else 0)
    ensures NoneUsable(p, stream.init, t, base, first, first + used)
    ensures if c.Some? then IsCandidate(p, WindowAt(p, stream.init, t, base, first + used), t, c.value)
      else used == maxTries
  {
    hide Usable, IsCauchy, Window;
    used := 0;
    var tries := 0;
    while tries < maxTries
      invariant used == tries <= maxTries && stream.Valid() && |stream.yielded| == WindowStart(t, base, first + used)
      invariant NoneUsable(p, stream.init, t, base, first, first + used)
    {
      var w := ReadPoints(p, stream, t);
      assert |stream.yielded| == WindowStart(t, base, first + used + 1);
      c := TryPoints(p, w, t);
      if c.Some? {
        return;
      }
      tries, used := tries + 1, used + 1;
    }
    c := None;
  }

  method ReadPoints(p: Prime, stream: GrainStream, t: nat) returns (w: seq<int>)
    requires stream.Valid()
    modifies stream
    ensures stream.Valid() && |stream.yielded| == |old(stream.yielded)| + 508 * t
    ensures w == Window(p, stream.init, t, |old(stream.yielded)|)
  {
    w := [];
    ghost var first := |stream.yielded|;
    for i := 0 to 2 * t
      invariant stream.Valid() && |stream.yielded| == first + FIELD_BITS * i
      invariant |w| == i && forall k | 0 <= k < i :: w[k] == Mod(p, Draw(stream.init, first + FIELD_BITS * k))
    {
      var point, bits := ReadMdsPoint(p, stream);
      w := w + [point];
    }
  }

  /** The points of a candidate are incongruent on either side. */
  lemma CandidateIncongruent(p: Prime, w: seq<int>, t: nat, c: Candidate)
    requires |w| == 2 * t && Canon(p, w) && IsCandidate(p, w, t, c)
    ensures Incongruent(p, c.xs) && Incongruent(p, c.ys) && |c.xs| == t && |c.ys| == t
  {
    UsableIncongruent(p, w, t, c.xs, c.ys);
  }

  lemma UsableIncongruent(p: Prime, w: seq<int>, t: nat, xs: seq<int>, ys: seq<int>)
    requires |w| == 2 * t && Distinct(w) && Canon(p, w) && xs == w[..t] && ys == w[t..]
    ensures Incongruent(p, xs) && Incongruent(p, ys)
  {
    forall i, j | 0 <= i < j < t
      ensures !Cong(p, xs[i], xs[j]) && !Cong(p, ys[i], ys[j])
    {
      if Cong(p, xs[i], xs[j]) {
        CongEqual(p, xs[i], xs[j]);
      }
      if Cong(p, ys[i], ys[j]) {
        CongEqual(p, ys[i], ys[j]);
      }
    }
  }
}
