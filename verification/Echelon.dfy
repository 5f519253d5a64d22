/** Reduced row echelon form: its coordinates, its uniqueness, and dimension. */
module Echelon {
  import opened PrimeField
  import opened Vectors

  /** Row i has a 1 in column cols[i] and the other rows a 0 there. */
  ghost predicate UnitCols(b: Mat, cols: seq<nat>, n: nat) {
    && |b| == |cols| && Rect(b, n)
    && (forall k | 0 <= k < |cols| :: cols[k] < n)
    && (forall i, k | 0 <= i < |b| && 0 <= k < |cols| :: b[i][cols[k]] == if i == k then 1 else 0)
  }

  ghost predicate Increasing(s: seq<nat>) {
    forall k, l | 0 <= k < l < |s| :: s[k] < s[l]
  }

  /** Reduced row echelon form without zero rows, with its pivot columns. */
  ghost predicate IsRref(p: Prime, r: Mat, pivots: seq<nat>, n: nat) {
    && CanonMat(p, r, n) && UnitCols(r, pivots, n) && Increasing(pivots)
    && (forall k, j | 0 <= k < |r| && 0 <= j < pivots[k] :: r[k][j] == 0)
  }

  /** A subspace as the program represents it. */
  ghost predicate Canonical(p: Prime, r: Mat, n: nat) {
    exists pivots: seq<nat> :: IsRref(p, r, pivots, n)
  }

  ghost function At(v: Vec, cols: seq<nat>): (c: Vec)
    requires forall k | 0 <= k < |cols| :: cols[k] < |v|
    ensures |c| == |cols| && forall k | 0 <= k < |cols| :: c[k] == v[cols[k]]
  {
    seq(|cols|, k requires 0 <= k < |cols| => v[cols[k]])
  }

  ghost predicate LeadsAt(p: Prime, v: Vec, l: nat) {
    l < |v| && !Cong(p, v[l], 0) && forall j | 0 <= j < l :: Cong(p, v[j], 0)
  }

  // ----- Coordinates -----

  lemma UnitCoefficient(p: Prime, b: Mat, cols: seq<nat>, n: nat, c: Vec, k: nat)
    requires UnitCols(b, cols, n) && |c| == |b| && k < |b|
    ensures Cong(p, Dot(c, Col(b, cols[k]), |b|), c[k])
  {
    hide Multiple;
    var col := Col(b, cols[k]);
    forall i | 0 <= i < |b| && i != k
      ensures Multiple(c[i] * col[i], p)
    {
      assert c[i] * col[i] == 0;
      CongRefl(p, 0);
    }
    DotOne(p, c, col, |b|, k);
    assert c[k] * col[k] == c[k];
  }

  /** A vector of the span is the combination whose coefficients it shows in the unit columns. */
  lemma Coordinates(p: Prime, b: Mat, cols: seq<nat>, n: nat, v: Vec)
    requires UnitCols(b, cols, n) && v in Span(p, b, n)
    ensures |v| == n && VCong(p, v, Comb(At(v, cols), b, n, |b|))
  {
    var c: Vec :| |c| == |b| && VCong(p, v, Comb(c, b, n, |b|));
    var a := At(v, cols);
    hide Multiple, Cong;
    forall k | 0 <= k < |b|
      ensures Cong(p, c[k], a[k])
    {
      UnitCoefficient(p, b, cols, n, c, k);
      CongTrans(p, a[k], Dot(c, Col(b, cols[k]), |b|), c[k]);
      CongSym(p, a[k], c[k]);
    }
    forall j | 0 <= j < n
      ensures Cong(p, v[j], Dot(a, Col(b, j), |b|))
    {
      DotCong(p, c, a, Col(b, j), |b|);
      CongTrans(p, v[j], Dot(c, Col(b, j), |b|), Dot(a, Col(b, j), |b|));
    }
  }

  lemma LeadIsPivot(p: Prime, r: Mat, pivots: seq<nat>, n: nat, v: Vec, l: nat)
    requires IsRref(p, r, pivots, n) && v in Span(p, r, n) && LeadsAt(p, v, l)
    ensures l in pivots
  {
    if l !in pivots {
      Coordinates(p, r, pivots, n, v);
      var a, col := At(v, pivots), Col(r, l);
      forall k | 0 <= k < |r|
        ensures Multiple(a[k] * col[k], p)
      {
        assert pivots[k] in pivots;
        LeadTerm(p, v[pivots[k]], r[k][l], pivots[k] < l);
      }
      hide *;
      DotOne(p, a, col, |r|, -1);
      CongTrans(p, v[l], Dot(a, col, |r|), 0);
      assert false;
    }
  }

  lemma LeadTerm(p: Prime, x: int, y: int, before: bool)
    requires if before then Cong(p, x, 0) else y == 0
    ensures Multiple(x * y, p)
  {
    CongRefl(p, 0);
    Combine(p, x * y, if before then y else 0, if before then x - 0 else 0, 0, 0);
  }

  lemma PivotLeads(p: Prime, r: Mat, pivots: seq<nat>, n: nat, k: nat)
    requires IsRref(p, r, pivots, n) && k < |r|
    ensures LeadsAt(p, r[k], pivots[k])
  {
    NotZero(p, 1);
    CongRefl(p, 0);
  }

  lemma {:induction false} IncreasingSubset(a: seq<nat>, b: seq<nat>)
    requires Increasing(a) && Increasing(b) && forall x | x in a :: x in b
    ensures |a| <= |b|
    ensures |a| == |b| ==> a == b
  {
    if |a| == 0 {
    } else {
      assert a[|a| - 1] in b;
      var a', b' := a[..|a| - 1], b[..|b| - 1];
      PrefixSubset(a, b, a', b');
      IncreasingSubset(a', b');
      if |a| == |b| {
        assert a == a' + [a[|a| - 1]] && b == b' + [b[|b| - 1]];
        assert a[|a| - 1] !in a';
      }
    }
  }

  lemma PrefixSubset(a: seq<nat>, b: seq<nat>, a': seq<nat>, b': seq<nat>)
    requires Increasing(a) && Increasing(b) && (forall x | x in a :: x in b)
    requires |a| > 0 && |b| > 0 && a' == a[..|a| - 1] && b' == b[..|b| - 1]
    ensures Increasing(a') && Increasing(b')
    ensures forall x | x in a' :: x in b'
  {
    assert a[|a| - 1] in b;
    forall j | 0 <= j < |a'|
      ensures a'[j] in b'
    {
      assert a[j] in b && a[j] < a[|a| - 1] <= b[|b| - 1];
      var k :| 0 <= k < |b| && b[k] == a[j];
      assert b'[k] == a'[j];
    }
  }

  /** Containment of spans is containment of pivot columns. */
  lemma PivotsContained(p: Prime, r: Mat, rp: seq<nat>, s: Mat, sp: seq<nat>, n: nat)
    requires IsRref(p, r, rp, n) && IsRref(p, s, sp, n) && Span(p, r, n) <= Span(p, s, n)
    ensures |r| <= |s| && (|r| == |s| ==> rp == sp)
  {
    forall x | x in rp
      ensures x in sp
    {
      var k :| 0 <= k < |rp| && rp[k] == x;
      PivotLeads(p, r, rp, n, k);
      RowInSpan(p, r, n, k);
      LeadIsPivot(p, s, sp, n, r[k], x);
    }
    IncreasingSubset(rp, sp);
  }

  lemma SamePivotsSameRows(p: Prime, r: Mat, s: Mat, pivots: seq<nat>, n: nat)
    requires IsRref(p, r, pivots, n) && IsRref(p, s, pivots, n) && Span(p, r, n) <= Span(p, s, n)
    ensures r == s
  {
    forall k | 0 <= k < |r|
      ensures r[k] == s[k]
    {
      RowInSpan(p, r, n, k);
      RowInSpan(p, s, n, k);
      Coordinates(p, s, pivots, n, r[k]);
      Coordinates(p, s, pivots, n, s[k]);
      assert At(r[k], pivots) == At(s[k], pivots);
      var z := Comb(At(s[k], pivots), s, n, |s|);
      VCongSym(p, s[k], z);
      VCongTrans(p, r[k], z, s[k]);
      VCongEqual(p, r[k], s[k]);
    }
  }

  /** Dimension is monotone, and a subspace of full dimension is the whole space it lies in. */
  lemma DimensionMonotone(p: Prime, r: Mat, s: Mat, n: nat)
    requires Canonical(p, r, n) && Canonical(p, s, n) && Span(p, r, n) <= Span(p, s, n)
    ensures |r| <= |s|
    ensures |r| == |s| ==> r == s
  {
    var rp: seq<nat> :| IsRref(p, r, rp, n);
    var sp: seq<nat> :| IsRref(p, s, sp, n);
    PivotsContained(p, r, rp, s, sp, n);
    if |r| == |s| {
      SamePivotsSameRows(p, r, s, rp, n);
    }
  }

  /** The reduced row echelon form of a subspace is unique: equality of subspaces is equality of bases. */
  lemma CanonicalUnique(p: Prime, r: Mat, s: Mat, n: nat)
    requires Canonical(p, r, n) && Canonical(p, s, n)
    ensures r == s <==> Span(p, r, n) == Span(p, s, n)
  {
    if Span(p, r, n) == Span(p, s, n) {
      DimensionMonotone(p, r, s, n);
      DimensionMonotone(p, s, r, n);
    }
  }

  // ----- The whole space -----

  function Identity(t: nat): (m: Mat)
    ensures Rect(m, t) && |m| == t
    ensures forall i, j | 0 <= i < t && 0 <= j < t :: m[i][j] == if i == j then 1 else 0
  {
    seq(t, i requires 0 <= i < t => seq(t, j requires 0 <= j < t => if i == j then 1 else 0))
  }

  ghost function Positions(t: nat): (s: seq<nat>)
    ensures |s| == t && forall i | 0 <= i < t :: s[i] == i
  {
    seq(t, i requires 0 <= i < t => i)
  }

  lemma IdentityCanonical(p: Prime, t: nat)
    ensures IsRref(p, Identity(t), Positions(t), t)
    ensures Canonical(p, Identity(t), t)
  {
    assert IsRref(p, Identity(t), Positions(t), t);
  }

  ghost predicate SpansAll(p: Prime, r: Mat, n: nat)
    requires Rect(r, n)
  {
    forall v: Vec {:trigger v in Span(p, r, n)} | |v| == n :: v in Span(p, r, n)
  }

  lemma InIdentitySpan(p: Prime, t: nat, v: Vec)
    requires |v| == t
    ensures v in Span(p, Identity(t), t)
  {
    var m := Identity(t);
    IdentityCanonical(p, t);
    hide Multiple, Cong, Identity;
    forall j | 0 <= j < t
      ensures Cong(p, v[j], Dot(v, Col(m, j), t))
    {
      UnitCoefficient(p, m, Positions(t), t, v, j);
      CongSym(p, Dot(v, Col(m, j), t), v[j]);
    }
    InSpanByCoefficients(p, m, t, v, v);
  }

  lemma IdentitySpansAll(p: Prime, t: nat)
    ensures SpansAll(p, Identity(t), t)
  {
    forall v: Vec | |v| == t
      ensures v in Span(p, Identity(t), t)
    {
      InIdentitySpan(p, t, v);
    }
  }

  /** A canonical basis has at most n rows, and n rows only when it spans everything. */
  lemma FullDimension(p: Prime, r: Mat, n: nat)
    requires Canonical(p, r, n)
    ensures |r| <= n
    ensures |r| == n <==> SpansAll(p, r, n)
  {
    IdentityCanonical(p, n);
    IdentitySpansAll(p, n);
    var i := Identity(n);
    SpanWithin(p, r, i, n);
    DimensionMonotone(p, r, i, n);
    if SpansAll(p, r, n) {
      SpanWithin(p, i, r, n);
      DimensionMonotone(p, i, r, n);
    }
  }

  lemma SpanWithin(p: Prime, r: Mat, s: Mat, n: nat)
    requires Rect(r, n) && Rect(s, n) && SpansAll(p, s, n)
    ensures Span(p, r, n) <= Span(p, s, n)
  {
  }

  // ----- Dimension does not depend on the basis -----

  /** Row v with column j0 eliminated by row u, up to the factor u[j0]. */
  ghost function Eliminate(u: Vec, v: Vec, j0: nat): (z: Vec)
    requires |u| == |v| && j0 < |u|
    ensures |z| == |u| && forall j | 0 <= j < |u| :: z[j] == u[j0] * v[j] - u[j] * v[j0]
  {
    seq(|u|, j requires 0 <= j < |u| => u[j0] * v[j] - u[j] * v[j0])
  }

  ghost predicate Vanishes(p: Prime, c: Vec, w: Mat, n: nat)
    requires Rect(w, n) && |c| == |w|
  {
    forall j | 0 <= j < n :: Cong(p, Dot(c, Col(w, j), |w|), 0)
  }

  /** More vectors than columns that are not zero throughout: they are linearly dependent. */
  lemma {:induction false} Dependence(p: Prime, w: Mat, n: nat, live: set<nat>) returns (c: Vec)
    requires Rect(w, n) && |w| > |live|
    requires forall i, j | 0 <= i < |w| && 0 <= j < n && j !in live :: Cong(p, w[i][j], 0)
    ensures |c| == |w| && !VCong(p, c, Zeros(|w|)) && Vanishes(p, c, w, n)
    decreases |w|
  {
    hide Multiple, Cong;
    if forall j | 0 <= j < n :: Cong(p, w[0][j], 0) {
      c := ZeroRowDependence(p, w, n);
    } else {
      var j0 :| 0 <= j0 < n && !Cong(p, w[0][j0], 0);
      var rest := w[1..];
      var w' := seq(|rest|, i requires 0 <= i < |rest| => Eliminate(w[0], rest[i], j0));
      forall i, j | 0 <= i < |w'| && 0 <= j < n && j !in live - {j0}
        ensures Cong(p, w'[i][j], 0)
      {
        EliminateZero(p, w[0], rest[i], j0, j);
      }
      var d := Dependence(p, w', n, live - {j0});
      c := LiftDependence(p, w[0], rest, w', j0, d);
      assert w == [w[0]] + rest;
    }
  }

  lemma ZeroRowDependence(p: Prime, w: Mat, n: nat) returns (c: Vec)
    requires Rect(w, n) && |w| > 0 && forall j | 0 <= j < n :: Cong(p, w[0][j], 0)
    ensures |c| == |w| && !VCong(p, c, Zeros(|w|)) && Vanishes(p, c, w, n)
  {
    c := Zeros(|w|)[0 := 1];
    NotZero(p, 1);
    assert !Cong(p, c[0], Zeros(|w|)[0]);
    hide Multiple;
    forall j | 0 <= j < n
      ensures Cong(p, Dot(c, Col(w, j), |w|), 0)
    {
      var col := Col(w, j);
      forall i | 0 <= i < |w|
        ensures Multiple(c[i] * col[i], p)
      {
        CongRefl(p, 0);
        if i == 0 {
          Combine(p, c[i] * col[i], 1, w[0][j] - 0, 0, 0);
        } else {
          Combine(p, c[i] * col[i], 0, 0, 0, 0);
        }
      }
      DotOne(p, c, col, |w|, -1);
    }
  }

  lemma EliminateZero(p: Prime, u: Vec, v: Vec, j0: nat, j: nat)
    requires |u| == |v| && j0 < |u| && j < |u|
    requires j != j0 ==> Cong(p, u[j], 0) && Cong(p, v[j], 0)
    ensures Cong(p, Eliminate(u, v, j0)[j], 0)
  {
    hide Multiple;
    if j == j0 {
      CongRefl(p, 0);
    } else {
      Combine(p, Eliminate(u, v, j0)[j] - 0, u[j0], v[j] - 0, -v[j0], u[j] - 0);
    }
  }

  ghost predicate Scaled(e: Vec, a: int, d: Vec) {
    |e| == |d| && forall i | 0 <= i < |d| :: e[i] == a * d[i]
  }

  ghost predicate Eliminated(z: Vec, a: int, x: Vec, b: int, y: Vec) {
    |z| == |x| == |y| && forall i | 0 <= i < |z| :: z[i] == a * x[i] - b * y[i]
  }

  ghost predicate EliminatedRows(u: Vec, rest: Mat, j0: nat, w': Mat)
    requires j0 < |u| && Rect(rest, |u|)
  {
    |w'| == |rest| && forall i | 0 <= i < |rest| :: w'[i] == Eliminate(u, rest[i], j0)
  }

  /** A dependence among the eliminated rows, carried back to all rows. */
  lemma LiftDependence(p: Prime, u: Vec, rest: Mat, w': Mat, j0: nat, d: Vec) returns (c: Vec)
    requires Rect(rest, |u|) && Rect(w', |u|) && j0 < |u| && !Cong(p, u[j0], 0) && |d| == |rest|
    requires EliminatedRows(u, rest, j0, w') && !VCong(p, d, Zeros(|d|)) && Vanishes(p, d, w', |u|)
    ensures |c| == 1 + |rest| && !VCong(p, c, Zeros(|c|)) && Vanishes(p, c, [u] + rest, |u|)
  {
    var e := seq(|d|, i requires 0 <= i < |d| => u[j0] * d[i]);
    var x := Dot(d, Col(rest, j0), |d|);
    assert Scaled(e, u[j0], d);
    c := [-x] + e;
    NonzeroScaled(p, u[j0], d, e, -x);
    assert Vanishes(p, c, [u] + rest, |u|) by {
      hide Multiple, Cong, Scaled, EliminatedRows;
      forall j | 0 <= j < |u|
        ensures Cong(p, Dot(c, Col([u] + rest, j), |c|), 0)
      {
        LiftColumn(u, rest, w', j0, d, e, x, j);
      }
    }
  }

  lemma NonzeroScaled(p: Prime, a: int, d: Vec, e: Vec, x: int)
    requires Scaled(e, a, d) && !Cong(p, a, 0) && !VCong(p, d, Zeros(|d|))
    ensures !VCong(p, [x] + e, Zeros(1 + |e|))
  {
    hide Multiple, Cong;
    var i :| 0 <= i < |d| && !Cong(p, d[i], 0);
    ProductNotZero(p, a, d[i]);
    assert ([x] + e)[i + 1] == a * d[i];
  }

  lemma ProductNotZero(p: Prime, a: int, b: int)
    requires !Cong(p, a, 0) && !Cong(p, b, 0)
    ensures !Cong(p, a * b, 0)
  {
    if Multiple(a * b, p) {
      EuclidLemma(p, a, b);
    }
  }

  lemma {:induction false} DotScale(c: Vec, a: int, e: Vec, v: Vec, n: nat)
    requires Scaled(e, a, c) && n <= |c| && n <= |v|
    ensures Dot(e, v, n) == a * Dot(c, v, n)
  {
    if n == 0 {
    } else {
      DotScale(c, a, e, v, n - 1);
      assert (a * c[n - 1]) * v[n - 1] == a * (c[n - 1] * v[n - 1]);
    }
  }

  lemma EliminateTerm(s: int, e: int, f: int, d: int, a: int, x: int, b: int, y: int)
    requires s == a * e - b * f
    ensures s + d * (a * x - b * y) == a * (e + d * x) - b * (f + d * y)
  {
  }

  lemma {:induction false} DotEliminate(d: Vec, cw: Vec, a: int, cj: Vec, b: int, c0: Vec, n: nat)
    requires Eliminated(cw, a, cj, b, c0) && n <= |cw| == |d|
    ensures Dot(d, cw, n) == a * Dot(d, cj, n) - b * Dot(d, c0, n)
  {
    if n == 0 {
    } else {
      DotEliminate(d, cw, a, cj, b, c0, n - 1);
      EliminateTerm(Dot(d, cw, n - 1), Dot(d, cj, n - 1), Dot(d, c0, n - 1), d[n - 1], a, cj[n - 1], b, c0[n - 1]);
    }
  }

  lemma ColCons(u: Vec, rest: Mat, n: nat, j: nat)
    requires |u| == n && Rect(rest, n) && j < n
    ensures Col([u] + rest, j) == [u[j]] + Col(rest, j)
  {
  }

  lemma EliminatedColumn(u: Vec, rest: Mat, w': Mat, j0: nat, j: nat)
    requires Rect(rest, |u|) && Rect(w', |u|) && j0 < |u| && j < |u| && EliminatedRows(u, rest, j0, w')
    ensures Eliminated(Col(w', j), u[j0], Col(rest, j), u[j], Col(rest, j0))
  {
  }

  lemma LiftColumn(u: Vec, rest: Mat, w': Mat, j0: nat, d: Vec, e: Vec, x: int, j: nat)
    requires Rect(rest, |u|) && Rect(w', |u|) && j0 < |u| && j < |u| && |d| == |rest|
    requires Scaled(e, u[j0], d) && EliminatedRows(u, rest, j0, w') && x == Dot(d, Col(rest, j0), |d|)
    ensures Dot([-x] + e, Col([u] + rest, j), 1 + |d|) == Dot(d, Col(w', j), |d|)
  {
    EliminatedColumn(u, rest, w', j0, j);
    ColCons(u, rest, |u|, j);
    LiftDot(u[j0], u[j], d, e, x, Col(rest, j), Col(rest, j0), Col(w', j));
  }

  lemma LiftDot(a: int, b: int, d: Vec, e: Vec, x: int, cj: Vec, c0: Vec, cw: Vec)
    requires |d| == |cj| && Scaled(e, a, d) && Eliminated(cw, a, cj, b, c0) && x == Dot(d, c0, |d|)
    ensures Dot([-x] + e, [b] + cj, 1 + |d|) == Dot(d, cw, |d|)
  {
    var n := |d|;
    DotScale(d, a, e, cj, n);
    DotEliminate(d, cw, a, cj, b, c0, n);
    hide *;
    DotSplit([-x], [b], e, cj, [-x] + e, [b] + cj, n);
    DotSingle(-x, b);
    Balance(x, b, a, Dot(d, cj, n), Dot([-x] + e, [b] + cj, 1 + n), Dot(e, cj, n), Dot(d, cw, n));
  }

  lemma Balance(x: int, b: int, a: int, t: int, l: int, m: int, r: int)
    requires l == (-x) * b + m && m == a * t && r == a * t - b * x
    ensures l == r
  {
  }

  lemma DotSingle(x: int, y: int)
    ensures Dot([x], [y], 1) == x * y
  {
    assert Dot([x], [y], 0) == 0;
  }

  /** Two families with unit columns: the one inside the other's span is no larger. */
  lemma UnitColsBound(p: Prime, b: Mat, cols: seq<nat>, d: Mat, dcols: seq<nat>, n: nat)
    requires UnitCols(b, cols, n) && UnitCols(d, dcols, n) && Span(p, d, n) <= Span(p, b, n)
    ensures |d| <= |b|
  {
    if |d| > |b| {
      var w := seq(|d|, i requires 0 <= i < |d| => At(d[i], cols));
      var c := Dependence(p, w, |b|, Upto(|b|));
      var v := Comb(c, d, n, |d|);
      VCongRefl(p, v);
      InSpanByCoefficients(p, d, n, c, v);
      ZeroCoordinates(p, b, cols, d, n, c, w);
      UnitColsIndependent(p, d, dcols, n, c);
      assert false;
    }
  }

  ghost function Upto(n: nat): (s: set<nat>)
    ensures |s| == n && forall k: nat :: k in s <==> k < n
  {
    if n == 0 then {} else Upto(n - 1) + {n - 1}
  }

  lemma ZeroCoordinates(p: Prime, b: Mat, cols: seq<nat>, d: Mat, n: nat, c: Vec, w: Mat)
    requires UnitCols(b, cols, n) && Rect(d, n) && |c| == |d| == |w| && Rect(w, |b|)
    requires forall i | 0 <= i < |d| :: w[i] == At(d[i], cols)
    requires Vanishes(p, c, w, |b|) && Comb(c, d, n, |d|) in Span(p, b, n)
    ensures VCong(p, Comb(c, d, n, |d|), Zeros(n))
  {
    var v := Comb(c, d, n, |d|);
    Coordinates(p, b, cols, n, v);
    var a := At(v, cols);
    hide Multiple, Cong;
    forall k | 0 <= k < |b|
      ensures Cong(p, a[k], 0)
    {
      assert Col(w, k) == Col(d, cols[k]);
    }
    var z := Zeros(|b|);
    forall j | 0 <= j < n
      ensures Cong(p, v[j], 0)
    {
      DotCong(p, a, z, Col(b, j), |b|);
      DotComm(z, Col(b, j), |b|);
      DotZero(Col(b, j), z, |b|);
      CongTrans(p, v[j], Dot(a, Col(b, j), |b|), 0);
    }
  }

  lemma UnitColsIndependent(p: Prime, d: Mat, dcols: seq<nat>, n: nat, c: Vec)
    requires UnitCols(d, dcols, n) && |c| == |d| && VCong(p, Comb(c, d, n, |d|), Zeros(n))
    ensures VCong(p, c, Zeros(|d|))
  {
    hide Multiple, Cong;
    var v := Comb(c, d, n, |d|);
    forall k | 0 <= k < |d|
      ensures Cong(p, c[k], 0)
    {
      UnitCoefficient(p, d, dcols, n, c, k);
      assert Cong(p, v[dcols[k]], Zeros(n)[dcols[k]]);
      CongSym(p, v[dcols[k]], c[k]);
      CongTrans(p, c[k], v[dcols[k]], 0);
    }
  }

  /** Every family with unit columns that spans a subspace has the size of the canonical basis. */
  lemma DimensionInvariant(p: Prime, b: Mat, cols: seq<nat>, r: Mat, n: nat)
    requires UnitCols(b, cols, n) && Canonical(p, r, n) && Span(p, b, n) == Span(p, r, n)
    ensures |b| == |r|
  {
    var pivots: seq<nat> :| IsRref(p, r, pivots, n);
    UnitColsBound(p, b, cols, r, pivots, n);
    UnitColsBound(p, r, pivots, b, cols, n);
  }
}
