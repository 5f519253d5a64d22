/** Kernels, images and intersections of subspaces over F_p. */
module Subspaces {
  import opened PrimeField
  import opened Vectors
  import opened Echelon
  import opened RowReduction

  // ----- Linear maps -----

  ghost function Preimage(m: Mat, n: nat, s: iset<Vec>): iset<Vec>
    requires Rect(m, n)
  {
    iset v: Vec | |v| == n && Apply(m, v) in s
  }

  ghost predicate InImage(p: Prime, m: Mat, n: nat, s: iset<Vec>, z: Vec)
    requires Rect(m, n)
  {
    exists v: Vec {:trigger v in s} :: v in s && |v| == n && VCong(p, z, Apply(m, v))
  }

  ghost function Image(p: Prime, m: Mat, n: nat, s: iset<Vec>): iset<Vec>
    requires Rect(m, n)
  {
    iset z: Vec | InImage(p, m, n, s, z)
  }

  lemma ApplyZeros(m: Mat, n: nat)
    requires Rect(m, n)
    ensures Apply(m, Zeros(n)) == Zeros(|m|)
  {
    forall i | 0 <= i < |m|
      ensures Dot(m[i], Zeros(n), n) == 0
    {
      DotZero(m[i], Zeros(n), n);
    }
  }

  lemma PreimageIsSubspace(p: Prime, m: Mat, n: nat, s: iset<Vec>)
    requires Rect(m, n) && IsSubspace(p, |m|, s)
    ensures IsSubspace(p, n, Preimage(m, n, s))
  {
    ApplyZeros(m, n);
    hide IsAxpy;
    var t := Preimage(m, n, s);
    forall u: Vec, k: int, v: Vec, z: Vec | u in t && v in t && IsAxpy(p, u, k, v, z)
      ensures z in t
    {
      AxpyLength(p, u, k, v, z);
      ApplyAxpy(p, m, n, u, k, v, z);
    }
  }

  lemma AxpyLength(p: Prime, u: Vec, k: int, v: Vec, z: Vec)
    requires IsAxpy(p, u, k, v, z)
    ensures |u| == |v| == |z|
  {
  }

  lemma ImageIsSubspace(p: Prime, m: Mat, n: nat, s: iset<Vec>)
    requires Rect(m, n) && IsSubspace(p, n, s)
    ensures IsSubspace(p, |m|, Image(p, m, n, s))
  {
    ApplyZeros(m, n);
    VCongRefl(p, Zeros(|m|));
    var t := Image(p, m, n, s);
    assert Zeros(|m|) in t by {
      assert Zeros(n) in s;
    }
    forall u: Vec, k: int, v: Vec, z: Vec | u in t && v in t && IsAxpy(p, u, k, v, z)
      ensures z in t
    {
      ImageAxpy(p, m, n, s, u, k, v, z);
    }
  }

  lemma ImageAxpy(p: Prime, m: Mat, n: nat, s: iset<Vec>, u: Vec, k: int, v: Vec, z: Vec)
    requires Rect(m, n) && IsSubspace(p, n, s)
    requires u in Image(p, m, n, s) && v in Image(p, m, n, s) && IsAxpy(p, u, k, v, z)
    ensures z in Image(p, m, n, s)
  {
    var a :| a in s && |a| == n && VCong(p, u, Apply(m, a));
    var b :| b in s && |b| == n && VCong(p, v, Apply(m, b));
    var c := seq(n, j requires 0 <= j < n => a[j] + k * b[j]);
    ExactAxpy(p, a, k, b, c);
    assert c in s;
    ApplyAxpy(p, m, n, a, k, b, c);
    AxpyCong(p, u, Apply(m, a), k, v, Apply(m, b), z, Apply(m, c));
  }

  lemma ExactAxpy(p: Prime, a: Vec, k: int, b: Vec, c: Vec)
    requires |a| == |b| == |c| && forall j | 0 <= j < |c| :: c[j] == a[j] + k * b[j]
    ensures IsAxpy(p, a, k, b, c)
  {
    forall j | 0 <= j < |c|
      ensures Cong(p, c[j], a[j] + k * b[j])
    {
      CongRefl(p, c[j]);
    }
  }

  lemma ApplyCong(p: Prime, m: Mat, n: nat, u: Vec, v: Vec)
    requires Rect(m, n) && |v| == n && VCong(p, u, v)
    ensures VCong(p, Apply(m, u), Apply(m, v))
  {
    hide Cong;
    forall i | 0 <= i < |m|
      ensures Cong(p, Dot(m[i], u, n), Dot(m[i], v, n))
    {
      DotCong(p, u, v, m[i], n);
      DotComm(m[i], u, n);
      DotComm(m[i], v, n);
    }
  }

  /** The images of generators generate the image. */
  lemma ImageOfSpan(p: Prime, m: Mat, n: nat, b: Mat, images: Mat)
    requires Rect(m, n) && Rect(b, n) && |images| == |b| && Rect(images, |m|)
    requires forall i | 0 <= i < |b| :: VCong(p, images[i], Apply(m, b[i]))
    ensures Span(p, images, |m|) == Image(p, m, n, Span(p, b, n))
  {
    var s := Span(p, b, n);
    SpanIsSubspace(p, b, n);
    ImageIsSubspace(p, m, n, s);
    forall i | 0 <= i < |b|
      ensures images[i] in Image(p, m, n, s)
    {
      RowInSpan(p, b, n, i);
    }
    SpanMinimal(p, images, |m|, Image(p, m, n, s));
    ImageWithin(p, m, n, b, images);
  }

  lemma ImageWithin(p: Prime, m: Mat, n: nat, b: Mat, images: Mat)
    requires Rect(m, n) && Rect(b, n) && |images| == |b| && Rect(images, |m|)
    requires forall i | 0 <= i < |b| :: VCong(p, images[i], Apply(m, b[i]))
    ensures Image(p, m, n, Span(p, b, n)) <= Span(p, images, |m|)
  {
    var t := Span(p, images, |m|);
    SpanIsSubspace(p, images, |m|);
    PreimageIsSubspace(p, m, n, t);
    forall i | 0 <= i < |b|
      ensures b[i] in Preimage(m, n, t)
    {
      RowInSpan(p, images, |m|, i);
      VCongSym(p, images[i], Apply(m, b[i]));
      ClosedUnderCong(p, |m|, t, images[i], Apply(m, b[i]));
    }
    SpanMinimal(p, b, n, Preimage(m, n, t));
    forall z | z in Image(p, m, n, Span(p, b, n))
      ensures z in t
    {
      var v :| v in Span(p, b, n) && |v| == n && VCong(p, z, Apply(m, v));
      assert v in Preimage(m, n, t);
      ClosedUnderCong(p, |m|, t, Apply(m, v), z);
    }
  }

  // ----- Right kernel -----

  method FreeColumns(pivots: seq<nat>, cols: nat) returns (free: seq<nat>)
    requires Increasing(pivots) && forall k | 0 <= k < |pivots| :: pivots[k] < cols
    ensures Increasing(free) && |free| + |pivots| == cols
    ensures forall c: nat :: c in free <==> c < cols && c !in pivots
  {
    free := [];
    ghost var k := 0;
    for c := 0 to cols
      invariant k <= |pivots| && |free| + k == c
      invariant forall i | 0 <= i < k :: pivots[i] < c
      invariant forall i | k <= i < |pivots| :: pivots[i] >= c
      invariant Increasing(free)
      invariant forall x: nat :: x in free <==> x < c && x !in pivots
    {
      assert forall i | k <= i < |pivots| :: pivots[i] in pivots;
      assert forall i | 0 <= i < |free| :: free[i] in free;
      if c !in pivots {
        free := free + [c];
      } else {
        assert k < |pivots| && pivots[k] == c;
        k := k + 1;
      }
    }
  }

  /** The kernel vector that belongs to free column f. */
  ghost predicate IsKernelVector(p: Prime, rows: Mat, pivots: seq<nat>, n: nat, f: nat, v: Vec)
    requires Rect(rows, n) && |rows| == |pivots| && f < n
  {
    && |v| == n && Canon(p, v) && v[f] == 1
    && (forall i | 0 <= i < |pivots| && pivots[i] < n :: Cong(p, v[pivots[i]], -rows[i][f]))
    && (forall c | 0 <= c < n && c != f && c !in pivots :: v[c] == 0)
  }

  method KernelVector(p: Prime, rows: Mat, pivots: seq<nat>, cols: nat, f: nat) returns (v: Vec)
    requires IsRref(p, rows, pivots, cols) && f < cols && f !in pivots
    ensures IsKernelVector(p, rows, pivots, cols, f, v)
  {
    v := seq(cols, _ => 0);
    v := v[f := 1];
    for i := 0 to |pivots|
      invariant |v| == cols && Canon(p, v) && v[f] == 1
      invariant forall k | 0 <= k < i :: Cong(p, v[pivots[k]], -rows[k][f])
      invariant forall c | 0 <= c < cols && c != f && c !in pivots :: v[c] == 0
    {
      assert pivots[i] in pivots;
      v := v[pivots[i] := Mod(p, -rows[i][f])];
    }
  }

  /** A dot product to which only positions k and l can contribute. */
  lemma {:induction false} DotTwo(p: Prime, u: Vec, v: Vec, n: nat, k: nat, l: nat)
    requires n <= |u| && n <= |v| && k != l
    requires forall i | 0 <= i < n && i != k && i != l :: Multiple(u[i] * v[i], p)
    ensures Cong(p, Dot(u, v, n), (if k < n then u[k] * v[k] else 0) + (if l < n then u[l] * v[l] else 0))
  {
    hide Multiple;
    if n == 0 {
      CongRefl(p, 0);
    } else {
      DotTwo(p, u, v, n - 1, k, l);
      var d, x := Dot(u, v, n - 1), u[n - 1] * v[n - 1];
      var y := (if k < n - 1 then u[k] * v[k] else 0) + (if l < n - 1 then u[l] * v[l] else 0);
      if n - 1 == k || n - 1 == l {
        Combine(p, (d + x) - (y + x), 1, d - y, 0, d - y);
      } else {
        Combine(p, (d + x) - y, 1, d - y, 1, x);
      }
    }
  }

  lemma KernelVectorInKernel(p: Prime, rows: Mat, pivots: seq<nat>, n: nat, f: nat, v: Vec)
    requires IsRref(p, rows, pivots, n) && f < n && f !in pivots && IsKernelVector(p, rows, pivots, n, f, v)
    ensures v in Kernel(p, rows, n)
  {
    forall k | 0 <= k < |rows|
      ensures Cong(p, Dot(rows[k], v, n), 0)
    {
      var l := pivots[k];
      assert l in pivots;
      forall j | 0 <= j < n && j != l && j != f
        ensures Multiple(rows[k][j] * v[j], p)
      {
        KernelTerm(p, rows, pivots, n, f, v, k, j);
      }
      DotTwo(p, rows[k], v, n, l, f);
      KernelSum(p, Dot(rows[k], v, n), v[l], rows[k][f]);
    }
  }

  lemma KernelTerm(p: Prime, rows: Mat, pivots: seq<nat>, n: nat, f: nat, v: Vec, k: nat, j: nat)
    requires IsRref(p, rows, pivots, n) && f < n && IsKernelVector(p, rows, pivots, n, f, v)
    requires k < |rows| && j < n && j != pivots[k] && j != f
    ensures Multiple(rows[k][j] * v[j], p)
  {
    CongRefl(p, 0);
    if j in pivots {
      var i :| 0 <= i < |pivots| && pivots[i] == j;
      assert rows[k][j] == 0;
    }
    assert rows[k][j] * v[j] == 0;
  }

  lemma KernelSum(p: Prime, d: int, x: int, r: int)
    requires Cong(p, d, 1 * x + r * 1) && Cong(p, x, -r)
    ensures Cong(p, d, 0)
  {
    Combine(p, d - 0, 1, d - (1 * x + r * 1), 1, x - (-r));
  }

  /** A kernel vector that is zero in every free column is zero. */
  lemma FreeDetermines(p: Prime, rows: Mat, pivots: seq<nat>, n: nat, w: Vec)
    requires IsRref(p, rows, pivots, n) && w in Kernel(p, rows, n)
    requires forall c | 0 <= c < n && c !in pivots :: Cong(p, w[c], 0)
    ensures VCong(p, w, Zeros(n))
  {
    forall c | 0 <= c < n
      ensures Cong(p, w[c], 0)
    {
      if c in pivots {
        var k :| 0 <= k < |pivots| && pivots[k] == c;
        forall j | 0 <= j < n && j != c
          ensures Multiple(rows[k][j] * w[j], p)
        {
          if j in pivots {
            var i :| 0 <= i < |pivots| && pivots[i] == j;
            assert rows[k][j] == 0;
            LeadTerm(p, w[j], rows[k][j], false);
          } else {
            LeadTerm(p, w[j], rows[k][j], true);
          }
          assert rows[k][j] * w[j] == w[j] * rows[k][j];
        }
        PivotEntry(p, rows[k], w, n, c);
      }
    }
  }

  lemma PivotEntry(p: Prime, row: Vec, w: Vec, n: nat, c: nat)
    requires |row| == |w| == n && c < n && row[c] == 1 && Cong(p, Dot(row, w, n), 0)
    requires forall j | 0 <= j < n && j != c :: Multiple(row[j] * w[j], p)
    ensures Cong(p, w[c], 0)
  {
    hide Multiple;
    DotOne(p, row, w, n, c);
    assert row[c] * w[c] == w[c];
    CongSym(p, Dot(row, w, n), w[c]);
    CongTrans(p, w[c], Dot(row, w, n), 0);
  }

  ghost predicate KernelBasis(p: Prime, rows: Mat, pivots: seq<nat>, n: nat, free: seq<nat>, b: Mat)
    requires Rect(rows, n) && |rows| == |pivots|
  {
    && |b| == |free|
    && (forall l | 0 <= l < |free| :: free[l] < n && IsKernelVector(p, rows, pivots, n, free[l], b[l]))
  }

  ghost predicate IsFree(free: seq<nat>, pivots: seq<nat>, n: nat) {
    Increasing(free) && forall c: nat :: c in free <==> c < n && c !in pivots
  }

  lemma KernelBasisUnit(p: Prime, rows: Mat, pivots: seq<nat>, n: nat, free: seq<nat>, b: Mat)
    requires IsRref(p, rows, pivots, n) && IsFree(free, pivots, n) && KernelBasis(p, rows, pivots, n, free, b)
    ensures UnitCols(b, free, n) && CanonMat(p, b, n)
  {
    forall i, k | 0 <= i < |b| && 0 <= k < |free|
      ensures b[i][free[k]] == if i == k then 1 else 0
    {
      assert free[k] in free;
    }
  }

  /** The vectors built from the free columns span the kernel of the echelon form. */
  lemma KernelBasisSpans(p: Prime, rows: Mat, pivots: seq<nat>, n: nat, free: seq<nat>, b: Mat)
    requires IsRref(p, rows, pivots, n) && IsFree(free, pivots, n) && KernelBasis(p, rows, pivots, n, free, b)
    ensures Rect(b, n) && Span(p, b, n) == Kernel(p, rows, n)
  {
    KernelBasisUnit(p, rows, pivots, n, free, b);
    KernelIsSubspace(p, rows, n);
    forall l | 0 <= l < |b|
      ensures b[l] in Kernel(p, rows, n)
    {
      assert free[l] in free;
      KernelVectorInKernel(p, rows, pivots, n, free[l], b[l]);
    }
    SpanMinimal(p, b, n, Kernel(p, rows, n));
    forall v | v in Kernel(p, rows, n)
      ensures v in Span(p, b, n)
    {
      KernelVectorSpanned(p, rows, pivots, n, free, b, v);
    }
  }

  lemma KernelVectorSpanned(p: Prime, rows: Mat, pivots: seq<nat>, n: nat, free: seq<nat>, b: Mat, v: Vec)
    requires IsRref(p, rows, pivots, n) && IsFree(free, pivots, n) && UnitCols(b, free, n)
    requires Span(p, b, n) <= Kernel(p, rows, n) && v in Kernel(p, rows, n)
    ensures v in Span(p, b, n)
  {
    var a := At(v, free);
    var z := Comb(a, b, n, |b|);
    VCongRefl(p, z);
    InSpanByCoefficients(p, b, n, a, z);
    var w := seq(n, j requires 0 <= j < n => v[j] + (-1) * z[j]);
    ExactAxpy(p, v, -1, z, w);
    KernelAxpy(p, rows, n, v, -1, z, w);
    forall c | 0 <= c < n && c !in pivots
      ensures Cong(p, w[c], 0)
    {
      assert c in free;
      var k :| 0 <= k < |free| && free[k] == c;
      UnitDifference(p, b, free, n, v, k);
    }
    hide Cong, InSpan, UnitCols, Kernel, IsAxpy;
    FreeDetermines(p, rows, pivots, n, w);
    DifferenceZero(p, v, z, w);
    InSpanByCoefficients(p, b, n, a, v);
  }

  lemma UnitDifference(p: Prime, b: Mat, cols: seq<nat>, n: nat, v: Vec, k: nat)
    requires UnitCols(b, cols, n) && |v| == n && k < |b|
    ensures Cong(p, v[cols[k]] + (-1) * Comb(At(v, cols), b, n, |b|)[cols[k]], 0)
  {
    var x, y := v[cols[k]], Comb(At(v, cols), b, n, |b|)[cols[k]];
    UnitCoefficient(p, b, cols, n, At(v, cols), k);
    Combine(p, (x + (-1) * y) - 0, -1, y - x, 0, y - x);
  }

  lemma DifferenceZero(p: Prime, v: Vec, z: Vec, w: Vec)
    requires |v| == |z| == |w| && (forall j | 0 <= j < |w| :: w[j] == v[j] + (-1) * z[j]) && VCong(p, w, Zeros(|w|))
    ensures VCong(p, v, z)
  {
    hide Multiple;
    forall j | 0 <= j < |v|
      ensures Cong(p, v[j], z[j])
    {
      assert Cong(p, w[j], Zeros(|w|)[j]);
      Combine(p, v[j] - z[j], 1, w[j] - 0, 0, w[j] - 0);
    }
  }

  /** b + rank = n, for a canonical basis of the row space with no more rows than m. */
  ghost predicate RankNullity(p: Prime, m: Mat, n: nat, b: nat)
    requires Rect(m, n)
  {
    exists r: Mat {:trigger Canonical(p, r, n)} ::
      Canonical(p, r, n) && Span(p, r, n) == Span(p, m, n) && |r| <= |m| && b + |r| == n
  }

  method RightKernel(p: Prime, m: Mat, width: nat) returns (basis: Mat)
    requires CanonMat(p, m, width)
    ensures CanonMat(p, basis, width) && Canonical(p, basis, width)
    ensures Span(p, basis, width) == Kernel(p, m, width)
    ensures RankNullity(p, m, width, |basis|)
  {
    if |m| == 0 {
      assert m == [];
      IdentityCanonical(p, width);
      EmptyKernel(p, width);
      return Identity(width);
    }
    var rows, pivots := Rref(p, m, width);
    assert Canonical(p, rows, width);
    KernelOfSpan(p, m, rows, width);
    KernelOfSpan(p, rows, m, width);
    var free := FreeColumns(pivots, width);
    var vectors := [];
    for l := 0 to |free|
      invariant |vectors| == l
      invariant forall k | 0 <= k < l :: free[k] in free && IsKernelVector(p, rows, pivots, width, free[k], vectors[k])
    {
      assert free[l] in free;
      var v := KernelVector(p, rows, pivots, width, free[l]);
      vectors := vectors + [v];
    }
    KernelBasisSpans(p, rows, pivots, width, free, vectors);
    KernelBasisUnit(p, rows, pivots, width, free, vectors);
    basis := SpanBasis(p, vectors, width);
    DimensionInvariant(p, vectors, free, basis, width);
  }

  lemma EmptyKernel(p: Prime, n: nat)
    ensures Span(p, Identity(n), n) == Kernel(p, [], n) && RankNullity(p, [], n, n)
  {
    hide InSpan;
    EmptyCanonical(p, n);
    var none: Mat := [];
    assert Canonical(p, none, n);
    IdentitySpan(p, n);
    KernelOfNothing(p, n);
  }

  lemma IdentitySpan(p: Prime, n: nat)
    ensures Span(p, Identity(n), n) == Everything(n)
  {
    hide InSpan, Identity;
    IdentitySpansAll(p, n);
    SpanLength(p, Identity(n), n);
  }

  lemma KernelOfNothing(p: Prime, n: nat)
    ensures Kernel(p, [], n) == Everything(n)
  {
  }

  // ----- Intersection -----

  /** The matrix whose kernel holds the pairs (x, y) with x*a = y*b: row c is column c of a, then of -b. */
  ghost predicate IsPairMatrix(p: Prime, a: Mat, b: Mat, t: nat, rows: Mat)
    requires Rect(a, t) && Rect(b, t)
  {
    && |rows| == t && CanonMat(p, rows, |a| + |b|)
    && (forall c, i | 0 <= c < t && 0 <= i < |a| :: rows[c][i] == a[i][c])
    && (forall c, i | 0 <= c < t && 0 <= i < |b| :: Cong(p, rows[c][|a| + i], -b[i][c]))
  }

  method PairMatrixRow(p: Prime, a: Mat, b: Mat, t: nat, col: nat) returns (row: Vec)
    requires CanonMat(p, a, t) && CanonMat(p, b, t) && col < t
    ensures |row| == |a| + |b| && Canon(p, row)
    ensures forall i | 0 <= i < |a| :: row[i] == a[i][col]
    ensures forall i | 0 <= i < |b| :: Cong(p, row[|a| + i], -b[i][col])
  {
    hide Cong, Multiple;
    row := [];
    for i := 0 to |a|
      invariant |row| == i && Canon(p, row) && forall k | 0 <= k < i :: row[k] == a[k][col]
    {
      row := row + [a[i][col]];
    }
    for i := 0 to |b|
      invariant |row| == |a| + i && Canon(p, row) && forall k | 0 <= k < |a| :: row[k] == a[k][col]
      invariant forall k | 0 <= k < i :: Cong(p, row[|a| + k], -b[k][col])
    {
      row := row + [Mod(p, -b[i][col])];
    }
  }

  method PairMatrix(p: Prime, a: Mat, b: Mat, t: nat) returns (rows: Mat)
    requires CanonMat(p, a, t) && CanonMat(p, b, t)
    ensures CanonMat(p, rows, |a| + |b|) && IsPairMatrix(p, a, b, t, rows)
  {
    hide Cong, Multiple;
    rows := [];
    for col := 0 to t
      invariant |rows| == col && CanonMat(p, rows, |a| + |b|)
      invariant forall c, i | 0 <= c < col && 0 <= i < |a| :: rows[c][i] == a[i][c]
      invariant forall c, i | 0 <= c < col && 0 <= i < |b| :: Cong(p, rows[c][|a| + i], -b[i][c])
    {
      var row := PairMatrixRow(p, a, b, t, col);
      rows := rows + [row];
    }
  }

  /** The combination of the rows of a with the leading coefficients of sol, reduced modulo p. */
  method Recombine(p: Prime, a: Mat, sol: Vec, t: nat) returns (v: Vec)
    requires CanonMat(p, a, t) && |a| <= |sol|
    ensures |v| == t && Canon(p, v) && VCong(p, v, Comb(sol, a, t, |a|))
  {
    hide Cong, Multiple;
    v := seq(t, _ => 0);
    VCongRefl(p, v);
    for i := 0 to |a|
      invariant |v| == t && Canon(p, v) && VCong(p, v, Comb(sol, a, t, i))
    {
      if sol[i] != 0 {
        var w := v;
        for c := 0 to t
          invariant |v| == t && Canon(p, v)
          invariant forall k | c <= k < t :: v[k] == w[k]
          invariant forall k | 0 <= k < c :: Cong(p, v[k], w[k] + sol[i] * a[i][k])
        {
          v := v[c := Mod(p, v[c] + sol[i] * a[i][c])];
        }
        RecombineStep(p, a, sol, t, i, w, v);
      } else {
        forall c | 0 <= c < t
          ensures Cong(p, v[c], v[c] + sol[i] * a[i][c])
        {
          CongRefl(p, v[c]);
        }
        RecombineStep(p, a, sol, t, i, v, v);
      }
    }
  }

  lemma RecombineStep(p: Prime, a: Mat, sol: Vec, t: nat, i: nat, w: Vec, v: Vec)
    requires Rect(a, t) && i < |a| <= |sol| && VCong(p, w, Comb(sol, a, t, i)) && IsAxpy(p, w, sol[i], a[i], v)
    ensures VCong(p, v, Comb(sol, a, t, i + 1))
  {
    var u, z := Comb(sol, a, t, i), Comb(sol, a, t, i + 1);
    VCongRefl(p, a[i]);
    ExactAxpy(p, u, sol[i], a[i], z);
    AxpyCong(p, w, u, sol[i], a[i], a[i], v, z);
  }

  /** A pair (x, y) is in the kernel exactly when x*a and y*b agree modulo p. */
  lemma PairKernel(p: Prime, a: Mat, b: Mat, t: nat, n: nat, rows: Mat, x: Vec, y: Vec)
    requires n == |a| + |b| && Rect(a, t) && Rect(b, t) && IsPairMatrix(p, a, b, t, rows) && |x| == |a| && |y| == |b|
    ensures x + y in Kernel(p, rows, n) <==> VCong(p, Comb(x, a, t, |a|), Comb(y, b, t, |b|))
  {
    var s, u, v := x + y, Comb(x, a, t, |a|), Comb(y, b, t, |b|);
    var z := Apply(rows, s);
    hide Multiple, Cong, IsPairMatrix;
    forall c | 0 <= c < t
      ensures Cong(p, z[c], 0) <==> Cong(p, u[c], v[c])
    {
      var e := PairRow(p, a, b, t, rows, x, y, c);
      ZeroDifference(p, z[c], e, u[c], v[c]);
    }
    assert VCong(p, z, Zeros(t)) <==> VCong(p, u, v);
  }

  lemma ZeroDifference(p: Prime, d: int, e: int, x: int, y: int)
    requires Cong(p, d, e) && e == x - y
    ensures Cong(p, d, 0) <==> Cong(p, x, y)
  {
    if Cong(p, d, 0) {
      Combine(p, x - y, 1, d - 0, -1, d - e);
    }
    if Cong(p, x, y) {
      Combine(p, d - 0, 1, d - e, 1, x - y);
    }
  }

  lemma PairRow(p: Prime, a: Mat, b: Mat, t: nat, rows: Mat, x: Vec, y: Vec, c: nat) returns (d: int)
    requires Rect(a, t) && Rect(b, t) && IsPairMatrix(p, a, b, t, rows) && |x| == |a| && |y| == |b| && c < t
    ensures Cong(p, Dot(rows[c], x + y, |a| + |b|), d)
    ensures d == Dot(x, Col(a, c), |a|) - Dot(y, Col(b, c), |b|)
  {
    hide *;
    var ca, right, cb := PairSlices(p, a, b, t, rows, c);
    d := Dot(x, ca, |x|) - Dot(y, cb, |y|);
    PairDot(p, ca, x, right, y, cb);
  }

  lemma PairSlices(p: Prime, a: Mat, b: Mat, t: nat, rows: Mat, c: nat) returns (ca: Vec, right: Vec, cb: Vec)
    requires Rect(a, t) && Rect(b, t) && IsPairMatrix(p, a, b, t, rows) && c < t
    ensures ca == Col(a, c) && cb == Col(b, c) && |ca| == |a| && |right| == |cb| == |b| && rows[c] == ca + right
    ensures forall i | 0 <= i < |right| :: Cong(p, right[i], -cb[i])
  {
    ca, cb := Col(a, c), Col(b, c);
    right := rows[c][|a|..];
    assert rows[c][..|a|] == ca;
    forall i | 0 <= i < |b|
      ensures Cong(p, right[i], -cb[i])
    {
      assert right[i] == rows[c][|a| + i];
    }
  }

  lemma PairDot(p: Prime, left: Vec, x: Vec, right: Vec, y: Vec, cb: Vec)
    requires |left| == |x| && |right| == |y| == |cb|
    requires forall i | 0 <= i < |right| :: Cong(p, right[i], -cb[i])
    ensures Cong(p, Dot(left + right, x + y, |left| + |right|), Dot(x, left, |x|) - Dot(y, cb, |y|))
  {
    hide Multiple, Cong;
    DotSplit(left, x, right, y, left + right, x + y, |right|);
    DotComm(left, x, |x|);
    DotNegated(p, right, cb, y, |y|);
    var l, r, s := Dot(left, x, |x|), Dot(right, y, |y|), Dot(y, cb, |y|);
    CongRefl(p, l);
    CongAxpy(p, l, l, 1, r, -s);
  }

  lemma {:induction false} DotNegated(p: Prime, u: Vec, v: Vec, w: Vec, n: nat)
    requires n <= |u| && n <= |v| && n <= |w| && forall i | 0 <= i < n :: Cong(p, u[i], -v[i])
    ensures Cong(p, Dot(u, w, n), -Dot(w, v, n))
  {
    hide Multiple;
    if n == 0 {
      CongRefl(p, 0);
    } else {
      DotNegated(p, u, v, w, n - 1);
      NegatedTerm(p, Dot(u, w, n - 1), Dot(w, v, n - 1), u[n - 1], v[n - 1], w[n - 1]);
    }
  }

  lemma NegatedTerm(p: Prime, d: int, e: int, x: int, y: int, w: int)
    requires Cong(p, d, -e) && Cong(p, x, -y)
    ensures Cong(p, d + x * w, -(e + w * y))
  {
    Combine(p, (d + x * w) - (-(e + w * y)), 1, d - (-e), w, x - (-y));
  }

  method RecombineAll(p: Prime, a: Mat, kernel: Mat, ghost n: nat, t: nat) returns (vectors: Mat)
    requires CanonMat(p, a, t) && CanonMat(p, kernel, n) && |a| <= n
    ensures |vectors| == |kernel| && CanonMat(p, vectors, t)
    ensures forall i | 0 <= i < |kernel| :: VCong(p, vectors[i], Comb(kernel[i], a, t, |a|))
  {
    vectors := [];
    for k := 0 to |kernel|
      invariant |vectors| == k && CanonMat(p, vectors, t)
      invariant forall i | 0 <= i < k :: VCong(p, vectors[i], Comb(kernel[i], a, t, |a|))
    {
      var v := Recombine(p, a, kernel[k], t);
      vectors := vectors + [v];
    }
  }

  method SpanIntersect(p: Prime, a: Mat, b: Mat, t: nat) returns (r: Mat)
    requires CanonMat(p, a, t) && CanonMat(p, b, t)
    ensures Canonical(p, r, t) && Span(p, r, t) == Span(p, a, t) * Span(p, b, t)
  {
    if |a| == 0 || |b| == 0 {
      EmptyCanonical(p, t);
      EmptyIntersection(p, a, b, t);
      return [];
    }
    var rows := PairMatrix(p, a, b, t);
    hide IsPairMatrix, InSpan, Canonical, Kernel, RankNullity, VCong;
    var n := |a| + |b|;
    var kernel := RightKernel(p, rows, n);
    var vectors := RecombineAll(p, a, kernel, n, t);
    IntersectionSpanned(p, a, b, t, n, rows, kernel, vectors);
    r := SpanBasis(p, vectors, t);
  }

  lemma IntersectionSpanned(p: Prime, a: Mat, b: Mat, t: nat, n: nat, rows: Mat, kernel: Mat, vectors: Mat)
    requires n == |a| + |b| && Rect(a, t) && Rect(b, t) && IsPairMatrix(p, a, b, t, rows) && Rect(vectors, t)
    requires Rect(kernel, n) && Span(p, kernel, n) == Kernel(p, rows, n)
    requires |vectors| == |kernel|
    requires forall i | 0 <= i < |kernel| :: VCong(p, vectors[i], Comb(kernel[i], a, t, |a|))
    ensures Span(p, vectors, t) == Span(p, a, t) * Span(p, b, t)
  {
    hide InSpan, IsPairMatrix;
    IntersectionWithin(p, a, b, t, n, rows, kernel, vectors);
    IntersectionCovered(p, a, b, t, n, rows, kernel, vectors);
  }

  lemma EmptyIntersection(p: Prime, a: Mat, b: Mat, t: nat)
    requires Rect(a, t) && Rect(b, t) && (|a| == 0 || |b| == 0)
    ensures Span(p, [], t) == Span(p, a, t) * Span(p, b, t)
  {
    SpanIsSubspace(p, a, t);
    SpanIsSubspace(p, b, t);
    SpanMinimal(p, [], t, Span(p, a, t));
    SpanMinimal(p, [], t, Span(p, b, t));
    assert a == [] || b == [];
  }

  lemma SplitPair(a: Mat, t: nat, sol: Vec, x: Vec)
    requires Rect(a, t) && |a| <= |sol| && x == sol[..|a|]
    ensures Comb(sol, a, t, |a|) == Comb(x, a, t, |a|)
  {
    forall c | 0 <= c < t
      ensures Dot(sol, Col(a, c), |a|) == Dot(x, Col(a, c), |a|)
    {
      DotPrefix(sol, Col(a, c), x, Col(a, c), |a|);
    }
  }

  lemma IntersectionWithin(p: Prime, a: Mat, b: Mat, t: nat, n: nat, rows: Mat, kernel: Mat, vectors: Mat)
    requires n == |a| + |b| && Rect(a, t) && Rect(b, t) && IsPairMatrix(p, a, b, t, rows) && Rect(vectors, t)
    requires Rect(kernel, n) && Span(p, kernel, n) == Kernel(p, rows, n)
    requires |vectors| == |kernel|
    requires forall i | 0 <= i < |kernel| :: VCong(p, vectors[i], Comb(kernel[i], a, t, |a|))
    ensures Span(p, vectors, t) <= Span(p, a, t) * Span(p, b, t)
  {
    forall i | 0 <= i < |vectors|
      ensures vectors[i] in Span(p, a, t) && vectors[i] in Span(p, b, t)
    {
      var sol := kernel[i];
      var x, y := sol[..|a|], sol[|a|..];
      assert sol == x + y;
      SplitPair(a, t, sol, x);
      RowInSpan(p, kernel, |a| + |b|, i);
      PairKernel(p, a, b, t, n, rows, x, y);
      hide VCong, InSpan;
      InSpanByCoefficients(p, a, t, x, vectors[i]);
      VCongTrans(p, vectors[i], Comb(x, a, t, |a|), Comb(y, b, t, |b|));
      InSpanByCoefficients(p, b, t, y, vectors[i]);
    }
    SpanSubset(p, a, vectors, t);
    SpanSubset(p, b, vectors, t);
  }

  /** The map sol -> x*a as a matrix: column c of a, then zeros. */
  ghost function HalfMatrix(a: Mat, k: nat, t: nat): (m: Mat)
    requires Rect(a, t)
    ensures |m| == t && Rect(m, |a| + k)
    ensures forall c | 0 <= c < t :: m[c] == Col(a, c) + Zeros(k)
  {
    seq(t, c requires 0 <= c < t => Col(a, c) + Zeros(k))
  }

  lemma HalfMatrixApplies(a: Mat, k: nat, t: nat, sol: Vec)
    requires Rect(a, t) && |sol| == |a| + k
    ensures Apply(HalfMatrix(a, k, t), sol) == Comb(sol, a, t, |a|)
  {
    var x, y := sol[..|a|], sol[|a|..];
    assert sol == x + y;
    forall c | 0 <= c < t
      ensures Dot(HalfMatrix(a, k, t)[c], sol, |sol|) == Dot(sol, Col(a, c), |a|)
    {
      DotSplit(Col(a, c), x, Zeros(k), y, HalfMatrix(a, k, t)[c], sol, k);
      DotComm(Zeros(k), y, k);
      DotZero(y, Zeros(k), k);
      DotComm(Col(a, c), x, |a|);
      DotPrefix(x, Col(a, c), sol, Col(a, c), |a|);
    }
  }

  lemma IntersectionCovered(p: Prime, a: Mat, b: Mat, t: nat, n: nat, rows: Mat, kernel: Mat, vectors: Mat)
    requires n == |a| + |b| && Rect(a, t) && Rect(b, t) && IsPairMatrix(p, a, b, t, rows) && Rect(vectors, t)
    requires Rect(kernel, n) && Span(p, kernel, n) == Kernel(p, rows, n)
    requires |vectors| == |kernel|
    requires forall i | 0 <= i < |kernel| :: VCong(p, vectors[i], Comb(kernel[i], a, t, |a|))
    ensures Span(p, a, t) * Span(p, b, t) <= Span(p, vectors, t)
  {
    var h := HalfMatrix(a, |b|, t);
    ImagesOfKernel(p, a, |b|, t, n, kernel, vectors);
    forall v | v in Span(p, a, t) && v in Span(p, b, t)
      ensures v in Image(p, h, n, Kernel(p, rows, n))
    {
      IntersectionPreimage(p, a, b, t, n, rows, v);
    }
  }

  lemma ImagesOfKernel(p: Prime, a: Mat, k: nat, t: nat, n: nat, kernel: Mat, vectors: Mat)
    requires n == |a| + k && Rect(a, t) && Rect(vectors, t) && Rect(kernel, n) && |vectors| == |kernel|
    requires forall i | 0 <= i < |kernel| :: VCong(p, vectors[i], Comb(kernel[i], a, t, |a|))
    ensures Span(p, vectors, t) == Image(p, HalfMatrix(a, k, t), n, Span(p, kernel, n))
  {
    hide VCong, InSpan, InImage;
    forall i | 0 <= i < |kernel|
      ensures VCong(p, vectors[i], Apply(HalfMatrix(a, k, t), kernel[i]))
    {
      HalfMatrixApplies(a, k, t, kernel[i]);
    }
    ImageOfSpan(p, HalfMatrix(a, k, t), n, kernel, vectors);
  }

  lemma IntersectionPreimage(p: Prime, a: Mat, b: Mat, t: nat, n: nat, rows: Mat, v: Vec)
    requires n == |a| + |b| && Rect(a, t) && Rect(b, t) && IsPairMatrix(p, a, b, t, rows)
    requires v in Span(p, a, t) && v in Span(p, b, t)
    ensures v in Image(p, HalfMatrix(a, |b|, t), n, Kernel(p, rows, n))
  {
    var x: Vec :| |x| == |a| && VCong(p, v, Comb(x, a, t, |a|));
    var y: Vec :| |y| == |b| && VCong(p, v, Comb(y, b, t, |b|));
    var sol := x + y;
    VCongSym(p, v, Comb(x, a, t, |a|));
    VCongTrans(p, Comb(x, a, t, |a|), v, Comb(y, b, t, |b|));
    PairKernel(p, a, b, t, n, rows, x, y);
    HalfMatrixApplies(a, |b|, t, sol);
    SplitPair(a, t, sol, x);
  }
}
