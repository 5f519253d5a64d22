/** Matrix-security test 1: invariant and recurring subspaces of the partial rounds. */
module TrailTest {
  import opened PrimeField
  import opened Vectors
  import opened Echelon
  import opened RowReduction
  import opened Subspaces
  import opened Matrices
  import opened Krylov
  import opened InactiveSpace

  // ----- Eigenspaces -----

  ghost predicate IsEigenvector(p: Prime, m: Mat, t: nat, ev: int, v: Vec)
    requires Square(m, t) && |v| == t
  {
    IsAxpy(p, Zeros(t), ev, v, Apply(m, v))
  }

  ghost function EigenSet(p: Prime, m: Mat, t: nat, ev: int): iset<Vec>
    requires Square(m, t)
  {
    iset v: Vec | |v| == t && IsEigenvector(p, m, t, ev, v)
  }

  function Shifted(p: Prime, m: Mat, t: nat, ev: int): (s: Mat)
    requires Square(m, t) && CanonMat(p, m, t)
    ensures Square(s, t) && CanonMat(p, s, t)
  {
    seq(t, i requires 0 <= i < t => seq(t, j requires 0 <= j < t => if i == j then Mod(p, m[i][j] - ev) else m[i][j]))
  }

  lemma ShiftedRow(p: Prime, m: Mat, t: nat, ev: int, v: Vec, i: nat)
    requires Square(m, t) && CanonMat(p, m, t) && |v| == t && i < t
    ensures Cong(p, Dot(Shifted(p, m, t, ev)[i], v, t), Dot(m[i], v, t) + (-ev) * v[i])
  {
    var row, e := Shifted(p, m, t, ev)[i], Identity(t)[i];
    var z := seq(t, j requires 0 <= j < t => m[i][j] + (-ev) * e[j]);
    forall j | 0 <= j < t
      ensures Cong(p, row[j], z[j])
    {
      CongRefl(p, m[i][j]);
    }
    var d, x := Dot(m[i], v, t), Dot(e, v, t);
    hide Multiple, Cong;
    DotCong(p, row, z, v, t);
    DotLinear(m[i], -ev, e, z, v, t);
    UnitRowDot(p, t, v, i);
    CongRefl(p, d);
    CongAxpy(p, d, d, -ev, x, v[i]);
    CongTrans(p, Dot(row, v, t), d + (-ev) * x, d + (-ev) * v[i]);
  }

  lemma UnitRowDot(p: Prime, t: nat, v: Vec, i: nat)
    requires |v| == t && i < t
    ensures Cong(p, Dot(Identity(t)[i], v, t), v[i])
  {
    var e := Identity(t)[i];
    forall k | 0 <= k < t && k != i
      ensures Multiple(e[k] * v[k], p)
    {
      CongRefl(p, 0);
    }
    DotOne(p, e, v, t, i);
  }

  lemma ShiftedKernel(p: Prime, m: Mat, t: nat, ev: int, v: Vec)
    requires Square(m, t) && CanonMat(p, m, t) && |v| == t
    ensures v in Kernel(p, Shifted(p, m, t, ev), t) <==> v in EigenSet(p, m, t, ev)
  {
    var s := Shifted(p, m, t, ev);
    var y, z := Apply(m, v), Apply(s, v);
    forall i | 0 <= i < t
      ensures Cong(p, z[i], Zeros(t)[i]) <==> Cong(p, y[i], Zeros(t)[i] + ev * v[i])
    {
      ShiftedRow(p, m, t, ev, v, i);
      EigenEntry(p, z[i], y[i], ev, v[i]);
    }
    hide Cong;
    assert VCong(p, z, Zeros(t)) <==> IsAxpy(p, Zeros(t), ev, v, y);
  }

  lemma EigenEntry(p: Prime, z: int, y: int, ev: int, x: int)
    requires Cong(p, z, y + (-ev) * x)
    ensures Cong(p, z, 0) <==> Cong(p, y, 0 + ev * x)
  {
    if Cong(p, z, 0) {
      Combine(p, y - (0 + ev * x), 1, z - 0, -1, z - (y + (-ev) * x));
    }
    if Cong(p, y, 0 + ev * x) {
      Combine(p, z - 0, 1, z - (y + (-ev) * x), 1, y - (0 + ev * x));
    }
  }

  method Eigenspace(p: Prime, m: Mat, t: nat, ev: int) returns (es: Mat)
    requires Square(m, t) && CanonMat(p, m, t)
    ensures CanonMat(p, es, t) && Canonical(p, es, t) && Span(p, es, t) == EigenSet(p, m, t, ev)
  {
    es := RightKernel(p, Shifted(p, m, t, ev), t);
    EigenSetIsKernel(p, m, t, ev);
  }

  lemma EigenSetIsKernel(p: Prime, m: Mat, t: nat, ev: int)
    requires Square(m, t) && CanonMat(p, m, t)
    ensures Kernel(p, Shifted(p, m, t, ev), t) == EigenSet(p, m, t, ev)
  {
    var a, b := Kernel(p, Shifted(p, m, t, ev), t), EigenSet(p, m, t, ev);
    forall v: Vec {:trigger v in a} {:trigger v in b} | |v| == t
      ensures v in a <==> v in b
    {
      ShiftedKernel(p, m, t, ev, v);
    }
  }

  // ----- Nonzero vectors -----

  ghost predicate NonZero(p: Prime, v: Vec) {
    !VCong(p, v, Zeros(|v|))
  }

  /** A subspace holds a nonzero vector exactly when its canonical basis is not empty. */
  lemma EmptyIffTrivial(p: Prime, b: Mat, n: nat)
    requires Canonical(p, b, n)
    ensures |b| == 0 <==> !(exists v {:trigger v in Span(p, b, n)} :: v in Span(p, b, n) && NonZero(p, v))
  {
    if |b| == 0 {
      forall v {:trigger v in Span(p, b, n)} | v in Span(p, b, n)
        ensures !NonZero(p, v)
      {
        EmptySpanZero(p, b, n, v);
      }
    } else {
      var pivots: seq<nat> :| IsRref(p, b, pivots, n);
      PivotLeads(p, b, pivots, n, 0);
      RowInSpan(p, b, n, 0);
      assert !Cong(p, b[0][pivots[0]], Zeros(n)[pivots[0]]);
      assert b[0] in Span(p, b, n) && NonZero(p, b[0]);
    }
  }

  lemma EmptySpanZero(p: Prime, b: Mat, n: nat, v: Vec)
    requires |b| == 0 && v in Span(p, b, n)
    ensures VCong(p, v, Zeros(|v|))
  {
    var c: Vec :| |c| == |b| && VCong(p, v, Comb(c, b, n, |b|));
    assert Comb(c, b, n, 0) == Zeros(n);
  }

  // ----- The three conditions -----

  /** a is a multiple of the identity. */
  ghost predicate IsScalar(a: Mat, t: nat)
    requires Square(a, t) && t > 0
  {
    forall r, c | 0 <= r < t && 0 <= c < t :: a[r][c] == if r == c then a[0][0] else 0
  }

  /** Some nonzero vector of the i-round inactive space is an eigenvector of m^i for a listed eigenvalue. */
  ghost predicate HasInactiveEigenvector(p: Prime, m: Mat, t: nat, i: nat, eigs: seq<int>)
    requires Square(m, t) && t > 0
  {
    exists k | 0 <= k < |eigs| :: MeetsEigenspace(p, m, t, i, eigs[k])
  }

  ghost predicate MeetsEigenspace(p: Prime, m: Mat, t: nat, i: nat, ev: int)
    requires Square(m, t) && t > 0
  {
    var s := Inactive(p, m, t, i) * EigenSet(p, Power(p, m, t, i), t, ev);
    exists v {:trigger v in s} :: v in s && NonZero(p, v)
  }

  /** m^j maps the i-round inactive space onto itself. */
  ghost predicate FixedBy(p: Prime, m: Mat, t: nat, i: nat, j: nat)
    requires Square(m, t) && t > 0
  {
    Image(p, Power(p, m, t, j), t, Inactive(p, m, t, i)) == Inactive(p, m, t, i)
  }

  /** j is the first power, from 1 up to i, that does so. */
  ghost predicate FirstFixed(p: Prime, m: Mat, t: nat, i: nat, j: nat)
    requires Square(m, t) && t > 0
  {
    && 1 <= j <= i && FixedBy(p, m, t, i, j)
    && forall k: nat {:trigger FixedBy(p, m, t, i, k)} | 1 <= k < j :: !FixedBy(p, m, t, i, k)
  }

  ghost predicate RoundSecure(p: Prime, m: Mat, t: nat, i: nat, eigs: seq<int>)
    requires Square(m, t) && t > 0
  {
    && !IsScalar(Power(p, m, t, i), t)
    && !HasInactiveEigenvector(p, m, t, i, eigs)
    && forall j: nat {:trigger FixedBy(p, m, t, i, j)} | 1 <= j <= i :: !FixedBy(p, m, t, i, j)
  }

  method ScalarTest(a: Mat, t: nat) returns (b: bool)
    requires Square(a, t) && t > 0
    ensures b <==> IsScalar(a, t)
  {
    var scalar := a[0][0];
    var target := seq(t, r requires 0 <= r < t => seq(t, c requires 0 <= c < t => if r == c then scalar else 0));
    b := MatEq(a, target);
  }

  method MeetOne(p: Prime, ghost m: Mat, t: nat, ghost i: nat, power: Mat, s: Mat, ev: int) returns (meet: Mat)
    requires Square(m, t) && t > 0 && power == Power(p, m, t, i) && CanonMat(p, power, t)
    requires CanonMat(p, s, t) && Span(p, s, t) == Inactive(p, m, t, i)
    ensures CanonMat(p, meet, t) && forall r | 0 <= r < |meet| :: meet[r] in Inactive(p, m, t, i)
    ensures |meet| > 0 <==> MeetsEigenspace(p, m, t, i, ev)
    ensures |meet| > 0 ==> SomeNonZero(p, meet)
  {
    var es := Eigenspace(p, power, t, ev);
    meet := SpanIntersect(p, s, es, t);
    MeetRows(p, m, t, i, ev, meet);
  }

  ghost predicate SomeNonZero(p: Prime, a: Mat) {
    exists r | 0 <= r < |a| :: NonZero(p, a[r])
  }

  /** The bases of the inactive space's intersections with the listed eigenspaces, one after the other. */
  method IntersectionBasis(p: Prime, ghost m: Mat, t: nat, ghost i: nat, power: Mat, s: Mat, eigs: seq<int>)
    returns (acc: Mat)
    requires Square(m, t) && t > 0 && power == Power(p, m, t, i) && CanonMat(p, power, t)
    requires CanonMat(p, s, t) && Span(p, s, t) == Inactive(p, m, t, i)
    ensures CanonMat(p, acc, t) && forall r | 0 <= r < |acc| :: acc[r] in Inactive(p, m, t, i)
    ensures |acc| > 0 <==> HasInactiveEigenvector(p, m, t, i, eigs)
    ensures |acc| > 0 ==> SomeNonZero(p, acc)
  {
    hide Inactive, MeetsEigenspace, SomeNonZero, Power, Canon, Span, Square;
    acc := [];
    for k := 0 to |eigs|
      invariant CanonMat(p, acc, t) && forall r | 0 <= r < |acc| :: acc[r] in Inactive(p, m, t, i)
      invariant |acc| > 0 <==> exists l | 0 <= l < k :: MeetsEigenspace(p, m, t, i, eigs[l])
      invariant |acc| > 0 ==> SomeNonZero(p, acc)
    {
      var meet := MeetOne(p, m, t, i, power, s, eigs[k]);
      JoinRows(p, t, acc, meet);
      acc := acc + meet;
    }
  }

  lemma JoinRows(p: Prime, t: nat, a: Mat, b: Mat)
    requires CanonMat(p, a, t) && CanonMat(p, b, t)
    ensures CanonMat(p, a + b, t)
    ensures SomeNonZero(p, a) || SomeNonZero(p, b) ==> SomeNonZero(p, a + b)
  {
    var c := a + b;
    if SomeNonZero(p, a) {
      var r :| 0 <= r < |a| && NonZero(p, a[r]);
      assert NonZero(p, c[r]);
    }
    if SomeNonZero(p, b) {
      var r :| 0 <= r < |b| && NonZero(p, b[r]);
      assert NonZero(p, c[|a| + r]);
    }
  }

  lemma MeetRows(p: Prime, m: Mat, t: nat, i: nat, ev: int, meet: Mat)
    requires Square(m, t) && t > 0 && Canonical(p, meet, t)
    requires Span(p, meet, t) == Inactive(p, m, t, i) * EigenSet(p, Power(p, m, t, i), t, ev)
    ensures CanonMat(p, meet, t) && forall r | 0 <= r < |meet| :: meet[r] in Inactive(p, m, t, i)
    ensures |meet| > 0 <==> MeetsEigenspace(p, m, t, i, ev)
    ensures |meet| > 0 ==> SomeNonZero(p, meet)
  {
    forall r | 0 <= r < |meet|
      ensures meet[r] in Inactive(p, m, t, i)
    {
      RowInSpan(p, meet, t, r);
    }
    EmptyIffTrivial(p, meet, t);
    hide Inactive, EigenSet, InSpan;
    if |meet| > 0 {
      FirstRowNonZero(p, meet, t);
    }
  }

  lemma FirstRowNonZero(p: Prime, b: Mat, n: nat)
    requires Canonical(p, b, n) && |b| > 0
    ensures NonZero(p, b[0])
  {
    var pivots: seq<nat> :| IsRref(p, b, pivots, n);
    PivotLeads(p, b, pivots, n, 0);
    assert !Cong(p, b[0][pivots[0]], Zeros(n)[pivots[0]]);
  }

  /** The span of nonzero inactive vectors is neither trivial nor everything. */
  lemma ProperSpan(p: Prime, m: Mat, t: nat, i: nat, acc: Mat, basis: Mat)
    requires Square(m, t) && t > 0 && 1 <= i && CanonMat(p, acc, t) && Canonical(p, basis, t)
    requires Span(p, basis, t) == Span(p, acc, t)
    requires forall r | 0 <= r < |acc| :: acc[r] in Inactive(p, m, t, i)
    requires |acc| > 0 ==> SomeNonZero(p, acc)
    ensures |basis| != t && (|basis| >= 1 <==> |acc| > 0)
  {
    InactiveProper(p, m, t, i, acc, basis);
    if |acc| > 0 {
      var r :| 0 <= r < |acc| && NonZero(p, acc[r]);
      RowInSpan(p, acc, t, r);
      EmptyIffTrivial(p, basis, t);
      assert acc[r] in Span(p, basis, t);
    } else {
      assert acc == [];
      EmptyIffTrivial(p, basis, t);
      forall v {:trigger v in Span(p, basis, t)} | v in Span(p, basis, t)
        ensures !NonZero(p, v)
      {
        EmptySpanZero(p, acc, t, v);
      }
    }
  }

  lemma InactiveProper(p: Prime, m: Mat, t: nat, i: nat, acc: Mat, basis: Mat)
    requires Square(m, t) && t > 0 && 1 <= i && Rect(acc, t) && Canonical(p, basis, t)
    requires Span(p, basis, t) == Span(p, acc, t)
    requires forall r | 0 <= r < |acc| :: acc[r] in Inactive(p, m, t, i)
    ensures |basis| != t
  {
    FirstZeroIsSubspace(p, t);
    forall r | 0 <= r < |acc|
      ensures acc[r] in FirstZero(p, t)
    {
      assert Orbit(m, 0, acc[r]) == acc[r];
    }
    SpanMinimal(p, acc, t, FirstZero(p, t));
    FullDimension(p, basis, t);
    NotZero(p, 1);
    assert E0(t) !in FirstZero(p, t);
    assert E0(t) !in Span(p, basis, t);
  }

  ghost function FirstZero(p: Prime, t: nat): iset<Vec>
    requires t > 0
  {
    iset v: Vec | |v| == t && Cong(p, v[0], 0)
  }

  lemma FirstZeroIsSubspace(p: Prime, t: nat)
    requires t > 0
    ensures IsSubspace(p, t, FirstZero(p, t))
  {
    var s := FirstZero(p, t);
    CongRefl(p, 0);
    hide Multiple, Cong;
    forall u: Vec, k: int, v: Vec, z: Vec | u in s && v in s && IsAxpy(p, u, k, v, z)
      ensures z in s
    {
      AxpyZero(p, u[0], k, v[0], z[0]);
    }
  }

  lemma AxpyZero(p: Prime, u: int, k: int, v: int, z: int)
    requires Cong(p, u, 0) && Cong(p, v, 0) && Cong(p, z, u + k * v)
    ensures Cong(p, z, 0)
  {
    CongAxpy(p, u, 0, k, v, 0);
    CongTrans(p, z, u + k * v, 0);
  }

  datatype TrailVerdict =
    | Safe
    | PowerIsScalar(i: nat)
    | InvariantSubspace(i: nat)
    | FixedByPower(i: nat, j: nat)

  method IsFixed(p: Prime, m: Mat, t: nat, ghost i: nat, s: Mat, j: nat) returns (b: bool)
    requires Square(m, t) && CanonMat(p, m, t) && t > 0
    requires CanonMat(p, s, t) && Canonical(p, s, t) && Span(p, s, t) == Inactive(p, m, t, i)
    ensures b <==> FixedBy(p, m, t, i, j)
  {
    hide Inactive, InSpan;
    var power := MatPow(p, m, j);
    var image := SpanTimesMatrix(p, s, power, t);
    SpanEqDecides(p, s, image, t);
    b := SpanEq(s, image);
  }

  /** The first power j <= i that maps the i-round inactive space onto itself, or 0. */
  method FixedTest(p: Prime, m: Mat, t: nat, i: nat, s: Mat) returns (j: nat)
    requires Square(m, t) && CanonMat(p, m, t) && t > 0
    requires CanonMat(p, s, t) && Canonical(p, s, t) && Span(p, s, t) == Inactive(p, m, t, i)
    ensures j == 0 ==> forall k: nat {:trigger FixedBy(p, m, t, i, k)} | 1 <= k <= i :: !FixedBy(p, m, t, i, k)
    ensures j != 0 ==> 1 <= j <= i && FixedBy(p, m, t, i, j)
    ensures forall k: nat {:trigger FixedBy(p, m, t, i, k)} | 1 <= k < j :: !FixedBy(p, m, t, i, k)
  {
    hide FixedBy, Canonical, Inactive, Span, CanonMat, Square;
    for l := 1 to i + 1
      invariant forall k: nat {:trigger FixedBy(p, m, t, i, k)} | 1 <= k < l :: !FixedBy(p, m, t, i, k)
    {
      var fixed := IsFixed(p, m, t, i, s, l);
      if fixed {
        return l;
      }
    }
    return 0;
  }

  /** One round of the test; Safe when none of its three conditions rejects the matrix. */
  method RoundTest(p: Prime, m: Mat, t: nat, i: nat, eigs: seq<int>) returns (v: TrailVerdict)
    requires Square(m, t) && CanonMat(p, m, t) && 1 <= i < t
    ensures v.Safe? <==> RoundSecure(p, m, t, i, eigs)
    ensures v.PowerIsScalar? ==> v.i == i && IsScalar(Power(p, m, t, i), t)
    ensures v.InvariantSubspace? ==>
              v.i == i && !IsScalar(Power(p, m, t, i), t) && HasInactiveEigenvector(p, m, t, i, eigs)
    ensures v.FixedByPower? ==>
              && v.i == i && !IsScalar(Power(p, m, t, i), t) && !HasInactiveEigenvector(p, m, t, i, eigs)
              && FirstFixed(p, m, t, i, v.j)
  {
    hide Inactive, InSpan, HasInactiveEigenvector, FixedBy, IsScalar, SomeNonZero;
    var matTest := MatPow(p, m, i);
    PowerActs(p, m, t, i);
    ActsShape(p, t, matTest, m, i);
    var scalar := ScalarTest(matTest, t);
    if scalar {
      return PowerIsScalar(i);
    }
    var s := GenerateVectorspace(p, i, m, t);
    var acc := IntersectionBasis(p, m, t, i, matTest, s, eigs);
    var meet := SpanBasis(p, acc, t);
    ProperSpan(p, m, t, i, acc, meet);
    if |meet| >= 1 && |meet| != t {
      return InvariantSubspace(i);
    }
    var j := FixedTest(p, m, t, i, s);
    if j != 0 {
      return FixedByPower(i, j);
    }
    return Safe;
  }

  /** eigen(i) is the list of eigenvalues found for m^i. */
  method Algorithm1(p: Prime, m: Mat, t: nat, eigen: nat -> seq<int>) returns (v: TrailVerdict)
    requires Square(m, t) && CanonMat(p, m, t) && t > 0
    ensures v.Safe? <==> forall i: nat {:trigger eigen(i)} | 1 <= i < t :: RoundSecure(p, m, t, i, eigen(i))
    ensures v.PowerIsScalar? ==> 1 <= v.i < t && IsScalar(Power(p, m, t, v.i), t)
    ensures v.InvariantSubspace? ==>
              1 <= v.i < t && !IsScalar(Power(p, m, t, v.i), t) && HasInactiveEigenvector(p, m, t, v.i, eigen(v.i))
    ensures v.FixedByPower? ==>
              && 1 <= v.i < t && !IsScalar(Power(p, m, t, v.i), t) && !HasInactiveEigenvector(p, m, t, v.i, eigen(v.i))
              && FirstFixed(p, m, t, v.i, v.j)
    ensures !v.Safe? ==> forall i: nat {:trigger eigen(i)} | 1 <= i < v.i :: RoundSecure(p, m, t, i, eigen(i))
  {
    hide RoundSecure, IsScalar, HasInactiveEigenvector, FixedBy, FirstFixed, Power;
    for i := 1 to t
      invariant forall k: nat {:trigger eigen(k)} | 1 <= k < i :: RoundSecure(p, m, t, k, eigen(k))
    {
      v := RoundTest(p, m, t, i, eigen(i));
      if v != Safe {
        return;
      }
    }
    return Safe;
  }

  // ----- With a complete eigenvalue list -----

  /** Every eigenvalue of a in F_p is congruent to a listed one. */
  ghost predicate ListsEigenvalues(p: Prime, a: Mat, t: nat, eigs: seq<int>)
    requires Square(a, t)
  {
    forall ev: int, v: Vec {:trigger IsEigenvector(p, a, t, ev, v)} |
      |v| == t && NonZero(p, v) && IsEigenvector(p, a, t, ev, v) ::
      exists k | 0 <= k < |eigs| :: Cong(p, ev, eigs[k])
  }

  lemma EigenvectorCong(p: Prime, a: Mat, t: nat, ev: int, mu: int, v: Vec)
    requires Square(a, t) && |v| == t && Cong(p, ev, mu) && IsEigenvector(p, a, t, ev, v)
    ensures IsEigenvector(p, a, t, mu, v)
  {
    var z := Apply(a, v);
    hide Multiple;
    forall i | 0 <= i < t
      ensures Cong(p, z[i], Zeros(t)[i] + mu * v[i])
    {
      ScaledCong(p, z[i], ev, mu, v[i]);
    }
  }

  lemma ScaledCong(p: Prime, z: int, ev: int, mu: int, x: int)
    requires Cong(p, z, 0 + ev * x) && Cong(p, ev, mu)
    ensures Cong(p, z, 0 + mu * x)
  {
    assert x * (ev - mu) == ev * x - mu * x;
    Combine(p, z - (0 + mu * x), 1, z - (0 + ev * x), x, ev - mu);
  }

  /** Then the second condition is about all of F_p: no eigenvector of m^i for any eigenvalue is inactive. */
  lemma CompleteEigenvalues(p: Prime, m: Mat, t: nat, i: nat, eigs: seq<int>)
    requires Square(m, t) && t > 0 && ListsEigenvalues(p, Power(p, m, t, i), t, eigs)
    ensures HasInactiveEigenvector(p, m, t, i, eigs) <==>
            exists ev: int {:trigger MeetsEigenspace(p, m, t, i, ev)} :: MeetsEigenspace(p, m, t, i, ev)
  {
    hide IsEigenvector, Inactive, Cong, Power, NonZero;
    if ev: int :| MeetsEigenspace(p, m, t, i, ev) {
      var a := Power(p, m, t, i);
      var s := Inactive(p, m, t, i) * EigenSet(p, a, t, ev);
      var v: Vec :| v in s && NonZero(p, v);
      assert IsEigenvector(p, a, t, ev, v);
      var k :| 0 <= k < |eigs| && Cong(p, ev, eigs[k]);
      EigenvectorCong(p, a, t, ev, eigs[k], v);
      var s' := Inactive(p, m, t, i) * EigenSet(p, a, t, eigs[k]);
      assert v in s' && NonZero(p, v);
      assert MeetsEigenspace(p, m, t, i, eigs[k]);
    }
  }
}
