/** Matrix-security test 1: the subspaces that stay inactive through several rounds. */
module InactiveSpace {
  import opened PrimeField
  import opened Vectors
  import opened Echelon
  import opened RowReduction
  import opened Subspaces
  import opened Matrices
  import opened Krylov

  /** The vectors whose first coordinate stays zero under m^0, ..., m^(i-1). */
  ghost function Inactive(p: Prime, m: Mat, t: nat, i: nat): iset<Vec>
    requires Square(m, t) && t > 0
  {
    iset v: Vec | |v| == t && StaysInactive(p, m, t, i, v)
  }

  ghost predicate StaysInactive(p: Prime, m: Mat, t: nat, i: nat, v: Vec)
    requires Square(m, t) && t > 0 && |v| == t
  {
    forall k: nat {:trigger Orbit(m, k, v)} | k < i :: Cong(p, Orbit(m, k, v)[0], 0)
  }

  function Lift(w: Vec): (v: Vec)
    ensures |v| == |w| + 1
  {
    [0] + w
  }

  /** Row k holds row 0 of m^(k+1) without its first entry. */
  ghost predicate IsStacked(p: Prime, m: Mat, t: nat, rounds: nat, stacked: Mat)
    requires Square(m, t) && t > 0
  {
    && |stacked| == rounds && CanonMat(p, stacked, t - 1)
    && forall k | 0 <= k < rounds :: stacked[k] == Power(p, m, t, k + 1)[0][1..]
  }

  /** Row 0 of m^k, without its first entry, gives the first coordinate of m^k [0, w]. */
  lemma FirstCoordinate(p: Prime, m: Mat, t: nat, k: nat, w: Vec, v: Vec)
    requires Square(m, t) && CanonMat(p, m, t) && t > 0 && |w| == t - 1 && |v| == t
    requires v[1..] == w && Cong(p, v[0], 0)
    ensures Cong(p, Orbit(m, k, v)[0], Dot(Power(p, m, t, k)[0][1..], w, t - 1))
  {
    var a := Power(p, m, t, k);
    PowerActs(p, m, t, k);
    assert ActsOn(p, a, m, k, v);
    var x, y := Orbit(m, k, v)[0], Apply(a, v)[0];
    hide Multiple, Orbit, Power;
    CongSym(p, y, x);
    HeadDot(p, a[0], v, w, t - 1);
    CongTrans(p, x, y, Dot(a[0][1..], w, t - 1));
  }

  lemma HeadDot(p: Prime, row: Vec, v: Vec, w: Vec, n: nat)
    requires |row| == |v| == n + 1 && v[1..] == w && Cong(p, v[0], 0)
    ensures Cong(p, Dot(row, v, n + 1), Dot(row[1..], w, n))
  {
    hide Cong, Dot;
    assert row == [row[0]] + row[1..] && v == [v[0]] + w;
    DotSplit([row[0]], [v[0]], row[1..], w, row, v, n);
    DotSingle(row[0], v[0]);
    HeadTerm(p, row[0], v[0], Dot(row[1..], w, n), Dot(row, v, n + 1));
  }

  lemma HeadTerm(p: Prime, x: int, y: int, d: int, sum: int)
    requires sum == x * y + d && Cong(p, y, 0)
    ensures Cong(p, sum, d)
  {
    hide Multiple;
    Combine(p, sum - d, x, y - 0, 0, y - 0);
  }

  /** v stays inactive exactly when its first coordinate is zero and the rest is in the stacked kernel. */
  lemma InactiveIsKernel(p: Prime, m: Mat, t: nat, rounds: nat, stacked: Mat, v: Vec)
    requires Square(m, t) && CanonMat(p, m, t) && t > 0 && IsStacked(p, m, t, rounds, stacked) && |v| == t
    ensures v in Inactive(p, m, t, rounds + 1) <==> Cong(p, v[0], 0) && v[1..] in Kernel(p, stacked, t - 1)
  {
    if Cong(p, v[0], 0) {
      if v in Inactive(p, m, t, rounds + 1) {
        InactiveInKernel(p, m, t, rounds, stacked, v);
      }
      if v[1..] in Kernel(p, stacked, t - 1) {
        KernelInactive(p, m, t, rounds, stacked, v);
      }
    } else {
      assert Orbit(m, 0, v) == v;
    }
  }

  lemma StackedCoordinate(p: Prime, m: Mat, t: nat, rounds: nat, stacked: Mat, v: Vec, k: nat)
    requires Square(m, t) && CanonMat(p, m, t) && t > 0 && IsStacked(p, m, t, rounds, stacked) && |v| == t
    requires Cong(p, v[0], 0) && 1 <= k <= rounds
    ensures Cong(p, Orbit(m, k, v)[0], 0) <==> Cong(p, Apply(stacked, v[1..])[k - 1], 0)
  {
    FirstCoordinate(p, m, t, k, v[1..], v);
    var z := Apply(stacked, v[1..])[k - 1];
    hide *;
    SameZero(p, Orbit(m, k, v)[0], z);
  }

  lemma InactiveInKernel(p: Prime, m: Mat, t: nat, rounds: nat, stacked: Mat, v: Vec)
    requires Square(m, t) && CanonMat(p, m, t) && t > 0 && IsStacked(p, m, t, rounds, stacked) && |v| == t
    requires Cong(p, v[0], 0) && v in Inactive(p, m, t, rounds + 1)
    ensures v[1..] in Kernel(p, stacked, t - 1)
  {
    hide *;
    var w := v[1..];
    StackedShape(p, m, t, rounds, stacked);
    forall k | 0 <= k < rounds
      ensures Cong(p, Apply(stacked, w)[k], 0)
    {
      InactiveAt(p, m, t, rounds + 1, v, k + 1);
      StackedCoordinate(p, m, t, rounds, stacked, v, k + 1);
    }
    InKernel(p, stacked, t - 1, w);
  }

  lemma StackedShape(p: Prime, m: Mat, t: nat, rounds: nat, stacked: Mat)
    requires Square(m, t) && t > 0 && IsStacked(p, m, t, rounds, stacked)
    ensures |stacked| == rounds && Rect(stacked, t - 1)
  {
  }

  lemma InactiveAt(p: Prime, m: Mat, t: nat, i: nat, v: Vec, k: nat)
    requires Square(m, t) && t > 0 && v in Inactive(p, m, t, i) && k < i
    ensures |v| == t && Cong(p, Orbit(m, k, v)[0], 0)
  {
    hide Cong;
  }

  lemma InKernel(p: Prime, m: Mat, n: nat, v: Vec)
    requires Rect(m, n) && |v| == n && forall k | 0 <= k < |m| :: Cong(p, Apply(m, v)[k], 0)
    ensures v in Kernel(p, m, n)
  {
    hide Cong;
  }

  lemma KernelInactive(p: Prime, m: Mat, t: nat, rounds: nat, stacked: Mat, v: Vec)
    requires Square(m, t) && CanonMat(p, m, t) && t > 0 && IsStacked(p, m, t, rounds, stacked) && |v| == t
    requires Cong(p, v[0], 0) && v[1..] in Kernel(p, stacked, t - 1)
    ensures v in Inactive(p, m, t, rounds + 1)
  {
    assert Orbit(m, 0, v) == v;
    var z := Apply(stacked, v[1..]);
    hide Cong, Orbit;
    forall k: nat {:trigger Orbit(m, k, v)} | k < rounds + 1
      ensures Cong(p, Orbit(m, k, v)[0], 0)
    {
      if k > 0 {
        assert Cong(p, z[k - 1], Zeros(rounds)[k - 1]);
        StackedCoordinate(p, m, t, rounds, stacked, v, k);
      }
    }
  }

  /** Prefixing a zero to the generators of a subspace prefixes a zero to the subspace. */
  lemma LiftSpan(p: Prime, b: Mat, n: nat, t: nat, lifted: Mat, v: Vec)
    requires t == n + 1 && Rect(b, n) && |lifted| == |b| && |v| == t
    requires forall i | 0 <= i < |b| :: lifted[i] == Lift(b[i])
    ensures Rect(lifted, t)
    ensures v in Span(p, lifted, t) <==> Cong(p, v[0], 0) && v[1..] in Span(p, b, n)
  {
    var w := v[1..];
    if v in Span(p, lifted, t) {
      var c: Vec :| |c| == |lifted| && VCong(p, v, Comb(c, lifted, t, |lifted|));
      LiftComb(p, b, n, t, lifted, c, v);
      InSpanByCoefficients(p, b, n, c, w);
    }
    if Cong(p, v[0], 0) && w in Span(p, b, n) {
      var c: Vec :| |c| == |b| && VCong(p, w, Comb(c, b, n, |b|));
      LiftComb(p, b, n, t, lifted, c, v);
      InSpanByCoefficients(p, lifted, t, c, v);
    }
  }

  lemma LiftComb(p: Prime, b: Mat, n: nat, t: nat, lifted: Mat, c: Vec, v: Vec)
    requires t == n + 1 && Rect(b, n) && Rect(lifted, t) && |lifted| == |b| == |c| && |v| == t
    requires forall i | 0 <= i < |b| :: lifted[i] == Lift(b[i])
    ensures VCong(p, v, Comb(c, lifted, t, |b|)) <==> Cong(p, v[0], 0) && VCong(p, v[1..], Comb(c, b, n, |b|))
  {
    var w, z, y := v[1..], Comb(c, lifted, t, |b|), Comb(c, b, n, |b|);
    assert z[0] == 0 by {
      DotComm(c, Col(lifted, 0), |b|);
      DotComm(Col(lifted, 0), c, |b|);
      DotZero(c, Col(lifted, 0), |b|);
    }
    forall j | 0 <= j < n
      ensures z[j + 1] == y[j]
    {
      assert Col(lifted, j + 1) == Col(b, j);
    }
    hide Cong, Multiple;
    if VCong(p, v, z) {
      forall j | 0 <= j < n
        ensures Cong(p, w[j], y[j])
      {
        assert Cong(p, v[j + 1], z[j + 1]);
      }
      assert Cong(p, v[0], z[0]);
    }
    if Cong(p, v[0], 0) && VCong(p, w, y) {
      forall j | 0 <= j < t
        ensures Cong(p, v[j], z[j])
      {
        if j > 0 {
          assert Cong(p, w[j - 1], y[j - 1]);
        }
      }
    }
  }

  lemma LiftCanonical(p: Prime, b: Mat, n: nat, t: nat, lifted: Mat)
    requires t == n + 1 && Canonical(p, b, n) && |lifted| == |b|
    requires forall i | 0 <= i < |b| :: lifted[i] == Lift(b[i])
    ensures CanonMat(p, lifted, t) && Canonical(p, lifted, t)
  {
    var pivots: seq<nat> :| IsRref(p, b, pivots, n);
    var shifted: seq<nat> := seq(|pivots|, k requires 0 <= k < |pivots| => pivots[k] + 1);
    assert IsRref(p, lifted, shifted, t);
  }

  method StackedRows(p: Prime, m: Mat, t: nat, rounds: nat) returns (stacked: Mat)
    requires Square(m, t) && CanonMat(p, m, t) && t > 0
    ensures IsStacked(p, m, t, rounds, stacked)
  {
    hide CanonMat, IsStacked, Power;
    stacked := [];
    NothingStacked(p, m, t);
    for i := 0 to rounds
      invariant IsStacked(p, m, t, i, stacked)
    {
      var power := MatPow(p, m, i + 1);
      StackRow(p, m, t, i, stacked, power);
      stacked := stacked + [power[0][1..]];
    }
  }

  lemma NothingStacked(p: Prime, m: Mat, t: nat)
    requires Square(m, t) && t > 0
    ensures IsStacked(p, m, t, 0, [])
  {
  }

  lemma StackRow(p: Prime, m: Mat, t: nat, i: nat, stacked: Mat, power: Mat)
    requires Square(m, t) && CanonMat(p, m, t) && t > 0
    requires IsStacked(p, m, t, i, stacked) && power == Power(p, m, t, i + 1)
    ensures IsStacked(p, m, t, i + 1, stacked + [power[0][1..]])
  {
    PowerActs(p, m, t, i + 1);
    ActsShape(p, t, power, m, i + 1);
    assert Canon(p, power[0]) && |power[0]| == t;
    hide *;
    TailCanon(p, power[0]);
    StackLonger(p, m, t, i, stacked, power[0][1..]);
  }

  lemma TailCanon(p: Prime, row: Vec)
    requires Canon(p, row) && |row| > 0
    ensures Canon(p, row[1..])
  {
  }

  lemma StackLonger(p: Prime, m: Mat, t: nat, i: nat, stacked: Mat, row: Vec)
    requires Square(m, t) && t > 0 && IsStacked(p, m, t, i, stacked)
    requires |row| == t - 1 && Canon(p, row) && row == Power(p, m, t, i + 1)[0][1..]
    ensures IsStacked(p, m, t, i + 1, stacked + [row])
  {
    hide CanonMat, Canon, Power;
    RowAppended(p, stacked, row, t - 1);
  }

  lemma RowAppended(p: Prime, m: Mat, row: Vec, n: nat)
    requires CanonMat(p, m, n) && |row| == n && Canon(p, row)
    ensures CanonMat(p, m + [row], n)
  {
    hide Canon;
    var longer := m + [row];
    forall i | 0 <= i < |longer|
      ensures |longer[i]| == n && Canon(p, longer[i])
    {
      assert longer[i] == if i < |m| then m[i] else row;
    }
  }

  lemma InactiveSpanned(p: Prime, m: Mat, t: nat, rounds: nat, stacked: Mat, kernel: Mat, lifted: Mat)
    requires Square(m, t) && CanonMat(p, m, t) && t > 0 && IsStacked(p, m, t, rounds, stacked)
    requires Rect(kernel, t - 1) && Span(p, kernel, t - 1) == Kernel(p, stacked, t - 1)
    requires |lifted| == |kernel| && forall i | 0 <= i < |kernel| :: lifted[i] == Lift(kernel[i])
    ensures Rect(lifted, t) && Span(p, lifted, t) == Inactive(p, m, t, rounds + 1)
  {
    hide InSpan, Kernel, Inactive, IsStacked, Span, CanonMat;
    SpanLength(p, lifted, t);
    InactiveLength(p, m, t, rounds + 1);
    forall v: Vec {:trigger v in Span(p, lifted, t)} | |v| == t
      ensures v in Span(p, lifted, t) <==> v in Inactive(p, m, t, rounds + 1)
    {
      LiftSpan(p, kernel, t - 1, t, lifted, v);
      InactiveIsKernel(p, m, t, rounds, stacked, v);
    }
  }

  lemma InactiveLength(p: Prime, m: Mat, t: nat, i: nat)
    requires Square(m, t) && t > 0
    ensures forall v {:trigger v in Inactive(p, m, t, i)} | v in Inactive(p, m, t, i) :: |v| == t
  {
  }

  /** The canonical basis of the i-round inactive space; its dimension is at least t - i. */
  method GenerateVectorspace(p: Prime, roundNum: nat, m: Mat, t: nat) returns (s: Mat)
    requires Square(m, t) && CanonMat(p, m, t) && t > 0
    ensures CanonMat(p, s, t) && Canonical(p, s, t) && Span(p, s, t) == Inactive(p, m, t, roundNum)
    ensures |s| + roundNum >= t
  {
    if roundNum == 0 {
      IdentityCanonical(p, t);
      IdentitySpan(p, t);
      assert Inactive(p, m, t, 0) == Everything(t);
      return Identity(t);
    }
    if roundNum == 1 {
      var basis := UnitVectors(t);
      FirstRound(p, m, t, basis);
      s := SpanBasis(p, basis, t);
      CanonicalUnique(p, s, basis, t);
      return;
    }
    var stacked := StackedRows(p, m, t, roundNum - 1);
    var kernel := RightKernel(p, stacked, t - 1);
    var lifted := seq(|kernel|, i requires 0 <= i < |kernel| => Lift(kernel[i]));
    LiftCanonical(p, kernel, t - 1, t, lifted);
    InactiveSpanned(p, m, t, roundNum - 1, stacked, kernel, lifted);
    s := SpanBasis(p, lifted, t);
    CanonicalUnique(p, s, lifted, t);
  }

  method UnitVectors(t: nat) returns (basis: Mat)
    requires t > 0
    ensures |basis| == t - 1 && Rect(basis, t)
    ensures forall i | 0 <= i < t - 1 :: basis[i] == Lift(Identity(t - 1)[i])
  {
    basis := [];
    for i := 1 to t
      invariant |basis| == i - 1 && Rect(basis, t)
      invariant forall k | 0 <= k < i - 1 :: basis[k] == Lift(Identity(t - 1)[k])
    {
      var e := seq(t, _ => 0);
      e := e[i := 1];
      assert e == Lift(Identity(t - 1)[i - 1]);
      basis := basis + [e];
    }
  }

  lemma FirstRound(p: Prime, m: Mat, t: nat, basis: Mat)
    requires Square(m, t) && CanonMat(p, m, t) && t > 0 && |basis| == t - 1
    requires forall i | 0 <= i < t - 1 :: basis[i] == Lift(Identity(t - 1)[i])
    ensures CanonMat(p, basis, t) && Canonical(p, basis, t) && Span(p, basis, t) == Inactive(p, m, t, 1)
  {
    var n := t - 1;
    IdentityCanonical(p, n);
    LiftCanonical(p, Identity(n), n, t, basis);
    IdentitySpan(p, n);
    KernelOfNothing(p, n);
    InactiveSpanned(p, m, t, 0, [], Identity(n), basis);
  }
}
