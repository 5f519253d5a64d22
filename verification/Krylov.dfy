/** Matrix-security tests 2 and 3: does some proper invariant subspace contain the first unit vector? */
module Krylov {
  import opened PrimeField
  import opened Vectors
  import opened Echelon
  import opened RowReduction
  import opened Subspaces
  import opened Matrices

  ghost predicate Invariant(p: Prime, t: nat, m: Mat, s: iset<Vec>)
    requires Square(m, t)
  {
    IsSubspace(p, t, s) && forall v {:trigger v in s, Apply(m, v)} | v in s :: Apply(m, v) in s
  }

  /** The first unit vector. */
  function E0(t: nat): (v: Vec)
    requires t > 0
    ensures |v| == t
  {
    seq(t, i => if i == 0 then 1 else 0)
  }

  lemma FirstUnit(t: nat, j: nat)
    requires j < t
    ensures E0(t)[j] == if j == 0 then 1 else 0
  {
  }

  /** Every m-invariant subspace that contains e_0 is the whole space. */
  ghost predicate Cyclic(p: Prime, t: nat, m: Mat)
    requires Square(m, t) && t > 0
  {
    forall s: iset<Vec> {:trigger Invariant(p, t, m, s)} | Invariant(p, t, m, s) && E0(t) in s :: Everything(t) <= s
  }

  ghost predicate IsLeastInvariant(p: Prime, t: nat, m: Mat, b: iset<Vec>)
    requires Square(m, t) && t > 0
  {
    && Invariant(p, t, m, b) && E0(t) in b
    && forall s: iset<Vec> {:trigger Invariant(p, t, m, s)} | Invariant(p, t, m, s) && E0(t) in s :: b <= s
  }

  /** The least m-invariant subspace that contains e_0 has dimension d. */
  ghost predicate LeastDimension(p: Prime, t: nat, m: Mat, d: nat)
    requires Square(m, t) && t > 0
  {
    exists b: Mat {:trigger Canonical(p, b, t)} ::
      Canonical(p, b, t) && |b| == d && IsLeastInvariant(p, t, m, Span(p, b, t))
  }

  ghost function Orbits(m: Mat, t: nat, k: nat): (b: Mat)
    requires Square(m, t) && t > 0
    ensures |b| == k + 1 && Rect(b, t) && forall j | 0 <= j <= k :: b[j] == Orbit(m, j, E0(t))
  {
    seq(k + 1, j requires 0 <= j <= k => Orbit(m, j, E0(t)))
  }

  lemma {:induction false} OrbitInInvariant(p: Prime, t: nat, m: Mat, s: iset<Vec>, k: nat)
    requires Square(m, t) && t > 0 && Invariant(p, t, m, s) && E0(t) in s
    ensures Orbit(m, k, E0(t)) in s
  {
    if k == 0 {
    } else {
      OrbitInInvariant(p, t, m, s, k - 1);
    }
  }

  /** Whatever the Krylov vectors span lies in every invariant subspace that contains e_0. */
  lemma OrbitsWithin(p: Prime, t: nat, m: Mat, s: iset<Vec>, k: nat)
    requires Square(m, t) && t > 0 && Invariant(p, t, m, s) && E0(t) in s
    ensures Span(p, Orbits(m, t, k), t) <= s
  {
    forall j | 0 <= j <= k
      ensures Orbits(m, t, k)[j] in s
    {
      OrbitInInvariant(p, t, m, s, j);
    }
    SpanMinimal(p, Orbits(m, t, k), t, s);
  }

  lemma KrylovClosed(p: Prime, t: nat, m: Mat, k: nat, w: Vec)
    requires Square(m, t) && t > 0 && w == Orbit(m, k + 1, E0(t)) && w in Span(p, Orbits(m, t, k), t)
    ensures Span(p, Orbits(m, t, k), t) <= Preimage(m, t, Span(p, Orbits(m, t, k), t))
  {
    var b := Orbits(m, t, k);
    var s := Span(p, b, t);
    hide InSpan, Span, IsSubspace, Apply;
    SpanIsSubspace(p, b, t);
    PreimageIsSubspace(p, m, t, s);
    forall j | 0 <= j <= k
      ensures b[j] in Preimage(m, t, s)
    {
      KrylovShift(p, t, m, k, w, j);
    }
    SpanMinimal(p, b, t, Preimage(m, t, s));
  }

  lemma KrylovShift(p: Prime, t: nat, m: Mat, k: nat, w: Vec, j: nat)
    requires Square(m, t) && t > 0 && w == Orbit(m, k + 1, E0(t)) && w in Span(p, Orbits(m, t, k), t) && j <= k
    ensures Orbits(m, t, k)[j] in Preimage(m, t, Span(p, Orbits(m, t, k), t))
  {
    var b := Orbits(m, t, k);
    hide InSpan, Span;
    if j < k {
      RowInSpan(p, b, t, j + 1);
    }
    assert Apply(m, b[j]) == Orbit(m, j + 1, E0(t));
  }

  /** Once the next Krylov vector adds nothing, the span of the earlier ones is invariant. */
  lemma StalledInvariant(p: Prime, t: nat, m: Mat, k: nat, w: Vec)
    requires Square(m, t) && t > 0 && w == Orbit(m, k + 1, E0(t)) && w in Span(p, Orbits(m, t, k), t)
    ensures IsLeastInvariant(p, t, m, Span(p, Orbits(m, t, k), t))
  {
    var b := Orbits(m, t, k);
    KrylovClosed(p, t, m, k, w);
    SpanIsSubspace(p, b, t);
    RowInSpan(p, b, t, 0);
    hide InSpan;
    assert Invariant(p, t, m, Span(p, b, t));
    forall u: iset<Vec> {:trigger Invariant(p, t, m, u)} | Invariant(p, t, m, u) && E0(t) in u
      ensures Span(p, b, t) <= u
    {
      OrbitsWithin(p, t, m, u, k);
    }
  }

  lemma ExtendSpan(p: Prime, n: nat, a: Mat, v: Vec, b: Mat, w: Vec)
    requires Rect(a, n) && Rect(b, n) && |v| == n && Span(p, a, n) == Span(p, b, n) && VCong(p, v, w)
    ensures Span(p, a + [v], n) == Span(p, b + [w], n)
  {
    VCongSym(p, v, w);
    ExtendWithin(p, n, a, v, b, w);
    ExtendWithin(p, n, b, w, a, v);
  }

  lemma ExtendWithin(p: Prime, n: nat, a: Mat, v: Vec, b: Mat, w: Vec)
    requires Rect(a, n) && Rect(b, n) && |v| == |w| == n && Span(p, a, n) <= Span(p, b, n) && VCong(p, v, w)
    ensures Span(p, a + [v], n) <= Span(p, b + [w], n)
  {
    var a', b' := a + [v], b + [w];
    SpanIsSubspace(p, b', n);
    forall i | 0 <= i < |b|
      ensures b[i] in Span(p, b', n)
    {
      RowInSpan(p, b', n, i);
      assert b'[i] == b[i];
    }
    SpanSubset(p, b', b, n);
    RowInSpan(p, b', n, |b|);
    ClosedUnderCong(p, n, Span(p, b', n), w, v);
    forall i | 0 <= i < |a'|
      ensures a'[i] in Span(p, b', n)
    {
      if i < |a| {
        RowInSpan(p, a, n, i);
      }
    }
    SpanSubset(p, b', a', n);
  }

  lemma PrefixSpan(p: Prime, n: nat, a: Mat, v: Vec)
    requires Rect(a, n) && |v| == n
    ensures Span(p, a, n) <= Span(p, a + [v], n)
  {
    var a' := a + [v];
    forall i | 0 <= i < |a|
      ensures a[i] in Span(p, a', n)
    {
      RowInSpan(p, a', n, i);
      assert a'[i] == a[i];
    }
    SpanSubset(p, a', a, n);
  }

  datatype KrylovVerdict = Secure | Stalls(dimension: nat)

  /** The Krylov loop reaches dimension t: no proper invariant subspace contains e_0. */
  lemma ReachedAll(p: Prime, t: nat, m: Mat, k: nat, basis: Mat)
    requires Square(m, t) && t > 0 && Canonical(p, basis, t) && |basis| == t
    requires Span(p, basis, t) == Span(p, Orbits(m, t, k), t)
    ensures Cyclic(p, t, m)
  {
    FullDimension(p, basis, t);
    forall s: iset<Vec> {:trigger Invariant(p, t, m, s)} | Invariant(p, t, m, s) && E0(t) in s
      ensures Everything(t) <= s
    {
      OrbitsWithin(p, t, m, s, k);
      forall v: Vec {:trigger v in Everything(t)} | v in Everything(t)
        ensures v in s
      {
        assert v in Span(p, basis, t);
      }
    }
  }

  /** The Krylov loop stalls: the span so far is the least invariant subspace, and it is proper. */
  lemma Stalled(p: Prime, t: nat, m: Mat, k: nat, old': Mat, basis: Mat, v: Vec)
    requires Square(m, t) && t > 0 && Canonical(p, old', t) && Canonical(p, basis, t)
    requires Span(p, old', t) == Span(p, Orbits(m, t, k), t)
    requires |v| == t && VCong(p, v, Orbit(m, k + 1, E0(t))) && Span(p, basis, t) == Span(p, old' + [v], t)
    requires |basis| <= |old'| && |basis| != t
    ensures LeastDimension(p, t, m, |basis|) && |basis| < t && !Cyclic(p, t, m)
  {
    PrefixSpan(p, t, old', v);
    DimensionMonotone(p, old', basis, t);
    assert basis == old';
    var w := Orbit(m, k + 1, E0(t));
    SpanIsSubspace(p, basis, t);
    RowInSpan(p, old' + [v], t, |old'|);
    VCongSym(p, v, w);
    ClosedUnderCong(p, t, Span(p, basis, t), v, w);
    StalledInvariant(p, t, m, k, w);
    FullDimension(p, basis, t);
  }

  lemma UnitSpanNonempty(p: Prime, t: nat, basis: Mat)
    requires t > 0 && Rect(basis, t) && Span(p, basis, t) == Span(p, [E0(t)], t)
    ensures |basis| >= 1
  {
    if |basis| == 0 {
      RowInSpan(p, [E0(t)], t, 0);
      assert E0(t) in Span(p, basis, t);
      var c: Vec :| |c| == 0 && VCong(p, E0(t), Comb(c, basis, t, 0));
      assert Cong(p, E0(t)[0], Comb(c, basis, t, 0)[0]);
      NotZero(p, 1);
      assert false;
    }
  }

  /** rounds counts the passes through the loop. */
  method Algorithm2(p: Prime, m: Mat, t: nat) returns (r: KrylovVerdict, ghost rounds: nat)
    requires t > 0 && Square(m, t)
    ensures rounds <= t
    ensures r.Secure? <==> Cyclic(p, t, m)
    ensures r.Stalls? ==> r.dimension < t && LeastDimension(p, t, m, r.dimension)
  {
    var e0 := E0(t);
    assert CanonMat(p, [e0], t);
    var basis := SpanBasis(p, [e0], t);
    var v := e0;
    ghost var k := 0;
    rounds := 0;
    VCongRefl(p, v);
    UnitSpanNonempty(p, t, basis);
    FullDimension(p, basis, t);
    assert Orbits(m, t, 0) == [e0];
    while true
      invariant |v| == t && Canon(p, v) && VCong(p, v, Orbit(m, k, e0))
      invariant Canonical(p, basis, t) && Span(p, basis, t) == Span(p, Orbits(m, t, k), t)
      invariant rounds == k < |basis| <= t
      decreases t - |basis|
    {
      rounds := rounds + 1;
      var before := |basis|;
      ghost var old' := basis;
      v := NextKrylov(p, m, t, k, v);
      AppendCanon(p, basis, v, t);
      basis := SpanBasis(p, basis + [v], t);
      ExtendSpan(p, t, old', v, Orbits(m, t, k), Orbit(m, k + 1, e0));
      OrbitsGrow(m, t, k);
      FullDimension(p, basis, t);
      if |basis| == t {
        ReachedAll(p, t, m, k + 1, basis);
        return Secure, rounds;
      }
      if |basis| <= before {
        Stalled(p, t, m, k, old', basis, v);
        return Stalls(|basis|), rounds;
      }
      k := k + 1;
    }
  }

  lemma OrbitsGrow(m: Mat, t: nat, k: nat)
    requires Square(m, t) && t > 0
    ensures Orbits(m, t, k) + [Orbit(m, k + 1, E0(t))] == Orbits(m, t, k + 1)
  {
  }

  lemma AppendCanon(p: Prime, basis: Mat, v: Vec, t: nat)
    requires Canonical(p, basis, t) && |v| == t && Canon(p, v)
    ensures CanonMat(p, basis + [v], t)
  {
  }

  method NextKrylov(p: Prime, m: Mat, t: nat, ghost k: nat, v: Vec) returns (w: Vec)
    requires t > 0 && Square(m, t) && |v| == t && VCong(p, v, Orbit(m, k, E0(t)))
    ensures |w| == t && Canon(p, w) && VCong(p, w, Orbit(m, k + 1, E0(t)))
  {
    w := MatVec(p, m, v);
    ApplyCong(p, m, t, v, Orbit(m, k, E0(t)));
    VCongTrans(p, w, Apply(m, v), Apply(m, Orbit(m, k, E0(t))));
  }

  datatype PowerVerdict = AllSecure | PowerFails(r: nat)

  method Algorithm3(p: Prime, m: Mat, t: nat) returns (v: PowerVerdict)
    requires t > 0 && Square(m, t) && CanonMat(p, m, t)
    ensures v.AllSecure? <==> forall r: nat {:trigger Power(p, m, t, r)} | 2 <= r <= 4 * t ::
      Cyclic(p, t, Power(p, m, t, r))
    ensures v.PowerFails? ==> 2 <= v.r <= 4 * t && !Cyclic(p, t, Power(p, m, t, v.r))
    ensures v.PowerFails? ==> forall r: nat {:trigger Power(p, m, t, r)} | 2 <= r < v.r ::
      Cyclic(p, t, Power(p, m, t, r))
  {
    for r := 2 to 4 * t + 1
      invariant forall q: nat {:trigger Power(p, m, t, q)} | 2 <= q < r :: Cyclic(p, t, Power(p, m, t, q))
    {
      var power := MatPow(p, m, r);
      var res, rounds := Algorithm2(p, power, t);
      if res != Secure {
        return PowerFails(r);
      }
    }
    return AllSecure;
  }
}
