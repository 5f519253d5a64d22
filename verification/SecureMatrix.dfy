/** The matrix generator: Cauchy candidates until one passes the three security tests. */
module SecureMatrix {
  import opened PrimeField
  import opened Vectors
  import opened Matrices
  import opened Krylov
  import opened TrailTest
  import opened Cauchy
  import opened Grain

  /** The columns cs of the rows rs are linearly independent. */
  ghost predicate Independent(p: Prime, m: Mat, t: nat, rs: seq<nat>, cs: seq<nat>)
    requires Square(m, t) && DistinctIndices(rs, t) && DistinctIndices(cs, t)
  {
    forall c: Vec {:trigger Apply(Submatrix(m, rs, cs), c)} |
      |c| == |cs| && VCong(p, Apply(Submatrix(m, rs, cs), c), Zeros(|rs|)) :: VCong(p, c, Zeros(|cs|))
  }

  /** Maximum distance separable: every square submatrix is nonsingular. */
  ghost predicate IsMds(p: Prime, m: Mat, t: nat)
    requires Square(m, t)
  {
    forall rs: seq<nat>, cs: seq<nat> {:trigger DistinctIndices(rs, t), DistinctIndices(cs, t)} |
      DistinctIndices(rs, t) && DistinctIndices(cs, t) && |rs| == |cs| :: Independent(p, m, t, rs, cs)
  }

  lemma CandidateIsMds(p: Prime, t: nat, c: Candidate)
    requires Square(c.mds, t) && |c.xs| == t && |c.ys| == t
    requires IsCauchy(p, c.xs, c.ys, c.mds) && Incongruent(p, c.xs) && Incongruent(p, c.ys)
    ensures IsMds(p, c.mds, t)
  {
    hide IsCauchy, Incongruent, VCong;
    forall rs: seq<nat>, cs: seq<nat> | DistinctIndices(rs, t) && DistinctIndices(cs, t) && |rs| == |cs|
      ensures Independent(p, c.mds, t, rs, cs)
    {
      forall v: Vec | |v| == |cs| && VCong(p, Apply(Submatrix(c.mds, rs, cs), v), Zeros(|rs|))
        ensures VCong(p, v, Zeros(|cs|))
      {
        CauchyIsMds(p, c.xs, c.ys, c.mds, rs, cs, v);
      }
    }
  }

  /** For each matrix and exponent i, the eigenvalues listed for the i-th power. */
  type Eigenvalues = Mat -> nat -> seq<int>

  /** All three tests accept the matrix. */
  ghost predicate PassesTests(p: Prime, m: Mat, t: nat, eigen: Eigenvalues)
    requires Square(m, t) && t > 0
  {
    && (forall i: nat {:trigger eigen(m)(i)} | 1 <= i < t :: RoundSecure(p, m, t, i, eigen(m)(i)))
    && Cyclic(p, t, m)
    && forall r: nat {:trigger Power(p, m, t, r)} | 2 <= r <= 4 * t :: Cyclic(p, t, Power(p, m, t, r))
  }

  method PassTests(p: Prime, m: Mat, t: nat, eigen: Eigenvalues) returns (ok: bool)
    requires Square(m, t) && CanonMat(p, m, t) && t > 0
    ensures ok <==> PassesTests(p, m, t, eigen)
  {
    hide RoundSecure, Cyclic, Power;
    var a1 := Algorithm1(p, m, t, eigen(m));
    var a2, rounds := Algorithm2(p, m, t);
    var a3 := Algorithm3(p, m, t);
    assert a3.AllSecure? <==> forall r: nat {:trigger Power(p, m, t, r)} | 2 <= r <= 4 * t ::
      Cyclic(p, t, Power(p, m, t, r));
    ok := a1.Safe? && a2.Secure? && a3.AllSecure?;
  }

  datatype Outcome =
    | Found(candidate: Candidate, attempt: nat)
    | NoSecureMatrix
    | OutOfDraws

  const LAST_ATTEMPT := 65

  /** `used` lists, in order, exactly the usable windows before window `seen`. */
  ghost predicate Successive(p: Prime, init: Bits, t: nat, base: nat, used: seq<nat>, seen: nat)
    requires Seeded(init)
  {
    && (forall i, j | 0 <= i < j < |used| :: used[i] < used[j])
    && (forall i | 0 <= i < |used| :: used[i] < seen)
    && forall k: nat {:trigger k in used} {:trigger WindowAt(p, init, t, base, k)} | k < seen ::
         k in used <==> Usable(p, WindowAt(p, init, t, base, k), t)
  }

  /** c is the Cauchy candidate of window k, and its matrix is MDS. */
  ghost predicate FromWindow(p: Prime, init: Bits, t: nat, base: nat, k: nat, c: Candidate)
    requires Seeded(init)
    ensures FromWindow(p, init, t, base, k, c) ==> Square(c.mds, t)
  {
    IsCandidate(p, WindowAt(p, init, t, base, k), t, c) && Square(c.mds, t) && IsMds(p, c.mds, t)
  }

  /** Candidate k of the list comes from the k-th usable window, and all tests were tried on it in vain. */
  ghost predicate CandidatesRejected(p: Prime, init: Bits, t: nat, base: nat, eigen: Eigenvalues,
      rejected: seq<Candidate>, used: seq<nat>)
    requires t > 0 && Seeded(init) && |rejected| <= |used|
  {
    forall k | 0 <= k < |rejected| ::
      FromWindow(p, init, t, base, used[k], rejected[k]) && !PassesTests(p, rejected[k].mds, t, eigen)
  }

  lemma CandidateFromWindow(p: Prime, init: Bits, t: nat, base: nat, k: nat, c: Candidate)
    requires Seeded(init) && IsCandidate(p, WindowAt(p, init, t, base, k), t, c)
    ensures FromWindow(p, init, t, base, k, c)
  {
    hide Usable, IsMds;
    CandidateIncongruent(p, WindowAt(p, init, t, base, k), t, c);
    CandidateIsMds(p, t, c);
  }

  lemma NextWindows(p: Prime, init: Bits, t: nat, base: nat, used: seq<nat>, seen: nat, k: nat)
    requires Seeded(init) && Successive(p, init, t, base, used, seen) && seen <= k
    requires NoneUsable(p, init, t, base, seen, k) && Usable(p, WindowAt(p, init, t, base, k), t)
    ensures Successive(p, init, t, base, used + [k], k + 1)
  {
    hide Usable, WindowAt;
    var more := used + [k];
    forall w: nat | w < k + 1
      ensures w in more <==> Usable(p, WindowAt(p, init, t, base, w), t)
    {
      assert w in more <==> w in used || w == k;
      if seen <= w < k {
        assert w !in used;
      }
    }
  }

  lemma EmptyWindows(p: Prime, init: Bits, t: nat, base: nat, used: seq<nat>, seen: nat, k: nat)
    requires Seeded(init) && Successive(p, init, t, base, used, seen) && seen <= k &&
      NoneUsable(p, init, t, base, seen, k)
    ensures Successive(p, init, t, base, used, k)
  {
    hide Usable, WindowAt;
  }

  /**
   * Reads candidates from the stream until one passes; the program gives up after the 66th rejected one. Windows are
   * counted from the stream's position at the call: candidate k comes from the k-th usable window, none is skipped,
   * and running out of draws means that maxTries windows in a row were unusable.
   */
  method GenerateSecureMds(p: Prime, stream: GrainStream, t: nat, maxTries: nat, eigen: Eigenvalues)
    returns (outcome: Outcome, ghost rejected: seq<Candidate>, ghost used: seq<nat>, ghost seen: nat)
    requires t > 0 && stream.Valid()
    modifies stream
    ensures stream.Valid() && |stream.yielded| == WindowStart(t, |old(stream.yielded)|, seen)
    ensures Successive(p, stream.init, t, |old(stream.yielded)|, used, seen)
    ensures |used| == |rejected| + if outcome.Found? then 1 else 0
    ensures CandidatesRejected(p, stream.init, t, |old(stream.yielded)|, eigen, rejected, used) &&
      |rejected| <= 66
    ensures outcome.NoSecureMatrix? <==> |rejected| == 66
    ensures !outcome.OutOfDraws? ==> |used| > 0 && seen == used[|used| - 1] + 1
    ensures outcome.OutOfDraws? ==>
              seen == maxTries + (if |used| == 0 then 0 else used[|used| - 1] + 1)
    ensures outcome.Found? ==>
              && outcome.attempt == |rejected|
              && FromWindow(p, stream.init, t, |old(stream.yielded)|, used[outcome.attempt], outcome.candidate)
              && PassesTests(p, outcome.candidate.mds, t, eigen)
  {
    hide PassesTests, FromWindow, IsCandidate, Usable, WindowAt, Successive, NoneUsable;
    ghost var base, init := |stream.yielded|, stream.init;
    rejected, used, seen := [], [], 0;
    NoWindows(p, init, t, base);
    for attempt := 0 to LAST_ATTEMPT + 1
      invariant stream.Valid() && |stream.yielded| == WindowStart(t, base, seen)
      invariant |rejected| == |used| == attempt && CandidatesRejected(p, init, t, base, eigen, rejected, used)
      invariant Successive(p, init, t, base, used, seen)
      invariant seen == if attempt == 0 then 0 else used[attempt - 1] + 1
    {
      var c, skipped := CreateMdsCandidate(p, stream, t, maxTries, base, seen);
      if c.None? {
        EmptyWindows(p, init, t, base, used, seen, seen + skipped);
        seen := seen + skipped;
        return OutOfDraws, rejected, used, seen;
      }
      ghost var k := seen + skipped;
      CandidateFromWindow(p, init, t, base, k, c.value);
      CandidateUsable(p, WindowAt(p, init, t, base, k), t, c.value);
      NextWindows(p, init, t, base, used, seen, k);
      CandidateShape(p, init, t, base, k, c.value);
      used, seen := used + [k], k + 1;
      var ok := PassTests(p, c.value.mds, t, eigen);
      if ok {
        return Found(c.value, attempt), rejected, used, seen;
      }
      rejected := rejected + [c.value];
    }
    return NoSecureMatrix, rejected, used, seen;
  }

  lemma NoWindows(p: Prime, init: Bits, t: nat, base: nat)
    requires Seeded(init)
    ensures Successive(p, init, t, base, [], 0)
  {
  }

  lemma CandidateUsable(p: Prime, w: seq<int>, t: nat, c: Candidate)
    requires |w| == 2 * t && IsCandidate(p, w, t, c)
    ensures Usable(p, w, t)
  {
  }

  lemma CandidateShape(p: Prime, init: Bits, t: nat, base: nat, k: nat, c: Candidate)
    requires Seeded(init) && FromWindow(p, init, t, base, k, c)
    ensures Square(c.mds, t) && CanonMat(p, c.mds, t)
  {
  }
}
