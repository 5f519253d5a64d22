/** The deterministic randomiser that draws the shifts of the root search. */
module Randomiser {
  import opened PrimeField
  import opened Polynomials

  const MULTIPLIER := 6364136223846793005
  const INCREMENT := 1442695040888963407
  const SEED := 0x9e3779b97f4a7c15

  /** The next state of the randomiser. */
  function NextRandom(p: Prime, state: int): (s: int)
    ensures 0 <= s < p
  {
    Mod(p, state * MULTIPLIER + INCREMENT)
  }

  /** The state after n draws: the n-th shift. */
  ghost function Shift(p: Prime, n: nat): int {
    if n == 0 then SEED else NextRandom(p, Shift(p, n - 1))
  }

  // ----- The closed form -----

  /** The number that every state is measured by: (m - 1) s + c for the seed s. */
  const SPREAD := 72555702159401713373651925687890362347

  lemma LinearStep(p: Prime, m: int, c: int, s: int, s': int, q: int, k: int)
    requires Cong(p, s', s * m + c) && Cong(p, (m - 1) * s, q * k - c)
    ensures Cong(p, (m - 1) * s', (m * q) * k - c)
  {
    hide Multiple;
    LinearBalance(m, c, s, s', q, k);
    Combine(p, (m - 1) * s' - ((m * q) * k - c), m - 1, s' - (s * m + c), m, (m - 1) * s - (q * k - c));
  }

  lemma LinearBalance(m: int, c: int, s: int, s': int, q: int, k: int)
    ensures (m - 1) * s' - ((m * q) * k - c) == (m - 1) * (s' - (s * m + c)) + m * ((m - 1) * s - (q * k - c))
  {
    assert (m - 1) * (s * m + c) == m * ((m - 1) * s) + m * c - c;
    assert (m * q) * k == m * (q * k);
  }

  /** (m - 1) times the n-th state is m^n ((m - 1) seed + c) - c modulo p, for the constants of the program. */
  lemma {:induction false} ClosedForm(p: Prime, n: nat)
    ensures Cong(p, 6364136223846793004 * Shift(p, n),
                 Pow(6364136223846793005, n) * (6364136223846793004 * 11400714819323198485 + 1442695040888963407) -
                 1442695040888963407)
  {
    hide *;
    var m, c, k := 6364136223846793005, 1442695040888963407, 72555702159401713373651925687890362347;
    assert k == 6364136223846793004 * 11400714819323198485 + 1442695040888963407;
    if n == 0 {
      FirstShift(p, m, c, k);
    } else {
      ClosedForm(p, n - 1);
      NextShift(p, n);
      LinearStep(p, m, c, Shift(p, n - 1), Shift(p, n), Pow(m, n - 1), k);
    }
  }

  lemma FirstShift(p: Prime, m: int, c: int, k: int)
    requires k == (m - 1) * 11400714819323198485 + c
    ensures Cong(p, (m - 1) * Shift(p, 0), Pow(m, 0) * k - c)
  {
    hide Cong;
    assert Pow(m, 0) * k == k;
    CongRefl(p, (m - 1) * SEED);
  }

  lemma NextShift(p: Prime, n: nat)
    requires n > 0
    ensures Cong(p, Shift(p, n), Shift(p, n - 1) * 6364136223846793005 + 1442695040888963407)
    ensures Pow(6364136223846793005, n) == 6364136223846793005 * Pow(6364136223846793005, n - 1)
  {
    hide Cong;
  }

  // ----- The shifts move -----

  /** None of the three factors of the closed form vanishes modulo p. */
  ghost predicate Moves(p: Prime) {
    && !Multiple(6364136223846793005, p) && !Multiple(6364136223846793004, p)
    && !Multiple(72555702159401713373651925687890362347, p)
  }

  lemma LargePrimeMoves(p: Prime)
    requires p > 72555702159401713373651925687890362347
    ensures Moves(p)
  {
    hide Multiple;
    NotZero(p, 6364136223846793005);
    NotZero(p, 6364136223846793004);
    NotZero(p, SPREAD);
  }

  lemma {:induction false} PowerNotZero(p: Prime, m: int, n: nat)
    requires !Multiple(m, p)
    ensures !Multiple(Pow(m, n), p)
  {
    if n == 0 {
      NotZero(p, 1);
    } else {
      PowerNotZero(p, m, n - 1);
      ProductNotZero(p, m, Pow(m, n - 1));
    }
  }

  /** Two states agree modulo p exactly when the multiplier's power between them is 1: the period is its order. */
  lemma ShiftsAgreeIff(p: Prime, i: nat, d: nat)
    requires Moves(p)
    ensures Cong(p, Shift(p, i + d), Shift(p, i)) <==> Cong(p, Pow(6364136223846793005, d), 1)
  {
    hide Cong, Multiple, Shift, Pow;
    var m, q, r := 6364136223846793005, Pow(6364136223846793005, i), Pow(6364136223846793005, d);
    ClosedForm(p, i);
    ClosedForm(p, i + d);
    PowAdd(m, i, d);
    PowerNotZero(p, m, i);
    AgreeBalance(p, m - 1, Shift(p, i), Shift(p, i + d), q, r, SPREAD, 1442695040888963407);
  }

  lemma AgreeBalance(p: Prime, a: int, s: int, t: int, q: int, r: int, k: int, c: int)
    requires !Multiple(a, p) && !Multiple(q, p) && !Multiple(k, p)
    requires Cong(p, a * s, q * k - c) && Cong(p, a * t, (q * r) * k - c)
    ensures Cong(p, t, s) <==> Cong(p, r, 1)
  {
    hide Multiple;
    var e, f := a * s - (q * k - c), a * t - ((q * r) * k - c);
    Difference(a, s, t, q, r, k, c);
    ProductNotZero(p, q, k);
    if Cong(p, t, s) {
      Combine(p, e - f, 1, e, -1, f);
      Combine(p, (q * k) * (r - 1), a, t - s, 1, e - f);
      EuclidLemma(p, q * k, r - 1);
    }
    if Cong(p, r, 1) {
      Combine(p, f - e, 1, f, -1, e);
      Combine(p, a * (t - s), q * k, r - 1, 1, f - e);
      EuclidLemma(p, a, t - s);
    }
  }

  lemma Difference(a: int, s: int, t: int, q: int, r: int, k: int, c: int)
    ensures var e, f := a * s - (q * k - c), a * t - ((q * r) * k - c);
            a * (t - s) == (q * k) * (r - 1) + (f - e)
  {
    assert a * (t - s) == a * t - a * s;
    assert (q * k) * (r - 1) == (q * r) * k - q * k;
  }

  /** In particular two shifts drawn one after the other differ. */
  lemma NextShiftDiffers(p: Prime, n: nat)
    requires Moves(p)
    ensures Shift(p, n + 1) != Shift(p, n) && !Cong(p, Shift(p, n + 1), Shift(p, n))
  {
    ShiftsAgreeIff(p, n, 1);
    assert Pow(6364136223846793005, 1) == 6364136223846793005 * Pow(6364136223846793005, 0);
    hide Shift;
    CongRefl(p, Shift(p, n));
  }
}
