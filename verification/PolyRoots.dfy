/** All roots of a polynomial in F_p, by splitting its gcd with x^p - x. */
module PolyRoots {
  import opened PrimeField
  import opened Vectors
  import opened Polynomials
  import opened PolyAlgorithms
  import opened PolyPowers
  import opened TotalSplitting
  import opened Randomiser

  // ----- The split part -----

  /** x^p - x, reduced modulo f, vanishes at every root of f. */
  lemma FrobeniusVanishes(p: Prime, f: Poly, power: Poly, h: Poly, c: int)
    requires Root(p, f, c) && EqMod(p, f, power, Power(X, p)) && IsShiftAdd(p, power, -1, 0, X, h)
    ensures Root(p, h, c)
  {
    PowerValue(p, f, X, p, power, c);
    EvalX(c);
    FermatAll(p, c);
    ShiftAddEval(p, power, -1, 0, X, h, c);
    hide Root;
    CongTrans(p, Eval(power, c), Pow(c, p), c);
    FrobeniusZero(p, Eval(h, c), Eval(power, c), c);
  }

  /** The monic gcd of poly and x^p - x, or None where the program throws: it has exactly the roots of poly. */
  method SplitPart(p: Prime, poly: Poly) returns (split: Option<Poly>)
    requires Canon(p, poly)
    ensures split.None? <==> Deg(poly) < 0
    ensures split.Some? ==> IsPart(p, split.value) && Divides(p, split.value, poly) && Deg(split.value) <= Deg(poly)
    ensures split.Some? ==> RootSet(p, split.value) == RootSet(p, poly)
  {
    var power := PolyPowMod(p, X, p, poly);
    if power.None? {
      return None;
    }
    var h := PolySub(p, power.value, X);
    var g := PolyGcd(p, poly, h);
    PartOf(p, poly, power.value, h, g);
    split := Some(g);
  }

  lemma PartOf(p: Prime, poly: Poly, power: Poly, h: Poly, g: Poly)
    requires Canon(p, poly) && Deg(poly) >= 0 && IsGcd(p, poly, h, g)
    requires EqMod(p, poly, power, Power(X, p)) && IsShiftAdd(p, power, -1, 0, X, h)
    ensures IsPart(p, g) && Divides(p, g, poly) && Deg(g) <= Deg(poly) && RootSet(p, g) == RootSet(p, poly)
  {
    hide Root, Divides, IsShiftAdd, EqMod, Power, Frobenius;
    DividesSelf(p, g);
    assert CommonDivisor(p, g, poly, h);
    if Deg(g) > Deg(poly) {
      SmallMultipleZero(p, g, poly);
    }
    CommonPart(p, poly, power, h, g);
    forall c: int
      ensures Root(p, g, c) <==> Root(p, poly, c)
    {
      if Root(p, poly, c) {
        FrobeniusVanishes(p, poly, power, h, c);
      }
    }
  }

  // ----- Splitting -----

  /** A degree-one monic polynomial has the single root -f[0]. */
  lemma LinearRoot(p: Prime, f: Poly, r: int, c: int)
    requires Monic(p, f) && |f| == 2 && 0 <= r < p && Cong(p, r, -f[0]) && 0 <= c < p
    ensures Root(p, f, c) <==> c == r
  {
    assert EvalTo(f, c, 0) == 0;
    assert Pow(c, 1) == c * Pow(c, 0);
    assert EvalTo(f, c, 1) == f[0];
    assert Eval(f, c) == f[0] + c;
    hide Multiple;
    LinearBalance(p, f[0], r, c);
  }

  lemma LinearBalance(p: Prime, b: int, r: int, c: int)
    requires 0 <= r < p && Cong(p, r, -b) && 0 <= c < p
    ensures Cong(p, b + c, 0) <==> c == r
  {
    if Cong(p, b + c, 0) {
      Combine(p, c - r, 1, (b + c) - 0, -1, r - (-b));
      CongEqual(p, c, r);
    }
    if c == r {
      Combine(p, (b + c) - 0, 1, r - (-b), 0, r - (-b));
    }
  }

  /** Splitting off an exact divisor splits the roots. */
  lemma SplitRoots(p: Prime, f: Poly, g: Poly, q: Poly, r: Poly, c: int)
    requires QuotRem(p, f, g, q, r) && Deg(r) < 0
    ensures Root(p, f, c) <==> Root(p, g, c) || Root(p, q, c)
  {
    QuotRemEval(p, f, g, q, r, c);
    ZeroPolyEval(r, c, |r|);
    SplitBalance(p, Eval(f, c), Eval(q, c), Eval(g, c));
  }

  lemma SplitBalance(p: Prime, f: int, q: int, g: int)
    requires Cong(p, f, q * g + 0)
    ensures Cong(p, f, 0) <==> Cong(p, g, 0) || Cong(p, q, 0)
  {
    if Cong(p, f, 0) {
      Combine(p, q * g, -1, f - (q * g + 0), 1, f - 0);
      EuclidLemma(p, q, g);
    }
    if Cong(p, g, 0) {
      Combine(p, f - 0, 1, f - (q * g + 0), q, g - 0);
    }
    if Cong(p, q, 0) {
      Combine(p, f - 0, 1, f - (q * g + 0), g, q - 0);
    }
  }

  /** Divides f exactly by its monic divisor g, 0 < deg g < deg f: the quotient takes exactly the other roots. */
  method SplitOff(p: Prime, f: Poly, g: Poly) returns (q: Poly)
    requires IsPart(p, f) && Monic(p, g) && 1 < |g| < |f| && Divides(p, g, f)
    ensures IsPart(p, q) && Divides(p, q, f) && |q| == |f| - |g| + 1
    ensures RootSet(p, q) == RootSet(p, f) - RootSet(p, g)
  {
    ghost var r;
    q, r := PolyDivExact(p, f, g);
    DividesSelf(p, g);
    DividesQuotRem(p, g, f, g, q, r);
    SmallMultipleZero(p, g, r);
    QuotientRoots(p, f, g, q, r);
  }

  /** The roots of a part are simple: divisor and quotient share none. */
  lemma QuotientRoots(p: Prime, f: Poly, g: Poly, q: Poly, r: Poly)
    requires IsPart(p, f) && Monic(p, g) && Divides(p, g, f) && Monic(p, q) && |q| == |f| - |g| + 1
    requires QuotRem(p, f, g, q, r) && Deg(r) < 0
    ensures IsPart(p, q) && Divides(p, q, f) && RootSet(p, q) == RootSet(p, f) - RootSet(p, g)
  {
    hide Divides, Root, QuotRem, Frobenius;
    QuotientDivides(p, f, g, q, r);
    PartDivisor(p, f, g);
    PartDivisor(p, f, q);
    TotallySplit(p, f);
    TotallySplit(p, g);
    TotallySplit(p, q);
    forall c: int
      ensures Root(p, f, c) <==> Root(p, g, c) || Root(p, q, c)
    {
      SplitRoots(p, f, g, q, r, c);
    }
    Disjoint(RootSet(p, f), RootSet(p, g), RootSet(p, q));
  }

  lemma EqualSubsets(a: set<int>, b: set<int>)
    requires a <= b
    ensures a == b <==> |a| == |b|
  {
    assert b == a + (b - a);
    assert |b| == |a| + |b - a|;
  }

  lemma Disjoint(f: set<int>, g: set<int>, q: set<int>)
    requires f == g + q && |f| == |g| + |q|
    ensures q == f - g
  {
    assert g + q == g + (q - g) && |g + (q - g)| == |g| + |q - g|;
    EqualSubsets(q - g, q);
  }

  /** Euler's criterion holds for a + c. */
  ghost predicate Residue(p: Prime, a: int, c: int) {
    Cong(p, Pow(a + c, (p - 1) / 2), 1)
  }

  /** The roots on the residues' side of the shift a. */
  ghost function Side(p: Prime, a: int, roots: set<int>): (side: set<int>)
    ensures side <= roots
  {
    set c | c in roots && Residue(p, a, c)
  }

  /** The shift a leaves all the roots on one side. */
  ghost predicate Unlucky(p: Prime, a: int, roots: set<int>) {
    Side(p, a, roots) == {} || Side(p, a, roots) == roots
  }

  /**
   * One Cantor-Zassenhaus split of f with the shift a: the monic divisor that has exactly the roots on the residues'
   * side, or None, exactly when the shift is unlucky.
   */
  method TrySplit(p: Prime, f: Poly, a: int) returns (g: Option<Poly>)
    requires IsPart(p, f) && |f| > 2 && 0 <= a < p
    ensures g.None? <==> Unlucky(p, a, RootSet(p, f))
    ensures g.Some? ==> IsPart(p, g.value) && 1 < |g.value| < |f| && Divides(p, g.value, f)
    ensures g.Some? ==> RootSet(p, g.value) == Side(p, a, RootSet(p, f))
  {
    var shifted := PolyPowMod(p, [a, 1], (p - 1) / 2, f);
    assert Deg(f) == |f| - 1;
    var h := PolySub(p, shifted.value, [1]);
    var d := PolyGcd(p, f, h);
    SplitDivisor(p, f, a, shifted.value, h, d);
    if Deg(d) <= 0 || Deg(d) == Deg(f) {
      return None;
    }
    g := Some(d);
  }

  lemma SplitDivisor(p: Prime, f: Poly, a: int, power: Poly, h: Poly, d: Poly)
    requires IsPart(p, f) && |f| > 2 && IsGcd(p, f, h, d)
    requires EqMod(p, f, power, Power([a, 1], (p - 1) / 2)) && IsShiftAdd(p, power, -1, 0, [1], h)
    ensures IsPart(p, d) && Divides(p, d, f) && |d| <= |f| && Deg(d) == |d| - 1 && Deg(f) == |f| - 1
    ensures RootSet(p, d) == Side(p, a, RootSet(p, f))
    ensures Unlucky(p, a, RootSet(p, f)) <==> |d| == 1 || |d| == |f|
  {
    hide Root, Residue, Divides, EqMod, Power, IsShiftAdd, Frobenius;
    DividesSelf(p, d);
    assert CommonDivisor(p, d, f, h);
    DivisorDegree(p, f, d);
    PartDivisor(p, f, d);
    TotallySplit(p, f);
    TotallySplit(p, d);
    forall c: int
      ensures Root(p, d, c) <==> Root(p, f, c) && Residue(p, a, c)
    {
      SplitCondition(p, f, a, (p - 1) / 2, power, h, c);
    }
    EqualSubsets(Side(p, a, RootSet(p, f)), RootSet(p, f));
  }

  lemma SplitCondition(p: Prime, f: Poly, a: int, e: nat, power: Poly, h: Poly, c: int)
    requires EqMod(p, f, power, Power([a, 1], e)) && IsShiftAdd(p, power, -1, 0, [1], h) && e == (p - 1) / 2
    ensures Root(p, f, c) ==> (Root(p, h, c) <==> Residue(p, a, c))
  {
    hide EqMod, Power, IsShiftAdd, Root, Cong;
    if Root(p, f, c) {
      PowerValue(p, f, [a, 1], e, power, c);
      EvalShift(a, c);
      ShiftedRoot(p, power, h, c, Pow(a + c, e));
    }
  }

  lemma EvalShift(a: int, c: int)
    ensures Eval([a, 1], c) == a + c
  {
    var f := [a, 1];
    assert EvalTo(f, c, 0) == 0;
    assert Pow(c, 1) == c * Pow(c, 0);
    assert EvalTo(f, c, 1) == a;
  }

  /** h = power - 1 vanishes where the power is 1. */
  lemma ShiftedRoot(p: Prime, power: Poly, h: Poly, c: int, w: int)
    requires IsShiftAdd(p, power, -1, 0, [1], h) && Cong(p, Eval(power, c), w)
    ensures Root(p, h, c) <==> Cong(p, w, 1)
  {
    ShiftAddEval(p, power, -1, 0, [1], h, c);
    assert EvalTo([1], c, 0) == 0 && Coef([1], 0) == 1;
    var x, y := Eval(h, c), Eval(power, c);
    hide Multiple;
    OneBalance(p, x, y, w);
  }

  lemma OneBalance(p: Prime, h: int, power: int, w: int)
    requires EvalStep(p, h, power, -1, 1, 1) && Cong(p, power, w)
    ensures Cong(p, h, 0) <==> Cong(p, w, 1)
  {
    var d := h - (power + (-1) * (1 * 1));
    assert Multiple(d, p) && Multiple(power - w, p);
    hide Multiple;
    Combine(p, h - (w - 1), 1, d, 1, power - w);
    if Multiple(h - 0, p) {
      Combine(p, w - 1, 1, h - 0, -1, h - (w - 1));
    }
    if Multiple(w - 1, p) {
      Combine(p, h - 0, 1, w - 1, 1, h - (w - 1));
    }
  }

  /** A divisor of a nonzero polynomial is no longer than it. */
  lemma DivisorDegree(p: Prime, f: Poly, g: Poly)
    requires Monic(p, f) && Monic(p, g) && Divides(p, g, f)
    ensures |g| <= |f| && Deg(g) == |g| - 1 && Deg(f) == |f| - 1
  {
    if |g| > |f| {
      SmallMultipleZero(p, g, f);
      assert false;
    }
  }

  // ----- Sorting without repetition -----

  ghost predicate Ascending(s: seq<int>) {
    forall i, j | 0 <= i < j < |s| :: s[i] < s[j]
  }

  /** Inserts x into an ascending list unless it is there already. */
  function InsertUnique(s: seq<int>, x: int): seq<int> {
    if |s| == 0 then [x]
    else if x < s[0] then [x] + s
    else if x == s[0] then s
    else [s[0]] + InsertUnique(s[1..], x)
  }

  lemma {:induction false} InsertUniqueElements(s: seq<int>, x: int, y: int)
    ensures y in InsertUnique(s, x) <==> y == x || y in s
  {
    if |s| == 0 {
    } else {
      assert s == [s[0]] + s[1..];
      InsertUniqueElements(s[1..], x, y);
    }
  }

  lemma {:induction false} InsertUniqueAscending(s: seq<int>, x: int)
    requires Ascending(s)
    ensures Ascending(InsertUnique(s, x))
  {
    if |s| > 0 && x > s[0] {
      var rest := InsertUnique(s[1..], x);
      InsertUniqueAscending(s[1..], x);
      forall j | 0 <= j < |rest|
        ensures s[0] < rest[j]
      {
        assert rest[j] in rest;
        InsertUniqueElements(s[1..], x, rest[j]);
      }
    }
  }

  method SortUnique(roots: seq<int>) returns (r: seq<int>)
    ensures Ascending(r) && forall y :: y in r <==> y in roots
  {
    r := [];
    for i := 0 to |roots|
      invariant Ascending(r) && forall y :: y in r <==> y in roots[..i]
    {
      assert roots[..i + 1] == roots[..i] + [roots[i]];
      forall y
        ensures y in InsertUnique(r, roots[i]) <==> y in roots[..i + 1]
      {
        InsertUniqueElements(r, roots[i], y);
      }
      InsertUniqueAscending(r, roots[i]);
      r := InsertUnique(r, roots[i]);
    }
    assert roots[..|roots|] == roots;
  }

  // ----- The search -----

  const GUARD := 4096

  // ----- The search on the roots themselves -----

  /** What the loop has found, the roots of the polynomials on its stack, and the randomiser's state. */
  datatype Search = Search(found: set<int>, stack: seq<set<int>>, state: int)

  ghost function Pass(p: Prime, s: Search): Search
    requires |s.stack| > 0
  {
    var n := |s.stack| - 1;
    var top := s.stack[n];
    if |top| <= 1 then Search(s.found + top, s.stack[..n], s.state)
    else
      var a := NextRandom(p, s.state);
      if Unlucky(p, a, top) then Search(s.found, s.stack, a)
      else Search(s.found, s.stack[..n] + [Side(p, a, top)] + [top - Side(p, a, top)], a)
  }

  /** The search after n passes, or after the last one. */
  ghost function SearchAfter(p: Prime, roots: set<int>, n: nat): Search {
    if n == 0 then Search({}, [roots], SEED)
    else
      var s := SearchAfter(p, roots, n - 1);
      if s.stack == [] then s else Pass(p, s)
  }

  ghost predicate Unfinished(p: Prime, roots: set<int>, n: nat) {
    SearchAfter(p, roots, n).stack != []
  }

  ghost function Union(stack: seq<set<int>>): set<int> {
    if stack == [] then {} else Union(stack[..|stack| - 1]) + stack[|stack| - 1]
  }

  lemma PushUnion(stack: seq<set<int>>, top: set<int>)
    ensures Union(stack + [top]) == Union(stack) + top
  {
    assert (stack + [top])[..|stack|] == stack;
  }

  lemma PassKeeps(p: Prime, s: Search)
    requires |s.stack| > 0
    ensures Pass(p, s).found + Union(Pass(p, s).stack) == s.found + Union(s.stack)
  {
    hide Unlucky, Side;
    var n := |s.stack| - 1;
    var rest, top := s.stack[..n], s.stack[n];
    var side := Side(p, NextRandom(p, s.state), top);
    PushUnion(rest, side);
    PushUnion(rest + [side], top - side);
  }

  /** What was found and what is on the stack are always all the roots. */
  lemma {:induction false} SearchKeeps(p: Prime, roots: set<int>, n: nat)
    ensures SearchAfter(p, roots, n).found + Union(SearchAfter(p, roots, n).stack) == roots
  {
    if n == 0 {
      PushUnion([], roots);
      assert [] + [roots] == [roots] && Union([]) == {};
    } else {
      hide Pass;
      SearchKeeps(p, roots, n - 1);
      var s := SearchAfter(p, roots, n - 1);
      if s.stack != [] {
        PassKeeps(p, s);
      }
    }
  }

  lemma {:induction false} FinishedStays(p: Prime, roots: set<int>, n: nat, m: nat)
    requires !Unfinished(p, roots, n) && n <= m
    ensures !Unfinished(p, roots, m)
    decreases m
  {
    if n < m {
      FinishedStays(p, roots, n, m - 1);
    }
  }

  // ----- Which shifts the search draws -----

  /** How many of the first n passes drew a shift: those with more than one root on top of the stack. */
  ghost function Draws(p: Prime, roots: set<int>, n: nat): nat {
    if n == 0 then 0
    else
      var stack := SearchAfter(p, roots, n - 1).stack;
      Draws(p, roots, n - 1) + if stack != [] && |stack[|stack| - 1]| > 1 then 1 else 0
  }

  lemma {:induction false} StateIsShift(p: Prime, roots: set<int>, n: nat)
    ensures SearchAfter(p, roots, n).state == Shift(p, Draws(p, roots, n))
  {
    hide *;
    if n == 0 {
      FirstState(p, roots);
    } else {
      StateIsShift(p, roots, n - 1);
      NextState(p, roots, n - 1);
    }
  }

  lemma FirstState(p: Prime, roots: set<int>)
    ensures SearchAfter(p, roots, 0).state == Shift(p, 0) && Draws(p, roots, 0) == 0
  {
  }

  lemma NextState(p: Prime, roots: set<int>, n: nat)
    requires SearchAfter(p, roots, n).state == Shift(p, Draws(p, roots, n))
    ensures SearchAfter(p, roots, n + 1).state == Shift(p, Draws(p, roots, n + 1))
  {
    hide Side, Unlucky, NextRandom;
  }

  /**
   * One pass with the shift a takes a lone root, or none, off the stack. It splits two or more into those that are
   * residues after the shift and the others, which come on top, or leaves them when either part is empty.
   */
  ghost predicate PassBy(p: Prime, s: Search, t: Search, a: int)
    requires |s.stack| > 0
  {
    var rest, top := s.stack[..|s.stack| - 1], s.stack[|s.stack| - 1];
    if |top| <= 1 then t.stack == rest && t.found == s.found + top
    else
      var side := Side(p, a, top);
      && t.stack == (if side == {} || side == top then s.stack else rest + [side, top - side])
      && t.found == s.found
  }

  /** The residues' side: the roots c with (a + c)^((p - 1) / 2) = 1. */
  lemma SideMembers(p: Prime, a: int, roots: set<int>, c: int)
    ensures c in Side(p, a, roots) <==> c in roots && Cong(p, Pow(a + c, (p - 1) / 2), 1)
  {
  }

  lemma PassUsesNext(p: Prime, s: Search)
    requires |s.stack| > 0
    ensures PassBy(p, s, Pass(p, s), NextRandom(p, s.state))
  {
    hide Side, NextRandom;
    var rest, top := s.stack[..|s.stack| - 1], s.stack[|s.stack| - 1];
    var side := Side(p, NextRandom(p, s.state), top);
    assert rest + [side] + [top - side] == rest + [side, top - side];
  }

  /** Every pass uses the shift that follows those drawn before it. */
  lemma PassUsesShift(p: Prime, roots: set<int>, n: nat)
    requires Unfinished(p, roots, n)
    ensures PassBy(p, SearchAfter(p, roots, n), SearchAfter(p, roots, n + 1), Shift(p, Draws(p, roots, n) + 1))
  {
    hide PassBy, Pass, NextRandom;
    StateIsShift(p, roots, n);
    PassUsesNext(p, SearchAfter(p, roots, n));
  }

  // ----- Only unlucky shifts prolong the search -----

  /** Passes that a set of roots needs when every shift splits it. */
  function Cost(roots: set<int>): int {
    if |roots| <= 1 then 1 else 2 * |roots| - 1
  }

  function StackCost(stack: seq<set<int>>): int {
    if stack == [] then 0 else StackCost(stack[..|stack| - 1]) + Cost(stack[|stack| - 1])
  }

  lemma PushCost(stack: seq<set<int>>, top: set<int>)
    ensures StackCost(stack + [top]) == StackCost(stack) + Cost(top)
  {
    assert (stack + [top])[..|stack|] == stack;
  }

  lemma {:induction false} StackCostPositive(stack: seq<set<int>>)
    ensures if stack == [] then StackCost(stack) == 0 else StackCost(stack) > 0
  {
    if stack == [] {
    } else {
      StackCostPositive(stack[..|stack| - 1]);
    }
  }

  /** The next pass draws a shift that splits nothing. */
  ghost predicate Misses(p: Prime, s: Search) {
    |s.stack| > 0 && |s.stack[|s.stack| - 1]| > 1 && Unlucky(p, NextRandom(p, s.state), s.stack[|s.stack| - 1])
  }

  ghost function MissCount(p: Prime, roots: set<int>, n: nat): nat {
    if n == 0 then 0
    else MissCount(p, roots, n - 1) + if Misses(p, SearchAfter(p, roots, n - 1)) then 1 else 0
  }

  lemma PassCost(p: Prime, s: Search)
    requires |s.stack| > 0
    ensures StackCost(Pass(p, s).stack) <= StackCost(s.stack) - if Misses(p, s) then 0 else 1
  {
    var n := |s.stack| - 1;
    var rest, top := s.stack[..n], s.stack[n];
    assert s.stack == rest + [top];
    PushCost(rest, top);
    var a := NextRandom(p, s.state);
    var side := Side(p, a, top);
    if |top| > 1 && !Unlucky(p, a, top) {
      SplitCost(top, side);
      PushCost(rest, side);
      PushCost(rest + [side], top - side);
    }
  }

  lemma SplitCost(top: set<int>, side: set<int>)
    requires side <= top && side != {} && side != top
    ensures Cost(side) + Cost(top - side) == Cost(top) - 1
  {
    assert top == side + (top - side);
    assert |top| == |side| + |top - side|;
    EqualSubsets(side, top);
  }

  /** A search that is still unfinished after n passes has had all but fewer than 2 |roots| of them wasted on misses. */
  lemma {:induction false} UnfinishedMeansMisses(p: Prime, roots: set<int>, n: nat)
    ensures SearchAfter(p, roots, n).stack != [] ==>
              n + StackCost(SearchAfter(p, roots, n).stack) <= Cost(roots) + MissCount(p, roots, n)
    ensures Unfinished(p, roots, n) ==> n < Cost(roots) + MissCount(p, roots, n)
  {
    hide *;
    if n == 0 {
      NoPassYet(p, roots);
    } else {
      UnfinishedMeansMisses(p, roots, n - 1);
      NextPassCost(p, roots, n - 1);
    }
    StackCostPositive(SearchAfter(p, roots, n).stack);
    UnfinishedIs(p, roots, n);
  }

  lemma UnfinishedIs(p: Prime, roots: set<int>, n: nat)
    ensures Unfinished(p, roots, n) <==> SearchAfter(p, roots, n).stack != []
  {
    hide SearchAfter;
  }

  lemma NoPassYet(p: Prime, roots: set<int>)
    ensures StackCost(SearchAfter(p, roots, 0).stack) == Cost(roots) && MissCount(p, roots, 0) == 0
  {
    hide Cost;
    PushCost([], roots);
    assert [] + [roots] == [roots] && StackCost([]) == 0;
  }

  /** What one pass adds to the cost left, the passes made and the misses. */
  lemma NextPassCost(p: Prime, roots: set<int>, n: nat)
    requires SearchAfter(p, roots, n).stack != [] ==>
               n + StackCost(SearchAfter(p, roots, n).stack) <= Cost(roots) + MissCount(p, roots, n)
    ensures SearchAfter(p, roots, n + 1).stack != [] ==>
              n + 1 + StackCost(SearchAfter(p, roots, n + 1).stack) <= Cost(roots) + MissCount(p, roots, n + 1)
  {
    hide StackCost, Cost, Pass, Misses;
    var s := SearchAfter(p, roots, n);
    if s.stack != [] {
      PassCost(p, s);
    }
  }

  // ----- The loop -----

  /** The loop's variables stand for the search: root list, polynomials and randomiser state. */
  ghost predicate Matches(p: Prime, roots: seq<int>, stack: seq<Poly>, state: int, s: Search) {
    && state == s.state && |stack| == |s.stack|
    && (forall x {:trigger x in roots} {:trigger x in s.found} :: x in roots <==> x in s.found)
    && forall i | 0 <= i < |stack| :: IsPart(p, stack[i]) && RootSet(p, stack[i]) == s.stack[i]
  }

  lemma PopMatches(p: Prime, roots: seq<int>, stack: seq<Poly>, top: Poly, state: int, s: Search)
    requires Matches(p, roots, stack + [top], state, s)
    ensures var n := |s.stack| - 1;
            && n >= 0 && IsPart(p, top) && RootSet(p, top) == s.stack[n]
            && Matches(p, roots, stack, state, Search(s.found, s.stack[..n], s.state))
  {
    var all := stack + [top];
    assert all[|stack|] == top;
    assert forall i | 0 <= i < |stack| :: all[i] == stack[i];
  }

  lemma PushMatches(p: Prime, roots: seq<int>, stack: seq<Poly>, f: Poly, state: int, s: Search)
    requires Matches(p, roots, stack, state, s) && IsPart(p, f)
    ensures Matches(p, roots, stack + [f], state, Search(s.found, s.stack + [RootSet(p, f)], s.state))
  {
  }

  /** A linear monic polynomial has the single root -f[0]. */
  lemma LinearRoots(p: Prime, f: Poly, r: int)
    requires Monic(p, f) && |f| == 2 && 0 <= r < p && Cong(p, r, -f[0])
    ensures RootSet(p, f) == {r}
  {
    hide Root;
    forall c | 0 <= c < p
      ensures Root(p, f, c) <==> c == r
    {
      LinearRoot(p, f, r, c);
    }
  }

  /** One pass of the splitting loop on a stack whose top is top. */
  method SplitPass(p: Prime, roots: seq<int>, stack: seq<Poly>, top: Poly, state: int, ghost s: Search)
    returns (roots': seq<int>, stack': seq<Poly>, state': int)
    requires Matches(p, roots, stack + [top], state, s)
    ensures Matches(p, roots', stack', state', Pass(p, s))
  {
    hide IsPart, RootSet, Side, Unlucky, Matches;
    PopMatches(p, roots, stack, top, state, s);
    PartSize(p, top);
    ghost var below := Search(s.found, s.stack[..|s.stack| - 1], s.state);
    roots', stack', state' := roots, stack, state;
    var d := Deg(top);
    if d < 1 {
      DropEmpty(p, roots, stack, state, below, RootSet(p, top));
      return;
    }
    if d == 1 {
      var r := Mod(p, -top[0]);
      LinearRoots(p, top, r);
      roots' := roots + [r];
      AddRoot(p, roots, stack, state, below, r);
      return;
    }
    state' := NextRandom(p, state);
    ghost var drawn := Search(below.found, below.stack, state');
    DrawMatches(p, roots, stack, state, below, state');
    var g := TrySplit(p, top, state');
    if g.None? {
      stack' := stack + [top];
      PushMatches(p, roots, stack, top, state', drawn);
      assert below.stack + [RootSet(p, top)] == s.stack;
      return;
    }
    var q := SplitOff(p, top, g.value);
    PushMatches(p, roots, stack, g.value, state', drawn);
    PushMatches(p, roots, stack + [g.value], q, state',
      Search(drawn.found, drawn.stack + [RootSet(p, g.value)], state'));
    stack' := stack + [g.value] + [q];
  }

  lemma PartSize(p: Prime, f: Poly)
    requires IsPart(p, f)
    ensures Monic(p, f) && |f| >= 1 && Deg(f) == |f| - 1 && |RootSet(p, f)| == |f| - 1
  {
    hide Divides, Root, Frobenius;
    TotallySplit(p, f);
  }

  lemma DropEmpty(p: Prime, roots: seq<int>, stack: seq<Poly>, state: int, s: Search, none: set<int>)
    requires Matches(p, roots, stack, state, s) && |none| == 0
    ensures Matches(p, roots, stack, state, Search(s.found + none, s.stack, s.state))
  {
    assert none == {};
    assert s.found + none == s.found;
  }

  lemma AddRoot(p: Prime, roots: seq<int>, stack: seq<Poly>, state: int, s: Search, r: int)
    requires Matches(p, roots, stack, state, s)
    ensures Matches(p, roots + [r], stack, state, Search(s.found + {r}, s.stack, s.state))
  {
  }

  lemma DrawMatches(p: Prime, roots: seq<int>, stack: seq<Poly>, state: int, s: Search, a: int)
    requires Matches(p, roots, stack, state, s)
    ensures Matches(p, roots, stack, a, Search(s.found, s.stack, a))
  {
  }

  /**
   * The roots of poly in F_p in ascending order. None where the program throws: on the zero polynomial, and exactly
   * when the search on its roots with the deterministic shifts is unfinished after 4097 passes.
   */
  method PolyRootsInField(p: Prime, poly: Poly) returns (result: Option<seq<int>>)
    requires Canon(p, poly)
    ensures result.None? <==> Deg(poly) < 0 || Unfinished(p, RootSet(p, poly), 4097)
    ensures result.Some? ==> Ascending(result.value)
    ensures result.Some? ==> forall c: int {:trigger c in result.value} :: c in result.value <==>
      0 <= c < p && Root(p, poly, c)
  {
    hide Root, Matches, Unfinished, SearchAfter, Pass, IsPart, Divides;
    var split := SplitPart(p, poly);
    if split.None? {
      return None;
    }
    var f := split.value;
    ghost var all := RootSet(p, poly);
    PartSize(p, f);
    if Deg(f) < 1 {
      NothingToFind(p, all);
      assert forall c: int {:trigger Root(p, poly, c)} :: 0 <= c < p && Root(p, poly, c) <==> c in all;
      return Some([]);
    }
    var roots: seq<int>, stack := [], [f];
    var guard, state := 0, SEED;
    StartMatches(p, f);
    while |stack| > 0
      invariant 0 <= guard <= GUARD + 1 && Matches(p, roots, stack, state, SearchAfter(p, all, guard))
      decreases GUARD + 1 - guard
    {
      StillOpen(p, roots, stack, state, all, guard);
      if guard > GUARD {
        return None;
      }
      ghost var s := SearchAfter(p, all, guard);
      guard := guard + 1;
      var n := |stack| - 1;
      var top := stack[n];
      assert stack == stack[..n] + [top];
      roots, stack, state := SplitPass(p, roots, stack[..n], top, state, s);
    }
    var sorted := SortUnique(roots);
    FinishMatches(p, roots, stack, state, all, guard);
    result := Some(sorted);
  }

  lemma StartMatches(p: Prime, f: Poly)
    requires IsPart(p, f)
    ensures Matches(p, [], [f], SEED, SearchAfter(p, RootSet(p, f), 0))
  {
  }

  lemma NothingToFind(p: Prime, none: set<int>)
    requires |none| == 0
    ensures !Unfinished(p, none, GUARD + 1) && none == {}
  {
    assert SearchAfter(p, none, 0).stack == [none];
    assert !Unfinished(p, none, 1);
    FinishedStays(p, none, 1, GUARD + 1);
  }

  lemma StillOpen(p: Prime, roots: seq<int>, stack: seq<Poly>, state: int, all: set<int>, n: nat)
    requires Matches(p, roots, stack, state, SearchAfter(p, all, n)) && |stack| > 0
    ensures Unfinished(p, all, n) && SearchAfter(p, all, n + 1) == Pass(p, SearchAfter(p, all, n))
  {
  }

  lemma FinishMatches(p: Prime, roots: seq<int>, stack: seq<Poly>, state: int, all: set<int>, n: nat)
    requires Matches(p, roots, stack, state, SearchAfter(p, all, n)) && |stack| == 0 && n <= GUARD + 1
    ensures !Unfinished(p, all, GUARD + 1)
    ensures forall c: int {:trigger c in roots} :: c in roots <==> c in all
  {
    SearchKeeps(p, all, n);
    FinishedStays(p, all, n, GUARD + 1);
  }
}
