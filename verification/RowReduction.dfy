/** Gauss-Jordan elimination, and subspaces held as canonical bases. */
module RowReduction {
  import opened PrimeField
  import opened Vectors
  import opened Echelon

  // ----- Row operations keep the span -----

  lemma SpansEqual(p: Prime, a: Mat, b: Mat, n: nat)
    requires Rect(a, n) && Rect(b, n)
    requires forall i | 0 <= i < |a| :: a[i] in Span(p, b, n)
    requires forall i | 0 <= i < |b| :: b[i] in Span(p, a, n)
    ensures Span(p, a, n) == Span(p, b, n)
  {
    SpanSubset(p, a, b, n);
    SpanSubset(p, b, a, n);
  }

  lemma SwapKeepsSpan(p: Prime, m: Mat, n: nat, r: nat, i: nat)
    requires Rect(m, n) && r < |m| && i < |m|
    ensures Span(p, m[r := m[i]][i := m[r]], n) == Span(p, m, n)
  {
    var m' := m[r := m[i]][i := m[r]];
    forall k | 0 <= k < |m|
      ensures m[k] in Span(p, m', n) && m'[k] in Span(p, m, n)
    {
      var l := if k == r then i else if k == i then r else k;
      RowInSpan(p, m, n, l);
      RowInSpan(p, m', n, l);
      assert m'[k] == m[l] && m'[l] == m[k];
    }
    SpansEqual(p, m', m, n);
  }

  /** Replacing row i by a row that depends on it reversibly, modulo row r. */
  lemma ReplaceKeepsSpan(p: Prime, m: Mat, n: nat, i: nat, row: Vec)
    requires Rect(m, n) && i < |m| && |row| == n
    requires row in Span(p, m, n) && m[i] in Span(p, m[i := row], n)
    ensures Span(p, m[i := row], n) == Span(p, m, n)
  {
    var m' := m[i := row];
    forall k | 0 <= k < |m|
      ensures m[k] in Span(p, m', n) && m'[k] in Span(p, m, n)
    {
      if k != i {
        RowInSpan(p, m, n, k);
        RowInSpan(p, m', n, k);
      }
    }
    SpansEqual(p, m', m, n);
  }

  lemma SubtractKeepsSpan(p: Prime, m: Mat, n: nat, i: nat, r: nat, f: int, row: Vec)
    requires Rect(m, n) && i < |m| && r < |m| && i != r && IsAxpy(p, m[i], -f, m[r], row)
    ensures Span(p, m[i := row], n) == Span(p, m, n)
  {
    var m' := m[i := row];
    RowInSpan(p, m, n, i);
    RowInSpan(p, m, n, r);
    SpanAxpy(p, m, n, m[i], -f, m[r], row);
    RowInSpan(p, m', n, i);
    RowInSpan(p, m', n, r);
    AxpyInverse(p, m[i], f, m[r], row);
    SpanAxpy(p, m', n, row, f, m[r], m[i]);
    ReplaceKeepsSpan(p, m, n, i, row);
  }

  lemma AxpyInverse(p: Prime, u: Vec, f: int, v: Vec, z: Vec)
    requires IsAxpy(p, u, -f, v, z)
    ensures IsAxpy(p, z, f, v, u)
  {
    hide Multiple;
    forall j | 0 <= j < |u|
      ensures Cong(p, u[j], z[j] + f * v[j])
    {
      Combine(p, u[j] - (z[j] + f * v[j]), -1, z[j] - (u[j] + (-f) * v[j]), 0, 0);
    }
  }

  lemma ScaleKeepsSpan(p: Prime, m: Mat, n: nat, r: nat, s: int, a: int, row: Vec)
    requires Rect(m, n) && r < |m| && Cong(p, a * s, 1) && IsAxpy(p, Zeros(n), s, m[r], row)
    ensures Span(p, m[r := row], n) == Span(p, m, n)
  {
    var m' := m[r := row];
    ZerosInSpan(p, m, n);
    ZerosInSpan(p, m', n);
    RowInSpan(p, m, n, r);
    RowInSpan(p, m', n, r);
    SpanAxpy(p, m, n, Zeros(n), s, m[r], row);
    ScaleInverse(p, n, s, a, m[r], row);
    SpanAxpy(p, m', n, Zeros(n), a, row, m[r]);
    ReplaceKeepsSpan(p, m, n, r, row);
  }

  lemma ScaleInverse(p: Prime, n: nat, s: int, a: int, v: Vec, z: Vec)
    requires |v| == n && Cong(p, a * s, 1) && IsAxpy(p, Zeros(n), s, v, z)
    ensures IsAxpy(p, Zeros(n), a, z, v)
  {
    hide Multiple;
    forall j | 0 <= j < n
      ensures Cong(p, v[j], Zeros(n)[j] + a * z[j])
    {
      Combine(p, v[j] - (0 + a * z[j]), -a, z[j] - (0 + s * v[j]), -v[j], a * s - 1);
    }
  }

  lemma DropZeroRows(p: Prime, m: Mat, n: nat, r: nat)
    requires Rect(m, n) && r <= |m| && forall i | r <= i < |m| :: m[i] == Zeros(n)
    ensures Span(p, m[..r], n) == Span(p, m, n)
  {
    var top := m[..r];
    ZerosInSpan(p, top, n);
    forall i | 0 <= i < |m|
      ensures m[i] in Span(p, top, n)
    {
      if i < r {
        RowInSpan(p, top, n, i);
      }
    }
    forall i | 0 <= i < r
      ensures top[i] in Span(p, m, n)
    {
      RowInSpan(p, m, n, i);
    }
    SpansEqual(p, top, m, n);
  }

  // ----- The elimination -----

  /** What the elimination has achieved when r pivots are found among the first c columns. */
  ghost predicate Reduced(p: Prime, m: Mat, pivots: seq<nat>, r: nat, c: nat, n: nat) {
    && CanonMat(p, m, n) && |pivots| == r <= |m| && c <= n && Increasing(pivots)
    && (forall k | 0 <= k < r :: pivots[k] < c)
    && (forall i, k | 0 <= i < |m| && 0 <= k < r :: m[i][pivots[k]] == if i == k then 1 else 0)
    && (forall k, j | 0 <= k < r && 0 <= j < pivots[k] :: m[k][j] == 0)
    && (forall i, j | r <= i < |m| && 0 <= j < c :: m[i][j] == 0)
  }

  method FindPivot(m: Mat, r: nat, c: nat) returns (pivot: int)
    requires forall i | 0 <= i < |m| :: c < |m[i]|
    ensures pivot == -1 ==> forall i | r <= i < |m| :: m[i][c] == 0
    ensures pivot != -1 ==> r <= pivot < |m| && m[pivot][c] != 0 && forall i | r <= i < pivot :: m[i][c] == 0
  {
    var i := r;
    while i < |m|
      invariant r <= i && forall k | r <= k < i && k < |m| :: m[k][c] == 0
    {
      if m[i][c] != 0 {
        return i;
      }
      i := i + 1;
    }
    return -1;
  }

  method ScaleRow(p: Prime, row: Vec, scale: int, c: nat) returns (out: Vec)
    requires Canon(p, row) && c <= |row| && forall j | 0 <= j < c :: row[j] == 0
    ensures Canon(p, out) && IsAxpy(p, Zeros(|row|), scale, row, out)
    ensures forall j | 0 <= j < c :: out[j] == 0
  {
    out := row;
    for j := c to |row|
      invariant |out| == |row| && Canon(p, out)
      invariant forall k | 0 <= k < c || j <= k < |row| :: out[k] == row[k]
      invariant forall k | c <= k < j :: Cong(p, out[k], row[k] * scale)
    {
      out := out[j := Mod(p, out[j] * scale)];
    }
    CongRefl(p, 0);
  }

  method SubtractRow(p: Prime, row: Vec, factor: int, base: Vec, c: nat) returns (out: Vec)
    requires Canon(p, row) && |base| == |row| && c <= |row| && forall j | 0 <= j < c :: base[j] == 0
    ensures Canon(p, out) && IsAxpy(p, row, -factor, base, out)
    ensures forall j | 0 <= j < c :: out[j] == row[j]
  {
    out := row;
    for j := c to |row|
      invariant |out| == |row| && Canon(p, out)
      invariant forall k | 0 <= k < c || j <= k < |row| :: out[k] == row[k]
      invariant forall k | c <= k < j :: Cong(p, out[k], row[k] - factor * base[k])
    {
      out := out[j := Mod(p, out[j] - factor * base[j])];
    }
    forall j | 0 <= j < |row|
      ensures Cong(p, out[j], row[j] + (-factor) * base[j])
    {
      if j < c {
        CongRefl(p, row[j]);
      }
    }
  }

  /** Clears column c in every row but r, whose entry there is 1. */
  method ClearColumn(p: Prime, rows: Mat, ghost n: nat, r: nat, c: nat) returns (m: Mat)
    requires CanonMat(p, rows, n) && r < |rows| && c < n
    requires rows[r][c] == 1 && forall j | 0 <= j < c :: rows[r][j] == 0
    ensures CanonMat(p, m, n) && |m| == |rows| && m[r] == rows[r]
    ensures forall i | 0 <= i < |m| && i != r :: m[i][c] == 0
    ensures forall i, j | 0 <= i < |m| && 0 <= j < c :: m[i][j] == rows[i][j]
    ensures Span(p, m, n) == Span(p, rows, n)
  {
    m := rows;
    for i := 0 to |m|
      invariant CanonMat(p, m, n) && |m| == |rows| && m[r] == rows[r]
      invariant forall k | 0 <= k < i && k != r :: m[k][c] == 0
      invariant forall k, j | 0 <= k < |m| && 0 <= j < c :: m[k][j] == rows[k][j]
      invariant Span(p, m, n) == Span(p, rows, n)
    {
      if i == r || m[i][c] == 0 {
        continue;
      }
      var factor := m[i][c];
      var row := SubtractRow(p, m[i], factor, m[r], c);
      SubtractKeepsSpan(p, m, n, i, r, factor, row);
      EntryCleared(p, factor, row[c]);
      m := m[i := row];
    }
  }

  lemma EntryCleared(p: Prime, f: int, x: int)
    requires Cong(p, x, f + (-f) * 1) && 0 <= x < p
    ensures x == 0
  {
    assert f + (-f) * 1 == 0;
    CongEqual(p, x, 0);
  }

  lemma PivotAdded(p: Prime, m: Mat, m': Mat, pivots: seq<nat>, r: nat, c: nat, n: nat)
    requires Reduced(p, m, pivots, r, c, n) && r < |m| && c < n && CanonMat(p, m', n) && |m'| == |m|
    requires m'[r][c] == 1 && forall i | 0 <= i < |m'| && i != r :: m'[i][c] == 0
    requires forall i, j | 0 <= i < |m| && 0 <= j < c :: m'[i][j] == m[i][j]
    ensures Reduced(p, m', pivots + [c], r + 1, c + 1, n)
  {
  }

  lemma EntryOne(p: Prime, a: int, s: int, x: int)
    requires Cong(p, a * s, 1) && Cong(p, x, 0 + s * a) && 0 <= x < p
    ensures x == 1
  {
    assert 0 + s * a == a * s;
    CongTrans(p, x, a * s, 1);
    CongEqual(p, x, 1);
  }

  /** One pass of the elimination's outer loop on a column that has a pivot. */
  method PivotStep(p: Prime, rows: Mat, ghost pivots: seq<nat>, ghost n: nat, r: nat, c: nat, pivot: nat)
    returns (m: Mat)
    requires Reduced(p, rows, pivots, r, c, n) && r <= pivot < |rows| && c < n && rows[pivot][c] != 0
    ensures |m| == |rows| && Reduced(p, m, pivots + [c], r + 1, c + 1, n)
    ensures Span(p, m, n) == Span(p, rows, n)
  {
    m := rows[r := rows[pivot]][pivot := rows[r]];
    SwapKeepsSpan(p, rows, n, r, pivot);
    ghost var swapped := m;
    assert Reduced(p, swapped, pivots, r, c, n);
    NotZero(p, m[r][c]);
    var scale := FInv(p, m[r][c]);
    var row := ScaleRow(p, m[r], scale.value, c);
    ScaleKeepsSpan(p, m, n, r, scale.value, m[r][c], row);
    EntryOne(p, m[r][c], scale.value, row[c]);
    m := m[r := row];
    m := ClearColumn(p, m, n, r, c);
    PivotAdded(p, swapped, m, pivots, r, c, n);
  }

  method Rref(p: Prime, rowsIn: Mat, ghost n: nat) returns (rows: Mat, pivots: seq<nat>)
    requires CanonMat(p, rowsIn, n)
    ensures IsRref(p, rows, pivots, n)
    ensures Span(p, rows, n) == Span(p, rowsIn, n)
    ensures |rows| <= |rowsIn|
  {
    if |rowsIn| == 0 {
      return [], [];
    }
    var m := rowsIn;
    var cols := |m[0]|;
    pivots := [];
    var r, c := 0, 0;
    while c < cols && r < |m|
      invariant |m| == |rowsIn| && 0 <= r && 0 <= c && cols == n && Reduced(p, m, pivots, r, c, n)
      invariant Span(p, m, n) == Span(p, rowsIn, n)
    {
      var pivot := FindPivot(m, r, c);
      if pivot != -1 {
        m := PivotStep(p, m, pivots, n, r, c, pivot);
        pivots := pivots + [c];
        r := r + 1;
      }
      c := c + 1;
    }
    DropZeroRows(p, m, n, r);
    rows := m[..r];
  }

  // ----- Subspaces as canonical bases -----

  predicate AllZero(v: Vec) {
    forall j | 0 <= j < |v| :: v[j] == 0
  }

  function NonZeroRows(vectors: Mat): (m: Mat)
    ensures forall v | v in m :: v in vectors
    ensures forall v | v in vectors :: v in m || AllZero(v)
  {
    if |vectors| == 0 then []
    else
      var rest := NonZeroRows(vectors[1..]);
      assert forall v | v in vectors :: v == vectors[0] || v in vectors[1..];
      if AllZero(vectors[0]) then rest else [vectors[0]] + rest
  }

  lemma NonZeroRowsSpan(p: Prime, vectors: Mat, n: nat)
    requires CanonMat(p, vectors, n)
    ensures CanonMat(p, NonZeroRows(vectors), n)
    ensures Span(p, NonZeroRows(vectors), n) == Span(p, vectors, n)
  {
    var m := NonZeroRows(vectors);
    forall i | 0 <= i < |m|
      ensures |m[i]| == n && Canon(p, m[i]) && m[i] in Span(p, vectors, n)
    {
      assert m[i] in m;
      var k :| 0 <= k < |vectors| && vectors[k] == m[i];
      RowInSpan(p, vectors, n, k);
    }
    ZerosInSpan(p, m, n);
    forall i | 0 <= i < |vectors|
      ensures vectors[i] in Span(p, m, n)
    {
      if AllZero(vectors[i]) {
        assert vectors[i] == Zeros(n);
      } else {
        assert vectors[i] in vectors;
        var k :| 0 <= k < |m| && m[k] == vectors[i];
        RowInSpan(p, m, n, k);
      }
    }
    SpansEqual(p, m, vectors, n);
  }

  /** The canonical basis of the span of some vectors. */
  method SpanBasis(p: Prime, vectors: Mat, ghost n: nat) returns (basis: Mat)
    requires CanonMat(p, vectors, n)
    ensures Canonical(p, basis, n) && Span(p, basis, n) == Span(p, vectors, n)
    ensures |basis| <= |vectors|
  {
    var nonZero := NonZeroRows(vectors);
    NonZeroRowsSpan(p, vectors, n);
    NonZeroRowsSize(vectors);
    if |nonZero| == 0 {
      EmptyCanonical(p, n);
      return [];
    }
    var pivots;
    basis, pivots := Rref(p, nonZero, n);
  }

  lemma {:induction false} NonZeroRowsSize(vectors: Mat)
    ensures |NonZeroRows(vectors)| <= |vectors|
  {
    if |vectors| == 0 {
    } else {
      NonZeroRowsSize(vectors[1..]);
    }
  }

  lemma EmptyCanonical(p: Prime, n: nat)
    ensures Canonical(p, [], n)
  {
    assert IsRref(p, [], [], n);
  }

  predicate SpanEq(a: Mat, b: Mat)
    requires |a| == |b| ==> forall i | 0 <= i < |a| :: |a[i]| <= |b[i]|
  {
    |a| == |b| && forall i, j | 0 <= i < |a| && 0 <= j < |a[i]| :: a[i][j] == b[i][j]
  }

  /** Comparing canonical bases entry by entry decides equality of the subspaces. */
  lemma SpanEqDecides(p: Prime, a: Mat, b: Mat, n: nat)
    requires Canonical(p, a, n) && Canonical(p, b, n)
    ensures SpanEq(a, b) <==> Span(p, a, n) == Span(p, b, n)
  {
    CanonicalUnique(p, a, b, n);
    if SpanEq(a, b) {
      forall i | 0 <= i < |a|
        ensures a[i] == b[i]
      {
      }
    }
  }
}
