/** Merkle trees: a reference tree, the sparse and dense builders, inclusion paths and the path fold. */
module MerkleTree {
  import opened PrimeField

  type Hash = (int, int) -> int

  /** An inclusion path: one sibling and one side bit per level. */
  datatype Path = Path(elements: seq<int>, indices: seq<int>)

  // ----- The reference tree: infinitely many leaves, all but the first ones equal to z -----

  ghost function Node(h: Hash, leaves: seq<int>, z: int, l: nat, i: nat): int {
    if l == 0 then if i < |leaves| then leaves[i] else z
    else h(Node(h, leaves, z, l - 1, 2 * i), Node(h, leaves, z, l - 1, 2 * i + 1))
  }

  ghost function ZeroAt(h: Hash, z: int, l: nat): int {
    if l == 0 then z else h(ZeroAt(h, z, l - 1), ZeroAt(h, z, l - 1))
  }

  /** The number of nodes of level l above at least one of n leaves. */
  ghost function Width(n: nat, l: nat): nat {
    if l == 0 then n else (Width(n, l - 1) + 1) / 2
  }

  /** The number of leaves of a tree of depth l. */
  function Pow2(l: nat): (n: nat)
    ensures n > 0 && n == Pow(2, l) && (l > 0 ==> n == 2 * Pow(2, l - 1))
  {
    PowPositive(2, l);
    Pow(2, l)
  }

  function Sibling(i: nat): nat {
    if i % 2 == 0 then i + 1 else i - 1
  }

  /** The ancestor of leaf k on level l. */
  ghost function Ancestor(k: nat, l: nat): nat {
    if l == 0 then k else Ancestor(k, l - 1) / 2
  }

  ghost predicate IsLevel(h: Hash, leaves: seq<int>, z: int, l: nat, level: seq<int>) {
    forall i | 0 <= i < |level| :: level[i] == Node(h, leaves, z, l, i)
  }

  /** Element l is the sibling of leaf k's ancestor on level l, and bit l is the side that ancestor is on. */
  ghost predicate IsPath(h: Hash, leaves: seq<int>, z: int, k: nat, depth: nat, path: Path) {
    && |path.elements| == |path.indices| == depth
    && (forall l {:trigger path.elements[l]} | 0 <= l < depth ::
      path.elements[l] == Node(h, leaves, z, l, Sibling(Ancestor(k, l))))
    && (forall l {:trigger path.indices[l]} | 0 <= l < depth :: path.indices[l] == Ancestor(k, l) % 2)
  }

  /** The parent of node a of level l, seen from a's side. */
  lemma NodeStep(h: Hash, leaves: seq<int>, z: int, l: nat, a: nat)
    ensures Node(h, leaves, z, l + 1, a / 2) ==
            if a % 2 == 0 then h(Node(h, leaves, z, l, a), Node(h, leaves, z, l, Sibling(a)))
            else h(Node(h, leaves, z, l, Sibling(a)), Node(h, leaves, z, l, a))
  {
    hide *;
    NodeIs(h, leaves, z, l, a / 2);
    Siblings(a);
  }

  lemma NodeIs(h: Hash, leaves: seq<int>, z: int, l: nat, b: nat)
    ensures Node(h, leaves, z, l + 1, b) == h(Node(h, leaves, z, l, 2 * b), Node(h, leaves, z, l, 2 * b + 1))
  {
  }

  lemma Siblings(a: nat)
    ensures var b := a / 2;
            if a % 2 == 0 then a == 2 * b && Sibling(a) == 2 * b + 1 else a == 2 * b + 1 && Sibling(a) == 2 * b
  {
  }

  lemma PathLonger(h: Hash, leaves: seq<int>, z: int, k: nat, path: Path, n: nat, element: int, bit: int, longer: Path)
    requires IsPath(h, leaves, z, k, n, path) && longer == Path(path.elements + [element], path.indices + [bit])
    requires element == Node(h, leaves, z, n, Sibling(Ancestor(k, n))) && bit == Ancestor(k, n) % 2
    ensures IsPath(h, leaves, z, k, n + 1, longer)
  {
    hide Node, Ancestor;
  }

  /** Outside the occupied part every node is the all-zero subtree of its level. */
  lemma {:induction false} UnoccupiedNode(h: Hash, leaves: seq<int>, z: int, l: nat, i: nat)
    requires i >= Width(|leaves|, l)
    ensures Node(h, leaves, z, l, i) == ZeroAt(h, z, l)
  {
    if l == 0 {
    } else {
      UnoccupiedNode(h, leaves, z, l - 1, 2 * i);
      UnoccupiedNode(h, leaves, z, l - 1, 2 * i + 1);
    }
  }

  lemma {:induction false} WidthFits(n: nat, d: nat, l: nat)
    requires 1 <= n <= Pow2(d) && l <= d
    ensures 1 <= Width(n, l) <= Pow2(d - l)
  {
    if l == 0 {
    } else {
      WidthFits(n, d, l - 1);
    }
  }

  lemma {:induction false} AncestorInWidth(n: nat, k: nat, l: nat)
    requires k < n
    ensures Ancestor(k, l) < Width(n, l)
  {
    if l == 0 {
    } else {
      AncestorInWidth(n, k, l - 1);
    }
  }

  lemma {:induction false} AncestorBound(k: nat, d: nat, l: nat)
    requires k < Pow2(d) && l <= d
    ensures Ancestor(k, l) < Pow2(d - l)
  {
    if l == 0 {
    } else {
      AncestorBound(k, d, l - 1);
    }
  }

  // ----- The sparse builder -----

  method ZeroChain(h: Hash, z: int, depth: nat) returns (zeros: seq<int>)
    ensures |zeros| == depth + 1 && forall l | 0 <= l <= depth :: zeros[l] == ZeroAt(h, z, l)
  {
    zeros := [z];
    for i := 0 to depth
      invariant |zeros| == i + 1 && forall l | 0 <= l <= i :: zeros[l] == ZeroAt(h, z, l)
    {
      zeros := zeros + [h(zeros[i], zeros[i])];
    }
  }

  /** The parents of the occupied nodes of level l. */
  method NextSparseLevel(h: Hash, ghost leaves: seq<int>, ghost z: int, ghost l: nat, level: seq<int>, zero: int)
    returns (next: seq<int>)
    requires |level| == Width(|leaves|, l) && IsLevel(h, leaves, z, l, level) && zero == ZeroAt(h, z, l)
    ensures |next| == Width(|leaves|, l + 1) && IsLevel(h, leaves, z, l + 1, next)
  {
    next := [];
    var i := 0;
    while i < |level|
      invariant 0 <= i <= |level| + 1 && i == 2 * |next| && IsLevel(h, leaves, z, l + 1, next)
    {
      var left := level[i];
      var right := if i + 1 < |level| then level[i + 1] else zero;
      if i + 1 >= |level| {
        UnoccupiedNode(h, leaves, z, l, i + 1);
      }
      assert Node(h, leaves, z, l + 1, |next|) == h(Node(h, leaves, z, l, i), Node(h, leaves, z, l, i + 1));
      next := next + [h(left, right)];
      i := i + 2;
    }
  }

  /** Level l holds exactly the nodes above at least one leaf. */
  ghost predicate AreOccupied(h: Hash, leaves: seq<int>, z: int, levels: seq<seq<int>>) {
    forall l | 0 <= l < |levels| :: |levels[l]| == Width(|leaves|, l) && IsLevel(h, leaves, z, l, levels[l])
  }

  /** Levels 0 to depth of the occupied part; depth 0 with several leaves still hashes one level. */
  method BuildOccupied(h: Hash, leaves: seq<int>, z: int, depth: nat, zeros: seq<int>) returns (levels: seq<seq<int>>)
    requires |zeros| == depth + 1 && forall l | 0 <= l <= depth :: zeros[l] == ZeroAt(h, z, l)
    ensures |levels| == 1 + TopLevel(|leaves|, depth)
    ensures AreOccupied(h, leaves, z, levels)
  {
    hide Node, ZeroAt;
    var level := leaves;
    levels := [level];
    LeafLevel(h, leaves, z);
    var width, levelIndex := |level|, 0;
    while width > 1 || levelIndex < depth
      invariant levelIndex == 0 || levelIndex < depth
      invariant levelIndex == 0 ==> levels == [leaves]
      invariant |levels| == levelIndex + 1 && level == levels[levelIndex] && width == |level|
      invariant AreOccupied(h, leaves, z, levels)
      decreases depth + 1 - levelIndex
    {
      level := NextSparseLevel(h, leaves, z, levelIndex, level, zeros[levelIndex]);
      levelIndex := levelIndex + 1;
      levels := levels + [level];
      width := |level|;
      if levelIndex >= depth {
        break;
      }
    }
  }

  lemma LeafLevel(h: Hash, leaves: seq<int>, z: int)
    ensures IsLevel(h, leaves, z, 0, leaves)
  {
  }

  function TopLevel(n: nat, depth: nat): nat {
    if depth == 0 && n > 1 then 1 else depth
  }

  method SparsePath(h: Hash, ghost leaves: seq<int>, ghost z: int, depth: nat, zeros: seq<int>,
      levels: seq<seq<int>>, leafIndex: nat)
    returns (path: Path)
    requires |zeros| == depth + 1 && forall l | 0 <= l <= depth :: zeros[l] == ZeroAt(h, z, l)
    requires |levels| > depth && AreOccupied(h, leaves, z, levels)
    ensures IsPath(h, leaves, z, leafIndex, depth, path)
  {
    var elements, indices, index := [], [], leafIndex;
    for l := 0 to depth
      invariant index == Ancestor(leafIndex, l) && IsPath(h, leaves, z, leafIndex, l, Path(elements, indices))
    {
      var siblingIndex := Sibling(index);
      var nodes := levels[l];
      var sibling := if siblingIndex < |nodes| then nodes[siblingIndex] else zeros[l];
      if siblingIndex >= |nodes| {
        UnoccupiedNode(h, leaves, z, l, siblingIndex);
      }
      PathLonger(h, leaves, z, leafIndex, Path(elements, indices), l, sibling, index % 2,
                 Path(elements + [sibling], indices + [index % 2]));
      elements, indices := elements + [sibling], indices + [index % 2];
      index := index / 2;
    }
    path := Path(elements, indices);
  }

  datatype SparseTree = SparseTree(root: Option<int>, levels: seq<seq<int>>, paths: seq<Path>)

  /** What the sparse builder promises; the root is undefined (None) without leaves. */
  ghost predicate IsSparse(h: Hash, leaves: seq<int>, z: int, depth: nat, tree: SparseTree) {
    && (tree.root.None? <==> |leaves| == 0)
    && (tree.root.Some? ==> tree.root.value == Node(h, leaves, z, TopLevel(|leaves|, depth), 0))
    && |tree.levels| == 1 + TopLevel(|leaves|, depth)
    && AreOccupied(h, leaves, z, tree.levels)
    && |tree.paths| == |leaves|
    && forall k {:trigger tree.paths[k]} | 0 <= k < |leaves| :: IsPath(h, leaves, z, k, depth, tree.paths[k])
  }

  method BuildTree(h: Hash, leaves: seq<int>, z: int, depth: nat) returns (tree: SparseTree)
    ensures IsSparse(h, leaves, z, depth, tree)
  {
    var zeros := ZeroChain(h, z, depth);
    var levels := BuildOccupied(h, leaves, z, depth, zeros);
    var paths := [];
    for k := 0 to |leaves|
      invariant |paths| == k && forall j | 0 <= j < k :: IsPath(h, leaves, z, j, depth, paths[j])
    {
      var path := SparsePath(h, leaves, z, depth, zeros, levels, k);
      paths := paths + [path];
    }
    var top := levels[|levels| - 1];
    WidthPositive(|leaves|, |levels| - 1);
    var root := if |top| == 0 then None else Some(top[0]);
    tree := SparseTree(root, levels, paths);
  }

  lemma {:induction false} WidthPositive(n: nat, l: nat)
    ensures Width(n, l) > 0 <==> n > 0
  {
    if l == 0 {
    } else {
      WidthPositive(n, l - 1);
    }
  }

  /** Node i of level l is occupied exactly when the first leaf below it is one of the n. */
  lemma {:induction false} WidthCovers(n: nat, l: nat, i: nat)
    ensures i < Width(n, l) <==> i * Pow2(l) < n
  {
    if l == 0 {
      assert Pow2(0) == 1;
    } else {
      WidthCovers(n, l - 1, 2 * i);
      Halves(i, Pow2(l - 1), Pow2(l));
    }
  }

  // ----- The dense builder -----

  /** Length of the padded leaf layer. */
  ghost function PaddedSize(n: nat, depth: nat): nat {
    if n < Pow2(depth) then Pow2(depth) else n
  }

  /** The parents of a layer; None where the program hashes a missing right child. */
  method NextDenseLayer(h: Hash, ghost leaves: seq<int>, ghost z: int, ghost l: nat, layer: seq<int>)
    returns (next: Option<seq<int>>)
    requires IsLevel(h, leaves, z, l, layer)
    ensures next.None? <==> |layer| % 2 == 1
    ensures next.Some? ==> 2 * |next.value| == |layer| && IsLevel(h, leaves, z, l + 1, next.value)
  {
    var out := [];
    var i := 0;
    while i < |layer|
      invariant 0 <= i && i == 2 * |out| && i <= |layer| && IsLevel(h, leaves, z, l + 1, out)
    {
      if i + 1 >= |layer| {
        return None;
      }
      assert Node(h, leaves, z, l + 1, |out|) == h(Node(h, leaves, z, l, i), Node(h, leaves, z, l, i + 1));
      out := out + [h(layer[i], layer[i + 1])];
      i := i + 2;
    }
    next := Some(out);
  }

  datatype DenseTree = DenseTree(layers: seq<seq<int>>, root: int, zeros: seq<int>)

  /** Layer l has size / 2^l nodes, all of them nodes of the reference tree. */
  ghost predicate AreLayers(h: Hash, leaves: seq<int>, z: int, size: nat, layers: seq<seq<int>>) {
    forall l | 0 <= l < |layers| :: |layers[l]| * Pow2(l) == size && IsLevel(h, leaves, z, l, layers[l])
  }

  /** What the dense builder promises. */
  ghost predicate IsDense(h: Hash, leaves: seq<int>, z: int, depth: nat, tree: DenseTree) {
    && |tree.layers| == depth + 1 && AreLayers(h, leaves, z, PaddedSize(|leaves|, depth), tree.layers)
    && tree.root == Node(h, leaves, z, depth, 0)
    && |tree.zeros| == depth + 1 && forall l | 0 <= l <= depth :: tree.zeros[l] == ZeroAt(h, z, l)
  }

  /** The dense tree, or None where the program throws: exactly when 2^depth does not divide the padded size. */
  method BuildMerkleTree(h: Hash, leaves: seq<int>, z: int, depth: nat) returns (tree: Option<DenseTree>)
    ensures tree.Some? <==> PaddedSize(|leaves|, depth) % Pow2(depth) == 0
    ensures tree.Some? ==> IsDense(h, leaves, z, depth, tree.value)
  {
    var treeSize := Pow2(depth);
    var zeros := ZeroChain(h, z, depth);
    var padded := Pad(h, leaves, z, treeSize);
    ghost var size := |padded|;
    var layers := [padded];
    var current := padded;
    for level := 0 to depth
      invariant |layers| == level + 1 && current == layers[level] && AreLayers(h, leaves, z, size, layers)
    {
      var next := NextDenseLayer(h, leaves, z, level, current);
      if next.None? {
        OddLayer(size, |current|, level, depth);
        return None;
      }
      HalfLayer(size, |current|, |next.value|, level);
      layers := layers + [next.value];
      current := next.value;
    }
    DivisibleSize(size, |current|, depth);
    tree := Some(DenseTree(layers, layers[depth][0], zeros));
  }

  method Pad(h: Hash, leaves: seq<int>, z: int, treeSize: nat) returns (padded: seq<int>)
    ensures |padded| == (if |leaves| < treeSize then treeSize else |leaves|) && IsLevel(h, leaves, z, 0, padded)
  {
    padded := leaves;
    while |padded| < treeSize
      invariant |leaves| <= |padded| && (|padded| <= treeSize || padded == leaves) && IsLevel(h, leaves, z, 0, padded)
      decreases treeSize - |padded|
    {
      padded := padded + [z];
    }
  }

  lemma MulCancel(x: int, y: int, m: int)
    requires m > 0 && x * m == y * m
    ensures x == y
  {
    assert (x - y) * m == 0;
  }

  lemma OddLayer(size: nat, n: nat, l: nat, depth: nat)
    requires n * Pow2(l) == size && l < depth && n % 2 == 1
    ensures size % Pow2(depth) != 0
  {
    if Multiple(size, Pow2(depth)) {
      var q := Quotient(size, Pow2(depth));
      PowSplit(l, depth);
      OddFactor(n, q, Pow2(depth - l - 1), Pow2(l), Pow2(depth), size);
      assert false;
    }
  }

  lemma OddFactor(n: int, q: int, r: int, m: int, p: int, size: int)
    requires p == 2 * r * m && size == q * p && n * m == size && m > 0
    ensures n % 2 == 0
  {
    var t := q * r;
    assert q * p == (2 * t) * m;
    MulCancel(n, 2 * t, m);
  }

  lemma {:induction false} PowSplit(l: nat, depth: nat)
    requires l < depth
    ensures Pow2(depth) == 2 * Pow2(depth - l - 1) * Pow2(l)
  {
    if l == 0 {
    } else {
      PowSplit(l - 1, depth - 1);
    }
  }

  lemma HalfLayer(size: nat, n: nat, m: nat, l: nat)
    requires n * Pow2(l) == size && 2 * m == n
    ensures m * Pow2(l + 1) == size
  {
  }

  lemma DivisibleSize(size: nat, n: nat, depth: nat)
    requires n * Pow2(depth) == size && size > 0
    ensures size % Pow2(depth) == 0 && n > 0
  {
    MultipleOf(n, Pow2(depth));
    assert Multiple(size, Pow2(depth));
  }

  method GetMerkleProof(h: Hash, ghost leaves: seq<int>, ghost z: int, depth: nat, tree: DenseTree, leafIndex: nat)
    returns (path: Path)
    requires IsDense(h, leaves, z, depth, tree) && |leaves| <= Pow2(depth) && leafIndex < Pow2(depth)
    ensures IsPath(h, leaves, z, leafIndex, depth, path)
  {
    var elements, indices, idx := [], [], leafIndex;
    for level := 0 to depth
      invariant idx == Ancestor(leafIndex, level) && IsPath(h, leaves, z, leafIndex, level, Path(elements, indices))
    {
      var siblingIdx := if idx % 2 == 0 then idx + 1 else idx - 1;
      AncestorBound(leafIndex, depth, level);
      LayerSize(|tree.layers[level]|, depth, level);
      var sibling := tree.layers[level][siblingIdx];
      PathLonger(h, leaves, z, leafIndex, Path(elements, indices), level, sibling, idx % 2,
                 Path(elements + [sibling], indices + [idx % 2]));
      elements, indices := elements + [sibling], indices + [idx % 2];
      idx := idx / 2;
    }
    path := Path(elements, indices);
  }

  lemma LayerSize(n: nat, depth: nat, l: nat)
    requires n * Pow2(l) == Pow2(depth) && l < depth
    ensures n == Pow2(depth - l) && n % 2 == 0
  {
    var r, m := Pow2(depth - l - 1), Pow2(l);
    PowSplit(l, depth);
    assert Pow2(depth - l) == 2 * r;
    LayerFactor(n, r, m, Pow2(depth));
  }

  lemma LayerFactor(n: nat, r: nat, m: nat, d: nat)
    requires n * m == d && d == 2 * r * m && m > 0
    ensures n == 2 * r && n % 2 == 0
  {
    MulCancel(n, 2 * r, m);
  }

  // ----- The two builders agree -----

  /** Equal roots, equal paths, and the sparse levels are prefixes of the dense layers. */
  lemma SparseAgreesWithDense(h: Hash, leaves: seq<int>, z: int, depth: nat, sparse: SparseTree, dense: DenseTree,
      k: nat, path: Path)
    requires 1 <= |leaves| <= Pow2(depth) && k < |leaves|
    requires IsSparse(h, leaves, z, depth, sparse) && IsDense(h, leaves, z, depth, dense)
    requires IsPath(h, leaves, z, k, depth, path)
    ensures sparse.root == Some(dense.root) && sparse.paths[k] == path
    ensures |sparse.levels| == |dense.layers| == depth + 1
    ensures forall l | 0 <= l <= depth :: sparse.levels[l] <= dense.layers[l]
  {
    forall l | 0 <= l <= depth
      ensures sparse.levels[l] <= dense.layers[l]
    {
      WidthFits(|leaves|, depth, l);
      DenseLength(|dense.layers[l]|, depth, l);
    }
    PathUnique(h, leaves, z, k, depth, sparse.paths[k], path);
  }

  lemma DenseLength(n: nat, depth: nat, l: nat)
    requires n * Pow2(l) == Pow2(depth) && l <= depth
    ensures n == Pow2(depth - l)
  {
    if l < depth {
      LayerSize(n, depth, l);
    } else {
      assert (n - 1) * Pow2(l) == 0;
    }
  }

  lemma PathUnique(h: Hash, leaves: seq<int>, z: int, k: nat, depth: nat, a: Path, b: Path)
    requires IsPath(h, leaves, z, k, depth, a) && IsPath(h, leaves, z, k, depth, b)
    ensures a == b
  {
    assert a.elements == b.elements && a.indices == b.indices;
  }

  // ----- Folding a leaf along a path -----

  ghost function Fold(h: Hash, leaf: int, path: Path, n: nat): int
    requires n <= |path.elements| && n <= |path.indices|
  {
    if n == 0 then leaf
    else if path.indices[n - 1] == 0 then h(Fold(h, leaf, path, n - 1), path.elements[n - 1])
    else h(path.elements[n - 1], Fold(h, leaf, path, n - 1))
  }

  ghost function Spell(bits: seq<int>, n: nat): int
    requires n <= |bits|
  {
    if n == 0 then 0 else Spell(bits, n - 1) + bits[n - 1] * Pow2(n - 1)
  }

  lemma FoldStep(h: Hash, leaves: seq<int>, z: int, k: nat, depth: nat, path: Path, n: nat)
    requires IsPath(h, leaves, z, k, depth, path) && n < depth
    requires Fold(h, Node(h, leaves, z, 0, k), path, n) == Node(h, leaves, z, n, Ancestor(k, n))
    ensures Fold(h, Node(h, leaves, z, 0, k), path, n + 1) == Node(h, leaves, z, n + 1, Ancestor(k, n + 1))
  {
    var a, leaf := Ancestor(k, n), Node(h, leaves, z, 0, k);
    assert path.elements[n] == Node(h, leaves, z, n, Sibling(a)) && path.indices[n] == a % 2;
    assert Fold(h, leaf, path, n + 1) ==
           if path.indices[n] == 0 then h(Fold(h, leaf, path, n), path.elements[n])
           else h(path.elements[n], Fold(h, leaf, path, n));
    assert Ancestor(k, n + 1) == a / 2;
    hide *;
    NodeStep(h, leaves, z, n, a);
  }

  lemma {:induction false} FoldReaches(h: Hash, leaves: seq<int>, z: int, k: nat, depth: nat, path: Path, n: nat)
    requires IsPath(h, leaves, z, k, depth, path) && n <= depth
    ensures Fold(h, Node(h, leaves, z, 0, k), path, n) == Node(h, leaves, z, n, Ancestor(k, n))
  {
    if n > 0 {
      hide Node, Fold, Ancestor;
      FoldReaches(h, leaves, z, k, depth, path, n - 1);
      FoldStep(h, leaves, z, k, depth, path, n - 1);
    }
  }

  lemma SpellStep(s: int, m: int, a: int, k: int)
    requires s + m * a == k
    ensures (s + (a % 2) * m) + (2 * m) * (a / 2) == k
  {
    var q, r := a / 2, a % 2;
    assert a == 2 * q + r;
    assert m * a == (2 * m) * q + r * m;
  }

  lemma {:induction false} BitsSpell(h: Hash, leaves: seq<int>, z: int, k: nat, depth: nat, path: Path, n: nat)
    requires IsPath(h, leaves, z, k, depth, path) && n <= depth
    ensures Spell(path.indices, n) + Pow2(n) * Ancestor(k, n) == k
  {
    if n == 0 {
    } else {
      hide Node;
      BitsSpell(h, leaves, z, k, depth, path, n - 1);
      SpellStep(Spell(path.indices, n - 1), Pow2(n - 1), Ancestor(k, n - 1), k);
    }
  }

  /** Completeness: the leaf folded along its path gives the root, and the bits spell its position. */
  lemma PathOpensRoot(h: Hash, leaves: seq<int>, z: int, k: nat, depth: nat, path: Path)
    requires IsPath(h, leaves, z, k, depth, path) && k < Pow2(depth)
    ensures Fold(h, Node(h, leaves, z, 0, k), path, depth) == Node(h, leaves, z, depth, 0)
    ensures Spell(path.indices, depth) == k
  {
    FoldReaches(h, leaves, z, k, depth, path, depth);
    BitsSpell(h, leaves, z, k, depth, path, depth);
    AncestorBound(k, depth, depth);
  }

  ghost predicate Injective(h: Hash) {
    forall a, b, c, d {:trigger h(a, b), h(c, d)} :: h(a, b) == h(c, d) ==> a == c && b == d
  }

  lemma SplitHash(h: Hash, a: int, b: int, c: int, d: int)
    requires Injective(h) && h(a, b) == h(c, d)
    ensures a == c && b == d
  {
  }

  /** The last step of a fold that reaches the parent of a carries a's value and a's sibling. */
  lemma SplitNode(h: Hash, leaves: seq<int>, z: int, a: nat, running: int, element: int, n: nat)
    requires Injective(h)
    requires Node(h, leaves, z, n + 1, a / 2) == if a % 2 == 0 then h(running, element) else h(element, running)
    ensures running == Node(h, leaves, z, n, a) && element == Node(h, leaves, z, n, Sibling(a))
  {
    NodeStep(h, leaves, z, n, a);
    hide *;
    var x, y := Node(h, leaves, z, n, a), Node(h, leaves, z, n, Sibling(a));
    if a % 2 == 0 {
      SplitHash(h, running, element, x, y);
    } else {
      SplitHash(h, element, running, y, x);
    }
  }

  /** Binding: with an injective pair hash, whatever folds to the node above position k is the tree's own path. */
  lemma {:induction false} FoldBinds(h: Hash, leaves: seq<int>, z: int, k: nat, leaf: int, path: Path, n: nat)
    requires Injective(h) && n <= |path.elements| && n <= |path.indices|
    requires forall l {:trigger path.indices[l]} | 0 <= l < n :: path.indices[l] == Ancestor(k, l) % 2
    requires Fold(h, leaf, path, n) == Node(h, leaves, z, n, Ancestor(k, n))
    ensures leaf == Node(h, leaves, z, 0, k)
    ensures forall l {:trigger path.elements[l]} | 0 <= l < n ::
      path.elements[l] == Node(h, leaves, z, l, Sibling(Ancestor(k, l)))
  {
    if n == 0 {
    } else {
      hide Node, Injective, Sibling;
      var a, m := Ancestor(k, n - 1), n - 1;
      assert path.indices[m] == a % 2;
      SplitNode(h, leaves, z, a, Fold(h, leaf, path, m), path.elements[m], m);
      FoldBinds(h, leaves, z, k, leaf, path, m);
    }
  }

  /** The number spelled by the bits from position n on. */
  ghost function Rest(bits: seq<int>, n: nat): int
    requires n <= |bits|
    decreases |bits| - n
  {
    if n == |bits| then 0 else bits[n] + 2 * Rest(bits, n + 1)
  }

  ghost predicate AreBits(bits: seq<int>) {
    forall l | 0 <= l < |bits| :: bits[l] == 0 || bits[l] == 1
  }

  lemma {:induction false} SpellRest(bits: seq<int>, n: nat)
    requires n <= |bits|
    ensures Spell(bits, |bits|) == Spell(bits, n) + Pow2(n) * Rest(bits, n)
    decreases |bits| - n
  {
    if n < |bits| {
      SpellRest(bits, n + 1);
      Distribute(Pow2(n), bits[n], Rest(bits, n + 1));
    }
  }

  lemma Distribute(m: int, b: int, r: int)
    ensures m * (b + 2 * r) == b * m + (2 * m) * r
  {
  }

  lemma {:induction false} AncestorIsRest(bits: seq<int>, k: nat, n: nat)
    requires AreBits(bits) && Rest(bits, 0) == k && n <= |bits|
    ensures Ancestor(k, n) == Rest(bits, n)
  {
    if n == 0 {
    } else {
      AncestorIsRest(bits, k, n - 1);
    }
  }

  /** The bits that spell k are the sides of k's ancestors, and k lies below 2^depth. */
  lemma SpelledSides(bits: seq<int>, k: nat)
    requires AreBits(bits) && Spell(bits, |bits|) == k
    ensures Ancestor(k, |bits|) == 0
    ensures forall l {:trigger bits[l]} | 0 <= l < |bits| :: bits[l] == Ancestor(k, l) % 2
  {
    hide *;
    SpellIsRest(bits);
    AncestorIsRest(bits, k, |bits|);
    LastRest(bits);
    forall l | 0 <= l < |bits|
      ensures bits[l] == Ancestor(k, l) % 2
    {
      AncestorIsRest(bits, k, l);
      RestBit(bits, l);
    }
  }

  lemma SpellIsRest(bits: seq<int>)
    ensures Spell(bits, |bits|) == Rest(bits, 0)
  {
    assert Spell(bits, 0) == 0 && Pow2(0) == 1;
    hide *;
    SpellRest(bits, 0);
  }

  lemma LastRest(bits: seq<int>)
    ensures Rest(bits, |bits|) == 0
  {
  }

  lemma RestBit(bits: seq<int>, l: nat)
    requires AreBits(bits) && l < |bits|
    ensures Rest(bits, l) % 2 == bits[l]
  {
    var r := Rest(bits, l + 1);
    assert Rest(bits, l) == bits[l] + 2 * r;
    hide Rest;
  }

  /**
   * Soundness of membership: whatever opens the root at the position its bits spell
   * is the tree's own leaf and path.
   */
  lemma RootBinds(h: Hash, leaves: seq<int>, z: int, k: nat, depth: nat, leaf: int, path: Path)
    requires Injective(h) && |path.elements| == |path.indices| == depth
    requires AreBits(path.indices) && Spell(path.indices, depth) == k
    requires Fold(h, leaf, path, depth) == Node(h, leaves, z, depth, 0)
    ensures leaf == Node(h, leaves, z, 0, k) && IsPath(h, leaves, z, k, depth, path)
  {
    hide Injective, Node;
    SpelledSides(path.indices, k);
    FoldBinds(h, leaves, z, k, leaf, path, depth);
  }

  /** Left before right, later leaves to the right, and bit 0 for a left child: three leaves and a zero leaf. */
  lemma ThreeLeaves(h: Hash, a: int, b: int, c: int, z: int)
    ensures var path := Path([z, h(a, b)], [0, 1]);
            && Node(h, [a, b, c], z, 2, 0) == h(h(a, b), h(c, z))
            && IsPath(h, [a, b, c], z, 2, 2, path)
            && Fold(h, c, path, 2) == h(h(a, b), h(c, z))
  {
    var leaves, path := [a, b, c], Path([z, h(a, b)], [0, 1]);
    assert Node(h, leaves, z, 0, 0) == a && Node(h, leaves, z, 0, 1) == b;
    assert Node(h, leaves, z, 0, 2) == c && Node(h, leaves, z, 0, 3) == z;
    assert Node(h, leaves, z, 1, 0) == h(a, b) && Node(h, leaves, z, 1, 1) == h(c, z);
    assert Ancestor(2, 0) == 2 && Ancestor(2, 1) == 1;
    assert Fold(h, c, path, 0) == c && Fold(h, c, path, 1) == h(c, z);
  }

  // ----- When two trees share a root -----

  ghost function LeafAt(leaves: seq<int>, z: int, k: nat): int {
    if k < |leaves| then leaves[k] else z
  }

  /** The padded leaves below node i of level l. */
  ghost function LeavesBelow(leaves: seq<int>, z: int, l: nat, i: nat): (below: seq<int>)
    ensures |below| == Pow2(l)
  {
    if l == 0 then [LeafAt(leaves, z, i)]
    else LeavesBelow(leaves, z, l - 1, 2 * i) + LeavesBelow(leaves, z, l - 1, 2 * i + 1)
  }

  lemma {:induction false} LeavesBelowAt(leaves: seq<int>, z: int, l: nat, i: nat, first: nat, j: nat)
    requires first == i * Pow2(l) && j < Pow2(l)
    ensures LeavesBelow(leaves, z, l, i)[j] == LeafAt(leaves, z, first + j)
  {
    if l == 0 {
      assert Pow2(0) == 1;
    } else {
      var m := Pow2(l - 1);
      Halves(i, m, Pow2(l));
      if j < m {
        LeavesBelowAt(leaves, z, l - 1, 2 * i, first, j);
      } else {
        LeavesBelowAt(leaves, z, l - 1, 2 * i + 1, first + m, j - m);
      }
    }
  }

  lemma Halves(i: nat, m: nat, d: nat)
    requires d == 2 * m
    ensures i * d == (2 * i) * m && i * d + m == (2 * i + 1) * m
  {
  }

  /** With an injective pair hash two nodes agree exactly when the padded leaves below them do. */
  lemma {:induction false} NodesAgreeIff(h: Hash, a: seq<int>, y: int, b: seq<int>, z: int, l: nat, i: nat)
    requires Injective(h)
    ensures Node(h, a, y, l, i) == Node(h, b, z, l, i) <==> LeavesBelow(a, y, l, i) == LeavesBelow(b, z, l, i)
  {
    hide Injective;
    if l == 0 {
      assert LeavesBelow(a, y, 0, i)[0] == Node(h, a, y, 0, i) && LeavesBelow(b, z, 0, i)[0] == Node(h, b, z, 0, i);
    } else {
      NodesAgreeIff(h, a, y, b, z, l - 1, 2 * i);
      NodesAgreeIff(h, a, y, b, z, l - 1, 2 * i + 1);
      ParentsAgreeIff(h, Node(h, a, y, l - 1, 2 * i), Node(h, a, y, l - 1, 2 * i + 1),
                      Node(h, b, z, l - 1, 2 * i), Node(h, b, z, l - 1, 2 * i + 1));
      JoinsAgreeIff(LeavesBelow(a, y, l - 1, 2 * i), LeavesBelow(a, y, l - 1, 2 * i + 1),
                    LeavesBelow(b, z, l - 1, 2 * i), LeavesBelow(b, z, l - 1, 2 * i + 1));
    }
  }

  lemma ParentsAgreeIff(h: Hash, a: int, b: int, c: int, d: int)
    requires Injective(h)
    ensures h(a, b) == h(c, d) <==> a == c && b == d
  {
  }

  lemma JoinsAgreeIff(a: seq<int>, b: seq<int>, c: seq<int>, d: seq<int>)
    requires |a| == |c|
    ensures a + b == c + d <==> a == c && b == d
  {
    if a + b == c + d {
      assert a == (a + b)[..|a|] && c == (c + d)[..|a|];
      assert b == (a + b)[|a|..] && d == (c + d)[|a|..];
    }
  }

  /** Trees over the same leaves with different zero leaves share a root exactly when no leaf is padded. */
  lemma RootsAgreeIff(h: Hash, leaves: seq<int>, y: int, z: int, depth: nat)
    requires Injective(h) && |leaves| <= Pow2(depth)
    ensures Node(h, leaves, y, depth, 0) == Node(h, leaves, z, depth, 0) <==> y == z || |leaves| == Pow2(depth)
  {
    NodesAgreeIff(h, leaves, y, leaves, z, depth, 0);
    hide Node, Injective, LeavesBelow, Pow2;
    var a, b, n := LeavesBelow(leaves, y, depth, 0), LeavesBelow(leaves, z, depth, 0), |leaves|;
    forall j: nat | j < Pow2(depth)
      ensures a[j] == LeafAt(leaves, y, j) && b[j] == LeafAt(leaves, z, j)
    {
      LeavesBelowAt(leaves, y, depth, 0, 0, j);
      LeavesBelowAt(leaves, z, depth, 0, 0, j);
    }
    if n < Pow2(depth) {
      assert a[n] == y && b[n] == z;
    }
  }

  // ----- The fold for a single leaf in an otherwise empty tree -----

  ghost function Lone(leaf: int, z: int, index: nat): (s: seq<int>)
    ensures |s| == index + 1 && s[index] == leaf && forall i | 0 <= i < index :: s[i] == z
  {
    seq(index, _ => z) + [leaf]
  }

  lemma {:induction false} LoneZero(h: Hash, leaf: int, z: int, k: nat, l: nat, i: nat)
    requires i != Ancestor(k, l)
    ensures Node(h, Lone(leaf, z, k), z, l, i) == ZeroAt(h, z, l)
  {
    if l == 0 {
    } else {
      LoneZero(h, leaf, z, k, l - 1, 2 * i);
      LoneZero(h, leaf, z, k, l - 1, 2 * i + 1);
    }
  }

  lemma LoneLeaf(h: Hash, leaf: int, z: int, k: nat)
    ensures Node(h, Lone(leaf, z, k), z, 0, k) == leaf
  {
  }

  /** Folds a leaf with the zero chain as siblings; for an index below 2^depth this is the lone leaf's tree. */
  method FoldSingleLeaf(h: Hash, leaf: int, z: int, index: nat, depth: nat) returns (root: int, path: Path)
    ensures IsPath(h, Lone(leaf, z, index), z, index, depth, path)
    ensures root == Node(h, Lone(leaf, z, index), z, depth, Ancestor(index, depth))
    ensures index < Pow2(depth) ==> root == Node(h, Lone(leaf, z, index), z, depth, 0)
  {
    hide Node;
    LoneLeaf(h, leaf, z, index);
    var zeros := ZeroChain(h, z, depth);
    var currentHash, elements, indices, idx := leaf, [], [], index;
    for i := 0 to depth
      invariant idx == Ancestor(index, i) && IsPath(h, Lone(leaf, z, index), z, index, i, Path(elements, indices))
      invariant currentHash == Node(h, Lone(leaf, z, index), z, i, idx)
    {
      var bit := idx % 2;
      var sibling := zeros[i];
      LoneZero(h, leaf, z, index, i, Sibling(idx));
      NodeStep(h, Lone(leaf, z, index), z, i, idx);
      PathLonger(h, Lone(leaf, z, index), z, index, Path(elements, indices), i, sibling, bit,
                 Path(elements + [sibling], indices + [bit]));
      indices, elements := indices + [bit], elements + [sibling];
      if bit == 0 {
        currentHash := h(currentHash, sibling);
      } else {
        currentHash := h(sibling, currentHash);
      }
      idx := idx / 2;
    }
    root, path := currentHash, Path(elements, indices);
    if index < Pow2(depth) {
      AncestorBound(index, depth, depth);
    }
  }
}
