/**
  The browser's rebuild of the tree: `computeZeros` and `buildAuthPath`
  (frontend/src/lib/merkleTree.ts), proved against the recursive tree of `Merkle`.
*/
module AuthPath {
  import opened Merkle

  datatype MerklePath<F> = MerklePath(siblings: seq<F>, bits: seq<bool>, root: F)

  method ComputeZeros<F>(h: (F, F) -> F, zero: F, depth: nat) returns (zeros: seq<F>)
    ensures |zeros| == depth + 1
    ensures forall i :: 0 <= i <= depth ==> zeros[i] == ZeroAt(h, zero, i)
  {
    zeros := [zero];
    for i := 0 to depth
      invariant |zeros| == i + 1
      invariant forall k :: 0 <= k <= i ==> zeros[k] == ZeroAt(h, zero, k)
    {
      zeros := zeros + [h(zeros[i], zeros[i])];
    }
  }

  /** `level` is the whole row of nodes `height` levels above the leaves, `remaining` below the root. */
  ghost predicate IsRow<F>(h: (F, F) -> F, zero: F, leaves: seq<F>, height: nat, remaining: nat, level: seq<F>) {
    && |level| == Pow2(remaining)
    && forall p :: 0 <= p < |level| ==> level[p] == NodeAt(h, zero, leaves, height, p)
  }

  /** One pass of pairwise hashing: the row above. */
  method HashRow<F(0)>(h: (F, F) -> F, zero: F, ghost leaves: seq<F>, ghost height: nat, ghost remaining: nat,
                       level: array<F>) returns (next: array<F>)
    requires remaining > 0 && IsRow(h, zero, leaves, height, remaining, level[..])
    ensures fresh(next) && IsRow(h, zero, leaves, height + 1, remaining - 1, next[..])
  {
    next := new F[level.Length / 2];
    var j := 0;
    while j < level.Length
      invariant 0 <= j <= level.Length && j % 2 == 0
      invariant forall p :: 0 <= p < j / 2 ==> next[p] == NodeAt(h, zero, leaves, height + 1, p)
    {
      assert level[..][j] == NodeAt(h, zero, leaves, height, 2 * (j / 2));
      assert level[..][j + 1] == NodeAt(h, zero, leaves, height, 2 * (j / 2) + 1);
      next[j / 2] := h(level[j], level[j + 1]);
      j := j + 2;
    }
  }

  /** Beyond the row the browser substitutes the empty-subtree hash, which is what the tree holds there. */
  lemma BeyondRow<F>(h: (F, F) -> F, zero: F, leaves: seq<F>, height: nat, remaining: nat, pos: nat)
    requires |leaves| <= Pow2(height + remaining) && pos >= Pow2(remaining)
    ensures NodeAt(h, zero, leaves, height, pos) == ZeroAt(h, zero, height)
  {
    Pow2Sum(remaining, height);
    assert pos * Pow2(height) >= Pow2(remaining) * Pow2(height) by {
      var e := pos - Pow2(remaining);
      assert pos * Pow2(height) == Pow2(remaining) * Pow2(height) + e * Pow2(height);
    }
    EmptySubtree(h, zero, leaves, height, pos);
  }

  /** A position inside a row has its sibling inside that row. */
  lemma SiblingInRow(index: nat, height: nat, remaining: nat)
    requires remaining > 0 && index < Pow2(height + remaining)
    ensures Sibling(Shift(index, height)) < Pow2(remaining)
  {
    ShiftSum(index, height, remaining);
    ShiftAway(index, height + remaining);
    ShiftAway(Shift(index, height), remaining);
  }

  lemma {:induction false} ShiftSum(n: nat, a: nat, b: nat)
    ensures Shift(Shift(n, a), b) == Shift(n, a + b)
  {
    if b != 0 {
      ShiftSum(n, a, b - 1);
    }
  }

  method BuildAuthPath<F(0)>(h: (F, F) -> F, zero: F, depth: nat, leaves: seq<F>, leafIndex: nat)
    returns (path: MerklePath<F>)
    ensures |path.siblings| == depth && |path.bits| == depth
    ensures path.root == Root(h, zero, leaves, depth)
    ensures leafIndex < Pow2(depth) || |leaves| <= Pow2(depth) ==>
      forall d :: 0 <= d < depth ==> OnPath(h, zero, leaves, leafIndex, d, path.siblings[d], path.bits[d])
  {
    var zeros := ComputeZeros(h, zero, depth);
    var width := Pow2(depth);
    var level := new F[width];
    for i := 0 to width
      invariant forall p :: 0 <= p < i ==> level[p] == NodeAt(h, zero, leaves, 0, p)
    {
      level[i] := if i < |leaves| then leaves[i] else zero;
    }
    var siblings, bits, pos := [], [], leafIndex;
    for d := 0 to depth
      invariant |siblings| == d && |bits| == d
      invariant pos == Shift(leafIndex, d)
      invariant IsRow(h, zero, leaves, d, depth - d, level[..])
      invariant leafIndex < Pow2(depth) || |leaves| <= Pow2(depth) ==>
        forall k :: 0 <= k < d ==> OnPath(h, zero, leaves, leafIndex, k, siblings[k], bits[k])
    {
      var siblingPos := Sibling(pos);
      var sibling := if siblingPos < level.Length then level[siblingPos] else zeros[d];
      if siblingPos < level.Length {
        assert sibling == level[..][siblingPos];
      } else if leafIndex < Pow2(depth) {
        SiblingInRow(leafIndex, d, depth - d);
        assert false;
      } else if |leaves| <= Pow2(depth) {
        BeyondRow(h, zero, leaves, d, depth - d, siblingPos);
      }
      siblings := siblings + [sibling];
      bits := bits + [pos % 2 == 1];
      level := HashRow(h, zero, leaves, d, depth - d, level);
      pos := pos / 2;
    }
    assert level[..][0] == NodeAt(h, zero, leaves, depth, 0);
    path := MerklePath(siblings, bits, level[0]);
  }

  /** The law the withdrawal relies on: the browser's path folds, the way the prover folds it, to the browser's root. */
  lemma AuthPathFolds<F>(h: (F, F) -> F, zero: F, depth: nat, leaves: seq<F>, leafIndex: nat, path: MerklePath<F>)
    requires leafIndex < Pow2(depth)
    requires |path.siblings| == depth && |path.bits| == depth
    requires forall d :: 0 <= d < depth ==> OnPath(h, zero, leaves, leafIndex, d, path.siblings[d], path.bits[d])
    ensures Fold(h, NodeAt(h, zero, leaves, 0, leafIndex), path.siblings, path.bits, depth)
         == Root(h, zero, leaves, depth)
  {
    PathFolds(h, zero, leaves, leafIndex, path.siblings, path.bits, depth);
    ShiftAway(leafIndex, depth);
  }
}
