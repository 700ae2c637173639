/**
  The fixed-depth Merkle tree that the pool contract, the withdraw circuit and the
  browser all have to agree on. The 2-to-1 hash is a parameter `h`, so every
  agreement result here holds for any hash function.
*/
module Merkle {

  function Pow2(n: nat): (r: nat)
    ensures r >= 1
  {
    if n == 0 then 1 else 2 * Pow2(n - 1)
  }

  lemma {:induction false} Pow2Sum(a: nat, b: nat)
    ensures Pow2(a + b) == Pow2(a) * Pow2(b)
  {
    if b != 0 {
      Pow2Sum(a, b - 1);
      assert Pow2(a + b) == 2 * (Pow2(a) * Pow2(b - 1));
    }
  }

  /** `n >> i`, one bit at a time, as the contract and the browser walk up the tree. */
  function Shift(n: nat, i: nat): nat {
    if i == 0 then n else Shift(n, i - 1) / 2
  }

  lemma Halve(q: nat, b: nat, p: nat, n: nat)
    requires b <= 1 && (2 * q + b) * p <= n < (2 * q + b + 1) * p
    ensures q * (2 * p) <= n < (q + 1) * (2 * p)
  {
    var x := q * p;
    assert q * (2 * p) == 2 * x && (q + 1) * (2 * p) == 2 * x + 2 * p;
    assert (2 * q + b) * p == 2 * x + b * p && (2 * q + b + 1) * p == 2 * x + b * p + p;
    if b == 1 {
      assert b * p == p;
    }
  }

  /** `Shift(n, i)` is the integer quotient of `n` by `2^i`. */
  lemma {:induction false} ShiftIsQuotient(n: nat, i: nat)
    ensures Shift(n, i) * Pow2(i) <= n < (Shift(n, i) + 1) * Pow2(i)
  {
    if i != 0 {
      ShiftIsQuotient(n, i - 1);
      var q := Shift(n, i - 1);
      Halve(q / 2, q % 2, Pow2(i - 1), n);
    }
  }

  /** An index below `2^i` shifts away completely. */
  lemma {:induction false} ShiftAway(n: nat, i: nat)
    ensures n < Pow2(i) <==> Shift(n, i) == 0
  {
    ShiftIsQuotient(n, i);
    var q, p := Shift(n, i), Pow2(i);
    if q == 0 {
      assert (q + 1) * p == p;
    } else {
      assert q * p == p + (q - 1) * p;
    }
  }

  lemma {:induction false} ShiftNext(n: nat, i: nat)
    ensures Shift(n, i) <= Shift(n + 1, i) <= Shift(n, i) + 1
  {
    if i != 0 {
      ShiftNext(n, i - 1);
    }
  }

  /** The hash of an all-empty subtree of the given height. */
  function ZeroAt<F>(h: (F, F) -> F, zero: F, level: nat): F {
    if level == 0 then zero
    else var z := ZeroAt(h, zero, level - 1); h(z, z)
  }

  /** The node at `level` and `pos` of the full tree over `leaves`, padded with `zero`. */
  function NodeAt<F>(h: (F, F) -> F, zero: F, leaves: seq<F>, level: nat, pos: nat): F {
    if level == 0 then
      if pos < |leaves| then leaves[pos] else zero
    else
      h(NodeAt(h, zero, leaves, level - 1, 2 * pos), NodeAt(h, zero, leaves, level - 1, 2 * pos + 1))
  }

  function Root<F>(h: (F, F) -> F, zero: F, leaves: seq<F>, depth: nat): F {
    NodeAt(h, zero, leaves, depth, 0)
  }

  /** One step up a path: `bit` says that the node is the right child. */
  function Up<F>(h: (F, F) -> F, node: F, sibling: F, bit: bool): F {
    if bit then h(sibling, node) else h(node, sibling)
  }

  /** The first `n` steps of folding an authentication path. */
  function Fold<F>(h: (F, F) -> F, leaf: F, siblings: seq<F>, bits: seq<bool>, n: nat): F
    requires n <= |siblings| && n <= |bits|
  {
    if n == 0 then leaf
    else Up(h, Fold(h, leaf, siblings, bits, n - 1), siblings[n - 1], bits[n - 1])
  }

  /** The position next to `pos` under the same parent: `pos ^ 1`. */
  function Sibling(pos: nat): nat {
    if pos % 2 == 0 then pos + 1 else pos - 1
  }

  lemma {:induction false} EmptySubtree<F>(h: (F, F) -> F, zero: F, leaves: seq<F>, level: nat, pos: nat)
    requires |leaves| <= pos * Pow2(level)
    ensures NodeAt(h, zero, leaves, level, pos) == ZeroAt(h, zero, level)
  {
    if level != 0 {
      assert pos * Pow2(level) == (2 * pos) * Pow2(level - 1);
      assert (2 * pos + 1) * Pow2(level - 1) == (2 * pos) * Pow2(level - 1) + Pow2(level - 1);
      EmptySubtree(h, zero, leaves, level - 1, 2 * pos);
      EmptySubtree(h, zero, leaves, level - 1, 2 * pos + 1);
    }
  }

  /** Appending a leaf changes only the nodes on the path from that leaf to the root. */
  lemma {:induction false} AppendElsewhere<F>(h: (F, F) -> F, zero: F, leaves: seq<F>, leaf: F, level: nat, pos: nat)
    requires pos != Shift(|leaves|, level)
    ensures NodeAt(h, zero, leaves + [leaf], level, pos) == NodeAt(h, zero, leaves, level, pos)
  {
    if level != 0 {
      AppendElsewhere(h, zero, leaves, leaf, level - 1, 2 * pos);
      AppendElsewhere(h, zero, leaves, leaf, level - 1, 2 * pos + 1);
    }
  }

  /** Hashing a node with its sibling, on the side its position says, gives their parent. */
  lemma ParentOf<F>(h: (F, F) -> F, zero: F, leaves: seq<F>, level: nat, pos: nat)
    ensures Up(h, NodeAt(h, zero, leaves, level, pos), NodeAt(h, zero, leaves, level, Sibling(pos)), pos % 2 == 1)
         == NodeAt(h, zero, leaves, level + 1, pos / 2)
  {
    var q := pos / 2;
    assert pos == if pos % 2 == 1 then 2 * q + 1 else 2 * q;
  }

  /** What an authentication path for the leaf at `index` must contain at step `d`. */
  ghost predicate OnPath<F>(h: (F, F) -> F, zero: F, leaves: seq<F>, index: nat, d: nat, sibling: F, bit: bool) {
    && sibling == NodeAt(h, zero, leaves, d, Sibling(Shift(index, d)))
    && bit == (Shift(index, d) % 2 == 1)
  }

  /** Level by level, a path read off the tree folds to the tree's node above it. */
  lemma {:induction false} PathFolds<F>(h: (F, F) -> F, zero: F, leaves: seq<F>, index: nat,
                                        siblings: seq<F>, bits: seq<bool>, n: nat)
    requires n <= |siblings| && n <= |bits|
    requires forall d :: 0 <= d < n ==> OnPath(h, zero, leaves, index, d, siblings[d], bits[d])
    ensures Fold(h, NodeAt(h, zero, leaves, 0, index), siblings, bits, n)
         == NodeAt(h, zero, leaves, n, Shift(index, n))
  {
    if n != 0 {
      PathFolds(h, zero, leaves, index, siblings, bits, n - 1);
      assert OnPath(h, zero, leaves, index, n - 1, siblings[n - 1], bits[n - 1]);
      ParentOf(h, zero, leaves, n - 1, Shift(index, n - 1));
    }
  }

  // ----- which pairs are hashed, and what it takes for them not to collide ---------------------------

  /** The two arguments of one step up a path. */
  function UpPair<F>(node: F, sibling: F, bit: bool): (F, F) {
    if bit then (sibling, node) else (node, sibling)
  }

  /** Everything hashed below the node at `level` and `pos`. */
  ghost function TreePairs<F>(h: (F, F) -> F, zero: F, leaves: seq<F>, level: nat, pos: nat): set<(F, F)> {
    if level == 0 then {}
    else
      {(NodeAt(h, zero, leaves, level - 1, 2 * pos), NodeAt(h, zero, leaves, level - 1, 2 * pos + 1))}
      + TreePairs(h, zero, leaves, level - 1, 2 * pos) + TreePairs(h, zero, leaves, level - 1, 2 * pos + 1)
  }

  /** Everything hashed in the first `n` steps of folding a path. */
  ghost function FoldPairs<F>(h: (F, F) -> F, leaf: F, siblings: seq<F>, bits: seq<bool>, n: nat): set<(F, F)>
    requires n <= |siblings| && n <= |bits|
  {
    if n == 0 then {}
    else
      {UpPair(Fold(h, leaf, siblings, bits, n - 1), siblings[n - 1], bits[n - 1])}
      + FoldPairs(h, leaf, siblings, bits, n - 1)
  }

  /** On the pairs of `hashed`, no two collide and none hashes to the empty leaf. */
  ghost predicate IdealOn<F>(h: (F, F) -> F, zero: F, hashed: set<(F, F)>) {
    && (forall x, y :: x in hashed && y in hashed && h(x.0, x.1) == h(y.0, y.1) ==> x == y)
    && (forall x :: x in hashed ==> h(x.0, x.1) != zero)
  }

  /** Two different pairs of `hashed` with one hash, or a pair that hashes to the empty leaf. */
  ghost predicate Collision<F>(h: (F, F) -> F, zero: F, hashed: set<(F, F)>) {
    || (exists x, y :: x in hashed && y in hashed && x != y && h(x.0, x.1) == h(y.0, y.1))
    || (exists x :: x in hashed && h(x.0, x.1) == zero)
  }

  lemma IdealOrCollision<F>(h: (F, F) -> F, zero: F, hashed: set<(F, F)>)
    ensures IdealOn(h, zero, hashed) <==> !Collision(h, zero, hashed)
  {
  }

  /** The free term algebra: a hash that is ideal on whatever it is applied to. */
  datatype Term = Empty | Atom(id: nat) | Pair(left: Term, right: Term)

  /** The hash builds terms. */
  ghost predicate IsSymbolic(h: (Term, Term) -> Term) {
    forall a, b :: h(a, b) == Pair(a, b)
  }

  lemma SymbolicIsIdeal(h: (Term, Term) -> Term, hashed: set<(Term, Term)>)
    requires IsSymbolic(h)
    ensures IdealOn(h, Empty, hashed)
  {
  }

  lemma SamePair<F>(h: (F, F) -> F, zero: F, hashed: set<(F, F)>, x: (F, F), y: (F, F))
    requires IdealOn(h, zero, hashed) && x in hashed && y in hashed && h(x.0, x.1) == h(y.0, y.1)
    ensures x == y
  {
  }

  /** Where nothing collides, a path that folds to a node of the tree starts at one of its leaves. */
  lemma {:induction false} Locate<F>(h: (F, F) -> F, zero: F, leaves: seq<F>, leaf: F, siblings: seq<F>,
                                     bits: seq<bool>,
                                     n: nat, pos: nat, hashed: set<(F, F)>) returns (p: nat)
    requires n <= |siblings| && n <= |bits|
    requires IdealOn(h, zero, hashed)
    requires TreePairs(h, zero, leaves, n, pos) <= hashed && FoldPairs(h, leaf, siblings, bits, n) <= hashed
    requires Fold(h, leaf, siblings, bits, n) == NodeAt(h, zero, leaves, n, pos)
    ensures NodeAt(h, zero, leaves, 0, p) == leaf
    ensures Shift(p, n) == pos
  {
    if n == 0 {
      p := pos;
    } else {
      var left, right := NodeAt(h, zero, leaves, n - 1, 2 * pos), NodeAt(h, zero, leaves, n - 1, 2 * pos + 1);
      var node := Fold(h, leaf, siblings, bits, n - 1);
      SamePair(h, zero, hashed, UpPair(node, siblings[n - 1], bits[n - 1]), (left, right));
      p := Locate(h, zero, leaves, leaf, siblings, bits, n - 1, if bits[n - 1] then 2 * pos + 1 else 2 * pos, hashed);
    }
  }

  /** Where nothing collides, equal nodes have equal leaves below them. */
  lemma {:induction false} NodeDeterminesLeaves<F>(h: (F, F) -> F, zero: F, xs: seq<F>, ys: seq<F>,
                                                   level: nat, pos: nat, p: nat, hashed: set<(F, F)>)
    requires IdealOn(h, zero, hashed)
    requires TreePairs(h, zero, xs, level, pos) <= hashed && TreePairs(h, zero, ys, level, pos) <= hashed
    requires NodeAt(h, zero, xs, level, pos) == NodeAt(h, zero, ys, level, pos)
    requires Shift(p, level) == pos
    ensures NodeAt(h, zero, xs, 0, p) == NodeAt(h, zero, ys, 0, p)
  {
    if level != 0 {
      SamePair(h, zero, hashed,
               (NodeAt(h, zero, xs, level - 1, 2 * pos), NodeAt(h, zero, xs, level - 1, 2 * pos + 1)),
               (NodeAt(h, zero, ys, level - 1, 2 * pos), NodeAt(h, zero, ys, level - 1, 2 * pos + 1)));
      NodeDeterminesLeaves(h, zero, xs, ys, level - 1, Shift(p, level - 1), p, hashed);
    }
  }

  /** Everything hashed in the trees over every prefix of the leaves. */
  ghost function PrefixPairs<F>(h: (F, F) -> F, zero: F, leaves: seq<F>, depth: nat): set<(F, F)> {
    TreePairs(h, zero, leaves, depth, 0)
    + if leaves == [] then {} else PrefixPairs(h, zero, leaves[..|leaves| - 1], depth)
  }

  lemma {:induction false} PrefixPairsGrow<F>(h: (F, F) -> F, zero: F, leaves: seq<F>, depth: nat, k: nat)
    requires k <= |leaves|
    ensures PrefixPairs(h, zero, leaves[..k], depth) <= PrefixPairs(h, zero, leaves, depth)
    ensures TreePairs(h, zero, leaves[..k], depth, 0) <= PrefixPairs(h, zero, leaves, depth)
  {
    if k == |leaves| {
      assert leaves[..k] == leaves;
    } else {
      var shorter := leaves[..|leaves| - 1];
      PrefixPairsGrow(h, zero, shorter, depth, k);
      assert shorter[..k] == leaves[..k];
    }
  }

  // ----- what holds of everything hashed ----------------------------------------------------------------

  ghost predicate Both<F>(keeps: F -> bool, x: (F, F)) {
    keeps(x.0) && keeps(x.1)
  }

  ghost predicate AllKeep<F>(keeps: F -> bool, xs: seq<F>) {
    forall i :: 0 <= i < |xs| ==> keeps(xs[i])
  }

  /** The hash always gives something that has the property, and the empty leaf has it. */
  ghost predicate Closed<F(!new)>(h: (F, F) -> F, zero: F, keeps: F -> bool) {
    keeps(zero) && forall x, y :: keeps(h(x, y))
  }

  lemma NodeKeeps<F(!new)>(h: (F, F) -> F, zero: F, leaves: seq<F>, level: nat, pos: nat, keeps: F -> bool)
    requires Closed(h, zero, keeps) && AllKeep(keeps, leaves)
    ensures keeps(NodeAt(h, zero, leaves, level, pos))
  {
  }

  lemma {:induction false} TreePairsKeep<F(!new)>(h: (F, F) -> F, zero: F, leaves: seq<F>, level: nat, pos: nat,
                                                  keeps: F -> bool)
    requires Closed(h, zero, keeps) && AllKeep(keeps, leaves)
    ensures forall x :: x in TreePairs(h, zero, leaves, level, pos) ==> Both(keeps, x)
  {
    if level != 0 {
      NodeKeeps(h, zero, leaves, level - 1, 2 * pos, keeps);
      NodeKeeps(h, zero, leaves, level - 1, 2 * pos + 1, keeps);
      TreePairsKeep(h, zero, leaves, level - 1, 2 * pos, keeps);
      TreePairsKeep(h, zero, leaves, level - 1, 2 * pos + 1, keeps);
    }
  }

  lemma {:induction false} PrefixPairsKeep<F(!new)>(h: (F, F) -> F, zero: F, leaves: seq<F>, depth: nat,
                                                    keeps: F -> bool)
    requires Closed(h, zero, keeps) && AllKeep(keeps, leaves)
    ensures forall x :: x in PrefixPairs(h, zero, leaves, depth) ==> Both(keeps, x)
  {
    TreePairsKeep(h, zero, leaves, depth, 0, keeps);
    if leaves != [] {
      PrefixPairsKeep(h, zero, leaves[..|leaves| - 1], depth, keeps);
    }
  }

  lemma {:induction false} FoldPairsKeep<F(!new)>(h: (F, F) -> F, zero: F, leaf: F, siblings: seq<F>, bits: seq<bool>,
                                                  n: nat,
                                                  keeps: F -> bool)
    requires n <= |siblings| && n <= |bits|
    requires Closed(h, zero, keeps) && keeps(leaf) && AllKeep(keeps, siblings)
    ensures keeps(Fold(h, leaf, siblings, bits, n))
    ensures forall x :: x in FoldPairs(h, leaf, siblings, bits, n) ==> Both(keeps, x)
  {
    if n != 0 {
      FoldPairsKeep(h, zero, leaf, siblings, bits, n - 1, keeps);
    }
  }

  /** Nodes depend only on the padded row of leaves below them. */
  lemma {:induction false} LeavesDetermineNode<F>(h: (F, F) -> F, zero: F, xs: seq<F>, ys: seq<F>, level: nat, pos: nat)
    requires forall p: nat :: NodeAt(h, zero, xs, 0, p) == NodeAt(h, zero, ys, 0, p)
    ensures NodeAt(h, zero, xs, level, pos) == NodeAt(h, zero, ys, level, pos)
  {
    if level != 0 {
      LeavesDetermineNode(h, zero, xs, ys, level - 1, 2 * pos);
      LeavesDetermineNode(h, zero, xs, ys, level - 1, 2 * pos + 1);
    }
  }
}
