/**
  The statement a withdrawal proves about a root and a nullifier, for any 2-to-1 hash:
  commitment = h(secret, 0), nullifier = h(secret, 1), and the commitment's path ends in the root.
*/
module NoteRelation {
  import opened Merkle

  /** The secret, siblings and position bits are a witness for the public root and nullifier. */
  ghost predicate Opens<F>(h: (F, F) -> F, zero: F, one: F, depth: nat, root: F, nullifier: F,
                           secret: F, siblings: seq<F>, bits: seq<bool>)
  {
    && |siblings| == depth && |bits| == depth
    && Fold(h, h(secret, zero), siblings, bits, depth) == root
    && h(secret, one) == nullifier
  }

  ghost predicate Provable<F(!new)>(h: (F, F) -> F, zero: F, one: F, depth: nat, root: F, nullifier: F) {
    exists secret, siblings, bits :: Opens(h, zero, one, depth, root, nullifier, secret, siblings, bits)
  }

  /** A witness as one value. */
  datatype Opening<F> = Opening(secret: F, siblings: seq<F>, bits: seq<bool>)

  ghost predicate OpenedBy<F>(h: (F, F) -> F, zero: F, one: F, depth: nat, root: F, nullifier: F, o: Opening<F>) {
    Opens(h, zero, one, depth, root, nullifier, o.secret, o.siblings, o.bits)
  }

  /** Everything hashed in checking a witness. */
  ghost function OpeningPairs<F>(h: (F, F) -> F, zero: F, one: F, o: Opening<F>): set<(F, F)>
    requires |o.siblings| == |o.bits|
  {
    {(o.secret, zero), (o.secret, one)} + FoldPairs(h, h(o.secret, zero), o.siblings, o.bits, |o.siblings|)
  }
}
