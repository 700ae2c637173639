/**
  The contract works on 32-byte values, the circuit on field elements. A scheme says how the two
  are related: decoding may identify several 32-byte values, encoding picks one of them.
*/
module Encoding {
  import opened Merkle

  /** Decoding and encoding, and the hash and the two constants on field elements. */
  datatype Scheme<!B, !F> = Scheme(decode: B -> F, encode: F -> B, h: (F, F) -> F, zero: F, one: F)

  /** Hashes survive being encoded and decoded. */
  ghost predicate IsScheme<B, F(!new)>(sc: Scheme<B, F>) {
    forall x, y :: sc.decode(sc.encode(sc.h(x, y))) == sc.h(x, y)
  }

  /** The 2-to-1 hash on raw values decodes, hashes and encodes; the raw empty leaf decodes to zero. */
  ghost predicate Implements<B(!new), F>(sc: Scheme<B, F>, rawHash: (B, B) -> B, rawZero: B) {
    && (forall a, b :: rawHash(a, b) == sc.encode(sc.h(sc.decode(a), sc.decode(b))))
    && sc.decode(rawZero) == sc.zero
  }

  /** The one encoding of its field element that encoding itself produces. */
  predicate Canonical<B(==), F>(sc: Scheme<B, F>, b: B) {
    sc.encode(sc.decode(b)) == b
  }

  /** Canonical values that decode alike are equal. */
  lemma CanonicalIsUnique<B, F>(sc: Scheme<B, F>, a: B, b: B)
    requires Canonical(sc, a) && Canonical(sc, b) && sc.decode(a) == sc.decode(b)
    ensures a == b
  {
  }

  function Decoded<B, F>(sc: Scheme<B, F>, bs: seq<B>): (fs: seq<F>)
    ensures |fs| == |bs| && forall i :: 0 <= i < |bs| ==> fs[i] == sc.decode(bs[i])
  {
    if bs == [] then [] else Decoded(sc, bs[..|bs| - 1]) + [sc.decode(bs[|bs| - 1])]
  }

  lemma HashDecodes<B(!new), F(!new)>(sc: Scheme<B, F>, rawHash: (B, B) -> B, rawZero: B)
    requires IsScheme(sc) && Implements(sc, rawHash, rawZero)
    ensures forall a, b :: sc.decode(rawHash(a, b)) == sc.h(sc.decode(a), sc.decode(b))
  {
  }

  /** A map that takes one hash to another takes one tree to the other. */
  lemma {:induction false} NodeMaps<B(!new), F>(g: B -> F, rawHash: (B, B) -> B, rawZero: B, raw: seq<B>,
                                                h: (F, F) -> F, zero: F, leaves: seq<F>, level: nat, pos: nat)
    requires forall a, b :: g(rawHash(a, b)) == h(g(a), g(b))
    requires g(rawZero) == zero && |leaves| == |raw| && forall i :: 0 <= i < |raw| ==> leaves[i] == g(raw[i])
    ensures g(NodeAt(rawHash, rawZero, raw, level, pos)) == NodeAt(h, zero, leaves, level, pos)
  {
    if level != 0 {
      NodeMaps(g, rawHash, rawZero, raw, h, zero, leaves, level - 1, 2 * pos);
      NodeMaps(g, rawHash, rawZero, raw, h, zero, leaves, level - 1, 2 * pos + 1);
    }
  }

  /** The tree over raw values, decoded, is the tree over the decoded leaves. */
  lemma NodeDecodes<B(!new), F(!new)>(sc: Scheme<B, F>, rawHash: (B, B) -> B, rawZero: B, leaves: seq<B>,
                                      level: nat, pos: nat)
    requires IsScheme(sc) && Implements(sc, rawHash, rawZero)
    ensures sc.decode(NodeAt(rawHash, rawZero, leaves, level, pos))
         == NodeAt(sc.h, sc.zero, Decoded(sc, leaves), level, pos)
  {
    HashDecodes(sc, rawHash, rawZero);
    NodeMaps(sc.decode, rawHash, rawZero, leaves, sc.h, sc.zero, Decoded(sc, leaves), level, pos);
  }

  /** Every raw node above the leaves is the encoding of the decoded tree's node. */
  lemma InnerNodeEncodes<B(!new), F(!new)>(sc: Scheme<B, F>, rawHash: (B, B) -> B, rawZero: B, leaves: seq<B>,
                                           level: nat, pos: nat)
    requires IsScheme(sc) && Implements(sc, rawHash, rawZero) && level > 0
    ensures NodeAt(rawHash, rawZero, leaves, level, pos)
         == sc.encode(NodeAt(sc.h, sc.zero, Decoded(sc, leaves), level, pos))
  {
    NodeDecodes(sc, rawHash, rawZero, leaves, level - 1, 2 * pos);
    NodeDecodes(sc, rawHash, rawZero, leaves, level - 1, 2 * pos + 1);
  }

  /** Encoded hashes are canonical. */
  lemma HashIsCanonical<B, F(!new)>(sc: Scheme<B, F>, x: F, y: F)
    requires IsScheme(sc)
    ensures Canonical(sc, sc.encode(sc.h(x, y)))
  {
  }
}
