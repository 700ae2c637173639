/**
  The pool over the field the circuit works in: raw values are 32-byte numbers, decoding reduces
  them modulo the prime, and the hash is the Poseidon2 compression itself. This is where the
  constraint system, the verifier and the value claim meet, with no assumption about the hash:
  each claim holds, or two different pairs of field elements that the run hashed collide.
*/
module CircuitPool {
  import opened Wrappers
  import opened TokenLedger
  import opened Merkle
  import opened NoteRelation
  import opened Encoding
  import opened ShieldedPool
  import opened PoolRuns
  import opened PoolSolvency
  import opened SealedGift
  import F = Field
  import I = PoolIndexer
  import Poseidon2
  import R = IndexerRuns
  import W = WithdrawCircuit

  /** A 32-byte value, read as a big-endian number. */
  newtype Bytes32 = x: int | 0 <= x < F.TWO_TO_256

  function Decode(p: nat, b: Bytes32): int
    requires p > 0
  {
    b as int % p
  }

  function Encode(f: int): Bytes32 {
    if 0 <= f < F.TWO_TO_256 then f as Bytes32 else 0
  }

  /** Raw values are reduced when they are read, and field elements are written as they are. */
  function FieldScheme(p: nat): Scheme<Bytes32, int>
    requires p > 0
  {
    Scheme(b => Decode(p, b), f => Encode(f), W.HashFn(p), 0, 1)
  }

  /** A prime whose field elements fit in 32 bytes. */
  ghost predicate IsModulus(p: nat) {
    F.IsPrime(p) && p <= F.TWO_TO_256
  }

  lemma HashReduced(p: nat, x: int, y: int)
    requires p > 0
    ensures 0 <= W.HashFn(p)(x, y) < p && W.HashFn(p)(x, y) % p == W.HashFn(p)(x, y)
  {
    Poseidon2.HashCanonical(p, x, y);
    F.CanonicalMod(p, Poseidon2.Hash2(p, x, y));
  }

  lemma FieldSchemeIsScheme(p: nat)
    requires 0 < p <= F.TWO_TO_256
    ensures IsScheme(FieldScheme(p))
  {
    forall x, y
      ensures FieldScheme(p).decode(FieldScheme(p).encode(FieldScheme(p).h(x, y))) == FieldScheme(p).h(x, y)
    {
      HashReduced(p, x, y);
    }
  }

  /** A raw value is canonical exactly when it is below the modulus. */
  lemma CanonicalIff(p: nat, b: Bytes32)
    requires p > 0
    ensures Canonical(FieldScheme(p), b) <==> b as int < p
  {
    F.ModRange(p, b as int);
    if b as int < p {
      F.CanonicalMod(p, b as int);
    }
  }

  // ----- witnesses are made of field elements ------------------------------------------------------

  function InField(p: nat): int -> bool {
    (x: int) => 0 <= x < p
  }

  /** A witness of the circuit: field elements that open the root and the nullifier. */
  ghost predicate Opened(p: nat, depth: nat, root: int, nullifier: int, o: Opening<int>)
    requires p > 0
  {
    OpeningKeeps(InField(p), o) && OpenedBy(W.HashFn(p), 0, 1, depth, root, nullifier, o)
  }

  /** Opened is what `assign` can produce. */
  lemma OpenedIffAssignable(p: nat, depth: nat, root: int, nullifier: int)
    requires p > 0
    ensures W.Assignable(p, depth, root, nullifier) <==> exists o :: Opened(p, depth, root, nullifier, o)
  {
    if W.Assignable(p, depth, root, nullifier) {
      var secret, siblings, bits :|
        F.Canonical(p, secret) && W.AllCanonical(p, siblings) &&
        Opens(W.HashFn(p), 0, 1, depth, root, nullifier, secret, siblings, bits);
      assert Opened(p, depth, root, nullifier, Opening(secret, siblings, bits));
    }
    if o :| Opened(p, depth, root, nullifier, o) {
      assert Opens(W.HashFn(p), 0, 1, depth, root, nullifier, o.secret, o.siblings, o.bits);
    }
  }

  /** Some witness, if there is one; made of field elements in any case. */
  ghost function SomeOpening(p: nat, depth: nat, root: int, nullifier: int): (o: Opening<int>)
    requires p > 0
    ensures OpeningKeeps(InField(p), o)
    ensures (exists w :: Opened(p, depth, root, nullifier, w)) ==> Opened(p, depth, root, nullifier, o)
  {
    if w :| Opened(p, depth, root, nullifier, w) then w else Opening(0, [], [])
  }

  // ----- from constraints to soundness ---------------------------------------------------------------

  /** The pool uses Poseidon2 modulo `p`, and its verifier accepts only what satisfies the emitted constraints. */
  ghost predicate CircuitVerified<P(!new)>(p: nat, env: Env<Bytes32, P>)
    requires p > 0
  {
    && Implements(FieldScheme(p), env.h, env.zero)
    && forall proof, root, nullifier, signal :: env.verify(proof, [root, nullifier, signal]) ==>
         W.Satisfiable(p, env.depth, Decode(p, root), Decode(p, nullifier), Decode(p, signal))
  }

  /**
    `extract` finds a witness of the circuit for whatever the verifier accepts, and always answers in field elements.
  */
  ghost predicate Extracts<P(!new)>(p: nat, env: Env<Bytes32, P>, extract: (P, seq<Bytes32>) -> Opening<int>)
    requires p > 0
  {
    && (forall proof, signals :: OpeningKeeps(InField(p), extract(proof, signals)))
    && forall proof, root, nullifier, signal :: env.verify(proof, [root, nullifier, signal]) ==>
         Opened(p, env.depth, Decode(p, root), Decode(p, nullifier), extract(proof, [root, nullifier, signal]))
  }

  /** A verifier that accepts only satisfiable systems accepts only what has a witness in the field. */
  lemma CircuitOpens<P(!new)>(p: nat, env: Env<Bytes32, P>, root: Bytes32, nullifier: Bytes32, signal: Bytes32,
                              proof: P)
    requires F.IsPrime(p) && CircuitVerified(p, env) && env.verify(proof, [root, nullifier, signal])
    ensures Opened(p, env.depth, Decode(p, root), Decode(p, nullifier),
                   SomeOpening(p, env.depth, Decode(p, root), Decode(p, nullifier)))
  {
    F.ModRange(p, root as int);
    F.ModRange(p, nullifier as int);
    W.CircuitMeaning(p, env.depth, Decode(p, root), Decode(p, nullifier), Decode(p, signal));
    OpenedIffAssignable(p, env.depth, Decode(p, root), Decode(p, nullifier));
  }

  /** The witness behind an accepted proof. */
  ghost function Extractor<P(!new)>(p: nat, env: Env<Bytes32, P>): (P, seq<Bytes32>) -> Opening<int>
    requires p > 0
  {
    (proof: P, signals: seq<Bytes32>) =>
      if |signals| < 2 then Opening(0, [], [])
      else SomeOpening(p, env.depth, Decode(p, signals[0]), Decode(p, signals[1]))
  }

  /**
    The link between circuit and contract: for a verifier that accepts only what some assignment of the
    emitted constraints satisfies, witnesses in the field can be extracted.
  */
  lemma CircuitVerifierIsSound<P(!new)>(p: nat, env: Env<Bytes32, P>)
    requires F.IsPrime(p) && CircuitVerified(p, env)
    ensures Extracts(p, env, Extractor(p, env))
  {
    forall proof, root, nullifier, signal | env.verify(proof, [root, nullifier, signal])
      ensures Opened(p, env.depth, Decode(p, root), Decode(p, nullifier),
                     Extractor(p, env)(proof, [root, nullifier, signal]))
    {
      CircuitOpens(p, env, root, nullifier, signal, proof);
    }
  }

  /** Whatever extracts witnesses of the circuit makes the verifier sound in the sense of the pool theorems. */
  lemma ExtractsIsSound<P(!new)>(p: nat, env: Env<Bytes32, P>, extract: (P, seq<Bytes32>) -> Opening<int>)
    requires 0 < p <= F.TWO_TO_256 && Implements(FieldScheme(p), env.h, env.zero) && Extracts(p, env, extract)
    ensures Linked(env, FieldScheme(p)) && Sound(env, FieldScheme(p), extract)
  {
    FieldSchemeIsScheme(p);
  }

  // ----- what a run hashes are pairs of field elements --------------------------------------------------

  /** Two different pairs of field elements among those hashed have one Poseidon2 hash, or one pair hashes to 0. */
  ghost predicate FieldCollision(p: nat, hashed: set<(int, int)>)
    requires p > 0
  {
    || (exists x, y :: x in hashed && y in hashed && Both(InField(p), x) && Both(InField(p), y) && x != y
                       && Poseidon2.Hash2(p, x.0, x.1) == Poseidon2.Hash2(p, y.0, y.1))
    || (exists x :: x in hashed && Both(InField(p), x) && Poseidon2.Hash2(p, x.0, x.1) == 0)
  }

  lemma FieldSchemeKeeps(p: nat)
    requires p > 1
    ensures SchemeKeeps(FieldScheme(p), InField(p))
  {
    forall x, y ensures InField(p)(FieldScheme(p).h(x, y)) { HashReduced(p, x, y); }
    forall b ensures InField(p)(FieldScheme(p).decode(b)) { F.ModRange(p, b as int); }
  }

  lemma CollisionInField(p: nat, hashed: set<(int, int)>)
    requires p > 0 && Collision(W.HashFn(p), 0, hashed) && forall x :: x in hashed ==> Both(InField(p), x)
    ensures FieldCollision(p, hashed)
  {
    if x, y :| x in hashed && y in hashed && x != y && W.HashFn(p)(x.0, x.1) == W.HashFn(p)(y.0, y.1) {
      assert Both(InField(p), x) && Both(InField(p), y);
      assert Poseidon2.Hash2(p, x.0, x.1) == Poseidon2.Hash2(p, y.0, y.1);
    } else {
      var x :| x in hashed && W.HashFn(p)(x.0, x.1) == 0;
      assert Both(InField(p), x) && Poseidon2.Hash2(p, x.0, x.1) == 0;
    }
  }

  /** Everything hashed in a run is a pair of field elements. */
  lemma HashedInField<P(!new)>(p: nat, env: Env<Bytes32, P>, extract: (P, seq<Bytes32>) -> Opening<int>,
                               balances: Balances, ops: seq<Op<Bytes32, P>>)
    requires p > 1 && Extracts(p, env, extract)
    ensures forall x :: x in Hashed(env, FieldScheme(p), extract, Fresh(balances), ops) ==> Both(InField(p), x)
  {
    FieldSchemeKeeps(p);
    HashedKeep(env, FieldScheme(p), extract, Fresh(balances), ops, InField(p));
  }

  lemma HashedWithInField<P(!new)>(p: nat, env: Env<Bytes32, P>, extract: (P, seq<Bytes32>) -> Opening<int>,
                                   balances: Balances, ops: seq<Op<Bytes32, P>>, proof: P, signals: seq<Bytes32>)
    requires p > 1 && Extracts(p, env, extract)
    ensures forall x :: x in HashedWith(env, FieldScheme(p), extract, balances, ops, proof, signals) ==>
      Both(InField(p), x)
  {
    FieldSchemeKeeps(p);
    HashedInField(p, env, extract, balances, ops);
    CheckedKeep(FieldScheme(p), extract(proof, signals), InField(p));
  }

  // ----- from constraints to money ------------------------------------------------------------------------

  /** Every withdrawal of the run names a nullifier below the modulus. */
  ghost predicate CallsBelow<P>(p: nat, ops: seq<Op<Bytes32, P>>) {
    forall i :: 0 <= i < |ops| && ops[i].Withdraw? ==> ops[i].nullifier as int < p
  }

  lemma CallsBelowIff<P>(p: nat, ops: seq<Op<Bytes32, P>>)
    requires p > 0
    ensures CallsBelow(p, ops) <==> CanonicalCalls(FieldScheme(p), ops)
  {
    forall i | 0 <= i < |ops| && ops[i].Withdraw?
      ensures Canonical(FieldScheme(p), ops[i].nullifier) <==> ops[i].nullifier as int < p
    {
      CanonicalIff(p, ops[i].nullifier);
    }
  }

  /**
    From constraints to money. For any prime that fits in 32 bytes, any depth, any verifier that accepts only
    satisfiable constraint systems and whichever witnesses are extracted from the accepted proofs: in every
    run the balance adds up, and withdrawals have deposits of their own and never exceed them, unless two
    different pairs of field elements that the run hashed have one Poseidon2 hash (or one pair hashes to 0),
    or two burnt values are equal modulo p. The latter never happens if every call names a nullifier below p.
  */
  lemma CircuitPoolIsSolvent<P(!new)>(p: nat, env: Env<Bytes32, P>, extract: (P, seq<Bytes32>) -> Opening<int>,
                                      balances: Balances, ops: seq<Op<Bytes32, P>>)
    returns (spent: map<int, nat>)
    requires IsModulus(p) && CircuitVerified(p, env) && Extracts(p, env, extract)
    ensures Accounted(env, balances, ops)
    ensures forall x :: x in Hashed(env, FieldScheme(p), extract, Fresh(balances), ops) ==> Both(InField(p), x)
    ensures CallsBelow(p, ops) ==> Unaliased(FieldScheme(p), Run(env, Fresh(balances), ops).nullifiers)
    ensures var s, t := Run(env, Fresh(balances), ops), Totals(env, Fresh(balances), ops);
      || FieldCollision(p, Hashed(env, FieldScheme(p), extract, Fresh(balances), ops))
      || !Unaliased(FieldScheme(p), s.nullifiers)
      || (Assigns(FieldScheme(p), s, spent) && |spent.Keys| == t.withdrawals <= t.deposits)
  {
    var sc := FieldScheme(p);
    var hashed := Hashed(env, sc, extract, Fresh(balances), ops);
    ExtractsIsSound(p, env, extract);
    CallsBelowIff(p, ops);
    HashedInField(p, env, extract, balances, ops);
    spent := PoolIsSolvent(env, sc, extract, balances, ops);
    if Collision(sc.h, sc.zero, hashed) {
      CollisionInField(p, hashed);
    }
  }

  // ----- from satisfiable constraints to a payout -----------------------------------------------------------

  function Reduced(p: nat, xs: seq<int>): (r: seq<int>)
    requires p > 0
    ensures |r| == |xs| && forall i :: 0 <= i < |xs| ==> r[i] == xs[i] % p
  {
    if xs == [] then [] else Reduced(p, xs[..|xs| - 1]) + [xs[|xs| - 1] % p]
  }

  lemma {:induction false} FoldReduces(p: nat, leaf: int, siblings: seq<int>, bits: seq<bool>, n: nat)
    requires p > 0 && n <= |siblings| && n <= |bits|
    ensures Fold(W.HashFn(p), leaf, Reduced(p, siblings), bits, n) == Fold(W.HashFn(p), leaf, siblings, bits, n)
  {
    if n != 0 {
      FoldReduces(p, leaf, siblings, bits, n - 1);
      var node, sibling := Fold(W.HashFn(p), leaf, siblings, bits, n - 1), siblings[n - 1];
      SiblingReduces(p, node, sibling);
    }
  }

  lemma SiblingReduces(p: nat, node: int, sibling: int)
    requires p > 0
    ensures Poseidon2.Hash2(p, sibling % p, node) == Poseidon2.Hash2(p, sibling, node)
    ensures Poseidon2.Hash2(p, node, sibling % p) == Poseidon2.Hash2(p, node, sibling)
  {
    ModTwice(p, sibling);
    Poseidon2.HashReduces(p, sibling % p, node);
    Poseidon2.HashReduces(p, sibling, node);
    Poseidon2.HashReduces(p, node, sibling % p);
    Poseidon2.HashReduces(p, node, sibling);
  }

  lemma ModTwice(p: nat, x: int)
    requires p > 0
    ensures x % p % p == x % p && 0 <= x % p < p
  {
    F.ModRange(p, x);
    F.CanonicalMod(p, x % p);
  }

  /** Any integers that open a statement do so once reduced. */
  lemma OpeningReduces(p: nat, depth: nat, root: int, nullifier: int, o: Opening<int>)
    requires p > 0 && OpenedBy(W.HashFn(p), 0, 1, depth, root, nullifier, o)
    ensures Opened(p, depth, root, nullifier, Opening(o.secret % p, Reduced(p, o.siblings), o.bits))
  {
    SiblingReduces(p, 0, o.secret);
    SiblingReduces(p, 1, o.secret);
    FoldReduces(p, W.HashFn(p)(o.secret, 0), o.siblings, o.bits, depth);
    ModTwice(p, o.secret);
    forall i | 0 <= i < |o.siblings|
      ensures InField(p)(Reduced(p, o.siblings)[i])
    {
      ModTwice(p, o.siblings[i]);
    }
  }

  /** The prover proves whatever the emitted constraints can be satisfied for. */
  ghost predicate CircuitProved<P(!new)>(p: nat, env: Env<Bytes32, P>)
    requires p > 0
  {
    forall root, nullifier, signal ::
      W.Satisfiable(p, env.depth, Decode(p, root), Decode(p, nullifier), Decode(p, signal)) ==>
      HasProof(env, root, nullifier, signal)
  }

  /** Such a prover is complete in the sense of the recipient's theorems. */
  lemma CircuitProverIsComplete<P(!new)>(p: nat, env: Env<Bytes32, P>)
    requires F.IsPrime(p) && CircuitProved(p, env)
    ensures Complete(env, FieldScheme(p))
  {
    forall root, nullifier, signal | Provable(W.HashFn(p), 0, 1, env.depth, Decode(p, root), Decode(p, nullifier))
      ensures HasProof(env, root, nullifier, signal)
    {
      var secret, siblings, bits :|
        Opens(W.HashFn(p), 0, 1, env.depth, Decode(p, root), Decode(p, nullifier), secret, siblings, bits);
      OpeningReduces(p, env.depth, Decode(p, root), Decode(p, nullifier), Opening(secret, siblings, bits));
      OpenedIffAssignable(p, env.depth, Decode(p, root), Decode(p, nullifier));
      F.ModRange(p, root as int);
      F.ModRange(p, nullifier as int);
      W.CircuitMeaning(p, env.depth, Decode(p, root), Decode(p, nullifier), Decode(p, signal));
    }
  }

  /**
    With this proof the recipient is paid, or their balance would overflow, or Poseidon2 collides or a nullifier is
    burnt twice.
  */
  ghost predicate PayableInField<P(!new)>(p: nat, env: Env<Bytes32, P>, extract: (P, seq<Bytes32>) -> Opening<int>,
                                          balances: Balances,
                                          ops: seq<Op<Bytes32, P>>, w: Withdrawal<Bytes32, int>,
                                          recipient: Address, signal: Bytes32, proof: P)
    requires p > 0
  {
    var s := Run(env, Fresh(balances), ops);
    var r := WithdrawStep(env, s, w.root, w.nullifier, recipient, signal, proof);
    || FieldCollision(p, HashedWith(env, FieldScheme(p), extract, balances, ops, proof, [w.root, w.nullifier, signal]))
    || Aliased(env, FieldScheme(p), balances, ops, w.nullifier)
    || r == Err(TokenFailure(BalanceOverflow))
    || (r.Ok? && Moves(s.balances, r.value.balances, env.config.token, env.pool, recipient, env.config.denom))
  }

  lemma PayableIsInField<P(!new)>(p: nat, env: Env<Bytes32, P>, extract: (P, seq<Bytes32>) -> Opening<int>,
                                  balances: Balances,
                                  ops: seq<Op<Bytes32, P>>, w: Withdrawal<Bytes32, int>,
                                  recipient: Address, signal: Bytes32, proof: P)
    requires p > 1 && Extracts(p, env, extract)
    requires Payable(env, FieldScheme(p), extract, balances, ops, w, recipient, signal, proof)
    ensures PayableInField(p, env, extract, balances, ops, w, recipient, signal, proof)
  {
    var hashed := HashedWith(env, FieldScheme(p), extract, balances, ops, proof, [w.root, w.nullifier, signal]);
    HashedWithInField(p, env, extract, balances, ops, proof, [w.root, w.nullifier, signal]);
    if Collision(W.HashFn(p), 0, hashed) {
      CollisionInField(p, hashed);
    }
  }

  /** The commitment and the nullifier of a redemption, as numbers. */
  lemma NoteInField(p: nat, depth: nat, w: Withdrawal<Bytes32, int>, secret: int)
    requires 0 < p <= F.TWO_TO_256 && Canonical(FieldScheme(p), w.nullifier) && Shows(FieldScheme(p), depth, w, secret)
    ensures CommitmentOf(FieldScheme(p), secret) as int == Poseidon2.Hash2(p, secret, 0)
    ensures w.nullifier as int == Poseidon2.Hash2(p, secret, 1)
  {
    HashReduced(p, secret, 0);
    HashReduced(p, secret, 1);
  }

  /**
    The whole way of a sealed gift at the circuit and Poseidon2: a verifier that accepts only satisfiable
    constraint systems, and a prover that proves every satisfiable one.
  */
  method RedeemCircuitGift<P(!new)>(p: nat, env: Env<Bytes32, P>, docs: seq<I.Leaf<Bytes32>>, secret: int,
      ghost extract: (P, seq<Bytes32>) -> Opening<int>, ghost balances: Balances,
      ghost ops: seq<Op<Bytes32, P>>, ghost later: seq<Op<Bytes32, P>>,
      ghost lookback: nat, ghost actions: seq<R.Action<Bytes32>>, ghost recipient: Address, ghost signal: Bytes32)
    returns (r: Option<Withdrawal<Bytes32, int>>, ghost proof: Option<P>)
    requires IsModulus(p) && CircuitVerified(p, env) && CircuitProved(p, env) && Extracts(p, env, extract)
    requires InRange(balances) && Served(env, balances, ops, lookback, actions, docs)
    ensures var indexed := R.Run(lookback, R.Genesis<Bytes32>(), actions).leaves;
      r.None? <==> forall i :: i in indexed ==> indexed[i].commitment != CommitmentOf(FieldScheme(p), secret)
    ensures var k := |R.Run(lookback, R.Genesis<Bytes32>(), actions).leaves.Keys|;
      r.Some? ==> Redeems(env, FieldScheme(p), Run(env, Fresh(balances), ops).leaves, k, r.value, secret)
    ensures r.Some? && CallsBelow(p, ops + later) ==>
      !Aliased(env, FieldScheme(p), balances, ops + later, r.value.nullifier)
    ensures var k := |R.Run(lookback, R.Genesis<Bytes32>(), actions).leaves.Keys|;
      r.Some? && StillOpen(env, balances, ops + later, k, r.value) ==>
      proof.Some? && PayableInField(p, env, extract, balances, ops + later, r.value, recipient, signal, proof.value)
  {
    ExtractsIsSound(p, env, extract);
    CircuitProverIsComplete(p, env);
    CallsBelowIff(p, ops + later);
    r, proof := RedeemSealedGift(env, FieldScheme(p), docs, secret, extract, balances, ops, later, lookback, actions,
                                 recipient, signal);
    ghost var k := |R.Run(lookback, R.Genesis<Bytes32>(), actions).leaves.Keys|;
    if r.Some? && StillOpen(env, balances, ops + later, k, r.value) {
      PayableIsInField(p, env, extract, balances, ops + later, r.value, recipient, signal, proof.value);
    }
  }
}
