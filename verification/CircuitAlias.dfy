/**
  Why the pool's value claim asks that no two burnt values encode one field element. The verifier
  sees signals only modulo the field order, a 32-byte value has room for a second encoding, and
  with it one note is paid twice, however good the verifier.
*/
module CircuitAlias {
  import opened Wrappers
  import opened TokenLedger
  import opened Merkle
  import opened NoteRelation
  import opened Encoding
  import opened ShieldedPool
  import opened PoolRuns
  import opened PoolSolvency
  import opened CircuitPool
  import opened SealedGift
  import F = Field
  import G = Groth16
  import Poseidon2
  import W = WithdrawCircuit

  // ----- which values have a second encoding -----------------------------------------------------------

  /** A canonical value has another encoding exactly when adding the modulus stays within 32 bytes. */
  lemma SecondEncodingIff(p: nat, n: Bytes32)
    requires p > 0 && n as int < p
    ensures (exists other: Bytes32 :: other != n && Decode(p, other) == Decode(p, n)) <==> n as int + p < F.TWO_TO_256
  {
    F.CanonicalMod(p, n as int);
    if n as int + p < F.TWO_TO_256 {
      F.ModShift(p, n as int, 1);
      var other := (n as int + p) as Bytes32;
      assert other != n && Decode(p, other) == Decode(p, n);
    }
    if other: Bytes32 :| other != n && Decode(p, other) == Decode(p, n) {
      NextEncoding(p, n as int, other as int);
    }
  }

  lemma NextEncoding(p: nat, n: int, other: int)
    requires 0 <= n < p && other >= 0 && other % p == n && other != n
    ensures n + p <= other
  {
    assert other == p * (other / p) + n;
    assert other / p >= 1;
    AtLeastOnce(p, other / p);
  }

  /** With the code's modulus every nullifier has a second encoding. */
  lemma CodeModulusHasAliases(secret: int)
    ensures Poseidon2.Hash2(Poseidon2.FR_MODULUS, secret, 1) + Poseidon2.FR_MODULUS < F.TWO_TO_256
  {
    Poseidon2.HashCanonical(Poseidon2.FR_MODULUS, secret, 1);
    Poseidon2.TwoEncodingsFit();
  }

  // ----- the verifier sees what the signals decode to -------------------------------------------------------

  function Numbers(bs: seq<Bytes32>): (ns: seq<nat>)
    ensures |ns| == |bs| && forall i :: 0 <= i < |bs| ==> ns[i] == bs[i] as int
  {
    if bs == [] then [] else Numbers(bs[..|bs| - 1]) + [bs[|bs| - 1] as int]
  }

  /** The pool's verifier is the Groth16 verifier with the key `vk`; a trap refuses. */
  ghost predicate Groth16Verified<A(!new), B(!new), T>(c: G.Curve<A, B, T>, vk: G.VerifyingKey<A, B>,
                                                       env: Env<Bytes32, G.Proof<A, B>>)
  {
    forall proof, signals :: env.verify(proof, signals) <==>
      |vk.ic| == |signals| + 1 && G.Accepts(c, vk, proof, Numbers(signals))
  }

  lemma SameNumbers(r: nat, root: Bytes32, nullifier: Bytes32, other: Bytes32, signal: Bytes32)
    requires r > 0 && Decode(r, nullifier) == Decode(r, other)
    ensures G.SameModOrder(r, Numbers([root, nullifier, signal]), Numbers([root, other, signal]))
  {
  }

  lemma AcceptedAlike<A(!new), B(!new), T(!new)>(c: G.Curve<A, B, T>, vk: G.VerifyingKey<A, B>, proof: G.Proof<A, B>,
                                                 root: Bytes32, nullifier: Bytes32, other: Bytes32, signal: Bytes32)
    requires G.HasOrder(c.g1, c.r) && |vk.ic| == 4 && Decode(c.r, nullifier) == Decode(c.r, other)
    ensures G.Accepts(c, vk, proof, Numbers([root, nullifier, signal]))
       <==> G.Accepts(c, vk, proof, Numbers([root, other, signal]))
  {
    SameNumbers(c.r, root, nullifier, other, signal);
    G.AcceptsModOrder(c, vk, proof, Numbers([root, nullifier, signal]), Numbers([root, other, signal]));
  }

  /** Such a verifier cannot tell two encodings of a nullifier apart. */
  lemma Groth16SeesDecoded<A(!new), B(!new), T(!new)>(c: G.Curve<A, B, T>, vk: G.VerifyingKey<A, B>,
                                                      env: Env<Bytes32, G.Proof<A, B>>)
    requires G.HasOrder(c.g1, c.r) && Groth16Verified(c, vk, env)
    ensures SeesDecoded(env, FieldScheme(c.r))
  {
    forall proof, root, nullifier, signal, other | Decode(c.r, nullifier) == Decode(c.r, other)
      ensures env.verify(proof, [root, nullifier, signal]) == env.verify(proof, [root, other, signal])
    {
      if |vk.ic| == 4 {
        AcceptedAlike(c, vk, proof, root, nullifier, other, signal);
      }
    }
  }

  /**
    A pool with the Groth16 verifier, at any point: where a withdrawal passes the root and proof checks, the
    same call with the order added to the nullifier is refused as used exactly if that very value is burnt,
    and is otherwise paid whenever the transfer goes through.
  */
  lemma SecondEncodingPasses<A(!new), B(!new), T(!new)>(c: G.Curve<A, B, T>, vk: G.VerifyingKey<A, B>,
      env: Env<Bytes32, G.Proof<A, B>>, s: State<Bytes32>, root: Bytes32, nullifier: Bytes32, other: Bytes32,
      recipient: Address, signal: Bytes32, proof: G.Proof<A, B>)
    requires G.IsCurve(c) && Groth16Verified(c, vk, env) && other as int == nullifier as int + c.r
    requires root in History(env, s.leaves) && env.verify(proof, [root, nullifier, signal])
    ensures var r := WithdrawStep(env, s, root, other, recipient, signal, proof);
      if other in s.nullifiers then r == Err(NullifierUsed)
      else r.Ok? <==> Transfer(s.balances, env.config.token, env.pool, recipient, env.config.denom).Ok?
  {
    Groth16SeesDecoded(c, vk, env);
    AddedOrderPasses(c.r, env, s, root, nullifier, other, recipient, signal, proof);
  }

  lemma AddedOrderPasses<P(!new)>(p: nat, env: Env<Bytes32, P>, s: State<Bytes32>, root: Bytes32, nullifier: Bytes32,
                                  other: Bytes32, recipient: Address, signal: Bytes32, proof: P)
    requires p > 0 && SeesDecoded(env, FieldScheme(p)) && other as int == nullifier as int + p
    requires root in History(env, s.leaves) && env.verify(proof, [root, nullifier, signal])
    ensures var r := WithdrawStep(env, s, root, other, recipient, signal, proof);
      if other in s.nullifiers then r == Err(NullifierUsed)
      else r.Ok? <==> Transfer(s.balances, env.config.token, env.pool, recipient, env.config.denom).Ok?
  {
    F.ModShift(p, nullifier as int, 1);
    AliasPasses(env, FieldScheme(p), s, root, nullifier, other, recipient, signal, proof);
  }

  // ----- a verifier that is as good as it can be ---------------------------------------------------------------

  /** The proof is the witness, and it is checked. */
  ghost function Checker(p: nat, depth: nat): Env<Bytes32, Opening<int>>
    requires p > 0
  {
    Env((a, b) => Encode(W.HashFn(p)(Decode(p, a), Decode(p, b))), 0, depth,
        (o: Opening<int>, signals: seq<Bytes32>) =>
          |signals| == 3 && Opened(p, depth, Decode(p, signals[0]), Decode(p, signals[1]), o),
        "pool", Config("token", 1, "verifier"))
  }

  lemma SatisfiableIffOpened(p: nat, depth: nat, root: Bytes32, nullifier: Bytes32, signal: Bytes32)
    requires F.IsPrime(p)
    ensures W.Satisfiable(p, depth, Decode(p, root), Decode(p, nullifier), Decode(p, signal))
       <==> exists o :: Opened(p, depth, Decode(p, root), Decode(p, nullifier), o)
  {
    F.ModRange(p, root as int);
    F.ModRange(p, nullifier as int);
    W.CircuitMeaning(p, depth, Decode(p, root), Decode(p, nullifier), Decode(p, signal));
    OpenedIffAssignable(p, depth, Decode(p, root), Decode(p, nullifier));
  }

  lemma CheckerProves(p: nat, depth: nat, root: Bytes32, nullifier: Bytes32, signal: Bytes32)
    requires F.IsPrime(p) && W.Satisfiable(p, depth, Decode(p, root), Decode(p, nullifier), Decode(p, signal))
    ensures HasProof(Checker(p, depth), root, nullifier, signal)
  {
    SatisfiableIffOpened(p, depth, root, nullifier, signal);
    var o :| Opened(p, depth, Decode(p, root), Decode(p, nullifier), o);
    assert Passes(Checker(p, depth), o, root, nullifier, signal);
  }

  /** It accepts only what satisfies the circuit, and every satisfiable system has a proof. */
  lemma CheckerFollowsCircuit(p: nat, depth: nat)
    requires F.IsPrime(p)
    ensures CircuitVerified(p, Checker(p, depth)) && CircuitProved(p, Checker(p, depth))
  {
    var env := Checker(p, depth);
    F.CanonicalMod(p, 0);
    forall proof, root, nullifier, signal | env.verify(proof, [root, nullifier, signal])
      ensures W.Satisfiable(p, depth, Decode(p, root), Decode(p, nullifier), Decode(p, signal))
    {
      SatisfiableIffOpened(p, depth, root, nullifier, signal);
    }
    forall root, nullifier, signal | W.Satisfiable(p, depth, Decode(p, root), Decode(p, nullifier), Decode(p, signal))
      ensures HasProof(env, root, nullifier, signal)
    {
      CheckerProves(p, depth, root, nullifier, signal);
    }
  }

  // ----- one note paid twice ------------------------------------------------------------------------------------

  /** A path for any leaf of any tree. */
  lemma PathExists<T>(h: (T, T) -> T, zero: T, leaves: seq<T>, index: nat, n: nat)
    returns (siblings: seq<T>, bits: seq<bool>)
    ensures |siblings| == |bits| == n
    ensures forall d :: 0 <= d < n ==> OnPath(h, zero, leaves, index, d, siblings[d], bits[d])
    ensures Fold(h, NodeAt(h, zero, leaves, 0, index), siblings, bits, n) == NodeAt(h, zero, leaves, n, Shift(index, n))
  {
    siblings, bits := [], [];
    for d := 0 to n
      invariant |siblings| == |bits| == d
      invariant forall k :: 0 <= k < d ==> OnPath(h, zero, leaves, index, k, siblings[k], bits[k])
    {
      siblings := siblings + [NodeAt(h, zero, leaves, d, Sibling(Shift(index, d)))];
      bits := bits + [Shift(index, d) % 2 == 1];
    }
    PathFolds(h, zero, leaves, index, siblings, bits, n);
  }

  /** The siblings of a path in a tree over field elements are field elements. */
  lemma PathInField(p: nat, leaves: seq<int>, index: nat, siblings: seq<int>, bits: seq<bool>)
    requires p > 0 && AllKeep(InField(p), leaves) && |siblings| == |bits|
    requires forall d :: 0 <= d < |siblings| ==> OnPath(W.HashFn(p), 0, leaves, index, d, siblings[d], bits[d])
    ensures AllKeep(InField(p), siblings)
  {
    forall x, y ensures InField(p)(W.HashFn(p)(x, y)) { HashReduced(p, x, y); }
    forall d | 0 <= d < |siblings|
      ensures InField(p)(siblings[d])
    {
      assert OnPath(W.HashFn(p), 0, leaves, index, d, siblings[d], bits[d]);
      NodeKeeps(W.HashFn(p), 0, leaves, d, Sibling(Shift(index, d)), InField(p));
    }
  }

  /** One deposit, and two withdrawals of its note that differ in how its nullifier is written. */
  ghost function TwiceWritten(root: Bytes32, commitment: Bytes32, nullifier: Bytes32, other: Bytes32, o: Opening<int>)
    : seq<Op<Bytes32, Opening<int>>>
  {
    [Deposit({"sender"}, "sender", commitment),
     Withdraw(root, nullifier, "receiver", 0, o),
     Withdraw(root, other, "receiver", 0, o)]
  }

  /** Enough for one deposit, and as much again in the pool already. */
  function Funds(): Balances {
    map[Account("token", "sender") := 1, Account("token", "pool") := 1]
  }

  /** Two withdrawals of one deposit, if both pass: the money is there. */
  lemma BothPaid(p: nat, depth: nat, commitment: Bytes32, nullifier: Bytes32, other: Bytes32, o: Opening<int>)
    requires p > 0 && nullifier != other && Decode(p, other) == Decode(p, nullifier)
    requires var env := Checker(p, depth);
      Opened(p, depth, Decode(p, Root(env.h, 0, [commitment], depth)), Decode(p, nullifier), o)
    ensures var env := Checker(p, depth);
      Totals(env, Fresh(Funds()), TwiceWritten(Root(env.h, 0, [commitment], depth), commitment, nullifier, other, o))
      == Tally(1, 2, 2, 0)
  {
    var env := Checker(p, depth);
    var root := Root(env.h, 0, [commitment], depth);
    var ops := TwiceWritten(root, commitment, nullifier, other, o);
    var s0 := Fresh<Bytes32>(Funds());
    var s1 := Next(env, s0, ops[0]);
    assert s1.leaves == [commitment];
    HistoryEnds(env, s1.leaves);
    var s2 := Next(env, s1, ops[1]);
    assert s2.nullifiers == {nullifier} && s2.leaves == [commitment];
    assert Try(env, s2, ops[2]).Some?;
    assert Totals(env, s2, ops[2..]) == Tally(0, 1, 1, 0) by {
      assert ops[2..][1..] == [];
    }
    assert ops[1..][1..] == ops[2..];
  }

  /** The only note in a tree has a path to the root, made of field elements. */
  lemma LoneNotePath(p: nat, depth: nat, secret: int) returns (o: Opening<int>)
    requires p > 0
    ensures var h := W.HashFn(p);
      Opened(p, depth, Root(h, 0, [h(secret, 0)], depth), h(secret, 1), o)
  {
    var h := W.HashFn(p);
    var leaves := [h(secret, 0)];
    var siblings, bits := PathExists(h, 0, leaves, 0, depth);
    ShiftAway(0, depth);
    HashReduced(p, secret, 0);
    PathInField(p, leaves, 0, siblings, bits);
    SiblingReduces(p, 0, secret);
    SiblingReduces(p, 1, secret);
    ModTwice(p, secret);
    o := Opening(secret % p, siblings, bits);
  }

  /** The contract's root, decoded, is the root over field elements. */
  lemma LoneRoot(p: nat, depth: nat, commitment: Bytes32)
    requires 0 < p <= F.TWO_TO_256 && commitment as int < p
    ensures Decode(p, Root(Checker(p, depth).h, 0, [commitment], depth))
         == Root(W.HashFn(p), 0, [commitment as int], depth)
  {
    var sc := FieldScheme(p);
    FieldSchemeIsScheme(p);
    F.CanonicalMod(p, 0);
    NodeDecodes(sc, Checker(p, depth).h, 0, [commitment], depth, 0);
    F.CanonicalMod(p, commitment as int);
    assert Decoded(sc, [commitment]) == [commitment as int];
  }

  lemma LoneNoteOpens(p: nat, depth: nat, secret: int) returns (o: Opening<int>)
    requires 0 < p <= F.TWO_TO_256
    ensures var h := W.HashFn(p);
      Opened(p, depth, Decode(p, Root(Checker(p, depth).h, 0, [Encode(h(secret, 0))], depth)), h(secret, 1), o)
  {
    HashReduced(p, secret, 0);
    LoneRoot(p, depth, Encode(W.HashFn(p)(secret, 0)));
    o := LoneNotePath(p, depth, secret);
  }

  /** `n` and `n + p` are two encodings of one field element. */
  lemma TwoEncodings(p: nat, n: int)
    requires 0 <= n < p && n + p < F.TWO_TO_256
    ensures Encode(n) != Encode(n + p) && Decode(p, Encode(n)) == Decode(p, Encode(n + p)) == n
  {
    F.CanonicalMod(p, n);
    F.ModShift(p, n, 1);
  }

  /**
    The condition on the burnt values is needed. For every modulus that leaves room in 32 bytes for a second
    encoding, every depth and every secret there is a run with one deposit and two paid withdrawals: they
    differ only in writing the nullifier as `n` and as `n + p`. The verifier checks the witness itself.
  */
  lemma OneNoteTwoEncodings(p: nat, depth: nat, secret: int) returns (root: Bytes32, o: Opening<int>)
    requires p > 0 && Poseidon2.Hash2(p, secret, 1) + p < F.TWO_TO_256
    ensures F.IsPrime(p) ==> CircuitVerified(p, Checker(p, depth))
    ensures var commitment, n := Encode(Poseidon2.Hash2(p, secret, 0)), Poseidon2.Hash2(p, secret, 1);
      && 0 <= n < p
      && Totals(Checker(p, depth), Fresh(Funds()), TwiceWritten(root, commitment, Encode(n), Encode(n + p), o))
         == Tally(1, 2, 2, 0)
  {
    if F.IsPrime(p) {
      CheckerFollowsCircuit(p, depth);
    }
    var commitment, n := Encode(Poseidon2.Hash2(p, secret, 0)), Poseidon2.Hash2(p, secret, 1);
    HashReduced(p, secret, 1);
    TwoEncodings(p, n);
    o := LoneNoteOpens(p, depth, secret);
    root := Root(Checker(p, depth).h, 0, [commitment], depth);
    BothPaid(p, depth, commitment, Encode(n), Encode(n + p), o);
  }
}
