/**
  A sealed gift from the recipient's side (frontend/src/lib/poolClient.ts): the events the pool
  publishes, the list the indexer serves, the path the browser rebuilds from it, the statement
  the prover proves, and the contract that accepts it. Here the pieces meet.
*/
module SealedGift {
  import opened Wrappers
  import opened TokenLedger
  import opened Merkle
  import opened AuthPath
  import opened NoteRelation
  import opened Encoding
  import opened ShieldedPool
  import opened PoolRuns
  import opened PoolSolvency
  import I = PoolIndexer
  import R = IndexerRuns

  datatype ClientError = NotDepositedYet | RootsDisagree

  /** What the proof is made from, and the raw root and nullifier it shows. */
  datatype Withdrawal<B, F> = Withdrawal(leafIndex: nat, siblings: seq<F>, bits: seq<bool>, root: B, nullifier: B)

  /** The recipient's secret opens the withdrawal's root and nullifier. */
  ghost predicate Shows<B, F>(sc: Scheme<B, F>, depth: nat, w: Withdrawal<B, F>, secret: F) {
    Opens(sc.h, sc.zero, sc.one, depth, sc.decode(w.root), sc.decode(w.nullifier), secret, w.siblings, w.bits)
  }

  /** The raw commitment of a secret, as the browser computes it. */
  function CommitmentOf<B, F>(sc: Scheme<B, F>, secret: F): B {
    sc.encode(sc.h(secret, sc.zero))
  }

  // ----- the browser -------------------------------------------------------------------------------

  /** The prover's own fold of the path: its loop over siblings and bits. */
  method FoldPath<F>(h: (F, F) -> F, leaf: F, siblings: seq<F>, bits: seq<bool>) returns (root: F)
    requires |siblings| == |bits|
    ensures root == Fold(h, leaf, siblings, bits, |siblings|)
  {
    root := leaf;
    for i := 0 to |siblings|
      invariant root == Fold(h, leaf, siblings, bits, i)
    {
      root := if bits[i] then h(siblings[i], root) else h(root, siblings[i]);
    }
  }

  /** A raw path, decoded, is a path of the decoded tree. */
  lemma PathDecodes<B(!new), F(!new)>(sc: Scheme<B, F>, rawHash: (B, B) -> B, rawZero: B, depth: nat, leaves: seq<B>,
                                      index: nat, path: MerklePath<B>)
    requires IsScheme(sc) && Implements(sc, rawHash, rawZero) && |path.siblings| == |path.bits| == depth
    requires forall d :: 0 <= d < depth ==> OnPath(rawHash, rawZero, leaves, index, d, path.siblings[d], path.bits[d])
    ensures forall d :: 0 <= d < depth ==>
      OnPath(sc.h, sc.zero, Decoded(sc, leaves), index, d, Decoded(sc, path.siblings)[d], path.bits[d])
  {
    forall d | 0 <= d < depth
      ensures OnPath(sc.h, sc.zero, Decoded(sc, leaves), index, d, Decoded(sc, path.siblings)[d], path.bits[d])
    {
      assert OnPath(rawHash, rawZero, leaves, index, d, path.siblings[d], path.bits[d]);
      NodeDecodes(sc, rawHash, rawZero, leaves, d, Sibling(Shift(index, d)));
    }
  }

  /** What the prover folds, encoded, is the root that the browser rebuilt. */
  lemma RootsAgree<B(!new), F(!new)>(sc: Scheme<B, F>, rawHash: (B, B) -> B, rawZero: B, depth: nat, leaves: seq<B>,
                                     index: nat, path: MerklePath<B>, secret: F)
    requires IsScheme(sc) && Implements(sc, rawHash, rawZero) && |path.siblings| == |path.bits| == depth
    requires index < |leaves| && index < Pow2(depth) && leaves[index] == CommitmentOf(sc, secret)
    requires forall d :: 0 <= d < depth ==> OnPath(rawHash, rawZero, leaves, index, d, path.siblings[d], path.bits[d])
    ensures sc.encode(Fold(sc.h, sc.h(secret, sc.zero), Decoded(sc, path.siblings), path.bits, depth))
         == Root(rawHash, rawZero, leaves, depth)
  {
    var decoded := Decoded(sc, leaves);
    assert decoded[index] == sc.h(secret, sc.zero);
    PathDecodes(sc, rawHash, rawZero, depth, leaves, index, path);
    var decodedPath := MerklePath(Decoded(sc, path.siblings), path.bits, decoded[index]);
    AuthPathFolds(sc.h, sc.zero, depth, decoded, index, decodedPath);
    if depth == 0 {
      assert Root(rawHash, rawZero, leaves, depth) == leaves[0];
    } else {
      InnerNodeEncodes(sc, rawHash, rawZero, leaves, depth, 0);
    }
  }

  /** An encoded fold decodes to itself. */
  lemma FoldDecodes<B, F(!new)>(sc: Scheme<B, F>, secret: F, siblings: seq<F>, bits: seq<bool>, n: nat)
    requires IsScheme(sc) && n <= |siblings| && n <= |bits|
    ensures var f := Fold(sc.h, sc.h(secret, sc.zero), siblings, bits, n); sc.decode(sc.encode(f)) == f
  {
  }

  /** `prepareWithdraw`: find the note's first position, rebuild its path, prove, and compare roots. */
  method PrepareWithdraw<B(0, ==, !new), F(!new)>(sc: Scheme<B, F>, rawHash: (B, B) -> B, rawZero: B, depth: nat,
                                                  commitments: seq<B>, secret: F)
    returns (r: Result<Withdrawal<B, F>, ClientError>)
    requires IsScheme(sc) && Implements(sc, rawHash, rawZero)
    ensures r.Err? && r.error.NotDepositedYet? <==> CommitmentOf(sc, secret) !in commitments
    ensures r.Err? && r.error.RootsDisagree? ==> |commitments| > Pow2(depth)
    ensures r.Ok? ==> var w := r.value;
      && w.leafIndex < |commitments| && commitments[w.leafIndex] == CommitmentOf(sc, secret)
      && CommitmentOf(sc, secret) !in commitments[..w.leafIndex]
      && w.root == Root(rawHash, rawZero, commitments, depth)
      && Canonical(sc, w.nullifier) && Shows(sc, depth, w, secret)
  {
    var commitment := CommitmentOf(sc, secret);
    var leafIndex := 0;
    while leafIndex < |commitments| && commitments[leafIndex] != commitment
      invariant leafIndex <= |commitments| && commitment !in commitments[..leafIndex]
    {
      leafIndex := leafIndex + 1;
    }
    if leafIndex == |commitments| {
      assert commitments[..leafIndex] == commitments;
      return Err(NotDepositedYet);
    }
    var path := BuildAuthPath(rawHash, rawZero, depth, commitments, leafIndex);
    var siblings := Decoded(sc, path.siblings);
    var folded := FoldPath(sc.h, sc.h(secret, sc.zero), siblings, path.bits);
    var root, nullifier := sc.encode(folded), sc.encode(sc.h(secret, sc.one));
    if |commitments| <= Pow2(depth) {
      RootsAgree(sc, rawHash, rawZero, depth, commitments, leafIndex, path, secret);
    }
    if root != path.root {
      return Err(RootsDisagree);
    }
    FoldDecodes(sc, secret, siblings, path.bits, depth);
    HashIsCanonical(sc, secret, sc.one);
    r := Ok(Withdrawal(leafIndex, siblings, path.bits, root, nullifier));
  }

  // ----- from the contract's events to the index ----------------------------------------------------

  /** The log as the RPC node serves it lists the contract's events, in order. */
  ghost predicate Records<B>(log: seq<I.Event<B>>, events: seq<PoolEvent<B>>) {
    && |log| == |events|
    && forall i :: 0 <= i < |log| ==>
         match events[i]
         case Deposited(index, commitment) =>
           log[i].Deposit? && log[i].leaf.leafIndex == index && log[i].leaf.commitment == commitment
         case Withdrawn(_) => log[i].Other?
  }

  lemma {:induction false} RecordsDeposits<B>(log: seq<I.Event<B>>, events: seq<PoolEvent<B>>)
    requires Records(log, events)
    ensures |I.DepositsIn(log)| == |Announced(events)|
    ensures forall i :: 0 <= i < |I.DepositsIn(log)| ==>
      Announced(events)[i] == Deposited(I.DepositsIn(log)[i].leafIndex, I.DepositsIn(log)[i].commitment)
  {
    if log != [] {
      RecordsDeposits(log[..|log| - 1], events[..|events| - 1]);
    }
  }

  /** The deposits in the log are the tree's leaves. */
  lemma LogListsLeaves<B, P>(env: Env<B, P>, balances: Balances, ops: seq<Op<B, P>>, log: seq<I.Event<B>>)
    requires Records(log, Run(env, Fresh(balances), ops).events)
    ensures I.Commitments(I.DepositsIn(log)) == Run(env, Fresh(balances), ops).leaves
  {
    RunAnnounces(env, Fresh(balances), ops);
    RecordsDeposits(log, Run(env, Fresh(balances), ops).events);
    var d, leaves := I.DepositsIn(log), Run(env, Fresh(balances), ops).leaves;
    forall i | 0 <= i < |leaves|
      ensures I.Commitments(d)[i] == leaves[i]
    {
      assert Announced(Run(env, Fresh(balances), ops).events)[i] == Deposited(i, leaves[i]);
    }
  }

  lemma {:induction false} KeysUpTo<V>(m: map<nat, V>, n: nat)
    requires forall i :: i in m <==> 0 <= i < n
    ensures |m.Keys| == n
  {
    if n == 0 {
      assert m.Keys == {};
    } else {
      KeysUpTo(m - {n - 1}, n - 1);
      assert (m - {n - 1}).Keys == m.Keys - {n - 1};
    }
  }

  /** A note is in the served list exactly when its document is indexed. */
  lemma ServedNotes<B>(leaves: map<nat, I.Leaf<B>>, served: seq<B>, note: B)
    requires forall i :: i in leaves <==> 0 <= i < |served|
    requires forall i :: i in leaves ==> leaves[i].commitment == served[i]
    ensures note !in served <==> forall i :: i in leaves ==> leaves[i].commitment != note
  {
    forall i | 0 <= i < |served|
      ensures i in leaves && served[i] == leaves[i].commitment
    {
    }
  }

  /** What a successful preparation is worth: an opening of the root the contract had after `k` deposits. */
  ghost predicate Redeems<B, F, P>(env: Env<B, P>, sc: Scheme<B, F>, leaves: seq<B>, k: nat, w: Withdrawal<B, F>,
                                   secret: F)
  {
    && w.leafIndex < k <= |leaves| && leaves[w.leafIndex] == CommitmentOf(sc, secret)
    && w.root == RootAfter(env, leaves, k) && Canonical(sc, w.nullifier) && Shows(sc, env.depth, w, secret)
  }

  /**
    Whatever subset of the deposits is indexed, the recipient gets nothing, or a statement about a root
    that the contract really had, after exactly as many deposits as the served list is long.
  */
  method RedeemFromIndex<B(0, ==, !new), F(!new), P>(env: Env<B, P>, sc: Scheme<B, F>, docs: seq<I.Leaf<B>>, secret: F,
      ghost indexed: map<nat, I.Leaf<B>>, ghost deposits: seq<I.Leaf<B>>)
    returns (r: Option<Withdrawal<B, F>>)
    requires Linked(env, sc) && |deposits| <= Pow2(env.depth)
    requires I.IsListing(docs, indexed) && I.IndexesSome(indexed, deposits)
    ensures r.Some? ==> Redeems(env, sc, I.Commitments(deposits), |indexed.Keys|, r.value, secret)
    ensures r.None? <==>
      || !I.IndexesPrefix(indexed, deposits)
      || forall i :: i in indexed ==> indexed[i].commitment != CommitmentOf(sc, secret)
  {
    var served := I.GetOrderedCommitments(docs, indexed, deposits);
    if served.Err? {
      return None;
    }
    KeysUpTo(indexed, |served.value|);
    var w := PrepareWithdraw(sc, env.h, env.zero, env.depth, served.value, secret);
    ServedNotes(indexed, served.value, CommitmentOf(sc, secret));
    assert w.Err? <==> CommitmentOf(sc, secret) !in served.value;
    r := if w.Ok? then Some(w.value) else None;
  }

  // ----- the withdrawal goes through ---------------------------------------------------------------

  predicate Passes<B, P>(env: Env<B, P>, proof: P, root: B, nullifier: B, signal: B) {
    env.verify(proof, [root, nullifier, signal])
  }

  ghost predicate HasProof<B, P(!new)>(env: Env<B, P>, root: B, nullifier: B, signal: B) {
    exists proof :: Passes(env, proof, root, nullifier, signal)
  }

  /** The prover can prove every statement that has a witness, for any recipient. */
  ghost predicate Complete<B(!new), F(!new), P(!new)>(env: Env<B, P>, sc: Scheme<B, F>) {
    forall root, nullifier, signal ::
      Provable(sc.h, sc.zero, sc.one, env.depth, sc.decode(root), sc.decode(nullifier)) ==>
      HasProof(env, root, nullifier, signal)
  }

  lemma ProofExists<B(!new), F(!new), P(!new)>(env: Env<B, P>, sc: Scheme<B, F>, w: Withdrawal<B, F>, secret: F,
                                               signal: B)
    returns (proof: P)
    requires Complete(env, sc) && Shows(sc, env.depth, w, secret)
    ensures env.verify(proof, [w.root, w.nullifier, signal])
  {
    assert Provable(sc.h, sc.zero, sc.one, env.depth, sc.decode(w.root), sc.decode(w.nullifier));
    assert HasProof(env, w.root, w.nullifier, signal);
    proof :| Passes(env, proof, w.root, w.nullifier, signal);
  }

  /** The withdrawal's nullifier is unburnt, and its root, after `k` deposits, is at most 31 deposits old. */
  ghost predicate StillOpen<B, F, P>(env: Env<B, P>, balances: Balances, ops: seq<Op<B, P>>, k: nat,
                                     w: Withdrawal<B, F>)
  {
    var s := Run(env, Fresh(balances), ops);
    |s.leaves| <= k + 31 && w.nullifier !in s.nullifiers
  }

  /** With this proof the recipient is paid, or their balance would overflow, or one of the two exceptions applies. */
  ghost predicate Payable<B, F, P>(env: Env<B, P>, sc: Scheme<B, F>, extract: (P, seq<B>) -> Opening<F>,
                                   balances: Balances, ops: seq<Op<B, P>>,
                                   w: Withdrawal<B, F>, recipient: Address, signal: B, proof: P)
  {
    var s := Run(env, Fresh(balances), ops);
    var r := WithdrawStep(env, s, w.root, w.nullifier, recipient, signal, proof);
    || Collision(sc.h, sc.zero, HashedWith(env, sc, extract, balances, ops, proof, [w.root, w.nullifier, signal]))
    || Aliased(env, sc, balances, ops, w.nullifier)
    || r == Err(TokenFailure(BalanceOverflow))
    || (r.Ok? && Moves(s.balances, r.value.balances, env.config.token, env.pool, recipient, env.config.denom))
  }

  /**
    In every run: whoever opens the root after `k` deposits has a proof with which the withdrawal succeeds up
    to 31 deposits later, unless the nullifier has been burnt, the recipient's balance would overflow, something
    hashed collides or one field element is burnt in two encodings.
  */
  lemma RecipientCanWithdraw<B(!new), F(!new), P(!new)>(env: Env<B, P>, sc: Scheme<B, F>,
      extract: (P, seq<B>) -> Opening<F>, balances: Balances, ops: seq<Op<B, P>>, k: nat,
      w: Withdrawal<B, F>, secret: F, recipient: Address, signal: B)
    returns (proof: P)
    requires Linked(env, sc) && Sound(env, sc, extract) && Complete(env, sc) && InRange(balances)
    requires Redeems(env, sc, Run(env, Fresh(balances), ops).leaves, k, w, secret)
    requires StillOpen(env, balances, ops, k, w)
    ensures CanonicalCalls(sc, ops) ==> !Aliased(env, sc, balances, ops, w.nullifier)
    ensures Payable(env, sc, extract, balances, ops, w, recipient, signal, proof)
  {
    var s := Run(env, Fresh(balances), ops);
    proof := ProofExists(env, sc, w, secret, signal);
    RecentIsKnown(env, s.leaves, k);
    PayoutNeverShort(env, sc, extract, balances, ops, w.root, w.nullifier, recipient, signal, proof);
    if WithdrawStep(env, s, w.root, w.nullifier, recipient, signal, proof).Ok? {
      TransferMoves(s.balances, env.config.token, env.pool, recipient, env.config.denom);
    }
  }

  /** A redemption stays one as more is deposited. */
  lemma RedeemsLater<B, F, P>(env: Env<B, P>, sc: Scheme<B, F>, leaves: seq<B>, more: seq<B>, k: nat,
                              w: Withdrawal<B, F>, secret: F)
    requires leaves <= more && Redeems(env, sc, leaves, k, w, secret)
    ensures Redeems(env, sc, more, k, w, secret)
  {
    assert more[..k] == leaves[..k];
  }

  // ----- end to end ------------------------------------------------------------------------------------

  /** Everything between a deposit and its withdrawal: the contract's run, the log, the indexer's interleaved syncs. */
  ghost predicate Served<B, P>(env: Env<B, P>, balances: Balances, ops: seq<Op<B, P>>,
                               lookback: nat, actions: seq<R.Action<B>>, docs: seq<I.Leaf<B>>)
  {
    && R.FirstScansReach(lookback, R.Genesis<B>(), actions)
    && Records(R.Run(lookback, R.Genesis<B>(), actions).chain.log, Run(env, Fresh(balances), ops).events)
    && I.IsListing(docs, R.Run(lookback, R.Genesis<B>(), actions).leaves)
  }

  lemma ServedIsPrefix<B, P>(env: Env<B, P>, balances: Balances, ops: seq<Op<B, P>>,
                             lookback: nat, actions: seq<R.Action<B>>, docs: seq<I.Leaf<B>>)
    requires Served(env, balances, ops, lookback, actions, docs)
    ensures var sys := R.Run(lookback, R.Genesis<B>(), actions); var d := I.DepositsIn(sys.chain.log);
      && I.IndexesPrefix(sys.leaves, d) && I.IndexesSome(sys.leaves, d)
      && I.Commitments(d) == Run(env, Fresh(balances), ops).leaves && |d| <= Pow2(env.depth)
  {
    R.IndexIsComplete(lookback, actions);
    LogListsLeaves(env, balances, ops, R.Run(lookback, R.Genesis<B>(), actions).chain.log);
    LeavesGrow(env, Fresh(balances), ops);
  }

  /**
    The whole way of a sealed gift. The pool runs, its events are indexed by any number of interleaved
    syncs, the recipient prepares a withdrawal from the served list, the pool runs on. The recipient is
    refused exactly when the note is not indexed yet; otherwise, as long as the note is unspent and the
    list at most 31 deposits behind, there is a proof with which the withdrawal is payable.
  */
  method RedeemSealedGift<B(0, ==, !new), F(!new), P(!new)>(env: Env<B, P>, sc: Scheme<B, F>, docs: seq<I.Leaf<B>>,
      secret: F, ghost extract: (P, seq<B>) -> Opening<F>, ghost balances: Balances,
      ghost ops: seq<Op<B, P>>, ghost later: seq<Op<B, P>>,
      ghost lookback: nat, ghost actions: seq<R.Action<B>>, ghost recipient: Address, ghost signal: B)
    returns (r: Option<Withdrawal<B, F>>, ghost proof: Option<P>)
    requires Linked(env, sc) && Sound(env, sc, extract) && Complete(env, sc) && InRange(balances)
    requires Served(env, balances, ops, lookback, actions, docs)
    ensures var indexed := R.Run(lookback, R.Genesis<B>(), actions).leaves;
      r.None? <==> forall i :: i in indexed ==> indexed[i].commitment != CommitmentOf(sc, secret)
    ensures var k := |R.Run(lookback, R.Genesis<B>(), actions).leaves.Keys|;
      r.Some? ==> Redeems(env, sc, Run(env, Fresh(balances), ops).leaves, k, r.value, secret)
    ensures r.Some? && CanonicalCalls(sc, ops + later) ==> !Aliased(env, sc, balances, ops + later, r.value.nullifier)
    ensures var k := |R.Run(lookback, R.Genesis<B>(), actions).leaves.Keys|;
      r.Some? && StillOpen(env, balances, ops + later, k, r.value) ==>
      proof.Some? && Payable(env, sc, extract, balances, ops + later, r.value, recipient, signal, proof.value)
  {
    ghost var sys := R.Run(lookback, R.Genesis<B>(), actions);
    ServedIsPrefix(env, balances, ops, lookback, actions, docs);
    r := RedeemFromIndex(env, sc, docs, secret, sys.leaves, I.DepositsIn(sys.chain.log));
    ghost var s1, s2 := Run(env, Fresh(balances), ops), Run(env, Fresh(balances), ops + later);
    proof := None;
    if r.Some? && CanonicalCalls(sc, ops + later) {
      CanonicalRunUnaliased(env, sc, balances, ops + later);
    }
    if r.Some? && StillOpen(env, balances, ops + later, |sys.leaves.Keys|, r.value) {
      RunAppend(env, Fresh(balances), ops, later);
      LeavesGrow(env, Fresh(balances), ops);
      LeavesGrow(env, s1, later);
      RedeemsLater(env, sc, s1.leaves, s2.leaves, |sys.leaves.Keys|, r.value, secret);
      ghost var found := RecipientCanWithdraw(env, sc, extract, balances, ops + later, |sys.leaves.Keys|, r.value,
                                              secret, recipient, signal);
      proof := Some(found);
    }
  }
}
