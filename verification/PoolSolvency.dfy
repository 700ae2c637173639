/**
  The value claim of the pool: withdrawals against deposits, in every run. The contract burns
  nullifiers as 32-byte values while a proof speaks about the field elements they decode to, so
  the claim is first proved about field elements, and then about withdrawals exactly as far as
  no two burnt values are encodings of one field element, which canonical calls ensure.

  Nothing is assumed of the hash. Each theorem holds, or two different pairs that the run
  hashed collide (or one hashes to the empty leaf).
*/
module PoolSolvency {
  import opened Wrappers
  import opened TokenLedger
  import opened Merkle
  import opened NoteRelation
  import opened Encoding
  import opened ShieldedPool
  import opened PoolRuns

  /** The contract's hash and empty leaf are the scheme's, on raw values. */
  ghost predicate Linked<B(!new), F(!new), P>(env: Env<B, P>, sc: Scheme<B, F>) {
    IsScheme(sc) && Implements(sc, env.h, env.zero)
  }

  /** `extract` finds a witness for whatever the verifier accepts. */
  ghost predicate Sound<B(!new), F, P(!new)>(env: Env<B, P>, sc: Scheme<B, F>, extract: (P, seq<B>) -> Opening<F>) {
    forall proof, root, nullifier, signal :: env.verify(proof, [root, nullifier, signal]) ==>
      OpenedBy(sc.h, sc.zero, sc.one, env.depth, sc.decode(root), sc.decode(nullifier),
               extract(proof, [root, nullifier, signal]))
  }

  // ----- what a run hashes -----------------------------------------------------------------------

  ghost function Checked<B, F>(sc: Scheme<B, F>, o: Opening<F>): set<(F, F)> {
    if |o.siblings| == |o.bits| then OpeningPairs(sc.h, sc.zero, sc.one, o) else {}
  }

  /** The pairs hashed by the witnesses of a run's accepted withdrawals. */
  ghost function WitnessPairs<B, F, P>(env: Env<B, P>, sc: Scheme<B, F>, extract: (P, seq<B>) -> Opening<F>,
                                       s: State<B>, ops: seq<Op<B, P>>): set<(F, F)>
    decreases |ops|
  {
    if ops == [] then {}
    else
      var op := ops[0];
      WitnessPairs(env, sc, extract, Next(env, s, op), ops[1..])
      + if op.Withdraw? && Try(env, s, op).Some? then Checked(sc, extract(op.proof, [op.root, op.nullifier, op.signal]))
        else {}
  }

  ghost function TreesPairs<B, F, P>(env: Env<B, P>, sc: Scheme<B, F>, leaves: seq<B>): set<(F, F)> {
    PrefixPairs(sc.h, sc.zero, Decoded(sc, leaves), env.depth)
  }

  /** Everything hashed in a run: by its trees and by the witnesses of its accepted withdrawals. */
  ghost function Hashed<B, F, P>(env: Env<B, P>, sc: Scheme<B, F>, extract: (P, seq<B>) -> Opening<F>,
                                 s: State<B>, ops: seq<Op<B, P>>): set<(F, F)>
  {
    TreesPairs(env, sc, Run(env, s, ops).leaves) + WitnessPairs(env, sc, extract, s, ops)
  }

  lemma TreesPairsGrow<B, F, P>(env: Env<B, P>, sc: Scheme<B, F>, leaves: seq<B>, more: seq<B>)
    requires leaves <= more
    ensures TreesPairs(env, sc, leaves) <= TreesPairs(env, sc, more)
    ensures TreePairs(sc.h, sc.zero, Decoded(sc, leaves), env.depth, 0) <= TreesPairs(env, sc, more)
  {
    assert Decoded(sc, more)[..|leaves|] == Decoded(sc, leaves);
    PrefixPairsGrow(sc.h, sc.zero, Decoded(sc, more), env.depth, |leaves|);
  }

  /** Everything about field elements that a run handles has the property. */
  ghost predicate SchemeKeeps<B(!new), F(!new)>(sc: Scheme<B, F>, keeps: F -> bool) {
    Closed(sc.h, sc.zero, keeps) && keeps(sc.one) && forall b :: keeps(sc.decode(b))
  }

  ghost predicate OpeningKeeps<F>(keeps: F -> bool, o: Opening<F>) {
    keeps(o.secret) && AllKeep(keeps, o.siblings)
  }

  lemma CheckedKeep<B(!new), F(!new)>(sc: Scheme<B, F>, o: Opening<F>, keeps: F -> bool)
    requires SchemeKeeps(sc, keeps) && OpeningKeeps(keeps, o)
    ensures forall x :: x in Checked(sc, o) ==> Both(keeps, x)
  {
    if |o.siblings| == |o.bits| {
      FoldPairsKeep(sc.h, sc.zero, sc.h(o.secret, sc.zero), o.siblings, o.bits, |o.siblings|, keeps);
    }
  }

  lemma {:induction false} WitnessPairsKeep<B(!new), F(!new), P(!new)>(env: Env<B, P>, sc: Scheme<B, F>,
      extract: (P, seq<B>) -> Opening<F>, s: State<B>, ops: seq<Op<B, P>>, keeps: F -> bool)
    requires SchemeKeeps(sc, keeps) && forall proof, signals :: OpeningKeeps(keeps, extract(proof, signals))
    ensures forall x :: x in WitnessPairs(env, sc, extract, s, ops) ==> Both(keeps, x)
    decreases |ops|
  {
    if ops != [] {
      var op := ops[0];
      WitnessPairsKeep(env, sc, extract, Next(env, s, op), ops[1..], keeps);
      if op.Withdraw? {
        CheckedKeep(sc, extract(op.proof, [op.root, op.nullifier, op.signal]), keeps);
      }
    }
  }

  /** What holds of the leaves, the hashes and the witnesses holds of every pair that a run hashes. */
  lemma HashedKeep<B(!new), F(!new), P(!new)>(env: Env<B, P>, sc: Scheme<B, F>, extract: (P, seq<B>) -> Opening<F>,
                                              s: State<B>, ops: seq<Op<B, P>>, keeps: F -> bool)
    requires SchemeKeeps(sc, keeps) && forall proof, signals :: OpeningKeeps(keeps, extract(proof, signals))
    ensures forall x :: x in Hashed(env, sc, extract, s, ops) ==> Both(keeps, x)
  {
    WitnessPairsKeep(env, sc, extract, s, ops, keeps);
    PrefixPairsKeep(sc.h, sc.zero, Decoded(sc, Run(env, s, ops).leaves), env.depth, keeps);
  }

  // ----- every burnt nullifier belongs to a deposit ------------------------------------------------

  /** The deposit at `i` is the note with this nullifier. */
  ghost predicate NoteAt<B, F(!new)>(sc: Scheme<B, F>, leaves: seq<B>, nullifier: F, i: nat) {
    i < |leaves| && exists secret :: sc.decode(leaves[i]) == sc.h(secret, sc.zero) && nullifier == sc.h(secret, sc.one)
  }

  /** The same, and the note's commitment is among the hashed pairs. */
  ghost predicate NoteIn<B, F(!new)>(sc: Scheme<B, F>, hashed: set<(F, F)>, leaves: seq<B>, nullifier: F, i: nat) {
    && i < |leaves|
    && exists secret ::
         && (secret, sc.zero) in hashed
         && sc.decode(leaves[i]) == sc.h(secret, sc.zero) && nullifier == sc.h(secret, sc.one)
  }

  ghost predicate Deposited<B, F(!new)>(sc: Scheme<B, F>, hashed: set<(F, F)>, leaves: seq<B>, nullifier: F) {
    exists i :: NoteIn(sc, hashed, leaves, nullifier, i)
  }

  ghost predicate AllDeposited<B, F(!new), P>(env: Env<B, P>, sc: Scheme<B, F>, hashed: set<(F, F)>, s: State<B>) {
    && |s.leaves| <= Pow2(env.depth)
    && forall nf :: nf in s.nullifiers ==> Deposited(sc, hashed, s.leaves, sc.decode(nf))
  }

  /** A witness under the decoded root of a prefix of the deposits starts at one of them. */
  lemma OpenedIsDeposited<B(!new), F(!new), P>(env: Env<B, P>, sc: Scheme<B, F>, hashed: set<(F, F)>, leaves: seq<B>,
                                               k: nat,
                                               nullifier: F, o: Opening<F>)
    requires IdealOn(sc.h, sc.zero, hashed) && k <= |leaves|
    requires var root := Root(sc.h, sc.zero, Decoded(sc, leaves[..k]), env.depth);
      OpenedBy(sc.h, sc.zero, sc.one, env.depth, root, nullifier, o)
    requires TreePairs(sc.h, sc.zero, Decoded(sc, leaves[..k]), env.depth, 0) <= hashed && Checked(sc, o) <= hashed
    ensures Deposited(sc, hashed, leaves, nullifier)
  {
    assert (o.secret, sc.zero) in Checked(sc, o);
    var p := Locate(sc.h, sc.zero, Decoded(sc, leaves[..k]), sc.h(o.secret, sc.zero), o.siblings, o.bits, env.depth, 0,
                    hashed);
    assert p < k;
    assert NoteIn(sc, hashed, leaves, nullifier, p);
  }

  /** A withdrawal that passes the checks shows the nullifier of a deposited note. */
  lemma PassedIsDeposited<B(!new), F(!new), P(!new)>(env: Env<B, P>, sc: Scheme<B, F>,
      extract: (P, seq<B>) -> Opening<F>, hashed: set<(F, F)>, leaves: seq<B>,
      root: B, nullifier: B, signal: B, proof: P)
    requires Linked(env, sc) && Sound(env, sc, extract) && IdealOn(sc.h, sc.zero, hashed)
    requires TreesPairs(env, sc, leaves) <= hashed && Checked(sc, extract(proof, [root, nullifier, signal])) <= hashed
    requires root in History(env, leaves) && env.verify(proof, [root, nullifier, signal])
    ensures Deposited(sc, hashed, leaves, sc.decode(nullifier))
  {
    var k := KnownIndex(env, leaves, root);
    NodeDecodes(sc, env.h, env.zero, leaves[..k], env.depth, 0);
    TreesPairsGrow(env, sc, leaves[..k], leaves);
    OpenedIsDeposited(env, sc, hashed, leaves, k, sc.decode(nullifier), extract(proof, [root, nullifier, signal]));
  }

  lemma StillDeposited<B, F(!new)>(sc: Scheme<B, F>, hashed: set<(F, F)>, leaves: seq<B>, more: seq<B>, nullifier: F)
    requires leaves <= more && Deposited(sc, hashed, leaves, nullifier)
    ensures Deposited(sc, hashed, more, nullifier)
  {
    var i :| NoteIn(sc, hashed, leaves, nullifier, i);
    assert NoteIn(sc, hashed, more, nullifier, i);
  }

  lemma StepDeposited<B(!new), F(!new), P(!new)>(env: Env<B, P>, sc: Scheme<B, F>, extract: (P, seq<B>) -> Opening<F>,
                                                 hashed: set<(F, F)>, s: State<B>, op: Op<B, P>)
    requires Linked(env, sc) && Sound(env, sc, extract) && IdealOn(sc.h, sc.zero, hashed)
    requires TreesPairs(env, sc, s.leaves) <= hashed
    requires op.Withdraw? && Try(env, s, op).Some? ==>
      Checked(sc, extract(op.proof, [op.root, op.nullifier, op.signal])) <= hashed
    requires AllDeposited(env, sc, hashed, s)
    ensures AllDeposited(env, sc, hashed, Next(env, s, op))
  {
    var s' := Next(env, s, op);
    forall nf | nf in s'.nullifiers
      ensures Deposited(sc, hashed, s'.leaves, sc.decode(nf))
    {
      if nf in s.nullifiers {
        StillDeposited(sc, hashed, s.leaves, s'.leaves, sc.decode(nf));
      } else {
        PassedIsDeposited(env, sc, extract, hashed, s.leaves, op.root, nf, op.signal, op.proof);
      }
    }
  }

  lemma {:induction false} RunDeposited<B(!new), F(!new), P(!new)>(env: Env<B, P>, sc: Scheme<B, F>,
      extract: (P, seq<B>) -> Opening<F>, hashed: set<(F, F)>, s: State<B>, ops: seq<Op<B, P>>)
    requires Linked(env, sc) && Sound(env, sc, extract) && IdealOn(sc.h, sc.zero, hashed)
    requires Hashed(env, sc, extract, s, ops) <= hashed
    requires AllDeposited(env, sc, hashed, s)
    ensures AllDeposited(env, sc, hashed, Run(env, s, ops))
    decreases |ops|
  {
    if ops != [] {
      LeavesGrow(env, s, ops);
      TreesPairsGrow(env, sc, s.leaves, Run(env, s, ops).leaves);
      StepDeposited(env, sc, extract, hashed, s, ops[0]);
      RunDeposited(env, sc, extract, hashed, Next(env, s, ops[0]), ops[1..]);
    }
  }

  // ----- one deposit for each decoded nullifier ------------------------------------------------------

  /** The field elements that a set of burnt values stands for. */
  ghost function Meant<B, F>(sc: Scheme<B, F>, nullifiers: set<B>): set<F> {
    set nf | nf in nullifiers :: sc.decode(nf)
  }

  /** `spent` maps every decoded nullifier to a deposit of its own. */
  ghost predicate Assigns<B, F(!new)>(sc: Scheme<B, F>, s: State<B>, spent: map<F, nat>) {
    && spent.Keys == Meant(sc, s.nullifiers)
    && (forall f :: f in spent ==> NoteAt(sc, s.leaves, f, spent[f]))
    && (forall f, g :: f in spent && g in spent && f != g ==> spent[f] != spent[g])
  }

  ghost function LeafOf<B, F(!new)>(sc: Scheme<B, F>, hashed: set<(F, F)>, leaves: seq<B>, nullifier: F): (i: nat)
    requires Deposited(sc, hashed, leaves, nullifier)
    ensures NoteIn(sc, hashed, leaves, nullifier, i)
  {
    var i :| NoteIn(sc, hashed, leaves, nullifier, i); i
  }

  /** Where nothing collides, one leaf is the note of one nullifier only. */
  lemma LeafHasOneNullifier<B, F(!new)>(sc: Scheme<B, F>, hashed: set<(F, F)>, leaves: seq<B>, f: F, g: F, i: nat)
    requires IdealOn(sc.h, sc.zero, hashed) && NoteIn(sc, hashed, leaves, f, i) && NoteIn(sc, hashed, leaves, g, i)
    ensures f == g
  {
    var x :| (x, sc.zero) in hashed && sc.decode(leaves[i]) == sc.h(x, sc.zero) && f == sc.h(x, sc.one);
    var y :| (y, sc.zero) in hashed && sc.decode(leaves[i]) == sc.h(y, sc.zero) && g == sc.h(y, sc.one);
    SamePair(sc.h, sc.zero, hashed, (x, sc.zero), (y, sc.zero));
  }

  /** The assignment of decoded nullifiers to deposits: one deposit is never used for two of them. */
  lemma SpentLeaves<B, F(!new), P>(env: Env<B, P>, sc: Scheme<B, F>, hashed: set<(F, F)>, s: State<B>)
    returns (spent: map<F, nat>)
    requires IdealOn(sc.h, sc.zero, hashed) && AllDeposited(env, sc, hashed, s)
    ensures Assigns(sc, s, spent) && |Meant(sc, s.nullifiers)| <= |s.leaves|
  {
    spent := map f | f in Meant(sc, s.nullifiers) :: LeafOf(sc, hashed, s.leaves, f);
    forall f, g | f in spent && g in spent && f != g
      ensures spent[f] != spent[g]
    {
      if spent[f] == spent[g] {
        LeafHasOneNullifier(sc, hashed, s.leaves, f, g, spent[f]);
      }
    }
    Pigeonhole(spent, |s.leaves|);
  }

  /** An injective map into `[0, n)` has at most `n` keys. */
  lemma {:induction false} Pigeonhole<K>(m: map<K, nat>, n: nat)
    requires forall k :: k in m ==> m[k] < n
    requires forall a, b :: a in m && b in m && a != b ==> m[a] != m[b]
    ensures |m.Keys| <= n
  {
    if k :| k in m && m[k] == n - 1 {
      Pigeonhole(m - {k}, n - 1);
      assert (m - {k}).Keys == m.Keys - {k};
    } else if n > 0 {
      Pigeonhole(m, n - 1);
    } else {
      assert m.Keys == {};
    }
  }

  // ----- raw values and the field elements they stand for ---------------------------------------------

  /** No two of these values decode alike. */
  ghost predicate Unaliased<B, F>(sc: Scheme<B, F>, nullifiers: set<B>) {
    forall a, b :: a in nullifiers && b in nullifiers && sc.decode(a) == sc.decode(b) ==> a == b
  }

  /** Decoding loses none of the values exactly when no two of them decode alike. */
  lemma {:induction false} MeantCount<B, F>(sc: Scheme<B, F>, nullifiers: set<B>)
    ensures |Meant(sc, nullifiers)| <= |nullifiers|
    ensures |Meant(sc, nullifiers)| == |nullifiers| <==> Unaliased(sc, nullifiers)
    decreases nullifiers
  {
    if nullifiers != {} {
      var a :| a in nullifiers;
      var rest := nullifiers - {a};
      MeantCount(sc, rest);
      assert Meant(sc, nullifiers) == Meant(sc, rest) + {sc.decode(a)};
      if sc.decode(a) in Meant(sc, rest) {
        var b :| b in rest && sc.decode(b) == sc.decode(a);
      }
    }
  }

  ghost predicate AllCanonical<B, F>(sc: Scheme<B, F>, nullifiers: set<B>) {
    forall nf :: nf in nullifiers ==> Canonical(sc, nf)
  }

  lemma CanonicalUnaliased<B, F>(sc: Scheme<B, F>, nullifiers: set<B>)
    requires AllCanonical(sc, nullifiers)
    ensures Unaliased(sc, nullifiers)
  {
    forall a, b | a in nullifiers && b in nullifiers && sc.decode(a) == sc.decode(b)
      ensures a == b
    {
      CanonicalIsUnique(sc, a, b);
    }
  }

  /** Every withdrawal of the run is called with the canonical encoding of its nullifier. */
  ghost predicate CanonicalCalls<B, F, P>(sc: Scheme<B, F>, ops: seq<Op<B, P>>) {
    forall i :: 0 <= i < |ops| && ops[i].Withdraw? ==> Canonical(sc, ops[i].nullifier)
  }

  lemma {:induction false} CanonicalRun<B, F, P>(env: Env<B, P>, sc: Scheme<B, F>, s: State<B>, ops: seq<Op<B, P>>)
    requires CanonicalCalls(sc, ops) && AllCanonical(sc, s.nullifiers)
    ensures AllCanonical(sc, Run(env, s, ops).nullifiers)
    decreases |ops|
  {
    if ops != [] {
      CanonicalRun(env, sc, Next(env, s, ops[0]), ops[1..]);
    }
  }

  /** Where every call is canonical, no two burnt values decode alike, and one more canonical value keeps it so. */
  lemma CanonicalRunUnaliased<B, F, P>(env: Env<B, P>, sc: Scheme<B, F>, balances: Balances, ops: seq<Op<B, P>>)
    requires CanonicalCalls(sc, ops)
    ensures var burnt := Run(env, Fresh(balances), ops).nullifiers;
      Unaliased(sc, burnt) && forall nf :: Canonical(sc, nf) ==> Unaliased(sc, burnt + {nf})
  {
    CanonicalRun(env, sc, Fresh(balances), ops);
    var burnt := Run(env, Fresh(balances), ops).nullifiers;
    CanonicalUnaliased(sc, burnt);
    forall nf | Canonical(sc, nf)
      ensures Unaliased(sc, burnt + {nf})
    {
      CanonicalUnaliased(sc, burnt + {nf});
    }
  }

  // ----- the run theorems ----------------------------------------------------------------------------

  lemma SpentAfter<B(!new), F(!new), P(!new)>(env: Env<B, P>, sc: Scheme<B, F>, extract: (P, seq<B>) -> Opening<F>,
                                              hashed: set<(F, F)>, s: State<B>, ops: seq<Op<B, P>>)
    returns (spent: map<F, nat>)
    requires Linked(env, sc) && Sound(env, sc, extract) && IdealOn(sc.h, sc.zero, hashed)
    requires Hashed(env, sc, extract, s, ops) <= hashed && AllDeposited(env, sc, hashed, s)
    ensures var s' := Run(env, s, ops); Assigns(sc, s', spent) && |Meant(sc, s'.nullifiers)| <= |s'.leaves|
  {
    RunDeposited(env, sc, extract, hashed, s, ops);
    spent := SpentLeaves(env, sc, hashed, Run(env, s, ops));
  }

  /** What the accounts of a run say, with nothing asked of the proofs: each withdrawal burnt one value. */
  ghost predicate Accounted<B, P>(env: Env<B, P>, balances: Balances, ops: seq<Op<B, P>>) {
    var s, t := Run(env, Fresh(balances), ops), Totals(env, Fresh(balances), ops);
    && t.paidOut <= t.withdrawals == |s.nullifiers| && t.deposits == |s.leaves|
    && Held(env, s) == Balance(balances, env.config.token, env.pool)
                       + env.config.denom * (t.deposits - t.paidOut) + t.received
  }

  lemma AccountsHold<B, P>(env: Env<B, P>, balances: Balances, ops: seq<Op<B, P>>)
    ensures Accounted(env, balances, ops)
  {
    RunCounts(env, Fresh(balances), ops);
    RunHolding(env, Fresh(balances), ops);
  }

  /**
    The claim for the code as it is. In every run, unless something it hashed collides, the field
    elements that the burnt values stand for map to distinct deposits, so there are never more of them
    than deposits; and there are as many of them as withdrawals exactly when no two burnt values are
    encodings of one field element.
  */
  lemma NotesSpentOnce<B(!new), F(!new), P(!new)>(env: Env<B, P>, sc: Scheme<B, F>, extract: (P, seq<B>) -> Opening<F>,
                                                  balances: Balances, ops: seq<Op<B, P>>)
    returns (spent: map<F, nat>)
    requires Linked(env, sc) && Sound(env, sc, extract)
    ensures Accounted(env, balances, ops)
    ensures var s, t := Run(env, Fresh(balances), ops), Totals(env, Fresh(balances), ops);
      || Collision(sc.h, sc.zero, Hashed(env, sc, extract, Fresh(balances), ops))
      || (&& Assigns(sc, s, spent) && |Meant(sc, s.nullifiers)| <= t.deposits
          && (t.withdrawals == |Meant(sc, s.nullifiers)| <==> Unaliased(sc, s.nullifiers)))
  {
    var hashed := Hashed(env, sc, extract, Fresh(balances), ops);
    AccountsHold(env, balances, ops);
    IdealOrCollision(sc.h, sc.zero, hashed);
    spent := map[];
    if IdealOn(sc.h, sc.zero, hashed) {
      spent := SpentAfter(env, sc, extract, hashed, Fresh(balances), ops);
      MeantCount(sc, Run(env, Fresh(balances), ops).nullifiers);
    }
  }

  /**
    The value claim. In every run, unless something it hashed collides or two burnt values encode one field
    element, every withdrawal has a deposit of its own, there are never more withdrawals than deposits, and
    the pool's balance is exactly accounted for. Canonical calls never burn two encodings.
  */
  lemma PoolIsSolvent<B(!new), F(!new), P(!new)>(env: Env<B, P>, sc: Scheme<B, F>, extract: (P, seq<B>) -> Opening<F>,
                                                 balances: Balances, ops: seq<Op<B, P>>)
    returns (spent: map<F, nat>)
    requires Linked(env, sc) && Sound(env, sc, extract)
    ensures Accounted(env, balances, ops)
    ensures CanonicalCalls(sc, ops) ==> Unaliased(sc, Run(env, Fresh(balances), ops).nullifiers)
    ensures var s, t := Run(env, Fresh(balances), ops), Totals(env, Fresh(balances), ops);
      || Collision(sc.h, sc.zero, Hashed(env, sc, extract, Fresh(balances), ops))
      || !Unaliased(sc, s.nullifiers)
      || (Assigns(sc, s, spent) && |spent.Keys| == t.withdrawals <= t.deposits)
  {
    spent := NotesSpentOnce(env, sc, extract, balances, ops);
    if CanonicalCalls(sc, ops) {
      CanonicalRunUnaliased(env, sc, balances, ops);
    }
  }

  /** A fresh nullifier that belongs to a deposit and is no second encoding leaves more deposits than withdrawals. */
  lemma OneLeafLeft<B, F(!new), P>(env: Env<B, P>, sc: Scheme<B, F>, hashed: set<(F, F)>, s: State<B>, nullifier: B)
    requires IdealOn(sc.h, sc.zero, hashed) && AllDeposited(env, sc, hashed, s)
    requires Deposited(sc, hashed, s.leaves, sc.decode(nullifier)) && nullifier !in s.nullifiers
    requires Unaliased(sc, s.nullifiers + {nullifier})
    ensures |s.nullifiers| < |s.leaves|
  {
    var more := s.(nullifiers := s.nullifiers + {nullifier});
    var spent := SpentLeaves(env, sc, hashed, more);
    MeantCount(sc, more.nullifiers);
  }

  /** A withdrawal that passes the checks has a deposit left that no earlier withdrawal used. */
  lemma OneDepositLeft<B(!new), F(!new), P(!new)>(env: Env<B, P>, sc: Scheme<B, F>, extract: (P, seq<B>) -> Opening<F>,
      hashed: set<(F, F)>, balances: Balances, ops: seq<Op<B, P>>, root: B, nullifier: B, signal: B, proof: P)
    requires Linked(env, sc) && Sound(env, sc, extract) && IdealOn(sc.h, sc.zero, hashed)
    requires Hashed(env, sc, extract, Fresh(balances), ops) <= hashed
    requires Checked(sc, extract(proof, [root, nullifier, signal])) <= hashed
    requires var s := Run(env, Fresh(balances), ops);
      root in History(env, s.leaves) && nullifier !in s.nullifiers && env.verify(proof, [root, nullifier, signal])
    requires Unaliased(sc, Run(env, Fresh(balances), ops).nullifiers + {nullifier})
    ensures var t := Totals(env, Fresh(balances), ops); t.withdrawals < t.deposits
  {
    var s := Run(env, Fresh(balances), ops);
    RunDeposited(env, sc, extract, hashed, Fresh(balances), ops);
    AccountsHold(env, balances, ops);
    PassedIsDeposited(env, sc, extract, hashed, s.leaves, root, nullifier, signal, proof);
    OneLeafLeft(env, sc, hashed, s, nullifier);
  }

  /** The ways a withdrawal may fail without the pool owing anything. */
  predicate Refused(e: PoolError) {
    e == UnknownRoot || e == NullifierUsed || e == InvalidProof || e == TokenFailure(BalanceOverflow)
  }

  /** Everything hashed in a run and in checking one more proof. */
  ghost function HashedWith<B, F, P>(env: Env<B, P>, sc: Scheme<B, F>, extract: (P, seq<B>) -> Opening<F>,
                                     balances: Balances, ops: seq<Op<B, P>>, proof: P, signals: seq<B>): set<(F, F)>
  {
    Hashed(env, sc, extract, Fresh(balances), ops) + Checked(sc, extract(proof, signals))
  }

  /** Burning `nullifier` too, two burnt values would encode one field element. */
  ghost predicate Aliased<B, F, P>(env: Env<B, P>, sc: Scheme<B, F>, balances: Balances, ops: seq<Op<B, P>>,
                                   nullifier: B)
  {
    !Unaliased(sc, Run(env, Fresh(balances), ops).nullifiers + {nullifier})
  }

  /**
    No payout is ever short: at any point of a run, a withdrawal that passes the root, nullifier and proof
    checks does not fail for lack of funds, unless something hashed collides or one field element is burnt twice.
  */
  lemma PayoutNeverShort<B(!new), F(!new), P(!new)>(env: Env<B, P>, sc: Scheme<B, F>,
      extract: (P, seq<B>) -> Opening<F>, balances: Balances, ops: seq<Op<B, P>>,
      root: B, nullifier: B, recipient: Address, signal: B, proof: P)
    requires Linked(env, sc) && Sound(env, sc, extract) && InRange(balances)
    ensures CanonicalCalls(sc, ops) && Canonical(sc, nullifier) ==> !Aliased(env, sc, balances, ops, nullifier)
    ensures var r := WithdrawStep(env, Run(env, Fresh(balances), ops), root, nullifier, recipient, signal, proof);
      || Collision(sc.h, sc.zero, HashedWith(env, sc, extract, balances, ops, proof, [root, nullifier, signal]))
      || Aliased(env, sc, balances, ops, nullifier)
      || r.Ok? || Refused(r.error)
  {
    var s := Run(env, Fresh(balances), ops);
    var hashed := HashedWith(env, sc, extract, balances, ops, proof, [root, nullifier, signal]);
    IdealOrCollision(sc.h, sc.zero, hashed);
    if CanonicalCalls(sc, ops) {
      CanonicalRunUnaliased(env, sc, balances, ops);
    }
    if root in History(env, s.leaves) && nullifier !in s.nullifiers && env.verify(proof, [root, nullifier, signal]) {
      if IdealOn(sc.h, sc.zero, hashed) && !Aliased(env, sc, balances, ops, nullifier) {
        OneDepositLeft(env, sc, extract, hashed, balances, ops, root, nullifier, signal, proof);
        EnoughHeld(env, balances, ops);
      }
    }
  }

  // ----- no escape under the symbolic hash ---------------------------------------------------------------

  /** Raw values and field elements are the same terms. */
  function Symbolic(one: Term): Scheme<Term, Term> {
    Scheme(t => t, t => t, (a: Term, b: Term) => Pair(a, b), Empty, one)
  }

  /** Over the free term algebra nothing collides and nothing has two encodings: the claim holds of every run. */
  lemma SymbolicPoolIsSolvent<P(!new)>(env: Env<Term, P>, one: Term, extract: (P, seq<Term>) -> Opening<Term>,
                                       balances: Balances, ops: seq<Op<Term, P>>)
    returns (spent: map<Term, nat>)
    requires Linked(env, Symbolic(one)) && Sound(env, Symbolic(one), extract)
    ensures var s, t := Run(env, Fresh(balances), ops), Totals(env, Fresh(balances), ops);
      Assigns(Symbolic(one), s, spent) && |spent.Keys| == t.withdrawals <= t.deposits
  {
    var sc := Symbolic(one);
    var hashed := Hashed(env, sc, extract, Fresh(balances), ops);
    SymbolicIsIdeal(sc.h, hashed);
    IdealOrCollision(sc.h, sc.zero, hashed);
    spent := PoolIsSolvent(env, sc, extract, balances, ops);
  }

  // ----- what the condition is there for ---------------------------------------------------------------

  /** The verifier sees only what the signals decode to. */
  ghost predicate SeesDecoded<B(!new), F, P(!new)>(env: Env<B, P>, sc: Scheme<B, F>) {
    forall proof, root, nullifier, signal, other ::
      sc.decode(nullifier) == sc.decode(other) ==>
        env.verify(proof, [root, nullifier, signal]) == env.verify(proof, [root, other, signal])
  }

  /** The converse: where a value would pass, any other value that decodes alike and is not burnt itself passes too. */
  lemma AliasPasses<B(!new), F, P(!new)>(env: Env<B, P>, sc: Scheme<B, F>, s: State<B>, root: B, nullifier: B, other: B,
                                         recipient: Address, signal: B, proof: P)
    requires SeesDecoded(env, sc) && sc.decode(nullifier) == sc.decode(other)
    requires root in History(env, s.leaves) && env.verify(proof, [root, nullifier, signal])
    ensures var r := WithdrawStep(env, s, root, other, recipient, signal, proof);
      if other in s.nullifiers then r == Err(NullifierUsed)
      else r.Ok? <==> Transfer(s.balances, env.config.token, env.pool, recipient, env.config.denom).Ok?
  {
  }
}
