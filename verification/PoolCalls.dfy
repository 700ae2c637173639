/**
  What each call of the pool does, seen from outside: exactly when it is refused and why, whose
  money moves, and that nobody's money moves without their signature. Nothing here is stated
  through the step functions' own checks.
*/
module PoolCalls {
  import opened Wrappers
  import opened TokenLedger
  import opened Merkle
  import opened ShieldedPool
  import opened PoolRuns

  // ----- when a call is refused ------------------------------------------------------------------

  function TokenChecks(b: Balances, token: Address, from: Address, to: Address, amount: int): seq<Check<PoolError>> {
    [Check(amount < 0, TokenFailure(NegativeAmount)),
     Check(Balance(b, token, from) < amount, TokenFailure(BalanceTooLow)),
     Check(Balance(b, token, to) + (if from == to then 0 else amount) > I128_MAX, TokenFailure(BalanceOverflow))]
  }

  /** A deposit is signed by its sender, paid in full, and fits the tree. */
  function DepositChecks<B, P>(env: Env<B, P>, s: State<B>, signers: set<Address>, from: Address)
    : seq<Check<PoolError>>
  {
    [Check(from !in signers || from == env.pool, Unauthorized)]
    + TokenChecks(s.balances, env.config.token, from, env.pool, env.config.denom)
    + [Check(|s.leaves| >= Pow2(env.depth), TreeFull)]
  }

  lemma DepositDecided<B, P>(env: Env<B, P>, s: State<B>, signers: set<Address>, from: Address, commitment: B)
    ensures Decided(DepositChecks(env, s, signers, from), DepositStep(env, s, signers, from, commitment))
  {
    var checks, b, denom := DepositChecks(env, s, signers, from), s.balances, env.config.denom;
    assert checks[0] == Check(from !in signers || from == env.pool, Unauthorized);
    assert checks[1] == Check(denom < 0, TokenFailure(NegativeAmount));
    assert checks[2] == Check(Balance(b, env.config.token, from) < denom, TokenFailure(BalanceTooLow));
    assert checks[3].fault == TokenFailure(BalanceOverflow);
    assert checks[4] == Check(|s.leaves| >= Pow2(env.depth), TreeFull);
  }

  /** One of the roots after the last 31 deposits, or the current one. */
  ghost predicate IsRecentRoot<B, P>(env: Env<B, P>, leaves: seq<B>, root: B) {
    exists k :: 0 <= k <= |leaves| && |leaves| - k <= 31 && root == RootAfter(env, leaves, k)
  }

  lemma HistoryIsRecent<B, P>(env: Env<B, P>, leaves: seq<B>, root: B)
    ensures root in History(env, leaves) <==> IsRecentRoot(env, leaves, root)
  {
    if root in History(env, leaves) {
      var k := KnownIndex(env, leaves, root);
    }
    if k :| 0 <= k <= |leaves| && |leaves| - k <= 31 && root == RootAfter(env, leaves, k) {
      RecentIsKnown(env, leaves, k);
    }
  }

  /** A withdrawal shows a recent root, a fresh nullifier and an accepted proof about both and the signal. */
  ghost function WithdrawChecks<B, P>(env: Env<B, P>, s: State<B>, root: B, nullifier: B, recipient: Address,
                                          signal: B, proof: P): seq<Check<PoolError>>
  {
    [Check(!IsRecentRoot(env, s.leaves, root), UnknownRoot),
     Check(nullifier in s.nullifiers, NullifierUsed),
     Check(!env.verify(proof, [root, nullifier, signal]), InvalidProof)]
    + TokenChecks(s.balances, env.config.token, env.pool, recipient, env.config.denom)
  }

  lemma WithdrawDecided<B, P>(env: Env<B, P>, s: State<B>, root: B, nullifier: B, recipient: Address, signal: B,
                              proof: P)
    ensures Decided(WithdrawChecks(env, s, root, nullifier, recipient, signal, proof),
                    WithdrawStep(env, s, root, nullifier, recipient, signal, proof))
  {
    var checks := WithdrawChecks(env, s, root, nullifier, recipient, signal, proof);
    var b, token, denom := s.balances, env.config.token, env.config.denom;
    HistoryIsRecent(env, s.leaves, root);
    assert checks[0] == Check(!IsRecentRoot(env, s.leaves, root), UnknownRoot);
    assert checks[1] == Check(nullifier in s.nullifiers, NullifierUsed);
    assert checks[2] == Check(!env.verify(proof, [root, nullifier, signal]), InvalidProof);
    assert checks[3] == Check(denom < 0, TokenFailure(NegativeAmount));
    assert checks[4] == Check(Balance(b, token, env.pool) < denom, TokenFailure(BalanceTooLow));
    assert checks[5].fault == TokenFailure(BalanceOverflow);
  }

  // ----- whose money moves ----------------------------------------------------------------------------

  /** A successful call moves one amount from one account to another, and nothing else. */
  ghost predicate Paid<B, P>(env: Env<B, P>, s: State<B>, now: State<B>, op: Op<B, P>) {
    match op
    case Deposit(_, from, _) => Moves(s.balances, now.balances, env.config.token, from, env.pool, env.config.denom)
    case Withdraw(_, _, recipient, _, _) =>
      Moves(s.balances, now.balances, env.config.token, env.pool, recipient, env.config.denom)
    case Outside(token, payer, payee, amount) => Moves(s.balances, now.balances, token, payer, payee, amount)
  }

  lemma StepPays<B, P>(env: Env<B, P>, s: State<B>, op: Op<B, P>)
    requires Try(env, s, op).Some?
    ensures Paid(env, s, Next(env, s, op), op)
  {
    match op
    case Deposit(_, from, _) => TransferMoves(s.balances, env.config.token, from, env.pool, env.config.denom);
    case Withdraw(_, _, recipient, _, _) =>
      TransferMoves(s.balances, env.config.token, env.pool, recipient, env.config.denom);
    case Outside(token, payer, payee, amount) => TransferMoves(s.balances, token, payer, payee, amount);
  }

  /** Every successful call of a run: the depositor pays the pool, the pool pays the recipient. */
  lemma RunPays<B, P>(env: Env<B, P>, balances: Balances, ops: seq<Op<B, P>>, i: nat)
    requires i < |ops|
    ensures var s := Run(env, Fresh(balances), ops[..i]);
      && (Try(env, s, ops[i]).Some? ==> Paid(env, s, Run(env, Fresh(balances), ops[..i + 1]), ops[i]))
      && (Try(env, s, ops[i]).None? ==> Run(env, Fresh(balances), ops[..i + 1]) == s)
  {
    var s := Run(env, Fresh(balances), ops[..i]);
    assert ops[..i + 1] == ops[..i] + [ops[i]];
    RunAppend(env, Fresh(balances), ops[..i], [ops[i]]);
    assert [ops[i]][1..] == [];
    assert Run(env, s, [ops[i]]) == Run(env, Next(env, s, ops[i]), []);
    if Try(env, s, ops[i]).Some? {
      StepPays(env, s, ops[i]);
    }
  }

  lemma StepKeepsSupply<B, P>(env: Env<B, P>, s: State<B>, op: Op<B, P>, token: Address)
    ensures Supply(Next(env, s, op).balances, token) == Supply(s.balances, token)
  {
    if Try(env, s, op).Some? {
      match op
      case Deposit(_, from, _) =>
        TransferKeepsSupply(s.balances, env.config.token, from, env.pool, env.config.denom, token);
      case Withdraw(_, _, recipient, _, _) =>
        TransferKeepsSupply(s.balances, env.config.token, env.pool, recipient, env.config.denom, token);
      case Outside(t, payer, payee, amount) => TransferKeepsSupply(s.balances, t, payer, payee, amount, token);
    }
  }

  /** No run of the pool makes or destroys money. */
  lemma {:induction false} RunKeepsSupply<B, P>(env: Env<B, P>, s: State<B>, ops: seq<Op<B, P>>, token: Address)
    ensures Supply(Run(env, s, ops).balances, token) == Supply(s.balances, token)
    decreases |ops|
  {
    if ops != [] {
      StepKeepsSupply(env, s, ops[0], token);
      RunKeepsSupply(env, Next(env, s, ops[0]), ops[1..], token);
    }
  }

  // ----- whose signature it takes -----------------------------------------------------------------------

  /** The holder spends in this call: as the depositor who signed it, or in a transfer of their own. */
  predicate Spends<B, P>(op: Op<B, P>, holder: Address) {
    match op
    case Deposit(signers, from, _) => from == holder && holder in signers
    case Withdraw(_, _, _, _, _) => false
    case Outside(_, payer, _, _) => payer == holder
  }

  lemma StepTakesSignature<B, P>(env: Env<B, P>, s: State<B>, op: Op<B, P>, token: Address, holder: Address)
    requires holder != env.pool && !Spends(op, holder)
    ensures Balance(Next(env, s, op).balances, token, holder) >= Balance(s.balances, token, holder)
  {
    if Try(env, s, op).Some? {
      StepPays(env, s, op);
    }
  }

  /** In every run: whoever signs no deposit and makes no transfer loses nothing. */
  lemma {:induction false} NobodyElsePays<B, P>(env: Env<B, P>, s: State<B>, ops: seq<Op<B, P>>, token: Address,
                                                holder: Address)
    requires holder != env.pool && forall i :: 0 <= i < |ops| ==> !Spends(ops[i], holder)
    ensures Balance(Run(env, s, ops).balances, token, holder) >= Balance(s.balances, token, holder)
    decreases |ops|
  {
    if ops != [] {
      StepTakesSignature(env, s, ops[0], token, holder);
      NobodyElsePays(env, Next(env, s, ops[0]), ops[1..], token, holder);
    }
  }

  // ----- what is published ---------------------------------------------------------------------------------

  /** A deposit publishes its commitment with its index, a withdrawal its nullifier. */
  function PublishedBy<B(==), P>(env: Env<B, P>, s: State<B>, op: Op<B, P>): seq<PoolEvent<B>> {
    if Try(env, s, op).None? then []
    else
      match op
      case Deposit(_, _, commitment) => [Deposited(|s.leaves|, commitment)]
      case Withdraw(_, nullifier, _, _, _) => [Withdrawn(nullifier)]
      case Outside(_, _, _, _) => []
  }

  function PublishedIn<B(==), P>(env: Env<B, P>, s: State<B>, ops: seq<Op<B, P>>): seq<PoolEvent<B>>
    decreases |ops|
  {
    if ops == [] then [] else PublishedBy(env, s, ops[0]) + PublishedIn(env, Next(env, s, ops[0]), ops[1..])
  }

  lemma StepPublishes<B, P>(env: Env<B, P>, s: State<B>, op: Op<B, P>)
    ensures Next(env, s, op).events == s.events + PublishedBy(env, s, op)
  {
  }

  lemma Regroup<T>(a: seq<T>, b: seq<T>, c: seq<T>)
    ensures a + b + c == a + (b + c) && a + [] == a
  {
  }

  /** The log of a run is one event for each successful call, in the order of the calls, and nothing else. */
  lemma {:induction false} RunPublishes<B, P>(env: Env<B, P>, s: State<B>, ops: seq<Op<B, P>>)
    ensures Run(env, s, ops).events == s.events + PublishedIn(env, s, ops)
    decreases |ops|
  {
    if ops == [] {
      Regroup(s.events, [], []);
    } else {
      var s1 := Next(env, s, ops[0]);
      StepPublishes(env, s, ops[0]);
      RunPublishes(env, s1, ops[1..]);
      Regroup(s.events, PublishedBy(env, s, ops[0]), PublishedIn(env, s1, ops[1..]));
    }
  }

  // ----- what is remembered -------------------------------------------------------------------------------

  /** The commitment of a successful deposit. */
  function DepositedBy<B(==), P>(env: Env<B, P>, s: State<B>, op: Op<B, P>): seq<B> {
    if op.Deposit? && Try(env, s, op).Some? then [op.commitment] else []
  }

  /** The nullifier of a successful withdrawal. */
  function WithdrawnBy<B(==), P>(env: Env<B, P>, s: State<B>, op: Op<B, P>): seq<B> {
    if op.Withdraw? && Try(env, s, op).Some? then [op.nullifier] else []
  }

  /** The commitments of the successful deposits of a run, in order. */
  function DepositedIn<B(==), P>(env: Env<B, P>, s: State<B>, ops: seq<Op<B, P>>): seq<B>
    decreases |ops|
  {
    if ops == [] then [] else DepositedBy(env, s, ops[0]) + DepositedIn(env, Next(env, s, ops[0]), ops[1..])
  }

  /** The nullifiers of the successful withdrawals of a run, in order. */
  function WithdrawnIn<B(==), P>(env: Env<B, P>, s: State<B>, ops: seq<Op<B, P>>): seq<B>
    decreases |ops|
  {
    if ops == [] then [] else WithdrawnBy(env, s, ops[0]) + WithdrawnIn(env, Next(env, s, ops[0]), ops[1..])
  }

  ghost predicate AllDifferent<T>(xs: seq<T>) {
    forall i, j :: 0 <= i < j < |xs| ==> xs[i] != xs[j]
  }

  /** From `s` to `now` the tree has got these leaves, and the burnt set these nullifiers, each once and all fresh. */
  ghost predicate Remembers<B>(s: State<B>, now: State<B>, deposited: seq<B>, spent: seq<B>) {
    && now.leaves == s.leaves + deposited
    && now.nullifiers == s.nullifiers + (set nf | nf in spent)
    && AllDifferent(spent) && forall i :: 0 <= i < |spent| ==> spent[i] !in s.nullifiers
  }

  lemma StepRemembers<B, P>(env: Env<B, P>, s: State<B>, op: Op<B, P>)
    ensures Remembers(s, Next(env, s, op), DepositedBy(env, s, op), WithdrawnBy(env, s, op))
  {
  }

  lemma RemembersOn<B>(s: State<B>, mid: State<B>, now: State<B>, d: seq<B>, d': seq<B>, spent: seq<B>, spent': seq<B>)
    requires Remembers(s, mid, d, spent) && Remembers(mid, now, d', spent')
    ensures Remembers(s, now, d + d', spent + spent')
  {
    Regroup(s.leaves, d, d');
  }

  /** The tree is the deposits in order, and the burnt set is the nullifiers withdrawn, each once. */
  lemma {:induction false} RunRemembers<B, P>(env: Env<B, P>, s: State<B>, ops: seq<Op<B, P>>)
    ensures Remembers(s, Run(env, s, ops), DepositedIn(env, s, ops), WithdrawnIn(env, s, ops))
    decreases |ops|
  {
    if ops != [] {
      var s1 := Next(env, s, ops[0]);
      StepRemembers(env, s, ops[0]);
      RunRemembers(env, s1, ops[1..]);
      RemembersOn(s, s1, Run(env, s1, ops[1..]), DepositedBy(env, s, ops[0]), DepositedIn(env, s1, ops[1..]),
                  WithdrawnBy(env, s, ops[0]), WithdrawnIn(env, s1, ops[1..]));
    }
  }
}
