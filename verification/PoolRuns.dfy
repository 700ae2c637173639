/**
  Runs of the pool: the money it holds, the events it publishes and the roots it still knows.
  A run is any sequence of calls, failing ones included, interleaved with transfers of any
  token by anybody else. What the withdrawals of a run have to do with its deposits is the
  subject of `PoolSolvency`.
*/
module PoolRuns {
  import opened Wrappers
  import opened TokenLedger
  import opened Merkle
  import opened ShieldedPool

  // ----- runs ----------------------------------------------------------------------------------

  datatype Op<B, P> =
    | Deposit(signers: set<Address>, from: Address, commitment: B)
    | Withdraw(root: B, nullifier: B, recipient: Address, signal: B, proof: P)
    | Outside(token: Address, payer: Address, payee: Address, amount: int)

  /** One atomic step; a failing call leaves no trace, and nobody else can spend the pool's own balance. */
  function Try<B(==), P>(env: Env<B, P>, s: State<B>, op: Op<B, P>): Option<State<B>> {
    match op
    case Deposit(signers, from, commitment) =>
      var r := DepositStep(env, s, signers, from, commitment);
      if r.Ok? then Some(r.value) else None
    case Withdraw(root, nullifier, recipient, signal, proof) =>
      var r := WithdrawStep(env, s, root, nullifier, recipient, signal, proof);
      if r.Ok? then Some(r.value) else None
    case Outside(token, payer, payee, amount) =>
      var r := Transfer(s.balances, token, payer, payee, amount);
      if payer != env.pool && r.Ok? then Some(s.(balances := r.value)) else None
  }

  function Next<B(==), P>(env: Env<B, P>, s: State<B>, op: Op<B, P>): State<B> {
    match Try(env, s, op)
    case Some(s') => s'
    case None => s
  }

  function Run<B(==), P>(env: Env<B, P>, s: State<B>, ops: seq<Op<B, P>>): State<B>
    decreases |ops|
  {
    if ops == [] then s else Run(env, Next(env, s, ops[0]), ops[1..])
  }

  /** How many calls of a run were successful deposits, withdrawals, and withdrawals paid to somebody else. */
  datatype Tally = Tally(deposits: nat, withdrawals: nat, paidOut: nat, received: int)

  function Count<B(==), P>(env: Env<B, P>, s: State<B>, op: Op<B, P>): Tally {
    if Try(env, s, op).None? then Tally(0, 0, 0, 0)
    else
      match op
      case Deposit(_, _, _) => Tally(1, 0, 0, 0)
      case Withdraw(_, _, recipient, _, _) => Tally(0, 1, if recipient != env.pool then 1 else 0, 0)
      case Outside(token, _, payee, amount) =>
        Tally(0, 0, 0, if token == env.config.token && payee == env.pool then amount else 0)
  }

  function Totals<B(==), P>(env: Env<B, P>, s: State<B>, ops: seq<Op<B, P>>): Tally
    decreases |ops|
  {
    if ops == [] then Tally(0, 0, 0, 0)
    else
      var here, rest := Count(env, s, ops[0]), Totals(env, Next(env, s, ops[0]), ops[1..]);
      Tally(here.deposits + rest.deposits, here.withdrawals + rest.withdrawals,
            here.paidOut + rest.paidOut, here.received + rest.received)
  }

  function Held<B, P>(env: Env<B, P>, s: State<B>): int {
    Balance(s.balances, env.config.token, env.pool)
  }

  /** A freshly initialized pool. */
  function Fresh<B>(balances: Balances): State<B> {
    State([], {}, balances, [])
  }

  lemma {:induction false} RunAppend<B, P>(env: Env<B, P>, s: State<B>, a: seq<Op<B, P>>, b: seq<Op<B, P>>)
    ensures Run(env, s, a + b) == Run(env, Run(env, s, a), b)
    decreases |a|
  {
    if a == [] {
      assert a + b == b;
    } else {
      assert (a + b)[1..] == a[1..] + b;
      RunAppend(env, Next(env, s, a[0]), a[1..], b);
    }
  }

  /** Deposits are never forgotten or reordered. */
  lemma {:induction false} LeavesGrow<B, P>(env: Env<B, P>, s: State<B>, ops: seq<Op<B, P>>)
    requires |s.leaves| <= Pow2(env.depth)
    ensures s.leaves <= Run(env, s, ops).leaves && |Run(env, s, ops).leaves| <= Pow2(env.depth)
    decreases |ops|
  {
    if ops != [] {
      LeavesGrow(env, Next(env, s, ops[0]), ops[1..]);
    }
  }

  // ----- the run theorems ----------------------------------------------------------------------

  lemma {:induction false} RunCounts<B, P>(env: Env<B, P>, s: State<B>, ops: seq<Op<B, P>>)
    ensures var s', t := Run(env, s, ops), Totals(env, s, ops);
      && |s'.leaves| == |s.leaves| + t.deposits
      && |s'.nullifiers| == |s.nullifiers| + t.withdrawals
      && t.paidOut <= t.withdrawals
    decreases |ops|
  {
    if ops != [] {
      RunCounts(env, Next(env, s, ops[0]), ops[1..]);
    }
  }

  /** What one call does to the pool's balance. */
  lemma StepHolding<B, P>(env: Env<B, P>, s: State<B>, op: Op<B, P>)
    ensures var t := Count(env, s, op);
      Held(env, Next(env, s, op)) == Held(env, s) + env.config.denom * (t.deposits - t.paidOut) + t.received
  {
  }

  lemma Distribute(denom: int, a: int, b: int, c: int, d: int)
    ensures denom * (a - b) + denom * (c - d) == denom * (a + c - (b + d))
  {
  }

  /** The pool's balance is exactly accounted for. */
  lemma {:induction false} RunHolding<B, P>(env: Env<B, P>, s: State<B>, ops: seq<Op<B, P>>)
    ensures var t := Totals(env, s, ops);
      Held(env, Run(env, s, ops)) == Held(env, s) + env.config.denom * (t.deposits - t.paidOut) + t.received
    decreases |ops|
  {
    if ops != [] {
      var s1, here, rest := Next(env, s, ops[0]), Count(env, s, ops[0]), Totals(env, Next(env, s, ops[0]), ops[1..]);
      StepHolding(env, s, ops[0]);
      RunHolding(env, s1, ops[1..]);
      Distribute(env.config.denom, here.deposits, here.paidOut, rest.deposits, rest.paidOut);
    }
  }

  lemma {:induction false} ReceivedIsNonNegative<B, P>(env: Env<B, P>, s: State<B>, ops: seq<Op<B, P>>)
    ensures Totals(env, s, ops).received >= 0
    ensures Totals(env, s, ops).deposits > 0 ==> env.config.denom >= 0
    decreases |ops|
  {
    if ops != [] {
      ReceivedIsNonNegative(env, Next(env, s, ops[0]), ops[1..]);
    }
  }

  /** As long as a deposit is left over, the pool holds at least one denomination. */
  lemma EnoughHeld<B, P>(env: Env<B, P>, balances: Balances, ops: seq<Op<B, P>>)
    requires InRange(balances)
    requires var t := Totals(env, Fresh(balances), ops); t.withdrawals < t.deposits
    ensures 0 <= env.config.denom <= Held(env, Run(env, Fresh(balances), ops))
  {
    var t := Totals(env, Fresh(balances), ops);
    RunCounts(env, Fresh(balances), ops);
    RunHolding(env, Fresh(balances), ops);
    ReceivedIsNonNegative(env, Fresh(balances), ops);
    AtLeastOnce(env.config.denom, t.deposits - t.paidOut);
  }

  lemma AtLeastOnce(amount: int, times: int)
    requires amount >= 0 && times >= 1
    ensures amount * times >= amount
  {
    assert amount * (times - 1) >= 0;
  }

  // ----- the published events ------------------------------------------------------------------

  /** The deposits among the events, in order. */
  function Announced<B>(events: seq<PoolEvent<B>>): (r: seq<PoolEvent<B>>)
    ensures forall i :: 0 <= i < |r| ==> r[i].Deposited?
  {
    if events == [] then []
    else
      var last := events[|events| - 1];
      Announced(events[..|events| - 1]) + if last.Deposited? then [last] else []
  }

  /** The deposit events list the leaves, each once, in order, with its index. */
  ghost predicate EventsListLeaves<B>(s: State<B>) {
    && |Announced(s.events)| == |s.leaves|
    && forall i :: 0 <= i < |s.leaves| ==> Announced(s.events)[i] == Deposited(i, s.leaves[i])
  }

  lemma StepAnnounces<B, P>(env: Env<B, P>, s: State<B>, op: Op<B, P>)
    requires EventsListLeaves(s)
    ensures EventsListLeaves(Next(env, s, op))
  {
    var events := Next(env, s, op).events;
    if Try(env, s, op).Some? && !op.Outside? {
      assert events[..|events| - 1] == s.events;
    }
  }

  /** In every run the published deposit events are exactly the tree's leaves. */
  lemma {:induction false} RunAnnounces<B, P>(env: Env<B, P>, s: State<B>, ops: seq<Op<B, P>>)
    requires EventsListLeaves(s)
    ensures EventsListLeaves(Run(env, s, ops))
    decreases |ops|
  {
    if ops != [] {
      StepAnnounces(env, s, ops[0]);
      RunAnnounces(env, Next(env, s, ops[0]), ops[1..]);
    }
  }

  // ----- how long a root stays known -----------------------------------------------------------

  /** A root in the history is the root after some recent deposit. */
  lemma KnownIndex<B, P>(env: Env<B, P>, leaves: seq<B>, root: B) returns (k: nat)
    requires root in History(env, leaves)
    ensures Dropped(|leaves|) <= k <= |leaves| && root == RootAfter(env, leaves, k)
  {
    var d := Dropped(|leaves|);
    var i :| 0 <= i < |History(env, leaves)| && History(env, leaves)[i] == root;
    k := d + i;
    assert History(env, leaves)[k - d] == RootAfter(env, leaves, k);
  }

  lemma RecentIsKnown<B, P>(env: Env<B, P>, leaves: seq<B>, k: nat)
    requires Dropped(|leaves|) <= k <= |leaves|
    ensures RootAfter(env, leaves, k) in History(env, leaves)
  {
    assert History(env, leaves)[k - Dropped(|leaves|)] == RootAfter(env, leaves, k);
  }

  /**
    Where nothing collides, two prefixes of the deposits have the same root iff only empty commitments lie between
    them.
  */
  lemma RootsAgreeIff<B, P>(env: Env<B, P>, leaves: seq<B>, j: nat, k: nat)
    requires j <= k <= |leaves| <= Pow2(env.depth)
    requires IdealOn(env.h, env.zero, PrefixPairs(env.h, env.zero, leaves, env.depth))
    ensures RootAfter(env, leaves, j) == RootAfter(env, leaves, k)
       <==> forall i :: j <= i < k ==> leaves[i] == env.zero
  {
    var xs, ys, hashed := leaves[..j], leaves[..k], PrefixPairs(env.h, env.zero, leaves, env.depth);
    if RootAfter(env, leaves, j) == RootAfter(env, leaves, k) {
      PrefixPairsGrow(env.h, env.zero, leaves, env.depth, j);
      PrefixPairsGrow(env.h, env.zero, leaves, env.depth, k);
      forall i | j <= i < k
        ensures leaves[i] == env.zero
      {
        ShiftAway(i, env.depth);
        NodeDeterminesLeaves(env.h, env.zero, xs, ys, env.depth, 0, i, hashed);
      }
    }
    if forall i :: j <= i < k ==> leaves[i] == env.zero {
      LeavesDetermineNode(env.h, env.zero, xs, ys, env.depth, 0);
    }
  }

  /**
    The root after `k` deposits passes the known-root check iff it is among the last 32 roots or
    only empty commitments separate it from them.
  */
  lemma KnownRootIff<B, P>(env: Env<B, P>, leaves: seq<B>, k: nat)
    requires k <= |leaves| <= Pow2(env.depth)
    requires IdealOn(env.h, env.zero, PrefixPairs(env.h, env.zero, leaves, env.depth))
    ensures RootAfter(env, leaves, k) in History(env, leaves)
       <==> forall i :: k <= i < Dropped(|leaves|) ==> leaves[i] == env.zero
  {
    var d := Dropped(|leaves|);
    if RootAfter(env, leaves, k) in History(env, leaves) && k < d {
      var j := KnownIndex(env, leaves, RootAfter(env, leaves, k));
      RootsAgreeIff(env, leaves, k, j);
    }
    if forall i :: k <= i < d ==> leaves[i] == env.zero {
      var j := if k < d then d else k;
      RootsAgreeIff(env, leaves, k, j);
      RecentIsKnown(env, leaves, j);
    }
  }

  /** With a real commitment deposited right after it, a root is known iff at most 31 deposits followed it. */
  lemma KnownForThirtyOneDeposits<B, P>(env: Env<B, P>, leaves: seq<B>, k: nat)
    requires k < |leaves| <= Pow2(env.depth) && leaves[k] != env.zero
    requires IdealOn(env.h, env.zero, PrefixPairs(env.h, env.zero, leaves, env.depth))
    ensures RootAfter(env, leaves, k) in History(env, leaves) <==> |leaves| - k <= 31
  {
    KnownRootIff(env, leaves, k);
    assert Dropped(|leaves|) <= k <==> |leaves| - k <= 31;
  }

  /** Over the free term algebra nothing collides, so this holds of every list of deposits that fits the tree. */
  lemma SymbolicRootIsKnown<P>(env: Env<Term, P>, leaves: seq<Term>, k: nat)
    requires IsSymbolic(env.h) && env.zero == Empty && k < |leaves| <= Pow2(env.depth) && leaves[k] != Empty
    ensures RootAfter(env, leaves, k) in History(env, leaves) <==> |leaves| - k <= 31
  {
    SymbolicIsIdeal(env.h, PrefixPairs(env.h, env.zero, leaves, env.depth));
    KnownForThirtyOneDeposits(env, leaves, k);
  }
}
