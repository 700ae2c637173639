/**
  What holds over every run of the escrow: its account in each token is exactly the open
  gifts plus what it never owed, every gift's total is the sum of its contributions, and a
  gift's money leaves at most once, to the right people at the right time.
*/
module EscrowRuns {
  import opened Wrappers
  import opened Sums
  import opened TokenLedger
  import opened GiftEscrow

  datatype Op =
    | Create(sender: Address, receiver: Address, token: Address, amount: int, expiresAt: nat,
             condition: ClaimCondition, unlocker: Address, messageHash: Bytes)
    | Contribute(contributor: Address, id: nat, amount: int)
    | Unlock(unlocker: Address, id: nat)
    | Claim(id: nat, claimant: Address, answer: Option<Bytes>)
    | Refund(id: nat, caller: Address)
    | Outside(token: Address, payer: Address, payee: Address, amount: int)

  datatype Call = Call(ctx: Context, op: Op)

  function OutsideStep(env: Env, s: State, token: Address, payer: Address, payee: Address, amount: int)
    : Result<State, EscrowError>
  {
    if payer == env.self then Err(Unauthorized)
    else
      match Transfer(s.balances, token, payer, payee, amount)
      case Err(e) => Err(TokenFailure(e))
      case Ok(b) => Ok(s.(balances := b))
  }

  function Try(env: Env, s: State, c: Call): Result<State, EscrowError> {
    match c.op
    case Create(sender, receiver, token, amount, expiresAt, condition, unlocker, messageHash) =>
      CreateStep(env, s, c.ctx, sender, receiver, token, amount, expiresAt, condition, unlocker, messageHash)
    case Contribute(contributor, id, amount) => ContributeStep(env, s, c.ctx, contributor, id, amount)
    case Unlock(unlocker, id) => UnlockStep(env, s, c.ctx, unlocker, id)
    case Claim(id, claimant, answer) => ClaimStep(env, s, c.ctx, id, claimant, answer)
    case Refund(id, caller) => RefundStep(env, s, c.ctx, id, caller)
    case Outside(token, payer, payee, amount) => OutsideStep(env, s, token, payer, payee, amount)
  }

  /** One atomic step: a failing call leaves no trace. */
  function Next(env: Env, s: State, c: Call): State {
    var r := Try(env, s, c);
    if r.Ok? then r.value else s
  }

  function Run(env: Env, s: State, calls: seq<Call>): State
    decreases |calls|
  {
    if calls == [] then s else Run(env, Next(env, s, calls[0]), calls[1..])
  }

  // ----- conservation --------------------------------------------------------------------------

  /** What the contract holds of a token beyond what its open gifts account for. */
  function Surplus(env: Env, s: State, token: Address): int {
    Balance(s.balances, token, env.self) - Locked(s.gifts, s.counter, token)
  }

  /** What a call brings into the contract's account from outside the escrow. */
  function Donated(env: Env, s: State, c: Call, token: Address): int {
    if c.op.Outside? && Try(env, s, c).Ok? && c.op.token == token && c.op.payee == env.self then c.op.amount else 0
  }

  /** What a creation does to the gifts. */
  lemma CreateLocks(env: Env, s: State, c: Call, token: Address)
    requires Inv(env, s) && c.op.Create? && Try(env, s, c).Ok?
    ensures GoodGifts(env, Next(env, s, c))
    ensures Locked(Next(env, s, c).gifts, Next(env, s, c).counter, token)
         == Locked(s.gifts, s.counter, token) + if token == c.op.token then c.op.amount else 0
  {
    var s', id := Next(env, s, c), s.counter + 1;
    var one := map[c.op.sender := c.op.amount];
    SumAny(one, c.op.sender);
    assert one - {c.op.sender} == map[];
    LockedSet(s.gifts, s.counter, id, s'.gifts[id], token);
  }

  lemma CreateConserves(env: Env, s: State, c: Call, token: Address)
    requires Inv(env, s) && c.op.Create?
    ensures GoodGifts(env, Next(env, s, c)) && Surplus(env, Next(env, s, c), token) == Surplus(env, s, token)
  {
    if Try(env, s, c).Ok? {
      CreateLocks(env, s, c, token);
      TransferEffect(s.balances, c.op.token, c.op.sender, env.self, c.op.amount, token, env.self);
    }
  }

  /** What a contribution does to the gifts. */
  lemma ContributeLocks(env: Env, s: State, c: Call, token: Address)
    requires Inv(env, s) && c.op.Contribute? && Try(env, s, c).Ok?
    ensures GoodGifts(env, Next(env, s, c))
    ensures Locked(Next(env, s, c).gifts, Next(env, s, c).counter, token)
         == Locked(s.gifts, s.counter, token) + if token == s.gifts[c.op.id].token then c.op.amount else 0
  {
    var id, g := c.op.id, s.gifts[c.op.id];
    SumSet(g.contributions, c.op.contributor, Share(g.contributions, c.op.contributor) + c.op.amount);
    LockedSet(s.gifts, s.counter, id, Next(env, s, c).gifts[id], token);
  }

  lemma ContributeConserves(env: Env, s: State, c: Call, token: Address)
    requires Inv(env, s) && c.op.Contribute?
    ensures GoodGifts(env, Next(env, s, c)) && Surplus(env, Next(env, s, c), token) == Surplus(env, s, token)
  {
    if Try(env, s, c).Ok? {
      ContributeLocks(env, s, c, token);
      TransferEffect(s.balances, s.gifts[c.op.id].token, c.op.contributor, env.self, c.op.amount, token, env.self);
    }
  }

  lemma UnlockConserves(env: Env, s: State, c: Call, token: Address)
    requires Inv(env, s) && c.op.Unlock?
    ensures GoodGifts(env, Next(env, s, c)) && Surplus(env, Next(env, s, c), token) == Surplus(env, s, token)
  {
    if Try(env, s, c).Ok? {
      LockedSet(s.gifts, s.counter, c.op.id, Next(env, s, c).gifts[c.op.id], token);
    }
  }

  lemma ClaimConserves(env: Env, s: State, c: Call, token: Address)
    requires Inv(env, s) && c.op.Claim?
    ensures GoodGifts(env, Next(env, s, c)) && Surplus(env, Next(env, s, c), token) == Surplus(env, s, token)
  {
    if Try(env, s, c).Ok? {
      var id, g := c.op.id, s.gifts[c.op.id];
      LockedSet(s.gifts, s.counter, id, Next(env, s, c).gifts[id], token);
      TransferEffect(s.balances, g.token, env.self, c.op.claimant, g.totalAmount, token, env.self);
    }
  }

  lemma RefundConserves(env: Env, s: State, c: Call, token: Address)
    requires Inv(env, s) && c.op.Refund?
    ensures GoodGifts(env, Next(env, s, c)) && Surplus(env, Next(env, s, c), token) == Surplus(env, s, token)
  {
    if Try(env, s, c).Ok? {
      var id, g := c.op.id, s.gifts[c.op.id];
      var s' := Next(env, s, c);
      LockedSet(s.gifts, s.counter, id, s'.gifts[id], token);
      PaidAllIsPaid(s.balances, g.token, env.self, g.contributions, g.totalAmount);
      assert PaidAt(s.balances, s'.balances, g.token, env.self, g.contributions, g.totalAmount,
                    Account(token, env.self));
    }
  }

  lemma StepConserves(env: Env, s: State, c: Call, token: Address)
    requires Inv(env, s)
    ensures GoodGifts(env, Next(env, s, c))
    ensures Surplus(env, Next(env, s, c), token) == Surplus(env, s, token) + Donated(env, s, c, token)
  {
    match c.op
    case Create(_, _, _, _, _, _, _, _) => CreateConserves(env, s, c, token);
    case Contribute(_, _, _) => ContributeConserves(env, s, c, token);
    case Unlock(_, _) => UnlockConserves(env, s, c, token);
    case Claim(_, _, _) => ClaimConserves(env, s, c, token);
    case Refund(_, _) => RefundConserves(env, s, c, token);
    case Outside(t, payer, payee, amount) =>
      if Try(env, s, c).Ok? {
        TransferEffect(s.balances, t, payer, payee, amount, token, env.self);
      }
  }

  lemma RefundInRange(env: Env, s: State, c: Call)
    requires Inv(env, s) && c.op.Refund? && Try(env, s, c).Ok?
    ensures InRange(Next(env, s, c).balances)
  {
    var g, b := s.gifts[c.op.id], Next(env, s, c).balances;
    PaidAllIsPaid(s.balances, g.token, env.self, g.contributions, g.totalAmount);
    OpenGiftIsCovered(env, s, c.op.id);
    forall a | a in b
      ensures 0 <= b[a] <= I128_MAX
    {
      assert PaidAt(s.balances, b, g.token, env.self, g.contributions, g.totalAmount, a);
      assert Balance(b, a.token, a.holder) == b[a];
    }
  }

  lemma StepKeepsInv(env: Env, s: State, c: Call)
    requires Inv(env, s)
    ensures Inv(env, Next(env, s, c))
  {
    var s' := Next(env, s, c);
    if c.op.Refund? && Try(env, s, c).Ok? {
      RefundInRange(env, s, c);
    }
    forall token
      ensures Locked(s'.gifts, s'.counter, token) <= Balance(s'.balances, token, env.self)
    {
      StepConserves(env, s, c, token);
    }
    StepConserves(env, s, c, "");
  }

  lemma {:induction false} RunKeepsInv(env: Env, s: State, calls: seq<Call>)
    requires Inv(env, s)
    ensures Inv(env, Run(env, s, calls))
    decreases |calls|
  {
    if calls != [] {
      StepKeepsInv(env, s, calls[0]);
      RunKeepsInv(env, Next(env, s, calls[0]), calls[1..]);
    }
  }

  function TotalDonated(env: Env, s: State, calls: seq<Call>, token: Address): int
    decreases |calls|
  {
    if calls == [] then 0
    else Donated(env, s, calls[0], token) + TotalDonated(env, Next(env, s, calls[0]), calls[1..], token)
  }

  lemma {:induction false} RunConserves(env: Env, s: State, calls: seq<Call>, token: Address)
    requires Inv(env, s)
    ensures Surplus(env, Run(env, s, calls), token) == Surplus(env, s, token) + TotalDonated(env, s, calls, token)
    decreases |calls|
  {
    if calls != [] {
      StepConserves(env, s, calls[0], token);
      StepKeepsInv(env, s, calls[0]);
      RunConserves(env, Next(env, s, calls[0]), calls[1..], token);
    }
  }

  /** A newly deployed escrow. */
  function Fresh(balances: Balances): State {
    State(0, map[], balances)
  }

  /**
    The ledger theorem: in every run, for every token, the contract's account holds exactly the
    open gifts of that token, plus what it held before and what outsiders sent it unasked.
  */
  lemma EscrowIsSolvent(env: Env, balances: Balances, calls: seq<Call>, token: Address)
    requires InRange(balances)
    ensures var s := Run(env, Fresh(balances), calls);
      && Inv(env, s)
      && Balance(s.balances, token, env.self) == Locked(s.gifts, s.counter, token)
           + Balance(balances, token, env.self) + TotalDonated(env, Fresh(balances), calls, token)
  {
    RunKeepsInv(env, Fresh(balances), calls);
    RunConserves(env, Fresh(balances), calls, token);
  }

  /** The errors that would mean the contract could not pay what it owes, or could not count it. */
  predicate Broken(e: EscrowError) {
    e in {ArithmeticTrap, TokenFailure(BalanceTooLow), TokenFailure(NegativeAmount)}
  }

  /** In every run no claim or refund runs short, and the additions of `contribute` never trap. */
  lemma NeverShort(env: Env, balances: Balances, calls: seq<Call>, c: Call)
    requires InRange(balances)
    ensures var s := Run(env, Fresh(balances), calls);
      && (c.op.Claim? || c.op.Refund? ==> Try(env, s, c).Err? ==> !Broken(Try(env, s, c).error))
      && (c.op.Contribute? ==> Try(env, s, c) != Err(ArithmeticTrap))
  {
    var s := Run(env, Fresh(balances), calls);
    RunKeepsInv(env, Fresh(balances), calls);
    match c.op
    case Claim(id, claimant, answer) => ClaimNeverShort(env, s, c.ctx, id, claimant, answer);
    case Contribute(contributor, id, amount) => ContributeNeverTraps(env, s, c.ctx, contributor, id, amount);
    case _ =>
  }

  // ----- every payout succeeds ------------------------------------------------------------------

  /** One balance of `now`, which is `b` after the shares have been paid and `total` taken from `self`. */
  ghost predicate MovedAt(b: Balances, now: Balances, token: Address, self: Address,
                          shares: map<Address, int>, total: int, a: Account)
  {
    Balance(now, a.token, a.holder) ==
      Balance(b, a.token, a.holder) + (if a.token == token then Share(shares, a.holder) else 0)
                                    - (if a.token == token && a.holder == self then total else 0)
  }

  lemma SameBalancesSameSupply(x: Balances, y: Balances, t: Address)
    requires forall a: Account :: Balance(x, a.token, a.holder) == Balance(y, a.token, a.holder)
    ensures Supply(x, t) == Supply(y, t)
  {
    forall a: Account
      ensures Share(OfToken(x, t), a) == Share(OfToken(y, t), a)
    {
      assert Balance(x, a.token, a.holder) == Balance(y, a.token, a.holder);
    }
    SumSameShares(OfToken(x, t), OfToken(y, t));
  }

  lemma NothingMovedSupply(b: Balances, now: Balances, token: Address, self: Address, total: int, t: Address)
    requires forall a: Account :: MovedAt(b, now, token, self, map[], total, a)
    ensures Supply(now, t) == Supply(b, t) - if t == token then total else 0
  {
    var back := now[Account(token, self) := Balance(b, token, self)];
    assert MovedAt(b, now, token, self, map[], total, Account(token, self));
    SupplySet(now, token, self, Balance(b, token, self), t);
    forall a: Account
      ensures Balance(back, a.token, a.holder) == Balance(b, a.token, a.holder)
    {
      assert MovedAt(b, now, token, self, map[], total, a);
    }
    SameBalancesSameSupply(back, b, t);
  }

  /** Paying shares changes the supply only if they do not add up to what is taken from the account. */
  lemma {:induction false} MovedSupply(b: Balances, now: Balances, token: Address, self: Address,
                                       shares: map<Address, int>, total: int, t: Address)
    requires self !in shares && forall a: Account :: MovedAt(b, now, token, self, shares, total, a)
    ensures Supply(now, t) == Supply(b, t) + if t == token then SumOf(shares) - total else 0
    decreases shares.Keys
  {
    if shares.Keys == {} {
      assert shares == map[];
      NothingMovedSupply(b, now, token, self, total, t);
    } else {
      var who := Pick(shares.Keys);
      var was, rest := Balance(b, token, who), shares - {who};
      var before := now[Account(token, who) := was];
      assert MovedAt(b, now, token, self, shares, total, Account(token, who));
      SupplySet(now, token, who, was, t);
      forall a: Account
        ensures MovedAt(b, before, token, self, rest, total, a)
      {
        assert MovedAt(b, now, token, self, shares, total, a);
      }
      MovedSupply(b, before, token, self, rest, total, t);
      SumAny(shares, who);
    }
  }

  lemma PaidKeepsSupply(b: Balances, now: Balances, token: Address, self: Address, shares: map<Address, int>,
                        t: Address)
    requires self !in shares && IsPaid(b, now, token, self, shares, SumOf(shares))
    ensures Supply(now, t) == Supply(b, t)
  {
    var total := SumOf(shares);
    forall a: Account
      ensures MovedAt(b, now, token, self, shares, total, a)
    {
      assert PaidAt(b, now, token, self, shares, total, a);
    }
    MovedSupply(b, now, token, self, shares, total, t);
  }

  lemma RefundKeepsSupply(env: Env, s: State, c: Call, token: Address)
    requires Inv(env, s) && c.op.Refund? && Try(env, s, c).Ok?
    ensures Supply(Next(env, s, c).balances, token) == Supply(s.balances, token)
  {
    var g := s.gifts[c.op.id];
    PaidAllIsPaid(s.balances, g.token, env.self, g.contributions, g.totalAmount);
    PaidKeepsSupply(s.balances, Next(env, s, c).balances, g.token, env.self, g.contributions, token);
  }

  /** No call of the escrow, and no transfer of anybody else, changes the supply of a token. */
  lemma StepKeepsSupply(env: Env, s: State, c: Call, token: Address)
    requires Inv(env, s)
    ensures Supply(Next(env, s, c).balances, token) == Supply(s.balances, token)
  {
    if Try(env, s, c).Ok? {
      match c.op
      case Create(sender, _, t, amount, _, _, _, _) =>
        TransferKeepsSupply(s.balances, t, sender, env.self, amount, token);
      case Contribute(contributor, id, amount) =>
        TransferKeepsSupply(s.balances, s.gifts[id].token, contributor, env.self, amount, token);
      case Unlock(_, _) =>
      case Claim(id, claimant, _) =>
        TransferKeepsSupply(s.balances, s.gifts[id].token, env.self, claimant, s.gifts[id].totalAmount, token);
      case Refund(_, _) => RefundKeepsSupply(env, s, c, token);
      case Outside(t, payer, payee, amount) => TransferKeepsSupply(s.balances, t, payer, payee, amount, token);
    }
  }

  lemma {:induction false} RunKeepsSupply(env: Env, s: State, calls: seq<Call>, token: Address)
    requires Inv(env, s)
    ensures Supply(Run(env, s, calls).balances, token) == Supply(s.balances, token)
    decreases |calls|
  {
    if calls != [] {
      StepKeepsInv(env, s, calls[0]);
      StepKeepsSupply(env, s, calls[0], token);
      RunKeepsSupply(env, Next(env, s, calls[0]), calls[1..], token);
    }
  }

  lemma ClaimSucceeds(env: Env, s: State, ctx: Context, id: nat, claimant: Address, answer: Option<Bytes>)
    requires Inv(env, s) && ClaimError(env, s, ctx, id, claimant, answer).None?
    requires Supply(s.balances, s.gifts[id].token) <= I128_MAX
    ensures ClaimStep(env, s, ctx, id, claimant, answer).Ok?
  {
    OpenGiftIsCovered(env, s, id);
    CoveredTransferSucceeds(s.balances, s.gifts[id].token, env.self, claimant, s.gifts[id].totalAmount);
  }

  lemma RefundSucceeds(env: Env, s: State, ctx: Context, id: nat, caller: Address)
    requires Inv(env, s) && Authorized(env, ctx, caller) && RefundError(s, ctx, id, caller).None?
    requires Supply(s.balances, s.gifts[id].token) <= I128_MAX
    ensures RefundStep(env, s, ctx, id, caller).Ok?
  {
    var g := s.gifts[id];
    OpenGiftIsCovered(env, s, id);
    forall who | who in g.contributions
      ensures Balance(s.balances, g.token, who) + g.contributions[who] <= I128_MAX
    {
      ShareAtMostSum(g.contributions, who);
      TwoBalances(s.balances, g.token, who, env.self);
    }
  }

  /**
    If the supply of a token fits in i128, then in every run every claim and every refund of a gift in
    that token that passes its checks succeeds.
  */
  lemma PayoutsSucceed(env: Env, balances: Balances, calls: seq<Call>,
                       ctx: Context, id: nat, caller: Address, answer: Option<Bytes>)
    requires InRange(balances)
    ensures var s := Run(env, Fresh(balances), calls);
      id in s.gifts && Supply(balances, s.gifts[id].token) <= I128_MAX ==>
        && (ClaimStep(env, s, ctx, id, caller, answer).Ok? <==> ClaimError(env, s, ctx, id, caller, answer).None?)
        && (RefundStep(env, s, ctx, id, caller).Ok? <==>
            Authorized(env, ctx, caller) && RefundError(s, ctx, id, caller).None?)
  {
    var s := Run(env, Fresh(balances), calls);
    RunKeepsInv(env, Fresh(balances), calls);
    if id in s.gifts && Supply(balances, s.gifts[id].token) <= I128_MAX {
      RunKeepsSupply(env, Fresh(balances), calls, s.gifts[id].token);
      if ClaimError(env, s, ctx, id, caller, answer).None? {
        ClaimSucceeds(env, s, ctx, id, caller, answer);
      }
      if Authorized(env, ctx, caller) && RefundError(s, ctx, id, caller).None? {
        RefundSucceeds(env, s, ctx, id, caller);
      }
    }
  }

  // ----- where a gift's money goes --------------------------------------------------------------

  /** Money leaving a gift: when, and how much to whom. */
  datatype Payout = Payout(at: nat, shares: map<Address, int>)

  /** The payouts of gift `id` made by one call. */
  function PaidBy(env: Env, s: State, c: Call, id: nat): seq<Payout> {
    if Try(env, s, c).Err? || id !in s.gifts then []
    else
      match c.op
      case Claim(i, _, _) =>
        if i == id then [Payout(c.ctx.now, map[s.gifts[id].receiver := s.gifts[id].totalAmount])] else []
      case Refund(i, _) => if i == id then [Payout(c.ctx.now, s.gifts[id].contributions)] else []
      case _ => []
  }

  /** A payout is exactly what the token ledger moved: each share to its owner, their sum out of the account. */
  lemma PayoutsAreTransfers(env: Env, s: State, c: Call, id: nat, token: Address, holder: Address)
    requires Inv(env, s) && |PaidBy(env, s, c, id)| == 1
    ensures PaidBy(env, s, c, id)[0].at == c.ctx.now
    ensures var shares := PaidBy(env, s, c, id)[0].shares;
      Balance(Next(env, s, c).balances, token, holder) == Balance(s.balances, token, holder)
        + (if token == s.gifts[id].token then Share(shares, holder) else 0)
        - (if token == s.gifts[id].token && holder == env.self then s.gifts[id].totalAmount else 0)
  {
    var g := s.gifts[id];
    if c.op.Claim? {
      TransferEffect(s.balances, g.token, env.self, c.op.claimant, g.totalAmount, token, holder);
    } else {
      PaidAllIsPaid(s.balances, g.token, env.self, g.contributions, g.totalAmount);
      assert PaidAt(s.balances, Next(env, s, c).balances, g.token, env.self, g.contributions, g.totalAmount,
                    Account(token, holder));
    }
  }

  function Payouts(env: Env, s: State, calls: seq<Call>, id: nat): seq<Payout>
    decreases |calls|
  {
    if calls == [] then []
    else PaidBy(env, s, calls[0], id) + Payouts(env, Next(env, s, calls[0]), calls[1..], id)
  }

  /** The payouts that a gift's final record accounts for. */
  ghost predicate Settled(g: GiftRecord, paid: seq<Payout>) {
    match g.status
    case Open => paid == []
    case Claimed =>
      |paid| == 1 && paid[0].at < g.expiresAt && paid[0].shares == map[g.receiver := g.totalAmount]
    case Refunded =>
      |paid| == 1 && paid[0].at >= g.expiresAt && paid[0].shares == g.contributions
  }

  /** How one gift's record may change: its terms never, its status only from Open, its steps only up. */
  ghost predicate Evolves(g: GiftRecord, g': GiftRecord) {
    && g'.sender == g.sender && g'.receiver == g.receiver && g'.token == g.token && g'.expiresAt == g.expiresAt
    && g'.condition == g.condition && g'.stepUnlocker == g.stepUnlocker && g'.messageHash == g.messageHash
    && g.stepsCompleted <= g'.stepsCompleted
    && (g.status.Open? ||
        (g'.status == g.status && g'.totalAmount == g.totalAmount && g'.contributions == g.contributions))
  }

  lemma StepEvolves(env: Env, s: State, c: Call, id: nat)
    requires Inv(env, s) && id in s.gifts
    ensures id in Next(env, s, c).gifts && Evolves(s.gifts[id], Next(env, s, c).gifts[id])
  {
    var r := Try(env, s, c);
    match c.op
    case Create(_, _, _, _, _, _, _, _) => assert r.Ok? ==> r.value.gifts[id] == s.gifts[id];
    case Contribute(_, _, _) =>
    case Unlock(_, _) =>
    case Claim(_, _, _) =>
    case Refund(_, _) =>
    case Outside(_, _, _, _) => assert r.Ok? ==> r.value.gifts[id] == s.gifts[id];
  }

  lemma {:induction false} RunEvolves(env: Env, s: State, calls: seq<Call>, id: nat)
    requires Inv(env, s) && id in s.gifts
    ensures id in Run(env, s, calls).gifts && Evolves(s.gifts[id], Run(env, s, calls).gifts[id])
    decreases |calls|
  {
    if calls != [] {
      StepEvolves(env, s, calls[0], id);
      StepKeepsInv(env, s, calls[0]);
      RunEvolves(env, Next(env, s, calls[0]), calls[1..], id);
    }
  }

  /** What is known of gift `id` once it has paid out `paid`; nothing has left a gift that does not exist yet. */
  ghost predicate Accounted(s: State, id: nat, paid: seq<Payout>) {
    if id in s.gifts then Settled(s.gifts[id], paid) else paid == []
  }

  lemma StepAccounts(env: Env, s: State, c: Call, id: nat, paid: seq<Payout>)
    requires Inv(env, s) && Accounted(s, id, paid)
    ensures Accounted(Next(env, s, c), id, paid + PaidBy(env, s, c, id))
  {
    if PaidBy(env, s, c, id) == [] {
      assert paid + PaidBy(env, s, c, id) == paid;
    }
  }

  lemma {:induction false} RunAccounts(env: Env, s: State, calls: seq<Call>, id: nat, paid: seq<Payout>)
    requires Inv(env, s) && Accounted(s, id, paid)
    ensures Accounted(Run(env, s, calls), id, paid + Payouts(env, s, calls, id))
    decreases |calls|
  {
    if calls == [] {
      assert paid + [] == paid;
    } else {
      var s1, here := Next(env, s, calls[0]), PaidBy(env, s, calls[0], id);
      StepKeepsInv(env, s, calls[0]);
      StepAccounts(env, s, calls[0], id, paid);
      RunAccounts(env, s1, calls[1..], id, paid + here);
      assert paid + here + Payouts(env, s1, calls[1..], id) == paid + (here + Payouts(env, s1, calls[1..], id));
    }
  }

  /**
    Money leaves a gift at most once in any run: not while it is open; the whole total to the receiver
    strictly before expiry if it was claimed; each contributor's own sum at or after expiry if refunded.
  */
  lemma PaidOnce(env: Env, balances: Balances, calls: seq<Call>, id: nat)
    requires InRange(balances)
    ensures var s, paid := Run(env, Fresh(balances), calls), Payouts(env, Fresh(balances), calls, id);
      && |paid| <= 1
      && (id in s.gifts ==> Settled(s.gifts[id], paid) && s.gifts[id].totalAmount == SumOf(s.gifts[id].contributions))
      && (id !in s.gifts ==> paid == [])
  {
    RunKeepsInv(env, Fresh(balances), calls);
    RunAccounts(env, Fresh(balances), calls, id, []);
    var paid := Payouts(env, Fresh(balances), calls, id);
    assert [] + paid == paid;
  }
}
