/**
  What each call of the escrow does, seen from outside: exactly when it is refused and why, whose
  money moves, that nobody's money moves without their signature, and what a gift's record says
  about the calls that made it. Nothing here is stated through the step functions' own checks.
*/
module EscrowCalls {
  import opened Wrappers
  import opened Sums
  import opened TokenLedger
  import opened GiftEscrow
  import opened EscrowRuns

  // ----- when a call is refused ------------------------------------------------------------------

  /** The call carries the signature of `who`, which cannot be the contract itself. */
  predicate Signed(env: Env, c: Call, who: Address) {
    who in c.ctx.signers && who != env.self
  }

  /** What has to be shown to take the gift, apart from being its receiver in time. */
  predicate Met(env: Env, g: GiftRecord, answer: Option<Bytes>) {
    && (g.condition.AnswerHash? ==> answer.Some? && env.sha256(answer.value) == g.condition.hash)
    && (g.condition.StepGate? ==> g.stepsCompleted == g.condition.total)
  }

  function CreateChecks(env: Env, s: State, c: Call): seq<Check<EscrowError>>
    requires c.op.Create?
  {
    var op := c.op;
    [Check(!Signed(env, c, op.sender), Unauthorized),
     Check(op.amount <= 0, InvalidContributionAmount),
     Check(c.ctx.now >= op.expiresAt, InvalidExpiry),
     Check(Balance(s.balances, op.token, op.sender) < op.amount, TokenFailure(BalanceTooLow)),
     Check(Balance(s.balances, op.token, env.self) + op.amount > I128_MAX, TokenFailure(BalanceOverflow)),
     Check(s.counter >= U64_MAX, ArithmeticTrap)]
  }

  function ContributeChecks(env: Env, s: State, c: Call): seq<Check<EscrowError>>
    requires c.op.Contribute?
  {
    [Check(!Signed(env, c, c.op.contributor), Unauthorized),
     Check(c.op.amount <= 0, InvalidContributionAmount),
     Check(c.op.id !in s.gifts, GiftNotFound)]
    + if c.op.id !in s.gifts then []
      else
        var g := s.gifts[c.op.id];
        [Check(g.status != Open, GiftNotOpen),
         Check(c.ctx.now >= g.expiresAt, GiftExpired),
         Check(Balance(s.balances, g.token, c.op.contributor) < c.op.amount, TokenFailure(BalanceTooLow)),
         Check(Balance(s.balances, g.token, env.self) + c.op.amount > I128_MAX, TokenFailure(BalanceOverflow))]
  }

  function UnlockChecks(env: Env, s: State, c: Call): seq<Check<EscrowError>>
    requires c.op.Unlock?
  {
    [Check(!Signed(env, c, c.op.unlocker), Unauthorized),
     Check(c.op.id !in s.gifts, GiftNotFound)]
    + if c.op.id !in s.gifts then []
      else
        var g := s.gifts[c.op.id];
        [Check(c.op.unlocker != g.stepUnlocker, NotAuthorizedUnlocker),
         Check(!g.condition.StepGate?, NotStepGated),
         Check(g.condition.StepGate? && g.stepsCompleted == g.condition.total, AllStepsAlreadyComplete)]
  }

  function ClaimChecks(env: Env, s: State, c: Call): seq<Check<EscrowError>>
    requires c.op.Claim?
  {
    [Check(!Signed(env, c, c.op.claimant), Unauthorized),
     Check(c.op.id !in s.gifts, GiftNotFound)]
    + if c.op.id !in s.gifts then []
      else
        var g := s.gifts[c.op.id];
        [Check(c.op.claimant != g.receiver, NotReceiver),
         Check(g.status != Open, GiftNotOpen),
         Check(c.ctx.now >= g.expiresAt, GiftExpired),
         Check(g.condition.AnswerHash? && !Met(env, g, c.op.answer), WrongAnswer),
         Check(g.condition.StepGate? && !Met(env, g, c.op.answer), StepsNotComplete),
         Check(Balance(s.balances, g.token, c.op.claimant) + g.totalAmount > I128_MAX, TokenFailure(BalanceOverflow))]
  }

  /** Somebody who would be paid back holds too much already. */
  ghost predicate SomeoneOverflows(s: State, g: GiftRecord) {
    exists who :: who in g.contributions && Balance(s.balances, g.token, who) + g.contributions[who] > I128_MAX
  }

  ghost function RefundChecks(env: Env, s: State, c: Call): seq<Check<EscrowError>>
    requires c.op.Refund?
  {
    [Check(!Signed(env, c, c.op.caller), Unauthorized),
     Check(c.op.id !in s.gifts, GiftNotFound)]
    + if c.op.id !in s.gifts then []
      else
        var g := s.gifts[c.op.id];
        [Check(c.op.caller !in g.contributions, NotSenderOrContributor),
         Check(g.status != Open, GiftNotOpen),
         Check(c.ctx.now < g.expiresAt, GiftNotYetExpired),
         Check(SomeoneOverflows(s, g), TokenFailure(BalanceOverflow))]
  }

  /** The checks of each entry point, in order. The account always covers what a gift pays out. */
  ghost function Checks(env: Env, s: State, c: Call): seq<Check<EscrowError>>
    requires !c.op.Outside?
  {
    match c.op
    case Create(_, _, _, _, _, _, _, _) => CreateChecks(env, s, c)
    case Contribute(_, _, _) => ContributeChecks(env, s, c)
    case Unlock(_, _) => UnlockChecks(env, s, c)
    case Claim(_, _, _) => ClaimChecks(env, s, c)
    case Refund(_, _) => RefundChecks(env, s, c)
  }

  lemma CreateDecided(env: Env, s: State, c: Call)
    requires Inv(env, s) && c.op.Create?
    ensures Decided(CreateChecks(env, s, c), Try(env, s, c))
  {
    var checks, op := CreateChecks(env, s, c), c.op;
    assert checks[0] == Check(!Signed(env, c, op.sender), Unauthorized);
    assert checks[1] == Check(op.amount <= 0, InvalidContributionAmount);
    assert checks[2] == Check(c.ctx.now >= op.expiresAt, InvalidExpiry);
    assert checks[3].fault == TokenFailure(BalanceTooLow) && checks[4].fault == TokenFailure(BalanceOverflow);
    assert checks[5] == Check(s.counter >= U64_MAX, ArithmeticTrap);
  }

  /** What a contribution to a gift that exists comes to. */
  predicate ContributeOutcome(env: Env, s: State, c: Call, g: GiftRecord, r: Result<State, EscrowError>)
    requires c.op.Contribute?
  {
    if !Signed(env, c, c.op.contributor) then r == Err(Unauthorized)
    else if c.op.amount <= 0 then r == Err(InvalidContributionAmount)
    else if g.status != Open then r == Err(GiftNotOpen)
    else if c.ctx.now >= g.expiresAt then r == Err(GiftExpired)
    else if Balance(s.balances, g.token, c.op.contributor) < c.op.amount then r == Err(TokenFailure(BalanceTooLow))
    else if Balance(s.balances, g.token, env.self) + c.op.amount > I128_MAX then r == Err(TokenFailure(BalanceOverflow))
    else r.Ok?
  }

  lemma ContributeTable(env: Env, s: State, c: Call, r: Result<State, EscrowError>)
    requires c.op.Contribute? && c.op.id in s.gifts && ContributeOutcome(env, s, c, s.gifts[c.op.id], r)
    ensures Decided(ContributeChecks(env, s, c), r)
  {
    var checks := ContributeChecks(env, s, c);
    assert checks[0].fault == Unauthorized && checks[1].fault == InvalidContributionAmount && !checks[2].there;
    assert checks[3].fault == GiftNotOpen && checks[4].fault == GiftExpired;
    assert checks[5].fault == TokenFailure(BalanceTooLow) && checks[6].fault == TokenFailure(BalanceOverflow);
  }

  lemma ContributeDecided(env: Env, s: State, c: Call)
    requires Inv(env, s) && c.op.Contribute?
    ensures Decided(ContributeChecks(env, s, c), Try(env, s, c))
  {
    ContributeNeverTraps(env, s, c.ctx, c.op.contributor, c.op.id, c.op.amount);
    if c.op.id in s.gifts {
      ContributeTable(env, s, c, Try(env, s, c));
    } else {
      var checks := ContributeChecks(env, s, c);
      assert checks[0].fault == Unauthorized && checks[1].fault == InvalidContributionAmount;
      assert checks[2] == Check(true, GiftNotFound);
    }
  }

  /** What unlocking a step of a gift that exists comes to. */
  predicate UnlockOutcome(env: Env, s: State, c: Call, g: GiftRecord, r: Result<State, EscrowError>)
    requires c.op.Unlock?
  {
    if !Signed(env, c, c.op.unlocker) then r == Err(Unauthorized)
    else if c.op.unlocker != g.stepUnlocker then r == Err(NotAuthorizedUnlocker)
    else if !g.condition.StepGate? then r == Err(NotStepGated)
    else if g.stepsCompleted == g.condition.total then r == Err(AllStepsAlreadyComplete)
    else r.Ok?
  }

  lemma UnlockTable(env: Env, s: State, c: Call, r: Result<State, EscrowError>)
    requires c.op.Unlock? && c.op.id in s.gifts && UnlockOutcome(env, s, c, s.gifts[c.op.id], r)
    ensures Decided(UnlockChecks(env, s, c), r)
  {
    var checks := UnlockChecks(env, s, c);
    assert checks[0].fault == Unauthorized && !checks[1].there && checks[2].fault == NotAuthorizedUnlocker;
    assert checks[3].fault == NotStepGated && checks[4].fault == AllStepsAlreadyComplete;
  }

  lemma UnlockDecided(env: Env, s: State, c: Call)
    requires Inv(env, s) && c.op.Unlock?
    ensures Decided(UnlockChecks(env, s, c), Try(env, s, c))
  {
    if c.op.id in s.gifts {
      UnlockTable(env, s, c, Try(env, s, c));
    } else {
      var checks := UnlockChecks(env, s, c);
      assert checks[0].fault == Unauthorized && checks[1] == Check(true, GiftNotFound);
    }
  }

  /** What a claim of a gift that exists comes to. */
  predicate ClaimOutcome(env: Env, s: State, c: Call, g: GiftRecord, r: Result<State, EscrowError>)
    requires c.op.Claim?
  {
    if !Signed(env, c, c.op.claimant) then r == Err(Unauthorized)
    else if c.op.claimant != g.receiver then r == Err(NotReceiver)
    else if g.status != Open then r == Err(GiftNotOpen)
    else if c.ctx.now >= g.expiresAt then r == Err(GiftExpired)
    else if !Met(env, g, c.op.answer) then r == Err(if g.condition.AnswerHash? then WrongAnswer else StepsNotComplete)
    else if Balance(s.balances, g.token, c.op.claimant) + g.totalAmount > I128_MAX then
      r == Err(TokenFailure(BalanceOverflow))
    else r.Ok?
  }

  lemma ClaimTable(env: Env, s: State, c: Call, r: Result<State, EscrowError>)
    requires c.op.Claim? && c.op.id in s.gifts && ClaimOutcome(env, s, c, s.gifts[c.op.id], r)
    ensures Decided(ClaimChecks(env, s, c), r)
  {
    var checks := ClaimChecks(env, s, c);
    assert checks[0].fault == Unauthorized && !checks[1].there && checks[2].fault == NotReceiver;
    assert checks[3].fault == GiftNotOpen && checks[4].fault == GiftExpired;
    assert checks[5].fault == WrongAnswer && checks[6].fault == StepsNotComplete;
    assert checks[7].fault == TokenFailure(BalanceOverflow);
  }

  lemma ClaimDecided(env: Env, s: State, c: Call)
    requires Inv(env, s) && c.op.Claim?
    ensures Decided(ClaimChecks(env, s, c), Try(env, s, c))
  {
    ClaimNeverShort(env, s, c.ctx, c.op.id, c.op.claimant, c.op.answer);
    if c.op.id in s.gifts {
      ClaimTable(env, s, c, Try(env, s, c));
    } else {
      var checks := ClaimChecks(env, s, c);
      assert checks[0].fault == Unauthorized && checks[1] == Check(true, GiftNotFound);
    }
  }

  /** What a refund of a gift that exists comes to. */
  ghost predicate RefundOutcome(env: Env, s: State, c: Call, g: GiftRecord, r: Result<State, EscrowError>)
    requires c.op.Refund?
  {
    if !Signed(env, c, c.op.caller) then r == Err(Unauthorized)
    else if c.op.caller !in g.contributions then r == Err(NotSenderOrContributor)
    else if g.status != Open then r == Err(GiftNotOpen)
    else if c.ctx.now < g.expiresAt then r == Err(GiftNotYetExpired)
    else if SomeoneOverflows(s, g) then r == Err(TokenFailure(BalanceOverflow))
    else r.Ok?
  }

  lemma RefundTable(env: Env, s: State, c: Call, r: Result<State, EscrowError>)
    requires c.op.Refund? && c.op.id in s.gifts && RefundOutcome(env, s, c, s.gifts[c.op.id], r)
    ensures Decided(RefundChecks(env, s, c), r)
  {
    var checks := RefundChecks(env, s, c);
    assert checks[0].fault == Unauthorized && !checks[1].there && checks[2].fault == NotSenderOrContributor;
    assert checks[3].fault == GiftNotOpen && checks[4].fault == GiftNotYetExpired;
    assert checks[5].fault == TokenFailure(BalanceOverflow);
  }

  lemma RefundDecided(env: Env, s: State, c: Call)
    requires Inv(env, s) && c.op.Refund?
    ensures Decided(RefundChecks(env, s, c), Try(env, s, c))
  {
    if c.op.id in s.gifts {
      RefundTable(env, s, c, Try(env, s, c));
    } else {
      var checks := RefundChecks(env, s, c);
      assert checks[0].fault == Unauthorized && checks[1] == Check(true, GiftNotFound);
    }
  }

  /** At any point of any run, the outcome of a call is the first of its faults, or success if it has none. */
  lemma CallDecided(env: Env, balances: Balances, calls: seq<Call>, c: Call)
    requires InRange(balances) && !c.op.Outside?
    ensures var s := Run(env, Fresh(balances), calls); Decided(Checks(env, s, c), Try(env, s, c))
  {
    var s := Run(env, Fresh(balances), calls);
    RunKeepsInv(env, Fresh(balances), calls);
    match c.op
    case Create(_, _, _, _, _, _, _, _) => CreateDecided(env, s, c);
    case Contribute(_, _, _) => ContributeDecided(env, s, c);
    case Unlock(_, _) => UnlockDecided(env, s, c);
    case Claim(_, _, _) => ClaimDecided(env, s, c);
    case Refund(_, _) => RefundDecided(env, s, c);
  }

  /** Amounts are signed 128-bit numbers and ids unsigned 64-bit ones. */
  lemma Widths(word: nat)
    requires word == 0x1_0000_0000
    ensures 2 * (I128_MAX + 1) == word * word * word * word && U64_MAX + 1 == word * word
  {
  }

  // ----- what a claim and a refund have shown ------------------------------------------------------------

  /** The receiver signs in time for an open gift, with the right answer or all steps done. */
  predicate MayClaim(env: Env, s: State, c: Call, id: nat) {
    && c.op.Claim? && c.op.id == id && id in s.gifts
    && var g := s.gifts[id];
       && g.status.Open? && c.ctx.now < g.expiresAt
       && c.op.claimant == g.receiver && Signed(env, c, g.receiver)
       && Met(env, g, c.op.answer)
  }

  /** Somebody who paid in signs for an open gift after its expiry. */
  predicate MayRefund(env: Env, s: State, c: Call, id: nat) {
    && c.op.Refund? && c.op.id == id && id in s.gifts
    && var g := s.gifts[id];
       && g.status.Open? && c.ctx.now >= g.expiresAt
       && c.op.caller in g.contributions && Signed(env, c, c.op.caller)
  }

  ghost predicate Turns(env: Env, s: State, c: Call, id: nat, status: GiftStatus) {
    && id in s.gifts && s.gifts[id].status.Open?
    && id in Next(env, s, c).gifts && Next(env, s, c).gifts[id].status == status
  }

  lemma ClaimShows(env: Env, s: State, c: Call, id: nat)
    requires Inv(env, s) && id in s.gifts && Supply(s.balances, s.gifts[id].token) <= I128_MAX
    ensures Turns(env, s, c, id, Claimed) <==> MayClaim(env, s, c, id)
  {
    if MayClaim(env, s, c, id) {
      assert ClaimError(env, s, c.ctx, id, c.op.claimant, c.op.answer).None?;
      ClaimSucceeds(env, s, c.ctx, id, c.op.claimant, c.op.answer);
    }
    if Turns(env, s, c, id, Claimed) {
      assert c.op.Claim? && c.op.id == id && Try(env, s, c).Ok?;
    }
  }

  lemma RefundShows(env: Env, s: State, c: Call, id: nat)
    requires Inv(env, s) && id in s.gifts && Supply(s.balances, s.gifts[id].token) <= I128_MAX
    ensures Turns(env, s, c, id, Refunded) <==> MayRefund(env, s, c, id)
  {
    if MayRefund(env, s, c, id) {
      RefundSucceeds(env, s, c.ctx, id, c.op.caller);
    }
    if Turns(env, s, c, id, Refunded) {
      assert c.op.Refund? && c.op.id == id && Try(env, s, c).Ok?;
    }
  }

  /**
    In every run, of a token whose supply fits in i128: a call turns an open gift into a claimed one exactly if
    the receiver signed it in time and met the condition, and into a refunded one exactly if somebody who had
    paid in signed it after the expiry.
  */
  lemma ClosedRightly(env: Env, balances: Balances, calls: seq<Call>, c: Call, id: nat)
    requires InRange(balances)
    ensures var s := Run(env, Fresh(balances), calls);
      id in s.gifts && Supply(balances, s.gifts[id].token) <= I128_MAX ==>
        && (Turns(env, s, c, id, Claimed) <==> MayClaim(env, s, c, id))
        && (Turns(env, s, c, id, Refunded) <==> MayRefund(env, s, c, id))
  {
    var s := Run(env, Fresh(balances), calls);
    RunKeepsInv(env, Fresh(balances), calls);
    if id in s.gifts && Supply(balances, s.gifts[id].token) <= I128_MAX {
      RunKeepsSupply(env, Fresh(balances), calls, s.gifts[id].token);
      ClaimShows(env, s, c, id);
      RefundShows(env, s, c, id);
    }
  }

  // ----- whose money moves ----------------------------------------------------------------------------

  /** What a successful call moves: from a payer to the account, from the account to whom it owes, or outside. */
  ghost predicate Paid(env: Env, s: State, now: State, c: Call) {
    match c.op
    case Create(sender, _, token, amount, _, _, _, _) =>
      Moves(s.balances, now.balances, token, sender, env.self, amount)
    case Contribute(contributor, id, amount) =>
      id in s.gifts && Moves(s.balances, now.balances, s.gifts[id].token, contributor, env.self, amount)
    case Unlock(_, _) => now.balances == s.balances
    case Claim(id, claimant, _) =>
      id in s.gifts && Moves(s.balances, now.balances, s.gifts[id].token, env.self, claimant, s.gifts[id].totalAmount)
    case Refund(id, _) => id in s.gifts && PaysBack(env, s.balances, now.balances, s.gifts[id])
    case Outside(token, payer, payee, amount) => Moves(s.balances, now.balances, token, payer, payee, amount)
  }

  /** Each contributor gets back what they paid in, out of the account. */
  ghost predicate PaysBack(env: Env, b: Balances, now: Balances, g: GiftRecord) {
    forall token, holder :: Balance(now, token, holder)
      == Balance(b, token, holder)
         + (if token == g.token && holder in g.contributions then g.contributions[holder] else 0)
         - (if token == g.token && holder == env.self then SumOf(g.contributions) else 0)
  }

  lemma RefundPays(env: Env, s: State, c: Call)
    requires Inv(env, s) && c.op.Refund? && Try(env, s, c).Ok?
    ensures PaysBack(env, s.balances, Next(env, s, c).balances, s.gifts[c.op.id])
  {
    var g, now := s.gifts[c.op.id], Next(env, s, c).balances;
    PaidAllIsPaid(s.balances, g.token, env.self, g.contributions, g.totalAmount);
    forall token, holder
      ensures Balance(now, token, holder) == Balance(s.balances, token, holder)
        + (if token == g.token && holder in g.contributions then g.contributions[holder] else 0)
        - (if token == g.token && holder == env.self then SumOf(g.contributions) else 0)
    {
      assert PaidAt(s.balances, now, g.token, env.self, g.contributions, g.totalAmount, Account(token, holder));
    }
  }

  lemma StepPays(env: Env, s: State, c: Call)
    requires Inv(env, s) && Try(env, s, c).Ok?
    ensures Paid(env, s, Next(env, s, c), c)
  {
    match c.op
    case Create(sender, _, token, amount, _, _, _, _) => TransferMoves(s.balances, token, sender, env.self, amount);
    case Contribute(contributor, id, amount) =>
      TransferMoves(s.balances, s.gifts[id].token, contributor, env.self, amount);
    case Unlock(_, _) =>
    case Claim(id, claimant, _) =>
      TransferMoves(s.balances, s.gifts[id].token, env.self, claimant, s.gifts[id].totalAmount);
    case Refund(_, _) => RefundPays(env, s, c);
    case Outside(token, payer, payee, amount) => TransferMoves(s.balances, token, payer, payee, amount);
  }

  /** A claim or refund that goes through was allowed to, and pays. */
  lemma PayoutShows(env: Env, s: State, c: Call)
    requires Inv(env, s) && (c.op.Claim? || c.op.Refund?) && Try(env, s, c).Ok?
    ensures c.op.Claim? ==> MayClaim(env, s, c, c.op.id)
    ensures c.op.Refund? ==> MayRefund(env, s, c, c.op.id)
    ensures Paid(env, s, Next(env, s, c), c)
  {
    StepPays(env, s, c);
  }

  // ----- whose signature it takes -----------------------------------------------------------------------

  /** The holder spends in this call: in a creation or contribution they signed, or in a transfer of their own. */
  predicate Spends(c: Call, holder: Address) {
    match c.op
    case Create(sender, _, _, _, _, _, _, _) => sender == holder && holder in c.ctx.signers
    case Contribute(contributor, _, _) => contributor == holder && holder in c.ctx.signers
    case Outside(_, payer, _, _) => payer == holder
    case _ => false
  }

  lemma StepTakesSignature(env: Env, s: State, c: Call, token: Address, holder: Address)
    requires Inv(env, s) && holder != env.self && !Spends(c, holder)
    ensures Balance(Next(env, s, c).balances, token, holder) >= Balance(s.balances, token, holder)
  {
    if Try(env, s, c).Ok? {
      StepPays(env, s, c);
      if c.op.Claim? {
        OpenGiftIsCovered(env, s, c.op.id);
      }
    }
  }

  /** In every run: whoever signs no creation or contribution and makes no transfer loses nothing. */
  lemma {:induction false} NobodyElsePays(env: Env, s: State, calls: seq<Call>, token: Address, holder: Address)
    requires Inv(env, s) && holder != env.self && forall i :: 0 <= i < |calls| ==> !Spends(calls[i], holder)
    ensures Balance(Run(env, s, calls).balances, token, holder) >= Balance(s.balances, token, holder)
    decreases |calls|
  {
    if calls != [] {
      StepTakesSignature(env, s, calls[0], token, holder);
      StepKeepsInv(env, s, calls[0]);
      NobodyElsePays(env, Next(env, s, calls[0]), calls[1..], token, holder);
    }
  }

  // ----- where a record comes from -------------------------------------------------------------------------

  /** The call creates gift `id`. */
  ghost predicate Creates(env: Env, s: State, c: Call, id: nat) {
    c.op.Create? && Try(env, s, c).Ok? && id == s.counter + 1
  }

  /** The record has the terms of the creation. */
  ghost predicate HasTerms(g: GiftRecord, op: Op)
    requires op.Create?
  {
    && g.sender == op.sender && g.receiver == op.receiver && g.token == op.token && g.expiresAt == op.expiresAt
    && g.condition == op.condition && g.stepUnlocker == op.unlocker && g.messageHash == op.messageHash
  }

  lemma CreatedHasTerms(env: Env, s: State, c: Call, id: nat)
    requires Inv(env, s) && Creates(env, s, c, id)
    ensures id !in s.gifts && id in Next(env, s, c).gifts && HasTerms(Next(env, s, c).gifts[id], c.op)
    ensures Next(env, s, c).gifts[id].status.Open? && Signed(env, c, c.op.sender) && c.ctx.now < c.op.expiresAt
  {
  }

  lemma NewGiftIsCreated(env: Env, s: State, c: Call, id: nat)
    requires Inv(env, s) && id !in s.gifts && id in Next(env, s, c).gifts
    ensures Creates(env, s, c, id)
  {
  }

  lemma FirstOfRun(env: Env, s: State, calls: seq<Call>, i: nat)
    requires i < |calls| && calls != []
    ensures i > 0 ==> Run(env, s, calls[..i]) == Run(env, Next(env, s, calls[0]), calls[1..][..i - 1])
  {
    if i > 0 {
      assert calls[..i][1..] == calls[1..][..i - 1];
    }
  }

  /** Every gift was created by a call that its sender signed, with exactly the terms it has. */
  lemma {:induction false} RunOrigin(env: Env, s: State, calls: seq<Call>, id: nat) returns (i: nat)
    requires Inv(env, s) && id !in s.gifts && id in Run(env, s, calls).gifts
    ensures i < |calls| && var before := Run(env, s, calls[..i]);
      && Creates(env, before, calls[i], id) && Signed(env, calls[i], calls[i].op.sender)
      && HasTerms(Run(env, s, calls).gifts[id], calls[i].op)
    decreases |calls|
  {
    var s1 := Next(env, s, calls[0]);
    StepKeepsInv(env, s, calls[0]);
    if id in s1.gifts {
      i := 0;
      NewGiftIsCreated(env, s, calls[0], id);
      CreatedHasTerms(env, s, calls[0], id);
      RunEvolves(env, s1, calls[1..], id);
    } else {
      var j := RunOrigin(env, s1, calls[1..], id);
      i := j + 1;
      FirstOfRun(env, s, calls, i);
    }
  }

  /** What a call pays in to gift `id` for `who`. */
  function PaidIn(env: Env, s: State, c: Call, id: nat, who: Address): int {
    if Try(env, s, c).Err? then 0
    else
      match c.op
      case Create(sender, _, _, amount, _, _, _, _) => if id == s.counter + 1 && who == sender then amount else 0
      case Contribute(contributor, i, amount) => if id == i && who == contributor then amount else 0
      case _ => 0
  }

  function TotalPaidIn(env: Env, s: State, calls: seq<Call>, id: nat, who: Address): int
    decreases |calls|
  {
    if calls == [] then 0
    else PaidIn(env, s, calls[0], id, who) + TotalPaidIn(env, Next(env, s, calls[0]), calls[1..], id, who)
  }

  /** What the record says that `who` has paid in. */
  function Recorded(s: State, id: nat, who: Address): int {
    if id in s.gifts then Share(s.gifts[id].contributions, who) else 0
  }

  lemma StepRecords(env: Env, s: State, c: Call, id: nat, who: Address)
    requires Inv(env, s)
    ensures Recorded(Next(env, s, c), id, who) == Recorded(s, id, who) + PaidIn(env, s, c, id, who)
  {
  }

  /** Each contributor's sum in the record is exactly what their successful calls paid in. */
  lemma {:induction false} RunRecords(env: Env, s: State, calls: seq<Call>, id: nat, who: Address)
    requires Inv(env, s)
    ensures Recorded(Run(env, s, calls), id, who) == Recorded(s, id, who) + TotalPaidIn(env, s, calls, id, who)
    decreases |calls|
  {
    if calls != [] {
      StepRecords(env, s, calls[0], id, who);
      StepKeepsInv(env, s, calls[0]);
      RunRecords(env, Next(env, s, calls[0]), calls[1..], id, who);
    }
  }

  /** The call unlocks a step of gift `id`, and its unlocker signed it. */
  predicate Unlocks(env: Env, s: State, c: Call, id: nat) {
    && c.op.Unlock? && c.op.id == id && Try(env, s, c).Ok?
    && id in s.gifts && Signed(env, c, s.gifts[id].stepUnlocker)
  }

  /** How many calls of a run do that. */
  function Unlocked(env: Env, s: State, calls: seq<Call>, id: nat): nat
    decreases |calls|
  {
    if calls == [] then 0
    else (if Unlocks(env, s, calls[0], id) then 1 else 0) + Unlocked(env, Next(env, s, calls[0]), calls[1..], id)
  }

  function StepsOf(s: State, id: nat): nat {
    if id in s.gifts then s.gifts[id].stepsCompleted else 0
  }

  /** The recorded steps are exactly the successful calls that the unlocker signed. */
  lemma {:induction false} RunUnlocks(env: Env, s: State, calls: seq<Call>, id: nat)
    requires Inv(env, s)
    ensures StepsOf(Run(env, s, calls), id) == StepsOf(s, id) + Unlocked(env, s, calls, id)
    decreases |calls|
  {
    if calls != [] {
      StepUnlocks(env, s, calls[0], id);
      StepKeepsInv(env, s, calls[0]);
      RunUnlocks(env, Next(env, s, calls[0]), calls[1..], id);
    }
  }

  lemma StepUnlocks(env: Env, s: State, c: Call, id: nat)
    requires Inv(env, s)
    ensures StepsOf(Next(env, s, c), id) == StepsOf(s, id) + if Unlocks(env, s, c, id) then 1 else 0
  {
  }
}
