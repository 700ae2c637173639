/**
  The gift escrow contract (contracts/gift-escrow/src/lib.rs): many gifts, one contract
  account per token. The step functions give each entry point's outcome on the contract's
  storage and the token balances; the class is the contract, updating both in place.
*/
module GiftEscrow {
  import opened Wrappers
  import opened Sums
  import opened TokenLedger

  type Bytes = seq<int>

  const U64_MAX: nat := 0xFFFF_FFFF_FFFF_FFFF

  datatype GiftStatus = Open | Claimed | Refunded

  datatype ClaimCondition = NoCondition | AnswerHash(hash: Bytes) | StepGate(total: nat)

  datatype GiftRecord = GiftRecord(
    sender: Address, receiver: Address, token: Address, totalAmount: int, contributions: map<Address, int>,
    expiresAt: nat, status: GiftStatus, condition: ClaimCondition, stepsCompleted: nat,
    stepUnlocker: Address, messageHash: Bytes)

  datatype EscrowError =
    | GiftNotFound | GiftNotOpen | GiftExpired | GiftNotYetExpired | NotReceiver | WrongAnswer
    | StepsNotComplete | NotAuthorizedUnlocker | AllStepsAlreadyComplete | InvalidContributionAmount
    | InvalidExpiry | NotStepGated | NotSenderOrContributor
    | Unauthorized | ArithmeticTrap | TokenFailure(reason: TokenError)

  datatype Env = Env(self: Address, sha256: Bytes -> Bytes)

  /** Who signed the call, and the ledger's time. */
  datatype Context = Context(signers: set<Address>, now: nat)

  datatype State = State(counter: nat, gifts: map<nat, GiftRecord>, balances: Balances)

  predicate Authorized(env: Env, ctx: Context, who: Address) {
    who in ctx.signers && who != env.self
  }

  function OpenAndUnexpired(g: GiftRecord, now: nat): Option<EscrowError> {
    if !g.status.Open? then Some(GiftNotOpen)
    else if now >= g.expiresAt then Some(GiftExpired)
    else None
  }

  function CreateStep(env: Env, s: State, ctx: Context, sender: Address, receiver: Address, token: Address, amount: int,
                      expiresAt: nat, condition: ClaimCondition, unlocker: Address, messageHash: Bytes)
    : Result<State, EscrowError>
  {
    if !Authorized(env, ctx, sender) then Err(Unauthorized)
    else if amount <= 0 then Err(InvalidContributionAmount)
    else if expiresAt <= ctx.now then Err(InvalidExpiry)
    else
      match Transfer(s.balances, token, sender, env.self, amount)
      case Err(e) => Err(TokenFailure(e))
      case Ok(b) =>
        if s.counter + 1 > U64_MAX then Err(ArithmeticTrap)
        else
          var gift := GiftRecord(sender, receiver, token, amount, map[sender := amount], expiresAt, Open, condition, 0,
                                 unlocker, messageHash);
          Ok(State(s.counter + 1, s.gifts[s.counter + 1 := gift], b))
  }

  function ContributeStep(env: Env, s: State, ctx: Context, contributor: Address, id: nat, amount: int)
    : Result<State, EscrowError>
  {
    if !Authorized(env, ctx, contributor) then Err(Unauthorized)
    else if amount <= 0 then Err(InvalidContributionAmount)
    else if id !in s.gifts then Err(GiftNotFound)
    else
      var g := s.gifts[id];
      var closed := OpenAndUnexpired(g, ctx.now);
      if closed.Some? then Err(closed.value)
      else
        match Transfer(s.balances, g.token, contributor, env.self, amount)
        case Err(e) => Err(TokenFailure(e))
        case Ok(b) =>
          var mine := Share(g.contributions, contributor) + amount;
          if mine > I128_MAX || g.totalAmount + amount > I128_MAX then Err(ArithmeticTrap)
          else
            var g' := g.(contributions := g.contributions[contributor := mine], totalAmount := g.totalAmount + amount);
            Ok(State(s.counter, s.gifts[id := g'], b))
  }

  function UnlockStep(env: Env, s: State, ctx: Context, unlocker: Address, id: nat): Result<State, EscrowError> {
    if !Authorized(env, ctx, unlocker) then Err(Unauthorized)
    else if id !in s.gifts then Err(GiftNotFound)
    else
      var g := s.gifts[id];
      if unlocker != g.stepUnlocker then Err(NotAuthorizedUnlocker)
      else if !g.condition.StepGate? then Err(NotStepGated)
      else if g.stepsCompleted >= g.condition.total then Err(AllStepsAlreadyComplete)
      else Ok(s.(gifts := s.gifts[id := g.(stepsCompleted := g.stepsCompleted + 1)]))
  }

  function ConditionError(env: Env, g: GiftRecord, answer: Option<Bytes>): Option<EscrowError> {
    match g.condition
    case NoCondition => None
    case AnswerHash(expected) =>
      if answer.None? || env.sha256(answer.value) != expected then Some(WrongAnswer) else None
    case StepGate(total) =>
      if g.stepsCompleted != total then Some(StepsNotComplete) else None
  }

  /** What a claim is refused for before any money moves. */
  function ClaimError(env: Env, s: State, ctx: Context, id: nat, claimant: Address,
                      answer: Option<Bytes>): Option<EscrowError>
  {
    if !Authorized(env, ctx, claimant) then Some(Unauthorized)
    else if id !in s.gifts then Some(GiftNotFound)
    else
      var g := s.gifts[id];
      var closed := OpenAndUnexpired(g, ctx.now);
      if claimant != g.receiver then Some(NotReceiver)
      else if closed.Some? then closed
      else ConditionError(env, g, answer)
  }

  function ClaimStep(env: Env, s: State, ctx: Context, id: nat, claimant: Address, answer: Option<Bytes>)
    : Result<State, EscrowError>
  {
    var refused := ClaimError(env, s, ctx, id, claimant, answer);
    if refused.Some? then Err(refused.value)
    else
      var g := s.gifts[id];
      match Transfer(s.balances, g.token, env.self, claimant, g.totalAmount)
      case Err(e) => Err(TokenFailure(e))
      case Ok(b) => Ok(State(s.counter, s.gifts[id := g.(status := Claimed)], b))
  }

  /** What a refund is allowed to do before any money moves. */
  function RefundError(s: State, ctx: Context, id: nat, caller: Address): Option<EscrowError> {
    if id !in s.gifts then Some(GiftNotFound)
    else
      var g := s.gifts[id];
      if caller != g.sender && caller !in g.contributions then Some(NotSenderOrContributor)
      else if !g.status.Open? then Some(GiftNotOpen)
      else if ctx.now < g.expiresAt then Some(GiftNotYetExpired)
      else None
  }

  /** The balances of everybody who has a share, with the share added. */
  function Credited(b: Balances, token: Address, shares: map<Address, int>): Balances {
    map who | who in shares :: Account(token, who) := Balance(b, token, who) + shares[who]
  }

  /** The balances after every share has been paid out of `self`'s account. */
  function PaidAll(b: Balances, token: Address, self: Address, shares: map<Address, int>, total: int): Balances {
    b + Credited(b, token, shares) + map[Account(token, self) := Balance(b, token, self) - total]
  }

  function RefundStep(env: Env, s: State, ctx: Context, id: nat, caller: Address): Result<State, EscrowError> {
    if !Authorized(env, ctx, caller) then Err(Unauthorized)
    else
      var refused := RefundError(s, ctx, id, caller);
      if refused.Some? then Err(refused.value)
      else
        var g := s.gifts[id];
        if exists who :: who in g.contributions
                         && Balance(s.balances, g.token, who) + g.contributions[who] > I128_MAX then
          Err(TokenFailure(BalanceOverflow))
        else
          Ok(State(s.counter, s.gifts[id := g.(status := Refunded)],
                   PaidAll(s.balances, g.token, env.self, g.contributions, g.totalAmount)))
  }

  ghost predicate AllPositive(m: map<Address, int>) {
    forall k :: k in m ==> m[k] > 0
  }

  // ----- the invariant -------------------------------------------------------------------------

  ghost predicate GoodGift(env: Env, g: GiftRecord) {
    && AllPositive(g.contributions)
    && g.totalAmount == SumOf(g.contributions)
    && env.self !in g.contributions
    && g.sender in g.contributions
    && (if g.condition.StepGate? then g.stepsCompleted <= g.condition.total else g.stepsCompleted == 0)
  }

  /** What one gift holds back of a token. */
  function Held(gifts: map<nat, GiftRecord>, id: nat, token: Address): int {
    if id in gifts && gifts[id].status.Open? && gifts[id].token == token then gifts[id].totalAmount else 0
  }

  /** The open gifts of a token among the ids 1 .. n. */
  function Locked(gifts: map<nat, GiftRecord>, n: nat, token: Address): int {
    if n == 0 then 0 else Locked(gifts, n - 1, token) + Held(gifts, n, token)
  }

  ghost predicate GoodGifts(env: Env, s: State) {
    && (forall id :: id in s.gifts <==> 1 <= id <= s.counter)
    && (forall id :: id in s.gifts ==> GoodGift(env, s.gifts[id]))
  }

  ghost predicate Solvent(env: Env, s: State) {
    forall token :: Locked(s.gifts, s.counter, token) <= Balance(s.balances, token, env.self)
  }

  ghost predicate Inv(env: Env, s: State) {
    GoodGifts(env, s) && InRange(s.balances) && Solvent(env, s)
  }

  /** Rewriting one gift changes the locked amount by the change of what that gift holds back. */
  lemma {:induction false} LockedSet(gifts: map<nat, GiftRecord>, n: nat, id: nat, g: GiftRecord, token: Address)
    ensures Locked(gifts[id := g], n, token)
         == Locked(gifts, n, token)
            + if 1 <= id <= n then Held(gifts[id := g], id, token) - Held(gifts, id, token) else 0
  {
    if n != 0 {
      LockedSet(gifts, n - 1, id, g, token);
    }
  }

  lemma {:induction false} HeldAtMostLocked(env: Env, s: State, n: nat, id: nat, token: Address)
    requires GoodGifts(env, s)
    ensures 0 <= Locked(s.gifts, n, token)
    ensures 1 <= id <= n ==> Held(s.gifts, id, token) <= Locked(s.gifts, n, token)
  {
    if n != 0 {
      HeldAtMostLocked(env, s, n - 1, id, token);
      if n in s.gifts {
        SumNonNegative(s.gifts[n].contributions);
      }
      if 1 <= id < n && id in s.gifts {
        SumNonNegative(s.gifts[id].contributions);
      }
    }
  }

  /** The contract's account always covers an open gift in full. */
  lemma OpenGiftIsCovered(env: Env, s: State, id: nat)
    requires Inv(env, s) && id in s.gifts && s.gifts[id].status.Open?
    ensures 0 <= s.gifts[id].totalAmount <= Balance(s.balances, s.gifts[id].token, env.self)
  {
    HeldAtMostLocked(env, s, s.counter, id, s.gifts[id].token);
    SumNonNegative(s.gifts[id].contributions);
  }

  /** After a successful payment in, the additions of `contribute` cannot overflow: the account itself would have. */
  lemma ContributeNeverTraps(env: Env, s: State, ctx: Context, contributor: Address, id: nat, amount: int)
    requires Inv(env, s)
    ensures ContributeStep(env, s, ctx, contributor, id, amount) != Err(ArithmeticTrap)
  {
    if ContributeStep(env, s, ctx, contributor, id, amount) == Err(ArithmeticTrap) {
      var g := s.gifts[id];
      OpenGiftIsCovered(env, s, id);
      ShareAtMostSum(g.contributions, contributor);
      TransferEffect(s.balances, g.token, contributor, env.self, amount, g.token, env.self);
    }
  }

  /** A claim that passes its checks is never short. */
  lemma ClaimNeverShort(env: Env, s: State, ctx: Context, id: nat, claimant: Address, answer: Option<Bytes>)
    requires Inv(env, s)
    ensures var r := ClaimStep(env, s, ctx, id, claimant, answer);
      r != Err(TokenFailure(BalanceTooLow)) && r != Err(TokenFailure(NegativeAmount))
  {
    if id in s.gifts && s.gifts[id].status.Open? {
      OpenGiftIsCovered(env, s, id);
    }
  }

  // ----- the refund loop -----------------------------------------------------------------------

  /** One account of `paid`, which is `b` after everybody's share has been paid out of `self`'s account. */
  ghost predicate PaidAt(b: Balances, paid: Balances, token: Address, self: Address, shares: map<Address, int>,
                         total: int,
                         a: Account)
  {
    && (a in paid <==> a in b || (a.token == token && (a.holder in shares || a.holder == self)))
    && Balance(paid, a.token, a.holder)
       == Balance(b, a.token, a.holder) + (if a.token == token then Share(shares, a.holder) else 0)
                                        - (if a.token == token && a.holder == self then total else 0)
  }

  ghost predicate IsPaid(b: Balances, paid: Balances, token: Address, self: Address, shares: map<Address, int>,
                         total: int)
  {
    forall a: Account :: PaidAt(b, paid, token, self, shares, total, a)
  }

  lemma CreditedAt(b: Balances, token: Address, shares: map<Address, int>, a: Account)
    ensures a in Credited(b, token, shares) <==> a.token == token && a.holder in shares
    ensures a in Credited(b, token, shares) ==>
      Credited(b, token, shares)[a] == Balance(b, token, a.holder) + shares[a.holder]
  {
  }

  lemma PaidAllAt(b: Balances, token: Address, self: Address, shares: map<Address, int>, total: int, a: Account)
    requires self !in shares
    ensures PaidAt(b, PaidAll(b, token, self, shares, total), token, self, shares, total, a)
  {
    CreditedAt(b, token, shares, a);
    assert Account(a.token, a.holder) == a;
  }

  lemma PaidAllIsPaid(b: Balances, token: Address, self: Address, shares: map<Address, int>, total: int)
    requires self !in shares
    ensures IsPaid(b, PaidAll(b, token, self, shares, total), token, self, shares, total)
  {
    var paid := PaidAll(b, token, self, shares, total);
    forall a: Account
      ensures PaidAt(b, paid, token, self, shares, total, a)
    {
      PaidAllAt(b, token, self, shares, total, a);
    }
  }

  lemma PaidIsUnique(b: Balances, x: Balances, y: Balances, token: Address, self: Address, shares: map<Address, int>,
                     total: int)
    requires IsPaid(b, x, token, self, shares, total) && IsPaid(b, y, token, self, shares, total)
    ensures x == y
  {
    forall a: Account
      ensures (a in x <==> a in y) && (a in x ==> x[a] == y[a])
    {
      assert PaidAt(b, x, token, self, shares, total, a) && PaidAt(b, y, token, self, shares, total, a);
    }
  }

  /** Paying one more share on top of those already paid fails only if that share's owner would overflow. */
  lemma PayOneMore(b: Balances, now: Balances, token: Address, self: Address, paid: map<Address, int>, total: int,
                   who: Address, amount: int)
    requires IsPaid(b, now, token, self, paid, total)
    requires self !in paid && who != self && who !in paid && amount > 0 && total + amount <= Balance(b, token, self)
    ensures var t := Transfer(now, token, self, who, amount);
      if Balance(b, token, who) + amount > I128_MAX then t == Err(BalanceOverflow)
      else t.Ok? && IsPaid(b, t.value, token, self, paid[who := amount], total + amount)
  {
    assert PaidAt(b, now, token, self, paid, total, Account(token, self));
    assert PaidAt(b, now, token, self, paid, total, Account(token, who));
    var t := Transfer(now, token, self, who, amount);
    if t.Ok? {
      var now', paid', total' := t.value, paid[who := amount], total + amount;
      forall a: Account
        ensures PaidAt(b, now', token, self, paid', total', a)
      {
        assert PaidAt(b, now, token, self, paid, total, a);
        TransferEffect(now, token, self, who, amount, a.token, a.holder);
      }
    }
  }
}
