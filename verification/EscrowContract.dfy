/**
  The escrow contract as it runs: storage and token balances updated in place, transfers made
  one at a time, everything undone when a call panics. Each entry point has exactly the
  outcome of its step function in `GiftEscrow`.
*/
module EscrowContract {
  import opened Wrappers
  import opened Sums
  import opened TokenLedger
  import opened GiftEscrow
  import opened EscrowRuns
  import opened EscrowCalls

  /** A call that took `was` to `now` had the outcome `r`; on an error nothing has changed. */
  predicate Outcome(was: State, now: State, r: Result<State, EscrowError>, error: Option<EscrowError>) {
    match r
    case Ok(s) => error == None && now == s
    case Err(e) => error == Some(e) && now == was
  }

  lemma ContributeKeepsInv(env: Env, was: State, ctx: Context, contributor: Address, id: nat, amount: int, now: State)
    requires Inv(env, was) && ContributeStep(env, was, ctx, contributor, id, amount) == Ok(now)
    ensures Inv(env, now)
  {
    StepKeepsInv(env, was, Call(ctx, Contribute(contributor, id, amount)));
  }

  lemma RefundKeepsInv(env: Env, was: State, ctx: Context, id: nat, caller: Address, now: State)
    requires Inv(env, was) && RefundStep(env, was, ctx, id, caller) == Ok(now)
    ensures Inv(env, now)
  {
    StepKeepsInv(env, was, Call(ctx, Refund(id, caller)));
  }

  /** The account pays out `shares`; from balances `b` it has paid `paid` of them and is now at `now`. */
  ghost predicate PartPaid(b: Balances, now: Balances, token: Address, self: Address,
                           shares: map<Address, int>, paid: map<Address, int>) {
    && paid.Keys <= shares.Keys
    && (forall who :: who in paid ==> paid[who] == shares[who] && Balance(b, token, who) + shares[who] <= I128_MAX)
    && SumOf(paid) + SumOf(shares - paid.Keys) == SumOf(shares)
    && (if paid == map[] then now == b else IsPaid(b, now, token, self, paid, SumOf(paid)))
  }

  /** Moving one share from the unpaid to the paid ones keeps their sum, which the account covers. */
  lemma TakeShare(shares: map<Address, int>, paid: map<Address, int>, who: Address)
    requires AllPositive(shares) && who in shares && who !in paid && paid.Keys <= shares.Keys
    requires SumOf(paid) + SumOf(shares - paid.Keys) == SumOf(shares)
    ensures var paid' := paid[who := shares[who]];
      && SumOf(paid') == SumOf(paid) + shares[who]
      && SumOf(paid') + SumOf(shares - paid'.Keys) == SumOf(shares)
      && SumOf(paid') <= SumOf(shares)
  {
    var paid' := paid[who := shares[who]];
    SumSet(paid, who, shares[who]);
    SumAny(shares - paid.Keys, who);
    assert shares - paid.Keys - {who} == shares - paid'.Keys;
    SumNonNegative(shares - paid'.Keys);
  }

  lemma FirstPayment(b: Balances, token: Address, self: Address, who: Address, amount: int)
    requires who != self && 0 < amount <= Balance(b, token, self)
    ensures SumOf(map[who := amount]) == amount
    ensures var t := Transfer(b, token, self, who, amount);
      if Balance(b, token, who) + amount > I128_MAX then t == Err(BalanceOverflow)
      else t.Ok? && IsPaid(b, t.value, token, self, map[who := amount], amount)
  {
    var one := map[who := amount];
    SumAny(one, who);
    assert one - {who} == map[];
    var t := Transfer(b, token, self, who, amount);
    if t.Ok? {
      forall a: Account
        ensures PaidAt(b, t.value, token, self, one, amount, a)
      {
        TransferEffect(b, token, self, who, amount, a.token, a.holder);
      }
    }
  }

  lemma StillPartPaid(b: Balances, now: Balances, next: Balances, token: Address, self: Address,
                      shares: map<Address, int>, paid: map<Address, int>, who: Address)
    requires PartPaid(b, now, token, self, shares, paid) && AllPositive(shares) && who in shares && who !in paid
    requires Balance(b, token, who) + shares[who] <= I128_MAX
    requires var paid' := paid[who := shares[who]]; IsPaid(b, next, token, self, paid', SumOf(paid'))
    ensures PartPaid(b, next, token, self, shares, paid[who := shares[who]])
  {
    TakeShare(shares, paid, who);
    assert who in paid[who := shares[who]];
  }

  lemma TransferShare(b: Balances, now: Balances, token: Address, self: Address,
                      shares: map<Address, int>, paid: map<Address, int>, who: Address)
    returns (t: Result<Balances, TokenError>)
    requires AllPositive(shares) && self !in shares && SumOf(shares) <= Balance(b, token, self)
    requires PartPaid(b, now, token, self, shares, paid) && who in shares && who !in paid
    ensures t == Transfer(now, token, self, who, shares[who])
    ensures if Balance(b, token, who) + shares[who] > I128_MAX then t == Err(BalanceOverflow) else t.Ok?
    ensures var paid' := paid[who := shares[who]]; t.Ok? ==> IsPaid(b, t.value, token, self, paid', SumOf(paid'))
  {
    t := Transfer(now, token, self, who, shares[who]);
    TakeShare(shares, paid, who);
    if paid == map[] {
      FirstPayment(b, token, self, who, shares[who]);
    } else {
      PayOneMore(b, now, token, self, paid, SumOf(paid), who, shares[who]);
    }
  }

  /** The next payment fails only if its owner's balance would overflow. */
  lemma PayNext(b: Balances, now: Balances, token: Address, self: Address,
                shares: map<Address, int>, paid: map<Address, int>, who: Address)
    requires AllPositive(shares) && self !in shares && SumOf(shares) <= Balance(b, token, self)
    requires PartPaid(b, now, token, self, shares, paid) && who in shares && who !in paid
    ensures var t := Transfer(now, token, self, who, shares[who]);
      if Balance(b, token, who) + shares[who] > I128_MAX then t == Err(BalanceOverflow)
      else t.Ok? && PartPaid(b, t.value, token, self, shares, paid[who := shares[who]])
  {
    var t := TransferShare(b, now, token, self, shares, paid, who);
    if t.Ok? {
      StillPartPaid(b, now, t.value, token, self, shares, paid, who);
    }
  }

  lemma EverybodyPaid(b: Balances, now: Balances, token: Address, self: Address,
                      shares: map<Address, int>, paid: map<Address, int>)
    requires PartPaid(b, now, token, self, shares, paid) && paid.Keys == shares.Keys
    requires shares != map[] && self !in shares
    ensures now == PaidAll(b, token, self, shares, SumOf(shares))
  {
    assert paid == shares;
    PaidAllIsPaid(b, token, self, shares, SumOf(shares));
    PaidIsUnique(b, now, PaidAll(b, token, self, shares, SumOf(shares)), token, self, shares, SumOf(shares));
  }

  class Escrow {
    const env: Env
    const host: TokenHost
    var counter: nat
    var gifts: map<nat, GiftRecord>

    constructor (env: Env, host: TokenHost)
      requires InRange(host.balances)
      ensures this.env == env && this.host == host && Valid()
      ensures Abs() == Fresh(host.balances)
    {
      this.env, this.host, counter, gifts := env, host, 0, map[];
    }

    ghost function Abs(): State
      reads this, host
    {
      State(counter, gifts, host.balances)
    }

    /** The run invariant of `EscrowRuns` holds of the contract's storage between calls. */
    ghost predicate Valid()
      reads this, host
    {
      Inv(env, Abs())
    }

    /** `next_gift_id`: the incremented counter, or a trap at the end of u64. */
    method NextGiftId() returns (id: Option<nat>)
      modifies this
      ensures gifts == old(gifts)
      ensures old(counter) + 1 > U64_MAX ==> id == None && counter == old(counter)
      ensures old(counter) + 1 <= U64_MAX ==> id == Some(old(counter) + 1) && counter == old(counter) + 1
    {
      if counter + 1 > U64_MAX {
        return None;
      }
      counter := counter + 1;
      id := Some(counter);
    }

    method CreateGift(ctx: Context, sender: Address, receiver: Address, token: Address, amount: int, expiresAt: nat,
                      condition: ClaimCondition, unlocker: Address, messageHash: Bytes)
      returns (error: Option<EscrowError>, id: nat)
      requires Valid()
      modifies this, host
      ensures Valid()
      ensures Outcome(old(Abs()), Abs(),
                      CreateStep(env, old(Abs()), ctx, sender, receiver, token, amount, expiresAt, condition, unlocker,
                                 messageHash),
                      error)
      ensures error == None ==> id == counter
    {
      ghost var was := Abs();
      id := 0;
      if !Authorized(env, ctx, sender) {
        return Some(Unauthorized), 0;
      }
      if amount <= 0 {
        return Some(InvalidContributionAmount), 0;
      }
      if expiresAt <= ctx.now {
        return Some(InvalidExpiry), 0;
      }
      var before := host.balances;
      var moved := host.DoTransfer(token, sender, env.self, amount);
      if moved.Err? {
        return Some(TokenFailure(moved.error)), 0;
      }
      var contributions := map[sender := amount];
      var next := NextGiftId();
      if next.None? {
        host.balances := before;
        return Some(ArithmeticTrap), 0;
      }
      id := next.value;
      gifts := gifts[id := GiftRecord(sender, receiver, token, amount, contributions, expiresAt, Open, condition, 0,
                                      unlocker, messageHash)];
      StepKeepsInv(env, was, Call(ctx, Create(sender, receiver, token, amount, expiresAt, condition, unlocker,
                                              messageHash)));
      error := None;
    }

    method ContributeTo(ctx: Context, contributor: Address, id: nat, amount: int) returns (error: Option<EscrowError>)
      requires Valid()
      modifies this, host
      ensures Valid()
      ensures Outcome(old(Abs()), Abs(), ContributeStep(env, old(Abs()), ctx, contributor, id, amount), error)
    {
      ghost var was := Abs();
      if !Authorized(env, ctx, contributor) {
        return Some(Unauthorized);
      }
      if amount <= 0 {
        return Some(InvalidContributionAmount);
      }
      if id !in gifts {
        return Some(GiftNotFound);
      }
      var gift := gifts[id];
      var closed := OpenAndUnexpired(gift, ctx.now);
      if closed.Some? {
        return closed;
      }
      var before := host.balances;
      var moved := host.DoTransfer(gift.token, contributor, env.self, amount);
      if moved.Err? {
        return Some(TokenFailure(moved.error));
      }
      var existing := if contributor in gift.contributions then gift.contributions[contributor] else 0;
      if existing + amount > I128_MAX || gift.totalAmount + amount > I128_MAX {
        host.balances := before;
        return Some(ArithmeticTrap);
      }
      gift := gift.(contributions := gift.contributions[contributor := existing + amount]);
      gift := gift.(totalAmount := gift.totalAmount + amount);
      gifts := gifts[id := gift];
      ContributeKeepsInv(env, was, ctx, contributor, id, amount, Abs());
      error := None;
    }

    method UnlockNextStep(ctx: Context, unlocker: Address, id: nat) returns (error: Option<EscrowError>)
      requires Valid()
      modifies this
      ensures Valid()
      ensures Outcome(old(Abs()), Abs(), UnlockStep(env, old(Abs()), ctx, unlocker, id), error)
    {
      ghost var was := Abs();
      if !Authorized(env, ctx, unlocker) {
        return Some(Unauthorized);
      }
      if id !in gifts {
        return Some(GiftNotFound);
      }
      var gift := gifts[id];
      if unlocker != gift.stepUnlocker {
        return Some(NotAuthorizedUnlocker);
      }
      if !gift.condition.StepGate? {
        return Some(NotStepGated);
      }
      if gift.stepsCompleted >= gift.condition.total {
        return Some(AllStepsAlreadyComplete);
      }
      gifts := gifts[id := gift.(stepsCompleted := gift.stepsCompleted + 1)];
      StepKeepsInv(env, was, Call(ctx, Unlock(unlocker, id)));
      error := None;
    }

    method ClaimGift(ctx: Context, id: nat, claimant: Address,
                     answer: Option<Bytes>) returns (error: Option<EscrowError>)
      requires Valid()
      modifies this, host
      ensures Valid()
      ensures Outcome(old(Abs()), Abs(), ClaimStep(env, old(Abs()), ctx, id, claimant, answer), error)
      ensures error.Some? ==> !Broken(error.value)
      ensures error.None? ==>
        var c := Call(ctx, Claim(id, claimant, answer));
        MayClaim(env, old(Abs()), c, id) && Paid(env, old(Abs()), Abs(), c)
    {
      ghost var was := Abs();
      ClaimNeverShort(env, Abs(), ctx, id, claimant, answer);
      if !Authorized(env, ctx, claimant) {
        return Some(Unauthorized);
      }
      if id !in gifts {
        return Some(GiftNotFound);
      }
      var gift := gifts[id];
      if claimant != gift.receiver {
        return Some(NotReceiver);
      }
      var closed := OpenAndUnexpired(gift, ctx.now);
      if closed.Some? {
        return closed;
      }
      var unmet := ConditionError(env, gift, answer);
      if unmet.Some? {
        return unmet;
      }
      var before := gifts;
      gifts := gifts[id := gift.(status := Claimed)];
      var moved := host.DoTransfer(gift.token, env.self, claimant, gift.totalAmount);
      if moved.Err? {
        gifts := before;
        return Some(TokenFailure(moved.error));
      }
      StepKeepsInv(env, was, Call(ctx, Claim(id, claimant, answer)));
      PayoutShows(env, was, Call(ctx, Claim(id, claimant, answer)));
      error := None;
    }

    /** The payout loop of `refund`, in whatever order the map is iterated. */
    method PayShares(token: Address, shares: map<Address, int>) returns (error: Option<EscrowError>)
      requires shares != map[] && AllPositive(shares) && env.self !in shares
      requires SumOf(shares) <= Balance(host.balances, token, env.self)
      modifies host
      ensures error.None? <==>
        forall who :: who in shares ==> Balance(old(host.balances), token, who) + shares[who] <= I128_MAX
      ensures error.None? ==> host.balances == PaidAll(old(host.balances), token, env.self, shares, SumOf(shares))
      ensures error.Some? ==> error.value == TokenFailure(BalanceOverflow)
    {
      ghost var b := host.balances;
      ghost var paid: map<Address, int> := map[];
      var keys := shares.Keys;
      assert shares - paid.Keys == shares;
      while keys != {}
        invariant keys <= shares.Keys && paid.Keys == shares.Keys - keys
        invariant PartPaid(b, host.balances, token, env.self, shares, paid)
        decreases keys
      {
        var who :| who in keys;
        PayNext(b, host.balances, token, env.self, shares, paid, who);
        var moved := host.DoTransfer(token, env.self, who, shares[who]);
        if moved.Err? {
          return Some(TokenFailure(moved.error));
        }
        paid := paid[who := shares[who]];
        keys := keys - {who};
      }
      EverybodyPaid(b, host.balances, token, env.self, shares, paid);
      error := None;
    }

    method RefundGift(ctx: Context, id: nat, caller: Address) returns (error: Option<EscrowError>)
      requires Valid()
      modifies this, host
      ensures Valid()
      ensures Outcome(old(Abs()), Abs(), RefundStep(env, old(Abs()), ctx, id, caller), error)
      ensures error.Some? ==> !Broken(error.value)
      ensures error.None? ==>
        var c := Call(ctx, Refund(id, caller));
        MayRefund(env, old(Abs()), c, id) && Paid(env, old(Abs()), Abs(), c)
    {
      ghost var was := Abs();
      if !Authorized(env, ctx, caller) {
        return Some(Unauthorized);
      }
      if id !in gifts {
        return Some(GiftNotFound);
      }
      var gift := gifts[id];
      var isSender, isContributor := caller == gift.sender, caller in gift.contributions;
      if !isSender && !isContributor {
        return Some(NotSenderOrContributor);
      }
      if !gift.status.Open? {
        return Some(GiftNotOpen);
      }
      if ctx.now < gift.expiresAt {
        return Some(GiftNotYetExpired);
      }
      error := PayBack(id);
      if error == None {
        RefundKeepsInv(env, was, ctx, id, caller, Abs());
        PayoutShows(env, was, Call(ctx, Refund(id, caller)));
      }
    }

    /** The effects of `refund` after its checks: mark the gift, then pay every share, or undo both. */
    method PayBack(id: nat) returns (error: Option<EscrowError>)
      requires Valid() && id in gifts && gifts[id].status.Open?
      modifies this, host
      ensures var g := old(gifts[id]);
        && (error.None? <==> forall who :: who in g.contributions ==>
              Balance(old(host.balances), g.token, who) + g.contributions[who] <= I128_MAX)
        && (error.None? ==> Abs() == State(old(counter), old(gifts)[id := g.(status := Refunded)],
              PaidAll(old(host.balances), g.token, env.self, g.contributions, g.totalAmount)))
        && (error.Some? ==> error == Some(TokenFailure(BalanceOverflow)) && Abs() == old(Abs()))
    {
      OpenGiftIsCovered(env, Abs(), id);
      var before, beforeBalances, gift := gifts, host.balances, gifts[id];
      gifts := gifts[id := gift.(status := Refunded)];
      error := PayShares(gift.token, gift.contributions);
      if error.Some? {
        gifts := before;
        host.balances := beforeBalances;
      }
    }
  }
}
