/**
  The backend's cached copy of one gift (backend/src/services/reconciliationService.ts,
  refundService.ts, claimService.ts) next to the escrow contract it mirrors. Reconciliations
  read the chain and write the cache in two separate steps; chain calls, other
  reconciliations and refund sweeps happen in between.
*/
module GiftCache {
  import opened Wrappers
  import opened TokenLedger
  import G = GiftEscrow
  import C = EscrowCalls
  import E = EscrowRuns

  /** From activation on; drafts have no on-chain record. */
  datatype CachedStatus = Active | RefundPending | Claimed | Refunded

  datatype Doc = Doc(status: CachedStatus, amount: int, stepsCompleted: nat, steps: Option<nat>, expiresAt: nat)

  datatype Refusal = AlreadyClaimed | ClaimWindowExpired | StepsNotComplete

  function MapContractStatus(s: G.GiftStatus): CachedStatus {
    match s case Open => Active case Claimed => CachedStatus.Claimed case Refunded => CachedStatus.Refunded
  }

  /** What a reconciliation writes once it has read `g` from the chain. */
  function Overwritten(doc: Doc, g: G.GiftRecord): Doc {
    doc.(status := MapContractStatus(g.status), amount := g.totalAmount, stepsCompleted := g.stepsCompleted)
  }

  /** The sweep's guarded update. */
  function Marked(doc: Doc, now: nat): Doc {
    if doc.status.Active? && doc.expiresAt < now then doc.(status := RefundPending) else doc
  }

  /** `assertClaimable`, then the step check. */
  function ClaimRefusal(doc: Doc, now: nat): Option<Refusal> {
    match doc.status
    case Claimed => Some(AlreadyClaimed)
    case RefundPending => Some(ClaimWindowExpired)
    case Refunded => Some(ClaimWindowExpired)
    case Active =>
      if doc.expiresAt <= now then Some(ClaimWindowExpired)
      else if doc.steps.Some? && doc.stepsCompleted < doc.steps.value then Some(StepsNotComplete)
      else None
  }

  /** The stored document, updated in place. */
  class GiftDocument {
    var status: CachedStatus
    var amount: int
    var stepsCompleted: nat
    const steps: Option<nat>
    const expiresAt: nat

    /** The document as the create submission leaves it. */
    constructor (amount: int, steps: Option<nat>, expiresAt: nat)
      ensures Value() == Doc(Active, amount, 0, steps, expiresAt)
    {
      this.status, this.amount, this.stepsCompleted, this.steps, this.expiresAt := Active, amount, 0, steps, expiresAt;
    }

    function Value(): Doc
      reads this
    {
      Doc(status, amount, stepsCompleted, steps, expiresAt)
    }

    /**
      The write of `reconcileGift`. However the gift has moved on since the record was read, what the
      document now says of it is true, and a record that still stands is matched exactly.
    */
    method Overwrite(onChain: G.GiftRecord) returns (r: CachedStatus)
      modifies this
      ensures Value() == Overwritten(old(Value()), onChain) && r == status
      ensures old(Value()).steps == GateOf(onChain.condition) ==>
        forall now :: E.Evolves(onChain, now) ==> Truthful(Value(), now)
      ensures Matches(Value(), onChain)
    {
      forall now | old(Value()).steps == GateOf(onChain.condition) && E.Evolves(onChain, now)
        ensures Truthful(Overwritten(old(Value()), onChain), now)
      {
        OverwrittenIsTruthful(old(Value()), onChain, now);
      }
      r := MapContractStatus(onChain.status);
      amount, status, stepsCompleted := onChain.totalAmount, r, onChain.stepsCompleted;
    }

    /** `markRefundPending`: the guard is part of the update, so a gift cached as claimed is never marked. */
    method MarkRefundPending(now: nat) returns (modified: bool)
      modifies this
      ensures Value() == Marked(old(Value()), now)
      ensures modified <==> Value() != old(Value())
    {
      modified := status.Active? && expiresAt < now;
      if modified {
        status := RefundPending;
      }
    }
  }

  // ----- interleavings -----------------------------------------------------------------------------

  /** The contract's state, the cached document of gift `id`, and the records read but not yet written back. */
  datatype System = System(chain: G.State, doc: Doc, readings: map<nat, G.GiftRecord>)

  datatype Action =
    | OnChain(call: E.Call)
    | Read(w: nat)
    | Write(w: nat)
    | Sweep(now: nat)
    | Abandon(w: nat)

  function Step(env: G.Env, id: nat, s: System, a: Action): System {
    match a
    case OnChain(call) => s.(chain := E.Next(env, s.chain, call))
    case Read(w) => if id in s.chain.gifts then s.(readings := s.readings[w := s.chain.gifts[id]]) else s
    case Write(w) =>
      if w in s.readings then s.(doc := Overwritten(s.doc, s.readings[w]), readings := s.readings - {w}) else s
    case Sweep(now) => s.(doc := Marked(s.doc, now))
    case Abandon(w) => s.(readings := s.readings - {w})
  }

  function Run(env: G.Env, id: nat, s: System, actions: seq<Action>): System
    decreases |actions|
  {
    if actions == [] then s else Run(env, id, Step(env, id, s, actions[0]), actions[1..])
  }

  function GateOf(c: G.ClaimCondition): Option<nat> {
    if c.StepGate? then Some(c.total) else None
  }

  /** The document describes the gift: the gate is the contract's, and nothing is cached that is not so on chain. */
  ghost predicate Truthful(doc: Doc, g: G.GiftRecord) {
    && doc.steps == GateOf(g.condition)
    && (doc.status.Claimed? ==> g.status.Claimed?)
    && (doc.status.Refunded? ==> g.status.Refunded?)
    && doc.stepsCompleted <= g.stepsCompleted
  }

  /** The document shows the record as it is. */
  predicate Matches(doc: Doc, g: G.GiftRecord) {
    doc.status == MapContractStatus(g.status) && doc.amount == g.totalAmount && doc.stepsCompleted == g.stepsCompleted
  }

  /** A write from an older record of the same gift says nothing that is not true of the gift as it has become. */
  lemma OverwrittenIsTruthful(doc: Doc, read: G.GiftRecord, now: G.GiftRecord)
    requires doc.steps == GateOf(read.condition) && E.Evolves(read, now)
    ensures var written := Overwritten(doc, read);
      && Truthful(written, now) && Matches(written, read)
      && written.steps == doc.steps && written.expiresAt == doc.expiresAt
  {
  }

  ghost predicate Inv(env: G.Env, id: nat, s: System) {
    && G.Inv(env, s.chain) && id in s.chain.gifts
    && Truthful(s.doc, s.chain.gifts[id])
    && forall w :: w in s.readings ==> E.Evolves(s.readings[w], s.chain.gifts[id])
  }

  lemma EvolvesFurther(a: G.GiftRecord, b: G.GiftRecord, c: G.GiftRecord)
    requires E.Evolves(a, b) && E.Evolves(b, c)
    ensures E.Evolves(a, c)
  {
  }

  lemma ChainKeepsInv(env: G.Env, id: nat, s: System, call: E.Call)
    requires Inv(env, id, s)
    ensures Inv(env, id, s.(chain := E.Next(env, s.chain, call)))
  {
    E.StepKeepsInv(env, s.chain, call);
    E.StepEvolves(env, s.chain, call, id);
    var g, g' := s.chain.gifts[id], E.Next(env, s.chain, call).gifts[id];
    forall w | w in s.readings
      ensures E.Evolves(s.readings[w], g')
    {
      EvolvesFurther(s.readings[w], g, g');
    }
  }

  lemma StepKeepsInv(env: G.Env, id: nat, s: System, a: Action)
    requires Inv(env, id, s)
    ensures Inv(env, id, Step(env, id, s, a))
  {
    if a.OnChain? {
      ChainKeepsInv(env, id, s, a.call);
    }
  }

  lemma {:induction false} RunKeepsInv(env: G.Env, id: nat, s: System, actions: seq<Action>)
    requires Inv(env, id, s)
    ensures Inv(env, id, Run(env, id, s, actions))
    decreases |actions|
  {
    if actions != [] {
      StepKeepsInv(env, id, s, actions[0]);
      RunKeepsInv(env, id, Step(env, id, s, actions[0]), actions[1..]);
    }
  }

  /** A gift that some run of the contract created, and the document its create submission stored. */
  ghost predicate Activated(env: G.Env, balances: Balances, calls: seq<E.Call>, id: nat, s: System) {
    && InRange(balances) && s.chain == E.Run(env, E.Fresh(balances), calls) && id in s.chain.gifts
    && s.doc.status == Active && s.doc.stepsCompleted == 0 && s.doc.steps == GateOf(s.chain.gifts[id].condition)
    && s.readings == map[]
  }

  lemma ActivatedKeepsInv(env: G.Env, balances: Balances, calls: seq<E.Call>, id: nat, s: System, actions: seq<Action>)
    requires Activated(env, balances, calls, id, s)
    ensures Inv(env, id, Run(env, id, s, actions))
  {
    E.RunKeepsInv(env, E.Fresh(balances), calls);
    RunKeepsInv(env, id, s, actions);
  }

  /**
    In every interleaving after activation, a cached `claimed` or `refunded` is true on chain, and the
    cached step count is at most the chain's, which is at most the gate's total.
  */
  lemma CacheIsTruthful(env: G.Env, balances: Balances, calls: seq<E.Call>, id: nat, s: System, actions: seq<Action>)
    requires Activated(env, balances, calls, id, s)
    ensures var s' := Run(env, id, s, actions);
      && id in s'.chain.gifts
      && var g := s'.chain.gifts[id];
         Truthful(s'.doc, g) &&
         (g.condition.StepGate? ==> s'.doc.stepsCompleted <= g.stepsCompleted <= g.condition.total)
  {
    ActivatedKeepsInv(env, balances, calls, id, s, actions);
    assert G.GoodGift(env, Run(env, id, s, actions).chain.gifts[id]);
  }

  lemma {:induction false} RunAppend(env: G.Env, id: nat, s: System, a: seq<Action>, b: seq<Action>)
    ensures Run(env, id, s, a + b) == Run(env, id, Run(env, id, s, a), b)
    decreases |a|
  {
    if a == [] {
      assert a + b == b;
    } else {
      RunAppend(env, id, Step(env, id, s, a[0]), a[1..], b);
      assert (a + b)[0] == a[0] && (a + b)[1..] == a[1..] + b;
    }
  }

  /** The gift on chain only evolves, whatever is interleaved. */
  lemma {:induction false} RunEvolves(env: G.Env, id: nat, s: System, actions: seq<Action>)
    requires Inv(env, id, s)
    ensures var s' := Run(env, id, s, actions);
      id in s'.chain.gifts && E.Evolves(s.chain.gifts[id], s'.chain.gifts[id])
    decreases |actions|
  {
    if actions != [] {
      var s1 := Step(env, id, s, actions[0]);
      StepKeepsInv(env, id, s, actions[0]);
      StepEvolves(env, id, s, actions[0]);
      RunEvolves(env, id, s1, actions[1..]);
      EvolvesFurther(s.chain.gifts[id], s1.chain.gifts[id], Run(env, id, s1, actions[1..]).chain.gifts[id]);
    }
  }

  lemma StepEvolves(env: G.Env, id: nat, s: System, a: Action)
    requires Inv(env, id, s)
    ensures var s' := Step(env, id, s, a); id in s'.chain.gifts && E.Evolves(s.chain.gifts[id], s'.chain.gifts[id])
  {
    if a.OnChain? {
      E.StepEvolves(env, s.chain, a.call, id);
    }
  }

  /**
    A claim the backend lets through never fails on the contract for want of steps, however much later it is
    submitted: the cached check is an inequality, the contract's an equality, and the first implies the
    second at the check and ever after.
  */
  lemma StepCheckIsEnough(env: G.Env, balances: Balances, calls: seq<E.Call>, id: nat, s: System,
                          actions: seq<Action>, later: seq<Action>,
                          now: nat, ctx: G.Context, claimant: Address, answer: Option<G.Bytes>)
    requires Activated(env, balances, calls, id, s)
    requires ClaimRefusal(Run(env, id, s, actions).doc, now).None?
    ensures var chain := Run(env, id, s, actions + later).chain;
      G.ClaimStep(env, chain, ctx, id, claimant, answer) != Err(G.StepsNotComplete)
  {
    CacheIsTruthful(env, balances, calls, id, s, actions);
    CacheIsTruthful(env, balances, calls, id, s, actions + later);
    RunAppend(env, id, s, actions, later);
    ActivatedKeepsInv(env, balances, calls, id, s, actions);
    RunEvolves(env, id, Run(env, id, s, actions), later);
  }

  // ----- a cache that is up to date --------------------------------------------------------------

  /** What the cached status is when it is up to date. */
  predicate UpToDate(doc: Doc, g: G.GiftRecord) {
    && (doc.status == Active <==> g.status == G.Open)
    && (doc.status == CachedStatus.Claimed <==> g.status == G.GiftStatus.Claimed)
    && (doc.status == CachedStatus.Refunded <==> g.status == G.GiftStatus.Refunded)
    && doc.amount == g.totalAmount && doc.stepsCompleted == g.stepsCompleted
  }

  /** An undisturbed reconciliation brings the document up to date, whatever it said before. */
  lemma ReconciledIsUpToDate(env: G.Env, id: nat, s: System, w: nat)
    requires id in s.chain.gifts
    ensures var s' := Run(env, id, s, [Read(w), Write(w)]);
      s'.chain == s.chain && UpToDate(s'.doc, s.chain.gifts[id]) && s'.doc.expiresAt == s.doc.expiresAt
  {
    var s1 := Step(env, id, s, Read(w));
    assert [Read(w), Write(w)][1..] == [Write(w)] && [Write(w)][1..] == [];
    assert Run(env, id, s1, [Write(w)]) == Run(env, id, Step(env, id, s1, Write(w)), []);
  }

  /** With an up-to-date document, the backend lets through exactly the claims the contract would allow. */
  lemma ChecksAsOnChain(env: G.Env, id: nat, s: System, ctx: G.Context, answer: Option<G.Bytes>)
    requires Inv(env, id, s) && UpToDate(s.doc, s.chain.gifts[id]) && s.doc.expiresAt == s.chain.gifts[id].expiresAt
    requires var g := s.chain.gifts[id];
      && g.receiver in ctx.signers && g.receiver != env.self
      && (g.condition.AnswerHash? ==> answer.Some? && env.sha256(answer.value) == g.condition.hash)
    ensures ClaimRefusal(s.doc, ctx.now).None?
       <==> C.MayClaim(env, s.chain, E.Call(ctx, E.Claim(id, s.chain.gifts[id].receiver, answer)), id)
  {
    assert G.GoodGift(env, s.chain.gifts[id]);
  }

  /** What each refusal says is so. */
  lemma RefusalIsTrue(env: G.Env, id: nat, s: System, now: nat)
    requires Inv(env, id, s) && ClaimRefusal(s.doc, now).Some?
    ensures var g, why := s.chain.gifts[id], ClaimRefusal(s.doc, now).value;
      && (why == AlreadyClaimed ==> g.status == G.GiftStatus.Claimed)
      && (why == ClaimWindowExpired ==>
          s.doc.status == RefundPending || g.status == G.GiftStatus.Refunded || s.doc.expiresAt <= now)
      && (why == StepsNotComplete ==> g.condition.StepGate? && s.doc.stepsCompleted < g.condition.total)
  {
  }

  /** The checks that the backend makes on its own record, in order. */
  function RefusalChecks(doc: Doc, now: nat): seq<Check<Refusal>> {
    [Check(doc.status == CachedStatus.Claimed, AlreadyClaimed),
     Check(doc.status in {RefundPending, CachedStatus.Refunded} || doc.expiresAt <= now, ClaimWindowExpired),
     Check(doc.steps.Some? && doc.stepsCompleted < doc.steps.value, StepsNotComplete)]
  }

  function ClaimCheck(doc: Doc, now: nat): Result<(), Refusal> {
    var refused := ClaimRefusal(doc, now);
    if refused.Some? then Err(refused.value) else Ok(())
  }

  /** A claim is refused for the first fault of the record, and only then. */
  lemma RefusalDecided(doc: Doc, now: nat)
    ensures Decided(RefusalChecks(doc, now), ClaimCheck(doc, now))
  {
    var checks := RefusalChecks(doc, now);
    assert checks[0].fault == AlreadyClaimed && checks[1].fault == ClaimWindowExpired;
    assert checks[2].fault == StepsNotComplete;
  }

  /** A gift is marked for refund only when its sender could refund it, unless it has been closed already. */
  lemma MarkedIsRefundable(env: G.Env, id: nat, s: System, ctx: G.Context)
    requires Inv(env, id, s) && Marked(s.doc, ctx.now) != s.doc
    requires var g := s.chain.gifts[id];
      s.doc.expiresAt == g.expiresAt && g.status == G.Open && g.sender in ctx.signers && g.sender != env.self
    ensures Marked(s.doc, ctx.now).status == RefundPending
    ensures C.MayRefund(env, s.chain, E.Call(ctx, E.Refund(id, s.chain.gifts[id].sender)), id)
  {
    assert G.GoodGift(env, s.chain.gifts[id]);
  }

  /** And every gift that is cached active past its expiry is marked. */
  lemma ExpiredIsMarked(doc: Doc, now: nat)
    ensures Marked(doc, now) != doc <==> doc.status == Active && doc.expiresAt < now
  {
  }

  // ----- when the cached status stops moving ---------------------------------------------------------

  /** The gift is closed, the cache says so, and no reconciliation still carries an older record. */
  ghost predicate Caught(id: nat, s: System) {
    && id in s.chain.gifts && !s.chain.gifts[id].status.Open?
    && s.doc.status == MapContractStatus(s.chain.gifts[id].status)
    && forall w :: w in s.readings ==> s.readings[w].status == s.chain.gifts[id].status
  }

  lemma StepKeepsCaught(env: G.Env, id: nat, s: System, a: Action)
    requires Inv(env, id, s) && Caught(id, s)
    ensures Caught(id, Step(env, id, s, a)) && Step(env, id, s, a).doc.status == s.doc.status
  {
    if a.OnChain? {
      E.StepEvolves(env, s.chain, a.call, id);
    }
  }

  lemma {:induction false} CaughtForever(env: G.Env, id: nat, s: System, actions: seq<Action>)
    requires Inv(env, id, s) && Caught(id, s)
    ensures Run(env, id, s, actions).doc.status == s.doc.status
    decreases |actions|
  {
    if actions != [] {
      StepKeepsInv(env, id, s, actions[0]);
      StepKeepsCaught(env, id, s, actions[0]);
      CaughtForever(env, id, Step(env, id, s, actions[0]), actions[1..]);
    }
  }

  /**
    Once the cache shows a closed gift as closed, its status is final in every interleaving exactly when
    no reconciliation that read an older record is still to write it.
  */
  lemma FinalIff(env: G.Env, id: nat, s: System)
    requires Inv(env, id, s) && !s.chain.gifts[id].status.Open?
    requires s.doc.status == MapContractStatus(s.chain.gifts[id].status)
    ensures (forall actions :: Run(env, id, s, actions).doc.status == s.doc.status)
       <==> forall w :: w in s.readings ==> s.readings[w].status == s.chain.gifts[id].status
  {
    if forall w :: w in s.readings ==> s.readings[w].status == s.chain.gifts[id].status {
      forall actions
        ensures Run(env, id, s, actions).doc.status == s.doc.status
      {
        CaughtForever(env, id, s, actions);
      }
    }
    if w :| w in s.readings && s.readings[w].status != s.chain.gifts[id].status {
      StaleWriteMoves(env, id, s, w);
    }
  }

  lemma StaleWriteMoves(env: G.Env, id: nat, s: System, w: nat)
    requires w in s.readings && MapContractStatus(s.readings[w].status) != s.doc.status
    ensures Run(env, id, s, [Write(w)]).doc.status != s.doc.status
  {
    assert [Write(w)][1..] == [];
    assert Run(env, id, Step(env, id, s, Write(w)), []) == Step(env, id, s, Write(w));
  }
}
