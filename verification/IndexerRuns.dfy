/**
  Any number of syncs at once (backend/src/services/poolIndexerService.ts): boot, cron and
  requests all start them, and they may interleave at every read, page, upsert and cursor
  write, fail anywhere, and move the stored cursor backwards.
*/
module IndexerRuns {
  import opened Wrappers
  import opened PoolIndexer

  /** Where one sync has got to. */
  datatype Worker<F> =
    | Idle
    | Probing
    | Paging(start: nat, at: Option<nat>, collected: seq<Leaf<F>>)
    | Upserting(todo: seq<Leaf<F>>, latestLedger: nat)

  datatype System<F> = System(chain: Chain<F>, leaves: map<nat, Leaf<F>>, lastLedger: nat, workers: map<nat, Worker<F>>)

  datatype Action<F> =
    | Close(events: seq<Event<F>>)  // the chain closes a ledger
    | Begin(w: nat)                 // read the stored cursor
    | Probe(w: nat)                 // no cursor: ask for the latest ledger
    | Fetch(w: nat)                 // one page
    | Upsert(w: nat)                // one document
    | Finish(w: nat)                // write the cursor
    | Fail(w: nat)

  function WorkerAt<F>(s: System<F>, w: nat): Worker<F> {
    if w in s.workers then s.workers[w] else Idle
  }

  /** The next ledger's events: theirs is the next ledger number, and their deposits continue the numbering. */
  ghost predicate Follows<F>(c: Chain<F>, events: seq<Event<F>>) {
    && (forall i :: 0 <= i < |events| ==> LedgerOf(events[i]) == c.latest + 1)
    && (forall i :: 0 <= i < |DepositsIn(events)| ==> DepositsIn(events)[i].leafIndex == |DepositsIn(c.log)| + i)
  }

  function Closed<F>(c: Chain<F>, events: seq<Event<F>>): Chain<F> {
    Chain(c.log + events, c.latest + 1)
  }

  function Position<F>(c: Chain<F>, worker: Worker<F>): (n: nat)
    requires worker.Paging?
  {
    if worker.at.Some? then worker.at.value else Before(c.log, worker.start)
  }

  /** A page was read: stop after a short one, remember the cursor after a full one. */
  function Fetched<F>(c: Chain<F>, worker: Worker<F>): Worker<F>
    requires worker.Paging? && Position(c, worker) <= |c.log|
  {
    var pos := Position(c, worker);
    var page := Page(c.log, pos);
    var collected := worker.collected + DepositsIn(page);
    if |page| < PAGE_LIMIT then Upserting(SortByIndex(collected), c.latest)
    else Paging(worker.start, Some(pos + |page|), collected)
  }

  /** One step; an action that is not possible now changes nothing. */
  ghost function Step<F>(lookback: nat, s: System<F>, a: Action<F>): System<F> {
    match a
    case Close(events) => if Follows(s.chain, events) then s.(chain := Closed(s.chain, events)) else s
    case Begin(w) =>
      if !WorkerAt(s, w).Idle? then s
      else s.(workers := s.workers[w := if s.lastLedger != 0 then Paging(s.lastLedger, None, []) else Probing])
    case Probe(w) =>
      if !WorkerAt(s, w).Probing? then s
      else s.(workers := s.workers[w := Paging(FirstStart(s.chain.latest, lookback), None, [])])
    case Fetch(w) =>
      var worker := WorkerAt(s, w);
      if !worker.Paging? || Position(s.chain, worker) > |s.chain.log| then s
      else s.(workers := s.workers[w := Fetched(s.chain, worker)])
    case Upsert(w) =>
      var worker := WorkerAt(s, w);
      if !worker.Upserting? || worker.todo == [] then s
      else
        var rest := worker.(todo := worker.todo[1..]);
        s.(leaves := Upserted(s.leaves, worker.todo[0]), workers := s.workers[w := rest])
    case Finish(w) =>
      var worker := WorkerAt(s, w);
      if !worker.Upserting? || worker.todo != [] then s
      else s.(lastLedger := worker.latestLedger, workers := s.workers[w := Idle])
    case Fail(w) => s.(workers := s.workers[w := Idle])
  }

  ghost function Run<F>(lookback: nat, s: System<F>, actions: seq<Action<F>>): System<F>
    decreases |actions|
  {
    if actions == [] then s else Run(lookback, Step(lookback, s, actions[0]), actions[1..])
  }

  /** Before the pool existed. */
  function Genesis<F>(): System<F> {
    System(Chain([], 0), map[], 0, map[])
  }

  /** There are no deposits, or the look-back reaches the first one. */
  predicate LooksBack<F>(lookback: nat, c: Chain<F>) {
    DepositsIn(c.log) == [] || c.latest - lookback <= DepositsIn(c.log)[0].ledger
  }

  /** This action, if it is a first scan, looks back at least to the first deposit. */
  ghost predicate ReachesBack<F>(lookback: nat, s: System<F>, a: Action<F>) {
    a.Probe? && WorkerAt(s, a.w).Probing? ==> LooksBack(lookback, s.chain)
  }

  ghost predicate FirstScansReach<F>(lookback: nat, s: System<F>, actions: seq<Action<F>>)
    decreases |actions|
  {
    actions != [] ==>
      && ReachesBack(lookback, s, actions[0])
      && FirstScansReach(lookback, Step(lookback, s, actions[0]), actions[1..])
  }

  // ----- the invariant -----------------------------------------------------------------------------

  ghost predicate AllIndexed<F>(leaves: map<nat, Leaf<F>>, n: int) {
    forall i :: 0 <= i < n ==> i in leaves
  }

  /** `batch` is a stretch of the deposits that ends at `end`, and everything before it is indexed. */
  ghost predicate Continues<F>(leaves: map<nat, Leaf<F>>, deposits: seq<Leaf<F>>, batch: seq<Leaf<F>>, end: nat) {
    && |batch| <= end <= |deposits| && batch == deposits[end - |batch|..end]
    && AllIndexed(leaves, end - |batch|)
  }

  ghost predicate GoodWorker<F>(c: Chain<F>, leaves: map<nat, Leaf<F>>, worker: Worker<F>) {
    match worker
    case Idle => true
    case Probing => true
    case Paging(start, at, collected) =>
      var pos := Position(c, worker);
      && start <= c.latest + 1 && pos <= |c.log|
      && Continues(leaves, DepositsIn(c.log), collected, |DepositsIn(c.log[..pos])|)
    case Upserting(todo, latestLedger) =>
      latestLedger <= c.latest && Continues(leaves, DepositsIn(c.log), todo, DepositsBefore(c.log, latestLedger + 1))
  }

  ghost predicate GoodWorkers<F>(c: Chain<F>, leaves: map<nat, Leaf<F>>, workers: map<nat, Worker<F>>) {
    forall w :: w in workers ==> GoodWorker(c, leaves, workers[w])
  }

  /** The documents are an exact prefix that reaches at least to the stored cursor. */
  ghost predicate GoodStore<F>(c: Chain<F>, leaves: map<nat, Leaf<F>>, lastLedger: nat) {
    && IndexesPrefix(leaves, DepositsIn(c.log))
    && lastLedger <= c.latest && AllIndexed(leaves, DepositsBefore(c.log, lastLedger + 1))
  }

  ghost predicate Inv<F>(s: System<F>) {
    && WellLogged(s.chain)
    && GoodStore(s.chain, s.leaves, s.lastLedger)
    && GoodWorkers(s.chain, s.leaves, s.workers)
  }

  // ----- the chain grows ---------------------------------------------------------------------------

  lemma {:induction false} BeforeAppend<F>(log: seq<Event<F>>, events: seq<Event<F>>, ledger: nat)
    requires forall i :: 0 <= i < |events| ==> LedgerOf(events[i]) >= ledger
    ensures Before(log + events, ledger) == Before(log, ledger)
  {
    if events == [] {
      assert log + events == log;
    } else {
      assert (log + events)[..|log + events| - 1] == log + events[..|events| - 1];
      BeforeAppend(log, events[..|events| - 1], ledger);
    }
  }

  lemma ClosedIsWellLogged<F>(c: Chain<F>, events: seq<Event<F>>)
    requires WellLogged(c) && Follows(c, events)
    ensures WellLogged(Closed(c, events)) && DepositsIn(c.log) <= DepositsIn(Closed(c, events).log)
  {
    DepositsAppend(c.log, events);
  }

  /** What was before a ledger that had closed, or the next one, does not change. */
  lemma ClosedKeepsBefore<F>(c: Chain<F>, events: seq<Event<F>>, ledger: nat)
    requires WellLogged(c) && Follows(c, events) && ledger <= c.latest + 1
    ensures Before(c.log + events, ledger) == Before(c.log, ledger)
    ensures DepositsBefore(c.log + events, ledger) == DepositsBefore(c.log, ledger)
  {
    BeforeAppend(c.log, events, ledger);
    var n := Before(c.log, ledger);
    assert (c.log + events)[..n] == c.log[..n];
  }

  lemma ContinuesAsDepositsGrow<F>(leaves: map<nat, Leaf<F>>, deposits: seq<Leaf<F>>, more: seq<Leaf<F>>,
                                   batch: seq<Leaf<F>>,
                                   end: nat)
    requires deposits <= more && Continues(leaves, deposits, batch, end)
    ensures Continues(leaves, more, batch, end)
  {
  }

  lemma IndexesAsDepositsGrow<F>(leaves: map<nat, Leaf<F>>, deposits: seq<Leaf<F>>, more: seq<Leaf<F>>)
    requires deposits <= more && IndexesPrefix(leaves, deposits)
    ensures IndexesPrefix(leaves, more)
  {
  }

  lemma PositionStays<F>(c: Chain<F>, events: seq<Event<F>>, worker: Worker<F>)
    requires WellLogged(c) && Follows(c, events) && worker.Paging? && worker.start <= c.latest + 1
    requires Position(c, worker) <= |c.log|
    ensures var pos := Position(c, worker);
      Position(Closed(c, events), worker) == pos && (c.log + events)[..pos] == c.log[..pos]
  {
    ClosedKeepsBefore(c, events, worker.start);
  }

  lemma ClosedKeepsPaging<F>(c: Chain<F>, events: seq<Event<F>>, leaves: map<nat, Leaf<F>>, worker: Worker<F>)
    requires WellLogged(c) && Follows(c, events) && worker.Paging? && GoodWorker(c, leaves, worker)
    ensures GoodWorker(Closed(c, events), leaves, worker)
  {
    PositionStays(c, events, worker);
    DepositsAppend(c.log, events);
    ContinuesAsDepositsGrow(leaves, DepositsIn(c.log), DepositsIn(c.log + events), worker.collected,
                            |DepositsIn(c.log[..Position(c, worker)])|);
  }

  lemma ClosedKeepsUpserting<F>(c: Chain<F>, events: seq<Event<F>>, leaves: map<nat, Leaf<F>>, worker: Worker<F>)
    requires WellLogged(c) && Follows(c, events) && worker.Upserting? && GoodWorker(c, leaves, worker)
    ensures GoodWorker(Closed(c, events), leaves, worker)
  {
    ClosedKeepsBefore(c, events, worker.latestLedger + 1);
    DepositsAppend(c.log, events);
    ContinuesAsDepositsGrow(leaves, DepositsIn(c.log), DepositsIn(c.log + events), worker.todo,
                            DepositsBefore(c.log, worker.latestLedger + 1));
  }

  lemma ClosedKeepsWorker<F>(c: Chain<F>, events: seq<Event<F>>, leaves: map<nat, Leaf<F>>, worker: Worker<F>)
    requires WellLogged(c) && Follows(c, events) && GoodWorker(c, leaves, worker)
    ensures GoodWorker(Closed(c, events), leaves, worker)
  {
    match worker
    case Paging(_, _, _) => ClosedKeepsPaging(c, events, leaves, worker);
    case Upserting(_, _) => ClosedKeepsUpserting(c, events, leaves, worker);
    case _ =>
  }

  lemma ClosedKeepsWorkers<F>(c: Chain<F>, events: seq<Event<F>>, leaves: map<nat, Leaf<F>>,
                              workers: map<nat, Worker<F>>)
    requires WellLogged(c) && Follows(c, events) && GoodWorkers(c, leaves, workers)
    ensures GoodWorkers(Closed(c, events), leaves, workers)
  {
    forall w | w in workers
      ensures GoodWorker(Closed(c, events), leaves, workers[w])
    {
      ClosedKeepsWorker(c, events, leaves, workers[w]);
    }
  }

  lemma ClosedKeepsStore<F>(c: Chain<F>, events: seq<Event<F>>, leaves: map<nat, Leaf<F>>, lastLedger: nat)
    requires WellLogged(c) && Follows(c, events) && GoodStore(c, leaves, lastLedger)
    ensures GoodStore(Closed(c, events), leaves, lastLedger)
  {
    ClosedKeepsBefore(c, events, lastLedger + 1);
    DepositsAppend(c.log, events);
    IndexesAsDepositsGrow(leaves, DepositsIn(c.log), DepositsIn(c.log + events));
  }

  lemma CloseKeepsInv<F>(s: System<F>, events: seq<Event<F>>)
    requires Inv(s) && Follows(s.chain, events)
    ensures Inv(s.(chain := Closed(s.chain, events)))
  {
    ClosedIsWellLogged(s.chain, events);
    ClosedKeepsStore(s.chain, events, s.leaves, s.lastLedger);
    ClosedKeepsWorkers(s.chain, events, s.leaves, s.workers);
  }

  // ----- the syncs move -----------------------------------------------------------------------------

  lemma {:induction false} BeforeOrdered<F>(log: seq<Event<F>>, lo: nat, hi: nat)
    requires lo <= hi
    ensures Before(log, lo) <= Before(log, hi)
  {
    if log != [] && LedgerOf(log[|log| - 1]) >= hi {
      BeforeOrdered(log[..|log| - 1], lo, hi);
    }
  }

  lemma BeforeMonotone<F>(c: Chain<F>, lo: nat, hi: nat)
    requires lo <= hi
    ensures DepositsBefore(c.log, lo) <= DepositsBefore(c.log, hi)
  {
    BeforeOrdered(c.log, lo, hi);
    DepositsSlice(c.log, Before(c.log, lo), Before(c.log, hi));
  }

  /** A sync that starts where everything earlier is indexed. */
  lemma StartsGood<F>(s: System<F>, start: nat)
    requires Inv(s) && start <= s.chain.latest + 1 && AllIndexed(s.leaves, DepositsBefore(s.chain.log, start))
    ensures GoodWorker(s.chain, s.leaves, Paging(start, None, []))
  {
  }

  /** Everything that has happened happened by the latest ledger. */
  lemma LatestCoversAll<F>(c: Chain<F>)
    requires WellLogged(c)
    ensures DepositsBefore(c.log, c.latest + 1) == |DepositsIn(c.log)|
  {
    BeforeSplits(c.log, c.latest + 1);
    assert Before(c.log, c.latest + 1) == |c.log|;
    assert c.log[..|c.log|] == c.log;
  }

  /** Two neighbouring stretches make one. */
  lemma ContinuesFurther<F>(leaves: map<nat, Leaf<F>>, deposits: seq<Leaf<F>>, batch: seq<Leaf<F>>, end: nat, end': nat)
    requires Continues(leaves, deposits, batch, end) && end <= end' <= |deposits|
    ensures Continues(leaves, deposits, batch + deposits[end..end'], end')
  {
  }

  lemma PageContinues<F>(c: Chain<F>, leaves: map<nat, Leaf<F>>, collected: seq<Leaf<F>>, pos: nat)
    requires pos <= |c.log| && Continues(leaves, DepositsIn(c.log), collected, |DepositsIn(c.log[..pos])|)
    ensures var page := Page(c.log, pos);
      && pos + |page| <= |c.log| && (|page| < PAGE_LIMIT ==> pos + |page| == |c.log|)
      && Continues(leaves, DepositsIn(c.log), collected + DepositsIn(page), |DepositsIn(c.log[..pos + |page|])|)
  {
    var next := pos + |Page(c.log, pos)|;
    assert Page(c.log, pos) == c.log[pos..next];
    DepositsSlice(c.log, pos, next);
    ContinuesFurther(leaves, DepositsIn(c.log), collected, |DepositsIn(c.log[..pos])|, |DepositsIn(c.log[..next])|);
  }

  /** After the last page everything up to the latest ledger has been collected, in leaf order. */
  lemma LastPage<F>(c: Chain<F>, leaves: map<nat, Leaf<F>>, collected: seq<Leaf<F>>)
    requires WellLogged(c) && Continues(leaves, DepositsIn(c.log), collected, |DepositsIn(c.log)|)
    ensures GoodWorker(c, leaves, Upserting(SortByIndex(collected), c.latest))
  {
    var n := |DepositsIn(c.log)|;
    LatestCoversAll(c);
    SliceSorted(c, n - |collected|, n);
  }

  lemma FetchKeepsWorker<F>(c: Chain<F>, leaves: map<nat, Leaf<F>>, worker: Worker<F>)
    requires WellLogged(c) && worker.Paging? && GoodWorker(c, leaves, worker)
    ensures GoodWorker(c, leaves, Fetched(c, worker))
  {
    var pos := Position(c, worker);
    var page := Page(c.log, pos);
    PageContinues(c, leaves, worker.collected, pos);
    if |page| < PAGE_LIMIT {
      assert c.log[..|c.log|] == c.log;
      LastPage(c, leaves, worker.collected + DepositsIn(page));
    }
  }

  /** The next document of a sync extends the indexed prefix, or is there already. */
  lemma UpsertExtends<F>(leaves: map<nat, Leaf<F>>, deposits: seq<Leaf<F>>, todo: seq<Leaf<F>>, end: nat)
    requires forall i :: 0 <= i < |deposits| ==> deposits[i].leafIndex == i
    requires IndexesPrefix(leaves, deposits) && todo != [] && Continues(leaves, deposits, todo, end)
    ensures var leaves' := Upserted(leaves, todo[0]);
      IndexesPrefix(leaves', deposits) && leaves.Keys <= leaves'.Keys && Continues(leaves', deposits, todo[1..], end)
  {
    assert todo[0] == deposits[end - |todo|];
  }

  lemma MoreIndexedKeepsWorker<F>(c: Chain<F>, leaves: map<nat, Leaf<F>>, leaves': map<nat, Leaf<F>>, worker: Worker<F>)
    requires GoodWorker(c, leaves, worker) && leaves.Keys <= leaves'.Keys
    ensures GoodWorker(c, leaves', worker)
  {
  }

  /** More documents disturb nobody. */
  lemma MoreIndexedKeepsInv<F>(s: System<F>, leaves: map<nat, Leaf<F>>)
    requires Inv(s) && IndexesPrefix(leaves, DepositsIn(s.chain.log)) && s.leaves.Keys <= leaves.Keys
    ensures Inv(s.(leaves := leaves))
  {
    forall w | w in s.workers
      ensures GoodWorker(s.chain, leaves, s.workers[w])
    {
      MoreIndexedKeepsWorker(s.chain, s.leaves, leaves, s.workers[w]);
    }
  }

  lemma UpsertKeepsInv<F>(s: System<F>, w: nat, worker: Worker<F>)
    requires Inv(s) && WorkerAt(s, w) == worker && worker.Upserting? && worker.todo != []
    ensures var rest := worker.(todo := worker.todo[1..]);
      Inv(s.(leaves := Upserted(s.leaves, worker.todo[0]), workers := s.workers[w := rest]))
  {
    var leaves := Upserted(s.leaves, worker.todo[0]);
    UpsertExtends(s.leaves, DepositsIn(s.chain.log), worker.todo, DepositsBefore(s.chain.log, worker.latestLedger + 1));
    MoreIndexedKeepsInv(s, leaves);
    SetWorkerKeepsInv(s.(leaves := leaves), w, worker.(todo := worker.todo[1..]));
  }

  /** Setting one good worker, and nothing else, keeps the invariant. */
  lemma SetWorkerKeepsInv<F>(s: System<F>, w: nat, worker: Worker<F>)
    requires Inv(s) && GoodWorker(s.chain, s.leaves, worker)
    ensures Inv(s.(workers := s.workers[w := worker]))
  {
  }

  lemma BeginKeepsInv<F>(lookback: nat, s: System<F>, w: nat)
    requires Inv(s)
    ensures Inv(Step(lookback, s, Begin(w)))
  {
    BeforeMonotone(s.chain, s.lastLedger, s.lastLedger + 1);
    StartsGood(s, s.lastLedger);
    SetWorkerKeepsInv(s, w, if s.lastLedger != 0 then Paging(s.lastLedger, None, []) else Probing);
  }

  lemma ProbeKeepsInv<F>(lookback: nat, s: System<F>, w: nat)
    requires Inv(s) && ReachesBack(lookback, s, Probe(w))
    ensures Inv(Step(lookback, s, Probe(w)))
  {
    if WorkerAt(s, w).Probing? {
      FirstScanCompleteIff(s.chain, lookback);
      StartsGood(s, FirstStart(s.chain.latest, lookback));
      SetWorkerKeepsInv(s, w, Paging(FirstStart(s.chain.latest, lookback), None, []));
    }
  }

  lemma FetchKeepsInv<F>(lookback: nat, s: System<F>, w: nat)
    requires Inv(s)
    ensures Inv(Step(lookback, s, Fetch(w)))
  {
    if WorkerAt(s, w).Paging? {
      FetchKeepsWorker(s.chain, s.leaves, WorkerAt(s, w));
      SetWorkerKeepsInv(s, w, Fetched(s.chain, WorkerAt(s, w)));
    }
  }

  lemma FinishKeepsInv<F>(lookback: nat, s: System<F>, w: nat)
    requires Inv(s)
    ensures Inv(Step(lookback, s, Finish(w)))
  {
    if WorkerAt(s, w).Upserting? && WorkerAt(s, w).todo == [] { SetWorkerKeepsInv(s, w, Idle); }
  }

  lemma StepKeepsInv<F>(lookback: nat, s: System<F>, a: Action<F>)
    requires Inv(s) && ReachesBack(lookback, s, a)
    ensures Inv(Step(lookback, s, a))
  {
    match a
    case Close(events) => if Follows(s.chain, events) { CloseKeepsInv(s, events); }
    case Begin(w) => BeginKeepsInv(lookback, s, w);
    case Probe(w) => ProbeKeepsInv(lookback, s, w);
    case Fetch(w) => FetchKeepsInv(lookback, s, w);
    case Upsert(w) =>
      if WorkerAt(s, w).Upserting? && WorkerAt(s, w).todo != [] { UpsertKeepsInv(s, w, WorkerAt(s, w)); }
    case Finish(w) => FinishKeepsInv(lookback, s, w);
    case Fail(w) => SetWorkerKeepsInv(s, w, Idle);
  }

  lemma {:induction false} RunKeepsInv<F>(lookback: nat, s: System<F>, actions: seq<Action<F>>)
    requires Inv(s) && FirstScansReach(lookback, s, actions)
    ensures Inv(Run(lookback, s, actions))
    decreases |actions|
  {
    if actions != [] {
      StepKeepsInv(lookback, s, actions[0]);
      RunKeepsInv(lookback, Step(lookback, s, actions[0]), actions[1..]);
    }
  }

  /**
    The indexing theorem. In every interleaving, if first scans reach back to the first deposit, the
    indexed leaves are at all times the first so many deposits, each once and with its true commitment,
    and they include every deposit up to the stored cursor.
  */
  lemma IndexIsComplete<F>(lookback: nat, actions: seq<Action<F>>)
    requires FirstScansReach(lookback, Genesis<F>(), actions)
    ensures var s := Run(lookback, Genesis<F>(), actions); var d := DepositsIn(s.chain.log);
      && IndexesPrefix(s.leaves, d) && IndexesSome(s.leaves, d)
      && forall i :: 0 <= i < |d| && d[i].ledger <= s.lastLedger ==> i in s.leaves && s.leaves[i] == d[i]
  {
    RunKeepsInv(lookback, Genesis<F>(), actions);
    InvIsComplete(Run(lookback, Genesis<F>(), actions));
  }

  lemma InvIsComplete<F>(s: System<F>)
    requires Inv(s)
    ensures var d := DepositsIn(s.chain.log);
      && IndexesPrefix(s.leaves, d) && IndexesSome(s.leaves, d)
      && forall i :: 0 <= i < |d| && d[i].ledger <= s.lastLedger ==> i in s.leaves && s.leaves[i] == d[i]
  {
    var d := DepositsIn(s.chain.log);
    forall i | 0 <= i < |d| && d[i].ledger <= s.lastLedger
      ensures i in s.leaves && s.leaves[i] == d[i]
    {
      DepositSplits(s.chain, s.lastLedger + 1, i);
    }
  }

  // ----- a sync that is left alone finishes ------------------------------------------------------------

  lemma {:induction false} RunAppend<F>(lookback: nat, s: System<F>, a: seq<Action<F>>, b: seq<Action<F>>)
    ensures Run(lookback, s, a + b) == Run(lookback, Run(lookback, s, a), b)
    decreases |a|
  {
    if a == [] {
      assert a + b == b;
    } else {
      assert (a + b)[1..] == a[1..] + b;
      RunAppend(lookback, Step(lookback, s, a[0]), a[1..], b);
    }
  }

  /** A step of this one sync. */
  predicate IsOf<F>(w: nat, a: Action<F>) {
    !a.Close? && !a.Fail? && a.w == w
  }

  /** The sync's own actions take the system from `s` to `s'`, and the chain stands still. */
  ghost predicate Proceeds<F>(lookback: nat, w: nat, s: System<F>, actions: seq<Action<F>>, s': System<F>) {
    && Inv(s') && s'.chain == s.chain && s' == Run(lookback, s, actions)
    && forall i :: 0 <= i < |actions| ==> IsOf(w, actions[i])
  }

  lemma OneStep<F>(lookback: nat, w: nat, s: System<F>, a: Action<F>, s': System<F>)
    requires IsOf(w, a) && s' == Step(lookback, s, a) && Inv(s') && s'.chain == s.chain
    ensures Proceeds(lookback, w, s, [a], s')
  {
    assert [a][1..] == [];
    assert Run(lookback, s, [a]) == Run(lookback, s', []);
  }

  lemma ProceedsOn<F>(lookback: nat, w: nat, s: System<F>, mid: System<F>, s': System<F>, a: seq<Action<F>>,
                      b: seq<Action<F>>)
    requires Proceeds(lookback, w, s, a, mid) && Proceeds(lookback, w, mid, b, s')
    ensures Proceeds(lookback, w, s, a + b, s')
  {
    RunAppend(lookback, s, a, b);
  }

  lemma FetchStep<F>(lookback: nat, s: System<F>, w: nat) returns (s': System<F>)
    requires Inv(s) && WorkerAt(s, w).Paging?
    ensures Proceeds(lookback, w, s, [Fetch(w)], s')
    ensures WorkerAt(s', w) == Fetched(s.chain, WorkerAt(s, w))
  {
    s' := Step(lookback, s, Fetch(w));
    FetchKeepsInv(lookback, s, w);
    OneStep(lookback, w, s, Fetch(w), s');
  }

  /** Page after page, until the last. */
  lemma {:induction false} FetchesAll<F>(lookback: nat, s: System<F>, w: nat)
    returns (actions: seq<Action<F>>, s': System<F>)
    requires Inv(s) && WorkerAt(s, w).Paging?
    ensures Proceeds(lookback, w, s, actions, s')
    ensures WorkerAt(s', w).Upserting? && WorkerAt(s', w).latestLedger == s.chain.latest
    decreases |s.chain.log| - Position(s.chain, WorkerAt(s, w))
  {
    s' := FetchStep(lookback, s, w);
    actions := [Fetch(w)];
    if WorkerAt(s', w).Paging? {
      var mid := s';
      actions, s' := FetchesAll(lookback, mid, w);
      ProceedsOn(lookback, w, s, mid, s', [Fetch(w)], actions);
      actions := [Fetch(w)] + actions;
    }
  }

  lemma UpsertStep<F>(lookback: nat, s: System<F>, w: nat) returns (s': System<F>)
    requires Inv(s) && WorkerAt(s, w).Upserting? && WorkerAt(s, w).todo != []
    ensures Proceeds(lookback, w, s, [Upsert(w)], s')
    ensures WorkerAt(s', w) == WorkerAt(s, w).(todo := WorkerAt(s, w).todo[1..])
  {
    s' := Step(lookback, s, Upsert(w));
    UpsertKeepsInv(s, w, WorkerAt(s, w));
    OneStep(lookback, w, s, Upsert(w), s');
  }

  /** Document after document. */
  lemma {:induction false} UpsertsAll<F>(lookback: nat, s: System<F>, w: nat)
    returns (actions: seq<Action<F>>, s': System<F>)
    requires Inv(s) && WorkerAt(s, w).Upserting?
    ensures Proceeds(lookback, w, s, actions, s') && WorkerAt(s', w) == Upserting([], WorkerAt(s, w).latestLedger)
    decreases |WorkerAt(s, w).todo|
  {
    actions, s' := [], s;
    if WorkerAt(s, w).todo != [] {
      var mid := UpsertStep(lookback, s, w);
      actions, s' := UpsertsAll(lookback, mid, w);
      ProceedsOn(lookback, w, s, mid, s', [Upsert(w)], actions);
      actions := [Upsert(w)] + actions;
    }
  }

  lemma BeginStep<F>(lookback: nat, s: System<F>, w: nat) returns (s': System<F>)
    requires Inv(s) && WorkerAt(s, w) == Idle
    ensures Proceeds(lookback, w, s, [Begin(w)], s') && s'.lastLedger == s.lastLedger
    ensures WorkerAt(s', w) == if s.lastLedger != 0 then Paging(s.lastLedger, None, []) else Probing
  {
    s' := Step(lookback, s, Begin(w));
    BeginKeepsInv(lookback, s, w);
    OneStep(lookback, w, s, Begin(w), s');
  }

  lemma ProbeStep<F>(lookback: nat, s: System<F>, w: nat) returns (s': System<F>)
    requires Inv(s) && WorkerAt(s, w) == Probing && ReachesBack(lookback, s, Probe(w))
    ensures Proceeds(lookback, w, s, [Probe(w)], s') && WorkerAt(s', w).Paging?
  {
    s' := Step(lookback, s, Probe(w));
    ProbeKeepsInv(lookback, s, w);
    OneStep(lookback, w, s, Probe(w), s');
  }

  /** A sync that begins: from the stored cursor, or as far back as the look-back reaches. */
  lemma Begins<F>(lookback: nat, s: System<F>, w: nat) returns (actions: seq<Action<F>>, s': System<F>)
    requires Inv(s) && WorkerAt(s, w) == Idle && (s.lastLedger == 0 ==> LooksBack(lookback, s.chain))
    ensures Proceeds(lookback, w, s, actions, s') && WorkerAt(s', w).Paging?
  {
    s' := BeginStep(lookback, s, w);
    actions := [Begin(w)];
    if s.lastLedger == 0 {
      var mid := s';
      s' := ProbeStep(lookback, mid, w);
      ProceedsOn(lookback, w, s, mid, s', actions, [Probe(w)]);
      actions := actions + [Probe(w)];
    }
  }

  /** The cursor is at the latest ledger, and exactly the deposits are indexed. */
  ghost predicate CaughtUp<F>(s: System<F>) {
    s.lastLedger == s.chain.latest && forall i :: i in s.leaves <==> 0 <= i < |DepositsIn(s.chain.log)|
  }

  /** The last step: the cursor is written. */
  lemma Finishes<F>(lookback: nat, s: System<F>, w: nat) returns (s': System<F>)
    requires Inv(s) && WorkerAt(s, w) == Upserting([], s.chain.latest)
    ensures Proceeds(lookback, w, s, [Finish(w)], s') && CaughtUp(s')
  {
    s' := Step(lookback, s, Finish(w));
    FinishKeepsInv(lookback, s, w);
    OneStep(lookback, w, s, Finish(w), s');
    LatestCoversAll(s.chain);
  }

  lemma SyncFrom<F>(lookback: nat, s: System<F>, w: nat) returns (actions: seq<Action<F>>, s': System<F>)
    requires Inv(s) && WorkerAt(s, w) == Idle && (s.lastLedger == 0 ==> LooksBack(lookback, s.chain))
    ensures Proceeds(lookback, w, s, actions, s') && CaughtUp(s')
  {
    var a, s1 := Begins(lookback, s, w);
    var b, s2 := FetchesAll(lookback, s1, w);
    ProceedsOn(lookback, w, s, s1, s2, a, b);
    var c, s3 := UpsertsAll(lookback, s2, w);
    ProceedsOn(lookback, w, s, s2, s3, a + b, c);
    s' := Finishes(lookback, s3, w);
    ProceedsOn(lookback, w, s, s3, s', a + b + c, [Finish(w)]);
    actions := a + b + c + [Finish(w)];
  }

  /**
    From any point of any run: a sync that nothing interrupts indexes every deposit there is and writes the
    latest ledger as its cursor. Only the very first one has to look back far enough.
  */
  lemma LoneSyncCompletes<F>(lookback: nat, before: seq<Action<F>>, w: nat) returns (actions: seq<Action<F>>)
    requires FirstScansReach(lookback, Genesis<F>(), before)
    requires var s := Run(lookback, Genesis<F>(), before);
      WorkerAt(s, w) == Idle && (s.lastLedger == 0 ==> LooksBack(lookback, s.chain))
    ensures forall i :: 0 <= i < |actions| ==> IsOf(w, actions[i])
    ensures var s, s' := Run(lookback, Genesis<F>(), before), Run(lookback, Genesis<F>(), before + actions);
      s'.chain == s.chain && CaughtUp(s')
  {
    var s, s' := Run(lookback, Genesis<F>(), before), Genesis<F>();
    RunKeepsInv(lookback, Genesis<F>(), before);
    actions, s' := SyncFrom(lookback, s, w);
    RunAppend(lookback, Genesis<F>(), before, actions);
  }
}
