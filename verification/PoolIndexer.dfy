/**
  The deposit indexer (backend/src/services/poolIndexerService.ts, chain/src/shieldedPool.ts):
  paging through the pool's events, the upserts of one sync, and the list it serves. How
  several syncs interleave is the subject of `IndexerRuns`.
*/
module PoolIndexer {
  import opened Wrappers

  const PAGE_LIMIT: nat := 200

  /** One decoded `deposit` event, which is also the stored document. */
  datatype Leaf<F> = Leaf(leafIndex: nat, commitment: F, ledger: nat, txHash: string)

  /** The pool's events; everything that is not a deposit counts only towards the page limit. */
  datatype Event<F> = Deposit(leaf: Leaf<F>) | Other(at: nat)

  /** The pool's event log as the RPC node serves it, and the latest closed ledger. */
  datatype Chain<F> = Chain(log: seq<Event<F>>, latest: nat)

  function LedgerOf<F>(e: Event<F>): nat {
    match e case Deposit(leaf) => leaf.ledger case Other(at) => at
  }

  function DepositsIn<F>(log: seq<Event<F>>): (r: seq<Leaf<F>>)
    ensures |r| <= |log|
  {
    if log == [] then []
    else
      var last := log[|log| - 1];
      DepositsIn(log[..|log| - 1]) + if last.Deposit? then [last.leaf] else []
  }

  /** Events come in ledger order and deposits are numbered in the order they happened. */
  ghost predicate WellLogged<F>(c: Chain<F>) {
    && (forall i :: 0 <= i < |c.log| ==> 1 <= LedgerOf(c.log[i]) <= c.latest)
    && (forall i, j :: 0 <= i < j < |c.log| ==> LedgerOf(c.log[i]) <= LedgerOf(c.log[j]))
    && (forall i :: 0 <= i < |DepositsIn(c.log)| ==> DepositsIn(c.log)[i].leafIndex == i)
  }

  /** Where the events from `ledger` on begin. */
  function Before<F>(log: seq<Event<F>>, ledger: nat): (n: nat)
    ensures n <= |log|
  {
    if log == [] || LedgerOf(log[|log| - 1]) < ledger then |log| else Before(log[..|log| - 1], ledger)
  }

  /** How many deposits happened before `ledger`. */
  function DepositsBefore<F>(log: seq<Event<F>>, ledger: nat): (n: nat)
    ensures n <= |DepositsIn(log)|
  {
    DepositsSlice(log, Before(log, ledger), Before(log, ledger));
    |DepositsIn(log[..Before(log, ledger)])|
  }

  /** One RPC page: at most 200 events from a position on. */
  function Page<F>(log: seq<Event<F>>, pos: nat): seq<Event<F>>
    requires pos <= |log|
  {
    if |log| - pos < PAGE_LIMIT then log[pos..] else log[pos..pos + PAGE_LIMIT]
  }

  // ----- sorting by leaf index -------------------------------------------------------------------

  function Placed<F>(xs: seq<Leaf<F>>, x: Leaf<F>): (r: seq<Leaf<F>>)
    ensures |r| == |xs| + 1
  {
    if xs == [] || xs[|xs| - 1].leafIndex <= x.leafIndex then xs + [x]
    else Placed(xs[..|xs| - 1], x) + [xs[|xs| - 1]]
  }

  /** A stable sort. */
  function SortByIndex<F>(xs: seq<Leaf<F>>): (r: seq<Leaf<F>>)
    ensures |r| == |xs|
  {
    if xs == [] then [] else Placed(SortByIndex(xs[..|xs| - 1]), xs[|xs| - 1])
  }

  ghost predicate Ascending<F>(xs: seq<Leaf<F>>) {
    forall i, j :: 0 <= i < j < |xs| ==> xs[i].leafIndex < xs[j].leafIndex
  }

  lemma {:induction false} SortOfAscending<F>(xs: seq<Leaf<F>>)
    requires Ascending(xs)
    ensures SortByIndex(xs) == xs
  {
    if xs != [] {
      SortOfAscending(xs[..|xs| - 1]);
    }
  }

  ghost predicate Sorted<F>(xs: seq<Leaf<F>>) {
    forall i, j :: 0 <= i < j < |xs| ==> xs[i].leafIndex <= xs[j].leafIndex
  }

  lemma {:induction false} PlacedKeeps<F>(xs: seq<Leaf<F>>, x: Leaf<F>)
    ensures multiset(Placed(xs, x)) == multiset(xs) + multiset{x}
  {
    if xs != [] && xs[|xs| - 1].leafIndex > x.leafIndex {
      PlacedKeeps(xs[..|xs| - 1], x);
      assert xs == xs[..|xs| - 1] + [xs[|xs| - 1]];
    }
  }

  ghost predicate AtMost<F>(xs: seq<Leaf<F>>, bound: nat) {
    forall i :: 0 <= i < |xs| ==> xs[i].leafIndex <= bound
  }

  lemma {:induction false} PlacedAtMost<F>(xs: seq<Leaf<F>>, x: Leaf<F>, bound: nat)
    requires AtMost(xs, bound) && x.leafIndex <= bound
    ensures AtMost(Placed(xs, x), bound)
  {
    if xs != [] && xs[|xs| - 1].leafIndex > x.leafIndex {
      PlacedAtMost(xs[..|xs| - 1], x, bound);
    }
  }

  lemma {:induction false} PlacedIsSorted<F>(xs: seq<Leaf<F>>, x: Leaf<F>)
    requires Sorted(xs)
    ensures Sorted(Placed(xs, x))
  {
    if xs != [] && xs[|xs| - 1].leafIndex > x.leafIndex {
      var n := |xs| - 1;
      PlacedIsSorted(xs[..n], x);
      PlacedAtMost(xs[..n], x, xs[n].leafIndex);
    }
  }

  /** The events are put in leaf order and none is lost or doubled, in whatever order they came. */
  lemma {:induction false} SortSorts<F>(xs: seq<Leaf<F>>)
    ensures Sorted(SortByIndex(xs)) && multiset(SortByIndex(xs)) == multiset(xs)
  {
    if xs != [] {
      var n := |xs| - 1;
      SortSorts(xs[..n]);
      PlacedIsSorted(SortByIndex(xs[..n]), xs[n]);
      PlacedKeeps(SortByIndex(xs[..n]), xs[n]);
      assert xs == xs[..n] + [xs[n]];
    }
  }

  // ----- the log ---------------------------------------------------------------------------------

  lemma {:induction false} DepositsAppend<F>(a: seq<Event<F>>, b: seq<Event<F>>)
    ensures DepositsIn(a + b) == DepositsIn(a) + DepositsIn(b)
  {
    if b == [] {
      assert a + b == a;
    } else {
      var b0 := b[..|b| - 1];
      assert (a + b)[..|a + b| - 1] == a + b0;
      DepositsAppend(a, b0);
    }
  }

  /** The deposits between two positions are a slice of all deposits. */
  lemma DepositsSlice<F>(log: seq<Event<F>>, lo: nat, hi: nat)
    requires lo <= hi <= |log|
    ensures var a, b := |DepositsIn(log[..lo])|, |DepositsIn(log[..hi])|;
      a <= b <= |DepositsIn(log)| && DepositsIn(log[lo..hi]) == DepositsIn(log)[a..b]
  {
    DepositsAppend(log[..lo], log[lo..hi]);
    assert log[..lo] + log[lo..hi] == log[..hi];
    DepositsAppend(log[..hi], log[hi..]);
    assert log[..hi] + log[hi..] == log;
  }

  lemma {:induction false} BeforeSplits<F>(log: seq<Event<F>>, ledger: nat)
    requires forall i, j :: 0 <= i < j < |log| ==> LedgerOf(log[i]) <= LedgerOf(log[j])
    ensures forall i :: 0 <= i < |log| ==> (i < Before(log, ledger) <==> LedgerOf(log[i]) < ledger)
  {
    if log != [] && LedgerOf(log[|log| - 1]) >= ledger {
      BeforeSplits(log[..|log| - 1], ledger);
    }
  }

  /** Every deposit is some event of the log, at a position that says how many came before it. */
  lemma {:induction false} PositionOf<F>(log: seq<Event<F>>, i: nat) returns (p: nat)
    requires i < |DepositsIn(log)|
    ensures p < |log| && log[p] == Deposit(DepositsIn(log)[i]) && |DepositsIn(log[..p])| == i
  {
    var n := |log| - 1;
    if i < |DepositsIn(log[..n])| {
      p := PositionOf(log[..n], i);
      assert log[..n][..p] == log[..p];
    } else {
      p := n;
    }
  }

  /** Deposits are split by ledger the way events are. */
  lemma DepositSplits<F>(c: Chain<F>, ledger: nat, i: nat)
    requires WellLogged(c) && i < |DepositsIn(c.log)|
    ensures i < DepositsBefore(c.log, ledger) <==> DepositsIn(c.log)[i].ledger < ledger
  {
    var p := PositionOf(c.log, i);
    var n := Before(c.log, ledger);
    BeforeSplits(c.log, ledger);
    if p < n {
      DepositsSlice(c.log, p + 1, n);
      assert c.log[..p + 1][..p] == c.log[..p];
    } else {
      DepositsSlice(c.log, n, p);
    }
  }

  // ----- one sync --------------------------------------------------------------------------------

  lemma PageExtends<F>(log: seq<Event<F>>, start: nat, pos: nat)
    requires start <= pos <= |log|
    ensures var page := Page(log, pos); var next := pos + |page|;
      && next <= |log| && (|page| < PAGE_LIMIT <==> |log| - pos < PAGE_LIMIT) && (|page| < PAGE_LIMIT ==> next == |log|)
      && DepositsIn(log[start..pos]) + DepositsIn(page) == DepositsIn(log[start..next])
  {
    var page := Page(log, pos);
    DepositsAppend(log[start..pos], page);
    assert log[start..pos] + page == log[start..pos + |page|];
  }

  /** A slice of the deposits is in leaf order, so sorting leaves it as it is. */
  lemma SliceSorted<F>(c: Chain<F>, lo: nat, hi: nat)
    requires WellLogged(c) && lo <= hi <= |DepositsIn(c.log)|
    ensures SortByIndex(DepositsIn(c.log)[lo..hi]) == DepositsIn(c.log)[lo..hi]
  {
    SortOfAscending(DepositsIn(c.log)[lo..hi]);
  }

  lemma DepositsFrom<F>(c: Chain<F>, ledger: nat)
    ensures DepositsIn(c.log[Before(c.log, ledger)..]) == DepositsIn(c.log)[DepositsBefore(c.log, ledger)..]
  {
    DepositsSlice(c.log, Before(c.log, ledger), |c.log|);
    assert c.log[..|c.log|] == c.log;
  }

  lemma Fetched<F>(c: Chain<F>, startLedger: nat, collected: seq<Leaf<F>>)
    requires WellLogged(c) && collected == DepositsIn(c.log[Before(c.log, startLedger)..|c.log|])
    ensures SortByIndex(collected) == DepositsIn(c.log)[DepositsBefore(c.log, startLedger)..]
  {
    var start, d, n := Before(c.log, startLedger), DepositsIn(c.log), DepositsBefore(c.log, startLedger);
    assert c.log[start..|c.log|] == c.log[start..];
    DepositsFrom(c, startLedger);
    SliceSorted(c, n, |d|);
    assert d[n..|d|] == d[n..];
  }

  /** `getPoolDepositEvents`: every deposit from `startLedger` on, and the ledger to resume from. */
  method GetPoolDepositEvents<F>(c: Chain<F>, startLedger: nat) returns (events: seq<Leaf<F>>, latestLedger: nat)
    requires WellLogged(c)
    ensures events == DepositsIn(c.log)[DepositsBefore(c.log, startLedger)..] && latestLedger == c.latest
  {
    var pos := Before(c.log, startLedger);
    ghost var start := pos;
    var collected, more := [], true;
    latestLedger := startLedger;
    while more
      invariant start <= pos <= |c.log| && collected == DepositsIn(c.log[start..pos])
      invariant !more ==> pos == |c.log| && latestLedger == c.latest
      decreases |c.log| - pos, more
    {
      var page := Page(c.log, pos);
      PageExtends(c.log, start, pos);
      collected, latestLedger := collected + DepositsIn(page), c.latest;
      pos, more := pos + |page|, |page| >= PAGE_LIMIT;
    }
    Fetched(c, startLedger, collected);
    events := SortByIndex(collected);
  }

  /** `$setOnInsert` keyed by leaf index: a document that is there stays as it is. */
  function Upserted<F>(leaves: map<nat, Leaf<F>>, leaf: Leaf<F>): map<nat, Leaf<F>> {
    if leaf.leafIndex in leaves then leaves else leaves[leaf.leafIndex := leaf]
  }

  /** The ledger the very first scan starts from. */
  function FirstStart(latest: nat, lookback: nat): nat {
    if latest - lookback > 1 then latest - lookback else 1
  }

  /** Deposit `i` happened in this ledger or later. */
  predicate IsSince<F>(deposits: seq<Leaf<F>>, i: nat, ledger: int) {
    i < |deposits| && ledger <= deposits[i].ledger
  }

  /** A first scan finds a deposit exactly when it is no older than the look-back. */
  lemma FirstScanFinds<F>(c: Chain<F>, lookback: nat, i: nat)
    requires WellLogged(c) && i < |DepositsIn(c.log)|
    ensures DepositsBefore(c.log, FirstStart(c.latest, lookback)) <= i
       <==> c.latest - lookback <= DepositsIn(c.log)[i].ledger
  {
    DepositSplits(c, FirstStart(c.latest, lookback), i);
    var p := PositionOf(c.log, i);
    assert LedgerOf(c.log[p]) == DepositsIn(c.log)[i].ledger >= 1;
  }

  class Store<F> {
    var leaves: map<nat, Leaf<F>>
    /** 0 while no sync has finished. */
    var lastLedger: nat

    constructor ()
      ensures leaves == map[] && lastLedger == 0
    {
      leaves, lastLedger := map[], 0;
    }

    /** `syncPoolDeposits`, run by itself. */
    method Sync(c: Chain<F>, lookback: nat) returns (indexed: nat)
      requires WellLogged(c)
      modifies this
      ensures lastLedger == c.latest
      ensures var reached := if old(lastLedger) != 0 then old(lastLedger) else c.latest - lookback;
        forall i :: i in leaves <==> i in old(leaves) || IsSince(DepositsIn(c.log), i, reached)
      ensures forall i :: i in leaves ==>
        if i in old(leaves) then leaves[i] == old(leaves)[i]
        else i < |DepositsIn(c.log)| && leaves[i] == DepositsIn(c.log)[i]
      ensures indexed == |leaves| - |old(leaves)|
    {
      var startLedger := lastLedger;
      if startLedger == 0 {
        startLedger := FirstStart(c.latest, lookback);
      }
      var events, latestLedger := GetPoolDepositEvents(c, startLedger);
      ghost var from := DepositsBefore(c.log, startLedger);
      indexed := 0;
      for k := 0 to |events|
        invariant lastLedger == old(lastLedger)
        invariant forall i :: i in leaves <==> i in old(leaves) || from <= i < from + k
        invariant forall i :: i in leaves ==>
          leaves[i] == if i in old(leaves) then old(leaves)[i] else DepositsIn(c.log)[i]
        invariant indexed == |leaves| - |old(leaves)|
      {
        if events[k].leafIndex !in leaves {
          indexed := indexed + 1;
        }
        leaves := Upserted(leaves, events[k]);
      }
      lastLedger := latestLedger;
      ghost var reached := if old(lastLedger) != 0 then old(lastLedger) else c.latest - lookback;
      forall i: nat
        ensures from <= i < from + |events| <==> IsSince(DepositsIn(c.log), i, reached)
      {
        if i < |DepositsIn(c.log)| {
          DepositSplits(c, startLedger, i);
          FirstScanFinds(c, lookback, i);
        }
      }
    }
  }

  /** A first sync indexes every deposit exactly when its look-back reaches the first one. */
  lemma FirstScanCompleteIff<F>(c: Chain<F>, lookback: nat)
    requires WellLogged(c)
    ensures var d := DepositsIn(c.log);
      DepositsBefore(c.log, FirstStart(c.latest, lookback)) == 0 <==> d == [] || c.latest - lookback <= d[0].ledger
  {
    var d := DepositsIn(c.log);
    DepositsSlice(c.log, Before(c.log, FirstStart(c.latest, lookback)), |c.log|);
    assert c.log[..|c.log|] == c.log;
    if d != [] {
      FirstScanFinds(c, lookback, 0);
    }
  }

  // ----- serving the list -------------------------------------------------------------------------

  ghost predicate IndexesPrefix<F>(leaves: map<nat, Leaf<F>>, deposits: seq<Leaf<F>>) {
    forall i :: i in leaves ==>
      && i < |deposits| && leaves[i] == deposits[i]
      && forall j :: 0 <= j < i ==> j in leaves
  }

  /** Whatever was indexed, each stored document is the event with that index. */
  ghost predicate IndexesSome<F>(leaves: map<nat, Leaf<F>>, deposits: seq<Leaf<F>>) {
    forall i :: i in leaves ==> i < |deposits| && leaves[i] == deposits[i] && deposits[i].leafIndex == i
  }

  /** The query result: all documents, by increasing leaf index, which is unique. */
  ghost predicate IsListing<F>(docs: seq<Leaf<F>>, leaves: map<nat, Leaf<F>>) {
    && Ascending(docs)
    && (forall k :: 0 <= k < |docs| ==> docs[k].leafIndex in leaves && leaves[docs[k].leafIndex] == docs[k])
    && (forall i :: i in leaves ==> exists k :: 0 <= k < |docs| && docs[k].leafIndex == i)
  }

  function Commitments<F>(leaves: seq<Leaf<F>>): (r: seq<F>)
    ensures |r| == |leaves| && forall i :: 0 <= i < |r| ==> r[i] == leaves[i].commitment
  {
    if leaves == [] then [] else Commitments(leaves[..|leaves| - 1]) + [leaves[|leaves| - 1].commitment]
  }

  lemma {:induction false} AscendingAtLeast<F>(docs: seq<Leaf<F>>, k: nat)
    requires Ascending(docs) && k < |docs|
    ensures docs[k].leafIndex >= k
  {
    if k != 0 {
      AscendingAtLeast(docs, k - 1);
    }
  }

  /** The first `n` documents are numbered 0 .. n - 1. */
  ghost predicate NumberedUpTo<F>(docs: seq<Leaf<F>>, n: nat) {
    n <= |docs| && forall k :: 0 <= k < n ==> docs[k].leafIndex == k
  }

  /** `n` is the first index that is missing below one that is there. */
  ghost predicate FirstGap<F>(leaves: map<nat, Leaf<F>>, n: nat) {
    n !in leaves && (forall j :: 0 <= j < n ==> j in leaves) && exists i :: i in leaves && i > n
  }

  /** What the served list says: an exact prefix of the on-chain leaves, or the first index that is missing. */
  ghost predicate Serves<F>(r: Result<seq<F>, nat>, leaves: map<nat, Leaf<F>>, deposits: seq<Leaf<F>>) {
    match r
    case Ok(value) =>
      && IndexesPrefix(leaves, deposits) && |value| <= |deposits| && value == Commitments(deposits)[..|value|]
      && forall i :: i in leaves <==> 0 <= i < |value|
    case Err(gap) => FirstGap(leaves, gap) && !IndexesPrefix(leaves, deposits)
  }

  lemma GapAt<F>(docs: seq<Leaf<F>>, leaves: map<nat, Leaf<F>>, deposits: seq<Leaf<F>>, n: nat)
    requires IsListing(docs, leaves) && n < |docs| && NumberedUpTo(docs, n) && docs[n].leafIndex != n
    ensures Serves(Err(n), leaves, deposits)
  {
    assert docs[n].leafIndex in leaves;
    AscendingAtLeast(docs, n);
    assert forall k :: 0 <= k < |docs| ==> docs[k].leafIndex != n;
    forall j | 0 <= j < n
      ensures j in leaves
    {
      assert docs[j].leafIndex == j;
    }
  }

  lemma NoGap<F>(docs: seq<Leaf<F>>, leaves: map<nat, Leaf<F>>)
    requires IsListing(docs, leaves) && NumberedUpTo(docs, |docs|)
    ensures forall i :: i in leaves <==> 0 <= i < |docs|
    ensures forall i :: 0 <= i < |docs| ==> i in leaves && leaves[i] == docs[i]
  {
    forall i | i in leaves
      ensures i < |docs|
    {
      var k :| 0 <= k < |docs| && docs[k].leafIndex == i;
    }
    forall i | 0 <= i < |docs|
      ensures i in leaves && leaves[i] == docs[i]
    {
      assert docs[i].leafIndex == i;
    }
  }

  /** A list without gaps is a prefix of the deposits. */
  lemma ListIsPrefix<F>(docs: seq<Leaf<F>>, leaves: map<nat, Leaf<F>>, deposits: seq<Leaf<F>>)
    requires IsListing(docs, leaves) && NumberedUpTo(docs, |docs|) && IndexesSome(leaves, deposits)
    ensures Serves(Ok(Commitments(docs)), leaves, deposits)
  {
    NoGap(docs, leaves);
    if docs != [] {
      assert |docs| - 1 in leaves;
    }
    CommitmentsOfPrefix(docs, deposits);
  }

  lemma CommitmentsOfPrefix<F>(docs: seq<Leaf<F>>, deposits: seq<Leaf<F>>)
    requires |docs| <= |deposits| && forall i :: 0 <= i < |docs| ==> docs[i] == deposits[i]
    ensures Commitments(docs) == Commitments(deposits)[..|docs|]
  {
  }

  lemma CommitmentsAre<F>(docs: seq<Leaf<F>>, commitments: seq<F>)
    requires |commitments| == |docs| && forall i :: 0 <= i < |docs| ==> commitments[i] == docs[i].commitment
    ensures commitments == Commitments(docs)
  {
  }

  /** `getOrderedCommitments`. */
  method GetOrderedCommitments<F>(docs: seq<Leaf<F>>, ghost leaves: map<nat, Leaf<F>>, ghost deposits: seq<Leaf<F>>)
    returns (r: Result<seq<F>, nat>)
    requires IsListing(docs, leaves) && IndexesSome(leaves, deposits)
    ensures Serves(r, leaves, deposits)
  {
    var commitments := [];
    for i := 0 to |docs|
      invariant NumberedUpTo(docs, i) && |commitments| == i
      invariant forall k :: 0 <= k < i ==> commitments[k] == docs[k].commitment
    {
      if docs[i].leafIndex != i {
        GapAt(docs, leaves, deposits, i);
        return Err(i);
      }
      commitments := commitments + [docs[i].commitment];
    }
    CommitmentsAre(docs, commitments);
    ListIsPrefix(docs, leaves, deposits);
    r := Ok(commitments);
  }
}
