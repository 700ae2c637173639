/**
  The shielded pool contract (contracts/shielded-pool/src/lib.rs).

  `B` is the type of the contract's 32-byte values: roots, commitments and nullifiers are
  stored, compared and used as keys as they come. `State` is the meaning of the contract's
  storage: the commitments in deposit order, the burnt nullifiers, the token balances and the
  published events. The class keeps what the contract keeps (an O(depth) frontier and a bounded
  list of roots) and is proved to behave as `State`.
*/
module ShieldedPool {
  import opened Wrappers
  import opened TokenLedger
  import opened Merkle

  const ROOT_HISTORY: nat := 32

  datatype PoolError =
    | AlreadyInitialized | NotInitialized | TreeFull | UnknownRoot | NullifierUsed | InvalidProof
    | Unauthorized | TokenFailure(reason: TokenError)

  datatype Config = Config(token: Address, denom: int, verifier: Address)

  /** What is fixed once the pool is deployed. `verify` is the verifier contract with the stored key. */
  datatype Env<!B, !P> = Env(h: (B, B) -> B, zero: B, depth: nat, verify: (P, seq<B>) -> bool,
                             pool: Address, config: Config)

  datatype PoolEvent<B> = Deposited(leafIndex: nat, commitment: B) | Withdrawn(nullifier: B)

  datatype State<B> = State(leaves: seq<B>, nullifiers: set<B>, balances: Balances, events: seq<PoolEvent<B>>)

  /** The tree's root after the first `k` deposits. */
  function RootAfter<B, P>(env: Env<B, P>, leaves: seq<B>, k: nat): B
    requires k <= |leaves|
  {
    Root(env.h, env.zero, leaves[..k], env.depth)
  }

  /** How many of the oldest roots have been dropped after `n` deposits. */
  function Dropped(n: nat): nat {
    if n + 1 > ROOT_HISTORY then n + 1 - ROOT_HISTORY else 0
  }

  /** The root history after `|leaves|` deposits: the last `min(n + 1, 32)` of the roots r_0 .. r_n. */
  function History<B, P>(env: Env<B, P>, leaves: seq<B>): seq<B> {
    RootsFrom(env, leaves, Dropped(|leaves|))
  }

  function RootsFrom<B, P>(env: Env<B, P>, leaves: seq<B>, from: nat): (r: seq<B>)
    requires from <= |leaves|
    ensures |r| == |leaves| + 1 - from
    ensures forall k :: from <= k <= |leaves| ==> r[k - from] == RootAfter(env, leaves, k)
    decreases |leaves| - from
  {
    [RootAfter(env, leaves, from)] + if from == |leaves| then [] else RootsFrom(env, leaves, from + 1)
  }

  /** A contract can never sign for itself from outside; anybody else must have signed the call. */
  predicate Authorized(signers: set<Address>, self: Address, who: Address) {
    who in signers && who != self
  }

  function DepositStep<B, P>(env: Env<B, P>, s: State<B>, signers: set<Address>, from: Address, commitment: B)
    : Result<State<B>, PoolError>
  {
    if !Authorized(signers, env.pool, from) then Err(Unauthorized)
    else
      match Transfer(s.balances, env.config.token, from, env.pool, env.config.denom)
      case Err(e) => Err(TokenFailure(e))
      case Ok(b) =>
        if |s.leaves| >= Pow2(env.depth) then Err(TreeFull)
        else
          Ok(State(s.leaves + [commitment], s.nullifiers, b, s.events + [Deposited(|s.leaves|, commitment)]))
  }

  function WithdrawStep<B(==), P>(env: Env<B, P>, s: State<B>, root: B, nullifier: B, recipient: Address,
                                  signal: B, proof: P)
    : Result<State<B>, PoolError>
  {
    if root !in History(env, s.leaves) then Err(UnknownRoot)
    else if nullifier in s.nullifiers then Err(NullifierUsed)
    else if !env.verify(proof, [root, nullifier, signal]) then Err(InvalidProof)
    else
      match Transfer(s.balances, env.config.token, env.pool, recipient, env.config.denom)
      case Err(e) => Err(TokenFailure(e))
      case Ok(b) => Ok(State(s.leaves, s.nullifiers + {nullifier}, b, s.events + [Withdrawn(nullifier)]))
  }

  // ----- the frontier ------------------------------------------------------------------------

  /** What the frontier holds at level `i` after `|leaves|` deposits: the last completed left child there. */
  function FrontierAt<B>(h: (B, B) -> B, zero: B, leaves: seq<B>, i: nat): B {
    if leaves == [] then ZeroAt(h, zero, i)
    else NodeAt(h, zero, leaves, i, 2 * Shift(|leaves| - 1, i + 1))
  }

  ghost predicate IsFrontier<B>(h: (B, B) -> B, zero: B, leaves: seq<B>, depth: nat, frontier: seq<B>) {
    |frontier| == depth && forall i :: 0 <= i < depth ==> frontier[i] == FrontierAt(h, zero, leaves, i)
  }

  ghost predicate IsZeros<B>(h: (B, B) -> B, zero: B, depth: nat, zeros: seq<B>) {
    |zeros| == depth + 1 && forall i :: 0 <= i <= depth ==> zeros[i] == ZeroAt(h, zero, i)
  }

  /** Left child: everything to the right of the new leaf is still empty. */
  lemma LeftStep<B>(h: (B, B) -> B, zero: B, leaves: seq<B>, leaf: B, i: nat)
    requires Shift(|leaves|, i) % 2 == 0
    ensures var grown := leaves + [leaf]; var pos := Shift(|leaves|, i);
      && NodeAt(h, zero, grown, i + 1, pos / 2) == h(NodeAt(h, zero, grown, i, pos), ZeroAt(h, zero, i))
      && FrontierAt(h, zero, grown, i) == NodeAt(h, zero, grown, i, pos)
  {
    var pos := Shift(|leaves|, i);
    ShiftIsQuotient(|leaves|, i);
    EmptySubtree(h, zero, leaves + [leaf], i, pos + 1);
    assert pos == 2 * (pos / 2);
  }

  /** Right child: the left sibling is complete and is what the frontier remembers. */
  lemma RightStep<B>(h: (B, B) -> B, zero: B, leaves: seq<B>, leaf: B, i: nat)
    requires Shift(|leaves|, i) % 2 == 1
    ensures var grown := leaves + [leaf]; var pos := Shift(|leaves|, i);
      && NodeAt(h, zero, grown, i + 1, pos / 2) == h(FrontierAt(h, zero, leaves, i), NodeAt(h, zero, grown, i, pos))
      && FrontierAt(h, zero, grown, i) == FrontierAt(h, zero, leaves, i)
  {
    var pos := Shift(|leaves|, i);
    ShiftAway(|leaves|, i);
    ShiftNext(|leaves| - 1, i);
    assert Shift(|leaves| - 1, i + 1) == pos / 2;
    AppendElsewhere(h, zero, leaves, leaf, i, pos - 1);
    assert pos == 2 * (pos / 2) + 1;
  }

  /** The insertion loop of `deposit`. */
  method Insert<B>(h: (B, B) -> B, zero: B, depth: nat, ghost leaves: seq<B>, zeros: seq<B>, frontier0: seq<B>,
                   index0: nat, commitment: B) returns (frontier: seq<B>, root: B)
    requires IsZeros(h, zero, depth, zeros) && IsFrontier(h, zero, leaves, depth, frontier0)
    requires index0 == |leaves| < Pow2(depth)
    ensures IsFrontier(h, zero, leaves + [commitment], depth, frontier)
    ensures root == Root(h, zero, leaves + [commitment], depth)
  {
    frontier := frontier0;
    var cur, index := commitment, index0;
    ghost var leaves' := leaves + [commitment];
    for i := 0 to depth
      invariant index == Shift(|leaves|, i)
      invariant cur == NodeAt(h, zero, leaves', i, index)
      invariant |frontier| == depth
      invariant forall k :: 0 <= k < i ==> frontier[k] == FrontierAt(h, zero, leaves', k)
      invariant forall k :: i <= k < depth ==> frontier[k] == FrontierAt(h, zero, leaves, k)
    {
      if index % 2 == 0 {
        LeftStep(h, zero, leaves, commitment, i);
        frontier := frontier[i := cur];
        cur := h(cur, zeros[i]);
      } else {
        RightStep(h, zero, leaves, commitment, i);
        cur := h(frontier[i], cur);
      }
      index := index / 2;
    }
    ShiftAway(|leaves|, depth);
    root := cur;
  }

  // ----- the bounded root history -------------------------------------------------------------

  /** Appending the new root and popping from the front keeps exactly the specified window. */
  lemma HistoryGrows<B, P>(env: Env<B, P>, leaves: seq<B>, leaf: B)
    ensures var all := History(env, leaves) + [Root(env.h, env.zero, leaves + [leaf], env.depth)];
      History(env, leaves + [leaf]) == all[if |all| > ROOT_HISTORY then |all| - ROOT_HISTORY else 0..]
  {
    var leaves', known := leaves + [leaf], History(env, leaves);
    var all := known + [Root(env.h, env.zero, leaves', env.depth)];
    var cut := if |all| > ROOT_HISTORY then |all| - ROOT_HISTORY else 0;
    var d, d' := Dropped(|leaves|), Dropped(|leaves'|);
    assert d' == d + cut;
    forall k | d' <= k <= |leaves'|
      ensures RootAfter(env, leaves', k) == all[k - d]
    {
      if k == |leaves'| {
        assert leaves'[..k] == leaves';
      } else {
        assert leaves'[..k] == leaves[..k];
        assert known[k - d] == RootAfter(env, leaves, k);
      }
    }
    forall i | 0 <= i < |all| - cut
      ensures History(env, leaves')[i] == all[cut + i]
    {
      assert History(env, leaves')[d' + i - d'] == RootAfter(env, leaves', d' + i);
    }
    assert History(env, leaves') == all[cut..];
  }

  lemma HistoryEnds<B, P>(env: Env<B, P>, leaves: seq<B>)
    ensures var r := History(env, leaves);
      |r| > 0 && r[|r| - 1] == Root(env.h, env.zero, leaves, env.depth)
  {
    var d := Dropped(|leaves|);
    assert leaves[..|leaves|] == leaves;
    assert History(env, leaves)[|leaves| - d] == RootAfter(env, leaves, |leaves|);
  }

  /** Push the new root, then pop the oldest while the history is too long. */
  method AppendRoot<B>(roots0: seq<B>, root: B) returns (roots: seq<B>)
    ensures var all := roots0 + [root];
      roots == all[if |all| > ROOT_HISTORY then |all| - ROOT_HISTORY else 0..]
  {
    roots := roots0 + [root];
    ghost var all, popped := roots, 0;
    while |roots| > ROOT_HISTORY
      invariant popped <= |all| && roots == all[popped..]
      invariant popped > 0 ==> |roots| >= ROOT_HISTORY
    {
      roots, popped := roots[1..], popped + 1;
    }
  }

  /** The zeros of an empty tree, and the frontier that starts as the zero of each level. */
  method EmptyTree<B>(h: (B, B) -> B, zero: B, depth: nat) returns (zeros: seq<B>, frontier: seq<B>)
    ensures IsZeros(h, zero, depth, zeros) && IsFrontier(h, zero, [], depth, frontier)
  {
    zeros := [zero];
    for i := 0 to depth
      invariant |zeros| == i + 1
      invariant forall k :: 0 <= k <= i ==> zeros[k] == ZeroAt(h, zero, k)
    {
      zeros := zeros + [h(zeros[i], zeros[i])];
    }
    frontier := [];
    for i := 0 to depth
      invariant |frontier| == i
      invariant forall k :: 0 <= k < i ==> frontier[k] == zeros[k]
    {
      frontier := frontier + [zeros[i]];
    }
  }

  // ----- the contract -------------------------------------------------------------------------

  class Pool<B(==), !V, !P> {
    const h: (B, B) -> B
    const zero: B
    const depth: nat
    /** What the verifier contract at an address answers, given a key, a proof and the signals. */
    const verifiers: (Address, V, P, seq<B>) -> bool
    const self: Address
    const host: TokenHost

    var config: Option<Config>
    var vk: Option<V>
    var nextIndex: nat
    var frontier: seq<B>
    var zeros: seq<B>
    var roots: seq<B>
    var nullifiers: set<B>
    var published: seq<PoolEvent<B>>

    /** The commitments deposited so far, in order. The contract stores only what it needs of them. */
    ghost var leaves: seq<B>

    constructor (h: (B, B) -> B, zero: B, depth: nat, verifiers: (Address, V, P, seq<B>) -> bool, self: Address,
                 host: TokenHost)
      ensures this.h == h && this.zero == zero && this.depth == depth && this.verifiers == verifiers
      ensures this.self == self && this.host == host
      ensures Valid() && config == None && Abs() == State([], {}, host.balances, [])
    {
      this.h, this.zero, this.depth, this.verifiers, this.self, this.host := h, zero, depth, verifiers, self, host;
      config, vk, nextIndex, frontier, zeros, roots := None, None, 0, [], [], [];
      nullifiers, published, leaves := {}, [], [];
    }

    function EnvOf(): Env<B, P>
      requires config.Some? && vk.Some?
      reads this`config, this`vk
    {
      var ask, address, key := verifiers, config.value.verifier, vk.value;
      Env(h, zero, depth, (proof, signals) => ask(address, key, proof, signals), self, config.value)
    }

    ghost predicate Valid()
      reads this
    {
      if config.None? then leaves == [] && nullifiers == {} && published == []
      else
        && vk.Some?
        && nextIndex == |leaves| <= Pow2(depth)
        && IsZeros(h, zero, depth, zeros)
        && IsFrontier(h, zero, leaves, depth, frontier)
        && roots == History(EnvOf(), leaves)
    }

    ghost function Abs(): State<B>
      reads this, host
    {
      State(leaves, nullifiers, host.balances, published)
    }

    method Initialize(c: Config, key: V) returns (r: Result<(), PoolError>)
      requires Valid()
      modifies this
      ensures Valid() && Abs() == old(Abs())
      ensures old(config).Some? ==> r == Err(AlreadyInitialized) && config == old(config) && vk == old(vk)
      ensures old(config).None? ==> r == Ok(()) && config == Some(c) && vk == Some(key)
      ensures old(config).None? ==> leaves == [] && nullifiers == {}
    {
      if config.Some? {
        return Err(AlreadyInitialized);
      }
      var zs, fr := EmptyTree(h, zero, depth);
      config, vk, nextIndex, frontier, zeros, roots := Some(c), Some(key), 0, fr, zs, [zs[depth]];
      EmptySubtree(h, zero, leaves, depth, 0);
      HistoryEnds(EnvOf(), leaves);
      assert History(EnvOf(), leaves) == [zs[depth]];
      r := Ok(());
    }

    method Deposit(signers: set<Address>, from: Address, commitment: B) returns (r: Result<nat, PoolError>)
      requires Valid()
      modifies this, host
      ensures Valid() && config == old(config) && vk == old(vk)
      ensures config.None? ==> Abs() == old(Abs())
      ensures config.None? ==> r == Err(if Authorized(signers, self, from) then NotInitialized else Unauthorized)
      ensures config.Some? ==>
        match DepositStep(EnvOf(), old(Abs()), signers, from, commitment)
        case Ok(s) => r == Ok(|old(leaves)|) && Abs() == s
        case Err(e) => r == Err(e) && Abs() == old(Abs())
      ensures r.Ok? ==>
        config.Some? && Moves(old(host.balances), host.balances, config.value.token, from, self, config.value.denom)
    {
      if !Authorized(signers, self, from) {
        return Err(Unauthorized);
      }
      if config.None? {
        return Err(NotInitialized);
      }
      var before := host.balances;
      var moved := host.DoTransfer(config.value.token, from, self, config.value.denom);
      if moved.Ok? {
        TransferMoves(before, config.value.token, from, self, config.value.denom);
      }
      if moved.Err? {
        return Err(TokenFailure(moved.error));
      }
      if nextIndex >= Pow2(depth) {
        host.balances := before;
        return Err(TreeFull);
      }
      var leafIndex := Append(commitment);
      r := Ok(leafIndex);
    }

    /** The rest of `deposit` once the token has moved: insert, record the root, publish. */
    method Append(commitment: B) returns (leafIndex: nat)
      requires Valid() && config.Some? && nextIndex < Pow2(depth)
      modifies this
      ensures Valid() && config == old(config) && vk == old(vk) && leafIndex == |old(leaves)|
      ensures leaves == old(leaves) + [commitment] && nullifiers == old(nullifiers)
      ensures published == old(published) + [Deposited(leafIndex, commitment)]
    {
      leafIndex := nextIndex;
      var fr, cur := Insert(h, zero, depth, leaves, zeros, frontier, leafIndex, commitment);
      HistoryGrows(EnvOf(), leaves, commitment);
      nextIndex := leafIndex + 1;
      frontier := fr;
      roots := AppendRoot(roots, cur);
      leaves := leaves + [commitment];
      published := published + [Deposited(leafIndex, commitment)];
    }

    method Withdraw(root: B, nullifier: B, recipient: Address, signal: B, proof: P) returns (r: Result<(), PoolError>)
      requires Valid()
      modifies this, host
      ensures Valid() && config == old(config) && vk == old(vk)
      ensures config.None? ==> r == Err(NotInitialized) && Abs() == old(Abs())
      ensures config.Some? ==>
        match WithdrawStep(EnvOf(), old(Abs()), root, nullifier, recipient, signal, proof)
        case Ok(s) => r == Ok(()) && Abs() == s
        case Err(e) => r == Err(e) && Abs() == old(Abs())
      ensures r.Ok? ==>
        && config.Some? && vk.Some?
        && Moves(old(host.balances), host.balances, config.value.token, self, recipient, config.value.denom)
        && verifiers(config.value.verifier, vk.value, proof, [root, nullifier, signal])
    {
      if config.None? {
        return Err(NotInitialized);
      }
      if root !in roots {
        return Err(UnknownRoot);
      }
      if nullifier in nullifiers {
        return Err(NullifierUsed);
      }
      var ok := verifiers(config.value.verifier, vk.value, proof, [root, nullifier, signal]);
      if !ok {
        return Err(InvalidProof);
      }
      var before := nullifiers;
      nullifiers := nullifiers + {nullifier};
      var moved := host.DoTransfer(config.value.token, self, recipient, config.value.denom);
      if moved.Err? {
        nullifiers := before;
        return Err(TokenFailure(moved.error));
      }
      TransferMoves(old(host.balances), config.value.token, self, recipient, config.value.denom);
      published := published + [Withdrawn(nullifier)];
      r := Ok(());
    }

    method CurrentRoot() returns (root: B)
      requires Valid() && config.Some?
      ensures root == Root(h, zero, leaves, depth)
    {
      HistoryEnds(EnvOf(), leaves);
      root := roots[|roots| - 1];
    }
  }
}
