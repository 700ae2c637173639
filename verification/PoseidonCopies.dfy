/**
  The two copies of the hash that compute values: the contract's unrolled one
  (contracts/shielded-pool/src/poseidon.rs) and the native one over a three-element
  array (zk-circuits/src/poseidon2.rs). Both compute `Poseidon2.Hash2`.
*/
module PoseidonCopies {
  import opened Field
  import opened Poseidon2

  // ----- the contract ------------------------------------------------------------------------

  datatype Params = Params(ark: seq<int>, diag: seq<int>)

  ghost predicate IsParams(p: nat, ps: Params)
    requires p > 0
  {
    && |ps.ark| == ARK_LEN && |ps.diag| == 3
    && (forall k :: 0 <= k < ARK_LEN ==> ps.ark[k] == Ark(p, k))
    && (forall i :: 0 <= i < 3 ==> ps.diag[i] == Diag(p, i))
  }

  method BuildParams(p: nat) returns (ps: Params)
    requires p > 0
    ensures IsParams(p, ps)
  {
    var ark, diag := [], [];
    for k := 0 to ARK_LEN
      invariant |ark| == k && forall j :: 0 <= j < k ==> ark[j] == Ark(p, j)
    {
      ark := ark + [(k + 1) % p];
    }
    for i := 0 to 3
      invariant |diag| == i && forall j :: 0 <= j < i ==> diag[j] == Diag(p, j)
    {
      diag := diag + [(i + 2) % p];
    }
    ps := Params(ark, diag);
  }

  function ExtMixUnrolled(p: nat, s0: int, s1: int, s2: int): (int, int, int)
    requires p > 0
  {
    var sum := Add(p, Add(p, s0, s1), s2);
    (Add(p, s0, sum), Add(p, s1, sum), Add(p, s2, sum))
  }

  function IntMixUnrolled(p: nat, d: seq<int>, s0: int, s1: int, s2: int): (int, int, int)
    requires p > 0 && |d| == 3
  {
    var sum := Add(p, Add(p, s0, s1), s2);
    var m0, m1, m2 := Mul(p, s0, d[0]), Mul(p, s1, d[1]), Mul(p, s2, d[2]);
    (Add(p, m0, sum), Add(p, m1, sum), Add(p, m2, sum))
  }

  /** The body of the contract's external-round loops; `k` is the round it implements. */
  method UnrolledFullRound(p: nat, ps: Params, ghost k: nat, x0: int, x1: int, x2: int, rc: nat)
    returns (s0: int, s1: int, s2: int)
    requires p > 0 && IsParams(p, ps) && k < ROUNDS && IsFull(k) && rc == ArkIndex(k)
    ensures Lanes(s0, s1, s2) == Round(p, k, Lanes(x0, x1, x2))
  {
    ArkInBounds(k);
    s0, s1, s2 := Add(p, x0, ps.ark[rc]), Add(p, x1, ps.ark[rc + 1]), Add(p, x2, ps.ark[rc + 2]);
    s0, s1, s2 := Sbox(p, s0), Sbox(p, s1), Sbox(p, s2);
    var (m0, m1, m2) := ExtMixUnrolled(p, s0, s1, s2);
    s0, s1, s2 := m0, m1, m2;
  }

  method UnrolledPartialRound(p: nat, ps: Params, ghost k: nat, x0: int, x1: int, x2: int, rc: nat)
    returns (s0: int, s1: int, s2: int)
    requires p > 0 && IsParams(p, ps) && k < ROUNDS && !IsFull(k) && rc == ArkIndex(k)
    ensures Lanes(s0, s1, s2) == Round(p, k, Lanes(x0, x1, x2))
  {
    ArkInBounds(k);
    s0, s1, s2 := Add(p, x0, ps.ark[rc]), x1, x2;
    s0 := Sbox(p, s0);
    var (m0, m1, m2) := IntMixUnrolled(p, ps.diag, s0, s1, s2);
    s0, s1, s2 := m0, m1, m2;
  }

  /** After `k` rounds: the lanes and the position in the constants. */
  ghost predicate Reached(p: nat, k: nat, start: Lanes, s: Lanes, rc: nat)
    requires p > 0
  {
    s == Rounds(p, k, start) && rc == ArkIndex(k)
  }

  lemma NextReached(p: nat, k: nat, start: Lanes, s: Lanes, rc: nat, s': Lanes)
    requires p > 0 && k < ROUNDS && Reached(p, k, start, s, rc) && s' == Round(p, k, s)
    ensures Reached(p, k + 1, start, s', rc + if IsFull(k) then 3 else 1)
  {
    ArkInBounds(k);
  }

  method Hash2Contract(p: nat, ps: Params, a: int, b: int) returns (r: int)
    requires p > 0 && IsParams(p, ps)
    ensures r == Hash2(p, a, b)
  {
    ghost var start := Lanes(a, b, 0);
    var s0, s1, s2 := a, b, 0;
    var (n0, n1, n2) := ExtMixUnrolled(p, s0, s1, s2);
    s0, s1, s2 := n0, n1, n2;
    var half := FULL_ROUNDS / 2;
    var rc := 0;
    for i := 0 to half
      invariant Reached(p, i, start, Lanes(s0, s1, s2), rc)
    {
      ghost var was := Lanes(s0, s1, s2);
      s0, s1, s2 := UnrolledFullRound(p, ps, i, s0, s1, s2, rc);
      NextReached(p, i, start, was, rc, Lanes(s0, s1, s2));
      rc := rc + 3;
    }
    for i := 0 to PARTIAL_ROUNDS
      invariant Reached(p, half + i, start, Lanes(s0, s1, s2), rc)
    {
      ghost var was := Lanes(s0, s1, s2);
      s0, s1, s2 := UnrolledPartialRound(p, ps, half + i, s0, s1, s2, rc);
      NextReached(p, half + i, start, was, rc, Lanes(s0, s1, s2));
      rc := rc + 1;
    }
    for i := 0 to half
      invariant Reached(p, half + PARTIAL_ROUNDS + i, start, Lanes(s0, s1, s2), rc)
    {
      ghost var was := Lanes(s0, s1, s2);
      s0, s1, s2 := UnrolledFullRound(p, ps, half + PARTIAL_ROUNDS + i, s0, s1, s2, rc);
      NextReached(p, half + PARTIAL_ROUNDS + i, start, was, rc, Lanes(s0, s1, s2));
      rc := rc + 3;
    }
    assert rc == ARK_LEN;
    r := s0;
  }

  // ----- the native mirror -------------------------------------------------------------------

  function LanesOf(s: seq<int>): Lanes
    requires |s| == 3
  {
    Lanes(s[0], s[1], s[2])
  }

  method StoreExtMix(p: nat, s: array<int>)
    requires p > 0 && s.Length == 3
    modifies s
    ensures LanesOf(s[..]) == ExtMix(p, old(LanesOf(s[..])))
  {
    var sum := Add(p, Add(p, s[0], s[1]), s[2]);
    s[0], s[1], s[2] := Add(p, s[0], sum), Add(p, s[1], sum), Add(p, s[2], sum);
  }

  method StoreIntMix(p: nat, s: array<int>)
    requires p > 0 && s.Length == 3
    modifies s
    ensures LanesOf(s[..]) == IntMix(p, old(LanesOf(s[..])))
  {
    var sum := Add(p, Add(p, s[0], s[1]), s[2]);
    s[0], s[1], s[2] := Add(p, Mul(p, s[0], Diag(p, 0)), sum), Add(p, Mul(p, s[1], Diag(p, 1)), sum),
      Add(p, Mul(p, s[2], Diag(p, 2)), sum);
  }

  /** One external round: constants, S-box and mix on all three lanes. */
  method NativeFullRound(p: nat, ghost k: nat, s: array<int>, rc: nat)
    requires p > 0 && s.Length == 3 && IsFull(k) && rc == ArkIndex(k)
    modifies s
    ensures LanesOf(s[..]) == Round(p, k, old(LanesOf(s[..])))
  {
    for i := 0 to 3
      invariant forall j :: 0 <= j < 3 ==> s[j] == if j < i then Add(p, old(s[j]), Ark(p, rc + j)) else old(s[j])
    {
      s[i] := Add(p, s[i], Ark(p, rc + i));
    }
    ghost var keyed := s[..];
    for i := 0 to 3
      invariant forall j :: 0 <= j < 3 ==> s[j] == if j < i then Sbox(p, keyed[j]) else keyed[j]
    {
      s[i] := Sbox(p, s[i]);
    }
    StoreExtMix(p, s);
  }

  method NativePartialRound(p: nat, ghost k: nat, s: array<int>, rc: nat)
    requires p > 0 && s.Length == 3 && !IsFull(k) && rc == ArkIndex(k)
    modifies s
    ensures LanesOf(s[..]) == Round(p, k, old(LanesOf(s[..])))
  {
    s[0] := Add(p, s[0], Ark(p, rc));
    s[0] := Sbox(p, s[0]);
    StoreIntMix(p, s);
  }

  method Hash2Native(p: nat, a: int, b: int) returns (r: int)
    requires p > 0
    ensures r == Hash2(p, a, b)
  {
    ghost var start := Lanes(a, b, 0);
    var s := new int[3];
    s[0], s[1], s[2] := a, b, 0;
    StoreExtMix(p, s);
    var half := FULL_ROUNDS / 2;
    var rc := 0;
    for i := 0 to half
      invariant rc == ArkIndex(i) && LanesOf(s[..]) == Rounds(p, i, start)
    {
      NativeFullRound(p, i, s, rc);
      rc := rc + 3;
    }
    for i := 0 to PARTIAL_ROUNDS
      invariant rc == ArkIndex(half + i) && LanesOf(s[..]) == Rounds(p, half + i, start)
    {
      NativePartialRound(p, half + i, s, rc);
      rc := rc + 1;
    }
    for i := 0 to half
      invariant rc == ArkIndex(half + PARTIAL_ROUNDS + i)
      invariant LanesOf(s[..]) == Rounds(p, half + PARTIAL_ROUNDS + i, start)
    {
      NativeFullRound(p, half + PARTIAL_ROUNDS + i, s, rc);
      rc := rc + 3;
    }
    assert rc == ARK_LEN;
    r := s[0];
  }
}
