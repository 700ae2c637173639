/**
  The Poseidon2 permutation of width 3 over the integers modulo `p`, as a function of the
  round number, and what it preserves: its state map is injective.
*/
module Poseidon2 {
  import opened Field

  const FULL_ROUNDS: nat := 8
  const PARTIAL_ROUNDS: nat := 57
  const HALF: nat := FULL_ROUNDS / 2
  const ROUNDS: nat := FULL_ROUNDS + PARTIAL_ROUNDS
  const ARK_LEN: nat := FULL_ROUNDS * 3 + PARTIAL_ROUNDS

  datatype Lanes = Lanes(x0: int, x1: int, x2: int)

  ghost predicate CanonicalLanes(p: nat, s: Lanes) {
    Canonical(p, s.x0) && Canonical(p, s.x1) && Canonical(p, s.x2)
  }

  function Ark(p: nat, k: nat): int
    requires p > 0
  {
    (k + 1) % p
  }

  function Diag(p: nat, i: nat): int
    requires p > 0
  {
    (i + 2) % p
  }

  function Sbox(p: nat, x: int): int
    requires p > 0
  {
    Pow(p, x, 5)
  }

  function Sum(p: nat, s: Lanes): int
    requires p > 0
  {
    Add(p, Add(p, s.x0, s.x1), s.x2)
  }

  function ExtMix(p: nat, s: Lanes): Lanes
    requires p > 0
  {
    var sum := Sum(p, s);
    Lanes(Add(p, s.x0, sum), Add(p, s.x1, sum), Add(p, s.x2, sum))
  }

  function IntMix(p: nat, s: Lanes): Lanes
    requires p > 0
  {
    var sum := Sum(p, s);
    Lanes(Add(p, Mul(p, s.x0, Diag(p, 0)), sum),
          Add(p, Mul(p, s.x1, Diag(p, 1)), sum),
          Add(p, Mul(p, s.x2, Diag(p, 2)), sum))
  }

  predicate IsFull(k: nat) {
    k < HALF || k >= HALF + PARTIAL_ROUNDS
  }

  /** The index of the first round constant that round `k` uses. */
  function ArkIndex(k: nat): nat {
    if k < HALF then 3 * k
    else if k < HALF + PARTIAL_ROUNDS then 3 * HALF + (k - HALF)
    else 3 * HALF + PARTIAL_ROUNDS + 3 * (k - HALF - PARTIAL_ROUNDS)
  }

  function AddArk(p: nat, k: nat, s: Lanes): Lanes
    requires p > 0
  {
    var rc := ArkIndex(k);
    if IsFull(k) then Lanes(Add(p, s.x0, Ark(p, rc)), Add(p, s.x1, Ark(p, rc + 1)), Add(p, s.x2, Ark(p, rc + 2)))
    else s.(x0 := Add(p, s.x0, Ark(p, rc)))
  }

  function Substitute(p: nat, k: nat, s: Lanes): Lanes
    requires p > 0
  {
    if IsFull(k) then Lanes(Sbox(p, s.x0), Sbox(p, s.x1), Sbox(p, s.x2)) else s.(x0 := Sbox(p, s.x0))
  }

  function Mix(p: nat, k: nat, s: Lanes): Lanes
    requires p > 0
  {
    if IsFull(k) then ExtMix(p, s) else IntMix(p, s)
  }

  function Round(p: nat, k: nat, s: Lanes): Lanes
    requires p > 0
  {
    Mix(p, k, Substitute(p, k, AddArk(p, k, s)))
  }

  /** The initial external mix followed by the first `n` rounds. */
  function Rounds(p: nat, n: nat, s: Lanes): Lanes
    requires p > 0
  {
    if n == 0 then ExtMix(p, s) else Round(p, n - 1, Rounds(p, n - 1, s))
  }

  function Permute(p: nat, s: Lanes): Lanes
    requires p > 0
  {
    Rounds(p, ROUNDS, s)
  }

  /** The 2-to-1 compression: lane 0 of the permutation of `(a, b, 0)`. */
  function Hash2(p: nat, a: int, b: int): int
    requires p > 0
  {
    Permute(p, Lanes(a, b, 0)).x0
  }

  /** Every round reads inside the table, and the last one ends exactly at its end. */
  lemma ArkInBounds(k: nat)
    requires k < ROUNDS
    ensures ArkIndex(k) + (if IsFull(k) then 3 else 1) == ArkIndex(k + 1) <= ARK_LEN == ArkIndex(ROUNDS) == 81
  {
  }

  // ----- the rounds as formulas ------------------------------------------------------------------

  /** The constants count up from 1, the diagonal from 2. */
  lemma ConstantsCountUp(p: nat, k: nat)
    requires p > 0
    ensures Ark(p, 0) == 1 % p && Ark(p, k + 1) == (Ark(p, k) + 1) % p
    ensures Diag(p, 0) == 2 % p && Diag(p, k + 1) == (Diag(p, k) + 1) % p
  {
    ReduceAdd(p, k + 1, 1);
    ReduceAdd(p, k + 2, 1);
  }

  /** The first four and the last four of the 65 rounds are full. */
  lemma FullRounds(k: nat)
    requires k < ROUNDS
    ensures ROUNDS == 65 && (IsFull(k) <==> k < 4 || 61 <= k)
  {
  }

  lemma FifthPower(p: nat, x: int)
    requires p > 0
    ensures Sbox(p, x) == (x * x * x * x * x) % p
  {
    assert Pow(p, x, 1) == Mul(p, x, Pow(p, x, 0));
    ReduceMul(p, 1, x);
    assert Pow(p, x, 1) == x % p;
    PowStep(p, x, 1, x);
    PowStep(p, x, 2, x * x);
    PowStep(p, x, 3, x * x * x);
    PowStep(p, x, 4, x * x * x * x);
  }

  lemma PowStep(p: nat, x: int, n: nat, y: int)
    requires p > 0 && Pow(p, x, n) == y % p
    ensures Pow(p, x, n + 1) == (y * x) % p
  {
    ReduceMul(p, y, x);
  }

  /** The external mix is the circulant matrix (2, 1, 1). */
  lemma ExtMixIsMatrix(p: nat, s: Lanes)
    requires p > 0
    ensures ExtMix(p, s)
         == Lanes((2 * s.x0 + s.x1 + s.x2) % p, (s.x0 + 2 * s.x1 + s.x2) % p, (s.x0 + s.x1 + 2 * s.x2) % p)
  {
    var sum := s.x0 + s.x1 + s.x2;
    SumIsReduced(p, s);
    ReduceAdd(p, sum, s.x0);
    ReduceAdd(p, sum, s.x1);
    ReduceAdd(p, sum, s.x2);
  }

  lemma SumIsReduced(p: nat, s: Lanes)
    requires p > 0
    ensures Sum(p, s) == (s.x0 + s.x1 + s.x2) % p
  {
    ReduceAdd(p, s.x0 + s.x1, s.x2);
  }

  /** The internal mix is the all-ones matrix with (2, 3, 4) added to its diagonal. */
  lemma IntMixIsMatrix(p: nat, s: Lanes)
    requires p > 0
    ensures IntMix(p, s)
         == Lanes((3 * s.x0 + s.x1 + s.x2) % p, (s.x0 + 4 * s.x1 + s.x2) % p, (s.x0 + s.x1 + 5 * s.x2) % p)
  {
    var sum := s.x0 + s.x1 + s.x2;
    SumIsReduced(p, s);
    ScaledLane(p, s.x0, 2, sum, 2 * s.x0 + sum);
    ScaledLane(p, s.x1, 3, sum, 3 * s.x1 + sum);
    ScaledLane(p, s.x2, 4, sum, 4 * s.x2 + sum);
  }

  lemma ScaledLane(p: nat, x: int, d: nat, sum: int, total: int)
    requires p > 0 && total == d * x + sum
    ensures Add(p, Mul(p, x, d % p), sum % p) == total % p
  {
    ReduceMul(p, d, x);
    ReduceAdd(p, x * d, sum % p);
    ReduceAdd(p, sum, x * d);
  }

  lemma AddsConstant(p: nat, x: int, k: nat)
    requires p > 0
    ensures Add(p, x, Ark(p, k)) == (x + (k + 1)) % p
  {
    ReduceAdd(p, k + 1, x);
  }

  /** A full round: add the constants, take fifth powers, mix. */
  lemma FullRoundIs(p: nat, k: nat, s: Lanes, y0: int, y1: int, y2: int)
    requires p > 0 && IsFull(k)
    requires var rc := ArkIndex(k);
      && y0 == Sbox(p, (s.x0 + (rc + 1)) % p) && y1 == Sbox(p, (s.x1 + (rc + 2)) % p)
      && y2 == Sbox(p, (s.x2 + (rc + 3)) % p)
    ensures Round(p, k, s) == Lanes((2 * y0 + y1 + y2) % p, (y0 + 2 * y1 + y2) % p, (y0 + y1 + 2 * y2) % p)
  {
    AddsConstant(p, s.x0, ArkIndex(k));
    AddsConstant(p, s.x1, ArkIndex(k) + 1);
    AddsConstant(p, s.x2, ArkIndex(k) + 2);
    ExtMixIsMatrix(p, Lanes(y0, y1, y2));
  }

  /** A partial round does that to the first lane only. */
  lemma PartialRoundIs(p: nat, k: nat, s: Lanes, y: int)
    requires p > 0 && !IsFull(k) && y == Sbox(p, (s.x0 + (ArkIndex(k) + 1)) % p)
    ensures Round(p, k, s) == Lanes((3 * y + s.x1 + s.x2) % p, (y + 4 * s.x1 + s.x2) % p, (y + s.x1 + 5 * s.x2) % p)
  {
    AddsConstant(p, s.x0, ArkIndex(k));
    IntMixIsMatrix(p, Lanes(y, s.x1, s.x2));
  }

  // ----- the hash as a chain of formulas ----------------------------------------------------------

  function Fifth(p: nat, x: int): int
    requires p > 0
  {
    (x * x * x * x * x) % p
  }

  /** The first constant of a round: three for each full round and one for each partial one, counted from 1. */
  function FirstConstant(k: nat): nat {
    if k < 4 then 3 * k + 1 else if k < 61 then k + 9 else 3 * k - 113
  }

  /** One round in numbers. */
  function Formula(p: nat, k: nat, s: Lanes): Lanes
    requires p > 0
  {
    var c := FirstConstant(k);
    var y0 := Fifth(p, (s.x0 + c) % p);
    if 4 <= k < 61 then Lanes((3 * y0 + s.x1 + s.x2) % p, (y0 + 4 * s.x1 + s.x2) % p, (y0 + s.x1 + 5 * s.x2) % p)
    else
      var y1, y2 := Fifth(p, (s.x1 + c + 1) % p), Fifth(p, (s.x2 + c + 2) % p);
      Lanes((2 * y0 + y1 + y2) % p, (y0 + 2 * y1 + y2) % p, (y0 + y1 + 2 * y2) % p)
  }

  lemma RoundIsFormula(p: nat, k: nat, s: Lanes)
    requires p > 0 && k < 65
    ensures Round(p, k, s) == Formula(p, k, s)
  {
    var c := FirstConstant(k);
    assert c == ArkIndex(k) + 1;
    FifthPower(p, (s.x0 + c) % p);
    if IsFull(k) {
      FifthPower(p, (s.x1 + c + 1) % p);
      FifthPower(p, (s.x2 + c + 2) % p);
      FullRoundIs(p, k, s, Fifth(p, (s.x0 + c) % p), Fifth(p, (s.x1 + c + 1) % p), Fifth(p, (s.x2 + c + 2) % p));
    } else {
      PartialRoundIs(p, k, s, Fifth(p, (s.x0 + c) % p));
    }
  }

  /** The states that hashing `a` and `b` goes through: the mix of (a, b, 0), then 65 rounds. */
  ghost predicate IsChain(p: nat, a: int, b: int, states: seq<Lanes>)
    requires p > 0
  {
    && |states| == 66 && states[0] == Lanes((2 * a + b) % p, (a + 2 * b) % p, (a + b) % p)
    && forall k :: 0 <= k < 65 ==> states[k + 1] == Formula(p, k, states[k])
  }

  lemma {:induction false} ChainIsRounds(p: nat, a: int, b: int, states: seq<Lanes>, n: nat)
    requires p > 0 && IsChain(p, a, b, states) && n <= 65
    ensures states[n] == Rounds(p, n, Lanes(a, b, 0))
  {
    if n == 0 {
      ExtMixIsMatrix(p, Lanes(a, b, 0));
    } else {
      ChainIsRounds(p, a, b, states, n - 1);
      RoundIsFormula(p, n - 1, states[n - 1]);
    }
  }

  lemma ChainExists(p: nat, a: int, b: int) returns (states: seq<Lanes>)
    requires p > 0
    ensures IsChain(p, a, b, states)
  {
    states := [Lanes((2 * a + b) % p, (a + 2 * b) % p, (a + b) % p)];
    for k := 0 to 65
      invariant |states| == k + 1 && states[0] == Lanes((2 * a + b) % p, (a + 2 * b) % p, (a + b) % p)
      invariant forall j :: 0 <= j < k ==> states[j + 1] == Formula(p, j, states[j])
    {
      states := states + [Formula(p, k, states[k])];
    }
  }

  /** The hash is the first lane at the end of that chain, which there is for any inputs. */
  lemma HashIsChain(p: nat, a: int, b: int, r: int)
    requires p > 0
    ensures Hash2(p, a, b) == r <==> exists states: seq<Lanes> :: IsChain(p, a, b, states) && states[65].x0 == r
  {
    var states := ChainExists(p, a, b);
    ChainIsRounds(p, a, b, states, 65);
    forall other: seq<Lanes> | IsChain(p, a, b, other)
      ensures other[65].x0 == Hash2(p, a, b)
    {
      ChainIsRounds(p, a, b, other, 65);
    }
  }

  // ----- injectivity -------------------------------------------------------------------------

  /** Congruence of integers, which sums and multiples respect. */
  ghost predicate Cong(p: nat, a: int, b: int)
    requires p > 0
  {
    a % p == b % p
  }

  lemma CongZero(p: nat, a: int, b: int)
    requires p > 0
    ensures Cong(p, a, b) <==> Cong(p, a - b, 0)
  {
    if Cong(p, a, b) {
      var k := Multiple(p, a, b);
      ModShift(p, 0, k);
    }
    if Cong(p, a - b, 0) {
      var k := Multiple(p, a - b, 0);
      ModShift(p, b, k);
    }
  }

  /** A linear combination of multiples of `p` is a multiple of `p`. */
  lemma Combine(p: nat, u: int, v: int, m: int, n: int)
    requires p > 0 && Cong(p, u, 0) && Cong(p, v, 0)
    ensures Cong(p, m * u + n * v, 0)
  {
    var j := Multiple(p, u, 0);
    var k := Multiple(p, v, 0);
    assert m * u + n * v == p * (m * j + n * k) by {
      assert m * (p * j) == p * (m * j);
      assert n * (p * k) == p * (n * k);
    }
    ModShift(p, 0, m * j + n * k);
  }

  lemma SumCong(p: nat, s: Lanes)
    requires p > 0
    ensures Cong(p, Sum(p, s), s.x0 + s.x1 + s.x2)
  {
    ReduceAdd(p, s.x0 + s.x1, s.x2);
    ReduceAdd(p, s.x0 + s.x1 + s.x2, 0);
  }

  /** Equal lanes of a mix mean that the differences satisfy the matching linear equation. */
  lemma LaneEquation(p: nat, d: nat, x: int, y: int, sx: int, sy: int, s: int, t: int)
    requires p > 0 && Cong(p, sx, s) && Cong(p, sy, t)
    requires Add(p, Mul(p, x, d % p), sx) == Add(p, Mul(p, y, d % p), sy)
    ensures Cong(p, d * (x - y) + (s - t), 0)
  {
    LaneValue(p, d, x, sx, s);
    LaneValue(p, d, y, sy, t);
    CongZero(p, d * x + s, d * y + t);
    assert d * x + s - (d * y + t) == d * (x - y) + (s - t);
  }

  lemma LaneValue(p: nat, d: nat, x: int, sx: int, s: int)
    requires p > 0 && Cong(p, sx, s)
    ensures Add(p, Mul(p, x, d % p), sx) == (d * x + s) % p
  {
    ReduceMul(p, d, x);
    assert x * d == d * x;
    ReduceAdd(p, d * x, sx);
    ReduceAdd(p, sx, d * x);
    ReduceAdd(p, s, d * x);
  }

  /** A number congruent to zero times a factor the prime does not divide is itself congruent to zero. */
  lemma DropFactor(p: nat, c: int, u: int)
    requires IsPrime(p) && c % p != 0 && Cong(p, c * u, 0)
    ensures Cong(p, u, 0)
  {
    NoZeroDivisors(p, c, u);
  }

  lemma SmallPrime(p: nat)
    requires IsPrime(p)
    ensures p != 2 ==> 2 % p != 0 && 4 % p != 0
    ensures p != 5 ==> 25 % p != 0
  {
    if p != 2 && 4 % p == 0 { NoZeroDivisors(p, 2, 2); }
    if p != 5 && 25 % p == 0 { NoZeroDivisors(p, 5, 5); }
  }

  lemma SameCanonical(p: nat, x: int, y: int)
    requires p > 0 && Canonical(p, x) && Canonical(p, y) && Cong(p, x - y, 0)
    ensures x == y
  {
    CongZero(p, x, y);
    CanonicalMod(p, x);
    CanonicalMod(p, y);
  }

  lemma ExtMixInjective(p: nat, s: Lanes, t: Lanes)
    requires IsPrime(p) && p != 2
    requires CanonicalLanes(p, s) && CanonicalLanes(p, t) && ExtMix(p, s) == ExtMix(p, t)
    ensures s == t
  {
    var u0, u1, u2 := s.x0 - t.x0, s.x1 - t.x1, s.x2 - t.x2;
    var total := u0 + u1 + u2;
    SumCong(p, s);
    SumCong(p, t);
    ExtLane(p, s.x0, t.x0, Sum(p, s), Sum(p, t), s.x0 + s.x1 + s.x2, t.x0 + t.x1 + t.x2);
    ExtLane(p, s.x1, t.x1, Sum(p, s), Sum(p, t), s.x0 + s.x1 + s.x2, t.x0 + t.x1 + t.x2);
    ExtLane(p, s.x2, t.x2, Sum(p, s), Sum(p, t), s.x0 + s.x1 + s.x2, t.x0 + t.x1 + t.x2);
    ExtDifferences(p, u0, u1, u2, total);
    SameCanonical(p, s.x0, t.x0);
    SameCanonical(p, s.x1, t.x1);
    SameCanonical(p, s.x2, t.x2);
  }

  /** The only solution of the external mix's equations. */
  lemma ExtDifferences(p: nat, u0: int, u1: int, u2: int, total: int)
    requires IsPrime(p) && p != 2 && total == u0 + u1 + u2
    requires Cong(p, u0 + total, 0) && Cong(p, u1 + total, 0) && Cong(p, u2 + total, 0)
    ensures Cong(p, u0, 0) && Cong(p, u1, 0) && Cong(p, u2, 0)
  {
    Combine(p, u0 + total, u1 + total, 1, 1);
    Combine(p, (u0 + total) + (u1 + total), u2 + total, 1, 1);
    assert Cong(p, 4 * total, 0);
    SmallPrime(p);
    DropFactor(p, 4, total);
    Combine(p, u0 + total, total, 1, -1);
    Combine(p, u1 + total, total, 1, -1);
    Combine(p, u2 + total, total, 1, -1);
  }

  lemma ExtLane(p: nat, x: int, y: int, sx: int, sy: int, s: int, t: int)
    requires p > 0 && Cong(p, sx, s) && Cong(p, sy, t) && Add(p, x, sx) == Add(p, y, sy)
    ensures Cong(p, (x - y) + (s - t), 0)
  {
    ReduceAdd(p, sx, x);
    ReduceAdd(p, s, x);
    ReduceAdd(p, sy, y);
    ReduceAdd(p, t, y);
    CongZero(p, x + s, y + t);
  }

  lemma IntMixInjective(p: nat, s: Lanes, t: Lanes)
    requires IsPrime(p) && p != 2 && p != 5
    requires CanonicalLanes(p, s) && CanonicalLanes(p, t) && IntMix(p, s) == IntMix(p, t)
    ensures s == t
  {
    var u0, u1, u2 := s.x0 - t.x0, s.x1 - t.x1, s.x2 - t.x2;
    var total := u0 + u1 + u2;
    var ss, tt := s.x0 + s.x1 + s.x2, t.x0 + t.x1 + t.x2;
    SumCong(p, s);
    SumCong(p, t);
    LaneEquation(p, 2, s.x0, t.x0, Sum(p, s), Sum(p, t), ss, tt);
    LaneEquation(p, 3, s.x1, t.x1, Sum(p, s), Sum(p, t), ss, tt);
    LaneEquation(p, 4, s.x2, t.x2, Sum(p, s), Sum(p, t), ss, tt);
    Combine(p, 2 * u0 + total, 3 * u1 + total, 6, 4);
    Combine(p, 6 * (2 * u0 + total) + 4 * (3 * u1 + total), 4 * u2 + total, 1, 3);
    assert Cong(p, 25 * total, 0);
    SmallPrime(p);
    DropFactor(p, 25, total);
    Combine(p, 2 * u0 + total, total, 1, -1);
    DropFactor(p, 2, u0);
    Combine(p, 4 * u2 + total, total, 1, -1);
    DropFactor(p, 4, u2);
    Combine(p, u0, u2, -1, -1);
    Combine(p, total, -u0 - u2, 1, 1);
    SameCanonical(p, s.x0, t.x0);
    SameCanonical(p, s.x1, t.x1);
    SameCanonical(p, s.x2, t.x2);
  }

  ghost predicate ExtMixIsInjective(p: nat)
    requires p > 0
  {
    forall s, t :: CanonicalLanes(p, s) && CanonicalLanes(p, t) && ExtMix(p, s) == ExtMix(p, t) ==> s == t
  }

  ghost predicate IntMixIsInjective(p: nat)
    requires p > 0
  {
    forall s, t :: CanonicalLanes(p, s) && CanonicalLanes(p, t) && IntMix(p, s) == IntMix(p, t) ==> s == t
  }

  /** Modulo 2 both mixes, and modulo 5 the internal one, send a nonzero state to zero. */
  lemma ExtMixSingular2() returns (s: Lanes, t: Lanes)
    ensures CanonicalLanes(2, s) && CanonicalLanes(2, t) && s != t && ExtMix(2, s) == ExtMix(2, t)
  {
    s, t := Lanes(0, 0, 0), Lanes(1, 1, 1);
    var a, b := ExtMix(2, Lanes(0, 0, 0)), ExtMix(2, Lanes(1, 1, 1));
    assert a.x0 == 0 && a.x1 == 0 && a.x2 == 0;
    assert b.x0 == 0 && b.x1 == 0 && b.x2 == 0;
  }

  lemma IntMixSingular2() returns (s: Lanes, t: Lanes)
    ensures CanonicalLanes(2, s) && CanonicalLanes(2, t) && s != t && IntMix(2, s) == IntMix(2, t)
  {
    s, t := Lanes(0, 0, 0), Lanes(1, 0, 1);
    var a, b := IntMix(2, Lanes(0, 0, 0)), IntMix(2, Lanes(1, 0, 1));
    assert a.x0 == 0 && a.x1 == 0 && a.x2 == 0;
    assert b.x0 == 0 && b.x1 == 0 && b.x2 == 0;
  }

  lemma IntMixSingular5() returns (s: Lanes, t: Lanes)
    ensures CanonicalLanes(5, s) && CanonicalLanes(5, t) && s != t && IntMix(5, s) == IntMix(5, t)
  {
    s, t := Lanes(0, 0, 0), Lanes(2, 3, 1);
    var a, b := IntMix(5, Lanes(0, 0, 0)), IntMix(5, Lanes(2, 3, 1));
    assert a.x0 == 0 && a.x1 == 0 && a.x2 == 0;
    assert b.x0 == 0 && b.x1 == 0 && b.x2 == 0;
  }

  lemma ExtMixCollision(p: nat, s: Lanes, t: Lanes)
    requires p > 0 && CanonicalLanes(p, s) && CanonicalLanes(p, t) && ExtMix(p, s) == ExtMix(p, t) && s != t
    ensures !ExtMixIsInjective(p)
  {
  }

  lemma IntMixCollision(p: nat, s: Lanes, t: Lanes)
    requires p > 0 && CanonicalLanes(p, s) && CanonicalLanes(p, t) && IntMix(p, s) == IntMix(p, t) && s != t
    ensures !IntMixIsInjective(p)
  {
  }

  lemma ExtMixInjectiveAt(p: nat)
    requires IsPrime(p) && p != 2
    ensures ExtMixIsInjective(p)
  {
    forall s, t | CanonicalLanes(p, s) && CanonicalLanes(p, t) && ExtMix(p, s) == ExtMix(p, t)
      ensures s == t
    {
      ExtMixInjective(p, s, t);
    }
  }

  lemma IntMixInjectiveAt(p: nat)
    requires IsPrime(p) && p != 2 && p != 5
    ensures IntMixIsInjective(p)
  {
    forall s, t | CanonicalLanes(p, s) && CanonicalLanes(p, t) && IntMix(p, s) == IntMix(p, t)
      ensures s == t
    {
      IntMixInjective(p, s, t);
    }
  }

  /** The two mixing layers are invertible modulo exactly those primes that do not divide 4 and 50. */
  lemma MixInjectiveIff(p: nat)
    requires IsPrime(p)
    ensures ExtMixIsInjective(p) <==> p != 2
    ensures IntMixIsInjective(p) <==> p != 2 && p != 5
  {
    var s, t := ExtMixSingular2();
    ExtMixCollision(2, s, t);
    s, t := IntMixSingular2();
    IntMixCollision(2, s, t);
    s, t := IntMixSingular5();
    IntMixCollision(5, s, t);
    if p != 2 {
      ExtMixInjectiveAt(p);
      if p != 5 {
        IntMixInjectiveAt(p);
      }
    }
  }

  lemma AddInjective(p: nat, x: int, y: int, c: int)
    requires p > 0 && Canonical(p, x) && Canonical(p, y) && Add(p, x, c) == Add(p, y, c)
    ensures x == y
  {
    CongZero(p, x + c, y + c);
    SameCanonical(p, x, y);
  }

  lemma AddArkInjective(p: nat, k: nat, s: Lanes, t: Lanes)
    requires p > 0 && CanonicalLanes(p, s) && CanonicalLanes(p, t) && AddArk(p, k, s) == AddArk(p, k, t)
    ensures s == t
  {
    var rc := ArkIndex(k);
    AddInjective(p, s.x0, t.x0, Ark(p, rc));
    if IsFull(k) {
      AddInjective(p, s.x1, t.x1, Ark(p, rc + 1));
      AddInjective(p, s.x2, t.x2, Ark(p, rc + 2));
    }
  }

  lemma SubstituteInjective(p: nat, k: nat, s: Lanes, t: Lanes)
    requires IsPrime(p) && p % 5 != 1
    requires CanonicalLanes(p, s) && CanonicalLanes(p, t) && Substitute(p, k, s) == Substitute(p, k, t)
    ensures s == t
  {
    FifthPowerInjective(p, s.x0, t.x0);
    if IsFull(k) {
      FifthPowerInjective(p, s.x1, t.x1);
      FifthPowerInjective(p, s.x2, t.x2);
    }
  }

  lemma RoundInjective(p: nat, k: nat, s: Lanes, t: Lanes)
    requires IsPrime(p) && p > 5 && p % 5 != 1
    requires CanonicalLanes(p, s) && CanonicalLanes(p, t) && Round(p, k, s) == Round(p, k, t)
    ensures s == t
  {
    var s1, t1 := AddArk(p, k, s), AddArk(p, k, t);
    var s2, t2 := Substitute(p, k, s1), Substitute(p, k, t1);
    if IsFull(k) {
      ExtMixInjective(p, s2, t2);
    } else {
      IntMixInjective(p, s2, t2);
    }
    SubstituteInjective(p, k, s1, t1);
    AddArkInjective(p, k, s, t);
  }

  /** The whole state map is injective: no information is lost before the truncation to lane 0. */
  lemma {:induction false} RoundsInjective(p: nat, n: nat, s: Lanes, t: Lanes)
    requires IsPrime(p) && p > 5 && p % 5 != 1
    requires CanonicalLanes(p, s) && CanonicalLanes(p, t) && Rounds(p, n, s) == Rounds(p, n, t)
    ensures s == t
  {
    if n == 0 {
      ExtMixInjective(p, s, t);
    } else {
      RoundInjective(p, n - 1, Rounds(p, n - 1, s), Rounds(p, n - 1, t));
      RoundsInjective(p, n - 1, s, t);
    }
  }

  lemma PermutationInjective(p: nat, s: Lanes, t: Lanes)
    requires IsPrime(p) && p > 5 && p % 5 != 1
    requires CanonicalLanes(p, s) && CanonicalLanes(p, t)
    ensures Permute(p, s) == Permute(p, t) <==> s == t
  {
    if Permute(p, s) == Permute(p, t) {
      RoundsInjective(p, ROUNDS, s, t);
    }
  }

  lemma AddCanonical(p: nat, a: int, b: int)
    requires p > 0
    ensures Canonical(p, Add(p, a, b))
  {
  }

  lemma MixCanonical(p: nat, k: nat, s: Lanes)
    requires p > 0
    ensures CanonicalLanes(p, Mix(p, k, s))
  {
    var sum := Sum(p, s);
    if IsFull(k) {
      AddCanonical(p, s.x0, sum);
      AddCanonical(p, s.x1, sum);
      AddCanonical(p, s.x2, sum);
    } else {
      AddCanonical(p, Mul(p, s.x0, Diag(p, 0)), sum);
      AddCanonical(p, Mul(p, s.x1, Diag(p, 1)), sum);
      AddCanonical(p, Mul(p, s.x2, Diag(p, 2)), sum);
    }
  }

  lemma RoundsCanonical(p: nat, n: nat, s: Lanes)
    requires p > 0
    ensures CanonicalLanes(p, Rounds(p, n, s))
  {
    if n == 0 {
      MixCanonical(p, 0, s);
    } else {
      MixCanonical(p, n - 1, Substitute(p, n - 1, AddArk(p, n - 1, Rounds(p, n - 1, s))));
    }
  }

  /** Whatever is hashed, the result is below the modulus. */
  lemma HashCanonical(p: nat, a: int, b: int)
    requires p > 0
    ensures Canonical(p, Hash2(p, a, b))
  {
    RoundsCanonical(p, ROUNDS, Lanes(a, b, 0));
  }

  lemma AddReduces(p: nat, a: int, b: int)
    requires p > 0
    ensures Add(p, a % p, b) == Add(p, a, b) && Add(p, b, a % p) == Add(p, b, a)
  {
    ReduceAdd(p, a, b);
  }

  lemma ExtMixReduces(p: nat, a: int, b: int, c: int)
    requires p > 0
    ensures ExtMix(p, Lanes(a % p, b % p, c)) == ExtMix(p, Lanes(a, b, c))
  {
    AddReduces(p, a, b % p);
    AddReduces(p, b, a);
    var sum := Sum(p, Lanes(a, b, c));
    AddReduces(p, a, sum);
    AddReduces(p, b, sum);
  }

  lemma {:induction false} RoundsReduce(p: nat, n: nat, a: int, b: int, c: int)
    requires p > 0
    ensures Rounds(p, n, Lanes(a % p, b % p, c)) == Rounds(p, n, Lanes(a, b, c))
  {
    if n == 0 {
      ExtMixReduces(p, a, b, c);
    } else {
      RoundsReduce(p, n - 1, a, b, c);
    }
  }

  /** The hash sees its inputs only modulo `p`. */
  lemma HashReduces(p: nat, a: int, b: int)
    requires p > 0
    ensures Hash2(p, a % p, b % p) == Hash2(p, a, b)
  {
    RoundsReduce(p, ROUNDS, a, b, 0);
  }

  /** The BLS12-381 scalar field order. */
  const FR_MODULUS: nat := 0x73eda753299d7d483339d80809a1d80553bda402fffe5bfeffffffff00000001

  /** It is the twelfth cyclotomic polynomial at the curve's parameter. */
  lemma ModulusOfCurve(z: int)
    requires z == -0xd201_0000_0001_0000
    ensures FR_MODULUS == z * z * z * z - z * z + 1
  {
  }

  /** Every element of the code's field has at least two 32-byte encodings. */
  lemma TwoEncodingsFit()
    ensures 2 * FR_MODULUS <= TWO_TO_256
  {
  }

  /** The code's modulus meets the two conditions on the size and the residue. */
  lemma ModulusFits()
    ensures FR_MODULUS > 5 && FR_MODULUS % 5 != 1
  {
  }
}
