/**
  The Groth16 verifier (contracts/groth16-verifier/src/lib.rs): a multi-scalar sum and one
  multi-pairing check, proved to decide the textbook equation. The curve is abstract: two
  groups, written additively, and a pairing that is linear in its first argument.
*/
module Groth16 {
  import opened Wrappers
  import Field

  datatype Group<!T> = Group(zero: T, add: (T, T) -> T, neg: T -> T)

  /** The laws of a commutative group, for these elements. */
  ghost predicate Laws<T>(g: Group<T>, a: T, b: T, c: T) {
    && g.add(g.zero, a) == a && g.add(a, g.neg(a)) == g.zero
    && g.add(a, b) == g.add(b, a) && g.add(g.add(a, b), c) == g.add(a, g.add(b, c))
  }

  ghost predicate IsGroup<T(!new)>(g: Group<T>) {
    forall a, b, c :: Laws(g, a, b, c)
  }

  /** Every element's order divides `r`. */
  ghost predicate HasOrder<T(!new)>(g: Group<T>, r: nat) {
    IsGroup(g) && r > 0 && forall p :: Mul(g, r, p) == g.zero
  }

  /** G1, the target group, the pairing and the order of G1. */
  datatype Curve<!A, !B, !T> = Curve(g1: Group<A>, gt: Group<T>, e: (A, B) -> T, r: nat)

  /** The host's bilinear group: every point of G1 has order dividing `r`. */
  ghost predicate IsCurve<A(!new), B(!new), T(!new)>(c: Curve<A, B, T>) {
    && HasOrder(c.g1, c.r) && IsGroup(c.gt)
    && forall p, q, s :: Linear(c, p, q, s)
  }

  ghost predicate Linear<A, B, T>(c: Curve<A, B, T>, p: A, q: A, s: B) {
    c.e(c.g1.add(p, q), s) == c.gt.add(c.e(p, s), c.e(q, s))
  }

  /** `n · p`. */
  function Mul<T>(g: Group<T>, n: nat, p: T): T {
    if n == 0 then g.zero else g.add(p, Mul(g, n - 1, p))
  }

  datatype VerifyingKey<A, B> = VerifyingKey(alpha: A, beta: B, gamma: B, delta: B, ic: seq<A>)

  datatype Proof<A, B> = Proof(a: A, b: B, c: A)

  /** The host's multi-scalar multiplication. */
  function Msm<T>(g: Group<T>, points: seq<T>, scalars: seq<nat>): T
    requires |points| == |scalars|
  {
    if points == [] then g.zero
    else
      var n := |points| - 1;
      g.add(Msm(g, points[..n], scalars[..n]), Mul(g, scalars[n], points[n]))
  }

  /** The host's multi-pairing check. */
  function PairingSum<A, B, T>(c: Curve<A, B, T>, ps: seq<A>, qs: seq<B>): T
    requires |ps| == |qs|
  {
    if ps == [] then c.gt.zero
    else c.gt.add(c.e(ps[0], qs[0]), PairingSum(c, ps[1..], qs[1..]))
  }

  /** `IC[0] + s[0]·IC[1] + .. + s[n-1]·IC[n]`. */
  function Combined<T>(g: Group<T>, ic: seq<T>, signals: seq<nat>): T
    requires |ic| == |signals| + 1
  {
    g.add(ic[0], Msm(g, ic[1..], signals))
  }

  /** The Groth16 equation: e(A, B) = e(alpha, beta) · e(vk_x, gamma) · e(C, delta). */
  ghost predicate Accepts<A, B, T>(c: Curve<A, B, T>, vk: VerifyingKey<A, B>, proof: Proof<A, B>, signals: seq<nat>)
    requires |vk.ic| == |signals| + 1
  {
    c.e(proof.a, proof.b) ==
      c.gt.add(c.e(vk.alpha, vk.beta),
               c.gt.add(c.e(Combined(c.g1, vk.ic, signals), vk.gamma), c.e(proof.c, vk.delta)))
  }

  // ----- group facts -------------------------------------------------------------------------------

  lemma GroupLaws<T(!new)>(g: Group<T>, a: T, b: T, c: T)
    requires IsGroup(g)
    ensures g.add(g.zero, a) == a && g.add(a, g.neg(a)) == g.zero
    ensures g.add(a, b) == g.add(b, a) && g.add(g.add(a, b), c) == g.add(a, g.add(b, c))
  {
    assert Laws(g, a, b, c);
  }

  lemma UniqueInverse<T(!new)>(g: Group<T>, a: T, b: T)
    requires IsGroup(g) && g.add(a, b) == g.zero
    ensures b == g.neg(a)
  {
    var n := g.neg(a);
    GroupLaws(g, b, a, n);
    GroupLaws(g, a, n, b);
    GroupLaws(g, n, a, b);
    GroupLaws(g, n, g.zero, a);
    GroupLaws(g, g.zero, n, b);
  }

  lemma RightZero<T(!new)>(g: Group<T>, a: T)
    requires IsGroup(g)
    ensures g.add(a, g.zero) == a
  {
    GroupLaws(g, a, g.zero, a);
  }

  lemma MulUnfolds<T>(g: Group<T>, n: nat, p: T)
    requires n > 0
    ensures Mul(g, n, p) == g.add(p, Mul(g, n - 1, p))
  {
  }

  lemma OrderOf<A(!new), B(!new), T(!new)>(c: Curve<A, B, T>, p: A)
    requires IsCurve(c)
    ensures IsGroup(c.g1) && c.r > 0 && Mul(c.g1, c.r, p) == c.g1.zero
  {
  }

  /** `(r - 1) · p` is the inverse of `p`. */
  lemma NegateByOrder<A(!new), B(!new), T(!new)>(c: Curve<A, B, T>, p: A)
    requires IsCurve(c)
    ensures Mul(c.g1, c.r - 1, p) == c.g1.neg(p)
  {
    OrderOf(c, p);
    MulUnfolds(c.g1, c.r, p);
    UniqueInverse(c.g1, p, Mul(c.g1, c.r - 1, p));
  }

  lemma PairingAdds<A(!new), B(!new), T(!new)>(c: Curve<A, B, T>, p: A, q: A, s: B)
    requires IsCurve(c)
    ensures c.e(c.g1.add(p, q), s) == c.gt.add(c.e(p, s), c.e(q, s))
  {
    assert Linear(c, p, q, s);
  }

  /** Only zero is its own double. */
  lemma OwnDouble<T(!new)>(g: Group<T>, x: T)
    requires IsGroup(g) && g.add(x, x) == x
    ensures x == g.zero
  {
    var n := g.neg(x);
    GroupLaws(g, x, x, n);
    RightZero(g, x);
  }

  lemma PairingOfZero<A(!new), B(!new), T(!new)>(c: Curve<A, B, T>, q: B)
    requires IsCurve(c)
    ensures c.e(c.g1.zero, q) == c.gt.zero
  {
    GroupLaws(c.g1, c.g1.zero, c.g1.zero, c.g1.zero);
    PairingAdds(c, c.g1.zero, c.g1.zero, q);
    OwnDouble(c.gt, c.e(c.g1.zero, q));
  }

  lemma PairingOfInverse<A(!new), B(!new), T(!new)>(c: Curve<A, B, T>, p: A, q: B)
    requires IsCurve(c)
    ensures c.e(c.g1.neg(p), q) == c.gt.neg(c.e(p, q))
  {
    GroupLaws(c.g1, p, p, p);
    PairingAdds(c, p, c.g1.neg(p), q);
    PairingOfZero(c, q);
    UniqueInverse(c.gt, c.e(p, q), c.e(c.g1.neg(p), q));
  }

  /** Moving a term to the other side. */
  lemma MoveAcross<T(!new)>(g: Group<T>, x: T, y: T)
    requires IsGroup(g)
    ensures g.add(g.neg(x), y) == g.zero <==> x == y
  {
    GroupLaws(g, x, g.neg(x), x);
    UniqueInverse(g, g.neg(x), x);
    if g.add(g.neg(x), y) == g.zero {
      UniqueInverse(g, g.neg(x), y);
    }
  }

  lemma FourTerms<A, B, T>(c: Curve<A, B, T>, p0: A, p1: A, p2: A, p3: A, q0: B, q1: B, q2: B, q3: B)
    ensures PairingSum(c, [p0, p1, p2, p3], [q0, q1, q2, q3]) ==
      c.gt.add(c.e(p0, q0), c.gt.add(c.e(p1, q1), c.gt.add(c.e(p2, q2), c.gt.add(c.e(p3, q3), c.gt.zero))))
  {
    assert [p0, p1, p2, p3][1..] == [p1, p2, p3] && [q0, q1, q2, q3][1..] == [q1, q2, q3];
    assert [p1, p2, p3][1..] == [p2, p3] && [q1, q2, q3][1..] == [q2, q3];
    assert [p2, p3][1..] == [p3] && [q2, q3][1..] == [q3];
    assert [p3][1..] == [] && [q3][1..] == [];
    assert PairingSum(c, [p3], [q3]) == c.gt.add(c.e(p3, q3), c.gt.zero);
    assert PairingSum(c, [p2, p3], [q2, q3]) == c.gt.add(c.e(p2, q2), c.gt.add(c.e(p3, q3), c.gt.zero));
    assert PairingSum(c, [p1, p2, p3], [q1, q2, q3]) == c.gt.add(c.e(p1, q1), PairingSum(c, [p2, p3], [q2, q3]));
  }

  lemma FourPairings<A(!new), B(!new), T(!new)>(c: Curve<A, B, T>, p0: A, p1: A, p2: A, p3: A, q0: B, q1: B, q2: B,
                                                q3: B)
    requires IsGroup(c.gt)
    ensures PairingSum(c, [p0, p1, p2, p3], [q0, q1, q2, q3]) ==
      c.gt.add(c.e(p0, q0), c.gt.add(c.e(p1, q1), c.gt.add(c.e(p2, q2), c.e(p3, q3))))
  {
    FourTerms(c, p0, p1, p2, p3, q0, q1, q2, q3);
    RightZero(c.gt, c.e(p3, q3));
  }

  /** The one-sided check with `(r - 1)·A` decides the equation. */
  lemma CheckDecides<A(!new), B(!new), T(!new)>(c: Curve<A, B, T>, vk: VerifyingKey<A, B>, proof: Proof<A, B>,
                                                signals: seq<nat>,
                                                        vkX: A)
    requires IsCurve(c) && |vk.ic| == |signals| + 1 && vkX == Combined(c.g1, vk.ic, signals)
    ensures PairingSum(c, [Mul(c.g1, c.r - 1, proof.a), vk.alpha, vkX, proof.c],
                          [proof.b, vk.beta, vk.gamma, vk.delta]) == c.gt.zero
       <==> Accepts(c, vk, proof, signals)
  {
    var negA := Mul(c.g1, c.r - 1, proof.a);
    FourPairings(c, negA, vk.alpha, vkX, proof.c, proof.b, vk.beta, vk.gamma, vk.delta);
    NegateByOrder(c, proof.a);
    PairingOfInverse(c, proof.a, proof.b);
    MoveAcross(c.gt, c.e(proof.a, proof.b),
               c.gt.add(c.e(vk.alpha, vk.beta), c.gt.add(c.e(vkX, vk.gamma), c.e(proof.c, vk.delta))));
  }

  // ----- signals count only modulo the order ---------------------------------------------------------

  lemma {:induction false} MulAdd<T(!new)>(g: Group<T>, m: nat, n: nat, p: T)
    requires IsGroup(g)
    ensures Mul(g, m + n, p) == g.add(Mul(g, m, p), Mul(g, n, p))
  {
    if m == 0 {
      GroupLaws(g, Mul(g, n, p), p, p);
    } else {
      MulAdd(g, m - 1, n, p);
      GroupLaws(g, p, Mul(g, m - 1, p), Mul(g, n, p));
    }
  }

  lemma MulPeriod<T(!new)>(g: Group<T>, n: nat, r: nat, p: T)
    requires IsGroup(g) && Mul(g, r, p) == g.zero
    ensures Mul(g, n + r, p) == Mul(g, n, p)
  {
    MulAdd(g, n, r, p);
    RightZero(g, Mul(g, n, p));
  }

  lemma {:induction false} MulModOrder<T(!new)>(g: Group<T>, r: nat, n: nat, p: T)
    requires HasOrder(g, r)
    ensures Mul(g, n, p) == Mul(g, n % r, p)
  {
    if n >= r {
      MulPeriod(g, n - r, r, p);
      MulModOrder(g, r, n - r, p);
      Field.ModShift(r, n - r, 1);
    } else {
      Field.CanonicalMod(r, n);
    }
  }

  ghost predicate SameModOrder(r: nat, s: seq<nat>, t: seq<nat>)
    requires r > 0
  {
    |s| == |t| && forall i :: 0 <= i < |s| ==> s[i] % r == t[i] % r
  }

  lemma {:induction false} MsmModOrder<T(!new)>(g: Group<T>, r: nat, points: seq<T>, s: seq<nat>, t: seq<nat>)
    requires HasOrder(g, r) && |points| == |s| && SameModOrder(r, s, t)
    ensures Msm(g, points, s) == Msm(g, points, t)
  {
    if points != [] {
      var n := |points| - 1;
      MsmModOrder(g, r, points[..n], s[..n], t[..n]);
      MulModOrder(g, r, s[n], points[n]);
      MulModOrder(g, r, t[n], points[n]);
    }
  }

  /** The verifier cannot tell a signal from one that differs by a multiple of the order. */
  lemma AcceptsModOrder<A(!new), B(!new), T(!new)>(c: Curve<A, B, T>, vk: VerifyingKey<A, B>, proof: Proof<A, B>,
                                                   s: seq<nat>, t: seq<nat>)
    requires HasOrder(c.g1, c.r) && |vk.ic| == |s| + 1 && SameModOrder(c.r, s, t)
    ensures Accepts(c, vk, proof, s) <==> Accepts(c, vk, proof, t)
  {
    MsmModOrder(c.g1, c.r, vk.ic[1..], s, t);
  }

  // ----- what the combination of the signals is ------------------------------------------------------

  lemma SwapLast<T(!new)>(g: Group<T>, a: T, b: T, c: T)
    requires IsGroup(g)
    ensures g.add(g.add(a, b), c) == g.add(g.add(a, c), b) && g.add(a, g.add(c, b)) == g.add(g.add(a, b), c)
  {
    GroupLaws(g, a, b, c);
    GroupLaws(g, a, c, b);
    GroupLaws(g, b, c, a);
  }

  lemma {:induction false} MsmRaised<T(!new)>(g: Group<T>, points: seq<T>, s: seq<nat>, i: nat)
    requires IsGroup(g) && i < |points| == |s|
    ensures Msm(g, points, s[i := s[i] + 1]) == g.add(Msm(g, points, s), points[i])
  {
    var n, s' := |points| - 1, s[i := s[i] + 1];
    if i == n {
      assert s'[..n] == s[..n];
      SwapLast(g, Msm(g, points[..n], s[..n]), Mul(g, s[n], points[n]), points[n]);
    } else {
      assert s'[..n] == s[..n][i := s[i] + 1];
      MsmRaised(g, points[..n], s[..n], i);
      SwapLast(g, Msm(g, points[..n], s[..n]), Mul(g, s[n], points[n]), points[i]);
    }
  }

  /** Raising a signal by one adds its point. */
  lemma CombinedRaised<T(!new)>(g: Group<T>, ic: seq<T>, s: seq<nat>, i: nat)
    requires IsGroup(g) && |ic| == |s| + 1 && i < |s|
    ensures Combined(g, ic, s[i := s[i] + 1]) == g.add(Combined(g, ic, s), ic[i + 1])
  {
    MsmRaised(g, ic[1..], s, i);
    GroupLaws(g, ic[0], Msm(g, ic[1..], s), ic[i + 1]);
  }

  function Zeros(n: nat): (s: seq<nat>)
    ensures |s| == n && forall i :: 0 <= i < n ==> s[i] == 0
  {
    if n == 0 then [] else Zeros(n - 1) + [0]
  }

  lemma {:induction false} MsmOfZeros<T(!new)>(g: Group<T>, points: seq<T>, s: seq<nat>)
    requires IsGroup(g) && |points| == |s| && forall i :: 0 <= i < |s| ==> s[i] == 0
    ensures Msm(g, points, s) == g.zero
  {
    if points != [] {
      MsmOfZeros(g, points[..|points| - 1], s[..|points| - 1]);
      RightZero(g, g.zero);
    }
  }

  /** With all signals 0 the combination is the key's first point. */
  lemma CombinedOfZeros<T(!new)>(g: Group<T>, ic: seq<T>, s: seq<nat>)
    requires IsGroup(g) && |ic| == |s| + 1 && forall i :: 0 <= i < |s| ==> s[i] == 0
    ensures Combined(g, ic, s) == ic[0]
  {
    MsmOfZeros(g, ic[1..], s);
    RightZero(g, ic[0]);
  }

  /** `f` starts at the key's first point and adds a signal's point whenever that signal is raised. */
  ghost predicate Combines<T(!new)>(g: Group<T>, ic: seq<T>, f: seq<nat> -> T) {
    && |ic| > 0 && f(Zeros(|ic| - 1)) == ic[0]
    && forall s: seq<nat>, i :: |s| == |ic| - 1 && 0 <= i < |s| ==> f(s[i := s[i] + 1]) == g.add(f(s), ic[i + 1])
  }

  /** These two facts determine the combination. */
  lemma {:induction false} CombinedIsTheOne<T(!new)>(g: Group<T>, ic: seq<T>, f: seq<nat> -> T, s: seq<nat>)
    requires IsGroup(g) && Combines(g, ic, f) && |ic| == |s| + 1
    ensures f(s) == Combined(g, ic, s)
    decreases Total(s)
  {
    if i :| 0 <= i < |s| && s[i] > 0 {
      var below := Lowered(s, i);
      CombinedIsTheOne(g, ic, f, below);
      CombinedRaised(g, ic, below, i);
    } else {
      assert s == Zeros(|s|);
      CombinedOfZeros(g, ic, s);
    }
  }

  lemma Lowered(s: seq<nat>, i: nat) returns (below: seq<nat>)
    requires i < |s| && s[i] > 0
    ensures |below| == |s| && s == below[i := below[i] + 1] && Total(below) < Total(s)
  {
    below := s[i := s[i] - 1];
    TotalLower(s, i);
  }

  function Total(s: seq<nat>): nat {
    if s == [] then 0 else Total(s[..|s| - 1]) + s[|s| - 1]
  }

  lemma {:induction false} TotalLower(s: seq<nat>, i: nat)
    requires i < |s| && s[i] > 0
    ensures Total(s[i := s[i] - 1]) == Total(s) - 1
  {
    var n, s' := |s| - 1, s[i := s[i] - 1];
    if i == n {
      assert s'[..n] == s[..n];
    } else {
      assert s'[..n] == s[..n][i := s[i] - 1];
      TotalLower(s[..n], i);
    }
  }

  // ----- the equation in exponents -------------------------------------------------------------------

  /** A key and a proof written as multiples of generators. */
  datatype Exponents = Exponents(a: nat, b: nat, c: nat, alpha: nat, beta: nat, gamma: nat, delta: nat, ic: seq<nat>)

  /** `p` generates the points on the left, and `t` the values of its pairings with those on the right. */
  ghost predicate WrittenAs<A, B, T>(c: Curve<A, B, T>, p: A, t: T, vk: VerifyingKey<A, B>, proof: Proof<A, B>,
                                     x: Exponents)
  {
    && proof.a == Mul(c.g1, x.a, p) && proof.c == Mul(c.g1, x.c, p) && vk.alpha == Mul(c.g1, x.alpha, p)
    && |x.ic| == |vk.ic| && (forall i :: 0 <= i < |vk.ic| ==> vk.ic[i] == Mul(c.g1, x.ic[i], p))
    && c.e(p, proof.b) == Mul(c.gt, x.b, t) && c.e(p, vk.beta) == Mul(c.gt, x.beta, t)
    && c.e(p, vk.gamma) == Mul(c.gt, x.gamma, t) && c.e(p, vk.delta) == Mul(c.gt, x.delta, t)
  }

  /** `x[0] + s[0]·x[1] + .. + s[n-1]·x[n]`. */
  function DotFrom(x: seq<nat>, s: seq<nat>): nat
    requires |x| == |s| + 1
  {
    if s == [] then x[0] else DotFrom(x[..|s|], s[..|s| - 1]) + s[|s| - 1] * x[|s|]
  }

  lemma {:induction false} MulMul<T(!new)>(g: Group<T>, m: nat, n: nat, p: T)
    requires IsGroup(g)
    ensures Mul(g, m, Mul(g, n, p)) == Mul(g, m * n, p)
  {
    if m != 0 {
      MulMul(g, m - 1, n, p);
      MulAdd(g, n, (m - 1) * n, p);
      assert n + (m - 1) * n == m * n;
    }
  }

  /** The combination of multiples of one point. */
  lemma {:induction false} CombinedOfMultiples<T(!new)>(g: Group<T>, p: T, ic: seq<T>, x: seq<nat>, s: seq<nat>)
    requires IsGroup(g) && |ic| == |x| == |s| + 1 && forall i :: 0 <= i < |ic| ==> ic[i] == Mul(g, x[i], p)
    ensures Combined(g, ic, s) == Mul(g, DotFrom(x, s), p)
  {
    if s == [] {
      CombinedOfZeros(g, ic, s);
    } else {
      var n := |s| - 1;
      CombinedOfMultiples(g, p, ic[..n + 1], x[..n + 1], s[..n]);
      CombinedLast(g, ic, s);
      MulMul(g, s[n], x[n + 1], p);
      MulAdd(g, DotFrom(x[..n + 1], s[..n]), s[n] * x[n + 1], p);
    }
  }

  lemma CombinedLast<T(!new)>(g: Group<T>, ic: seq<T>, s: seq<nat>)
    requires IsGroup(g) && |ic| == |s| + 1 && s != []
    ensures var n := |s| - 1; Combined(g, ic, s) == g.add(Combined(g, ic[..n + 1], s[..n]), Mul(g, s[n], ic[n + 1]))
  {
    var n := |s| - 1;
    assert ic[1..][..n] == ic[..n + 1][1..];
    GroupLaws(g, ic[0], Msm(g, ic[1..][..n], s[..n]), Mul(g, s[n], ic[n + 1]));
  }

  lemma {:induction false} PairingOfMultiple<A(!new), B(!new), T(!new)>(c: Curve<A, B, T>, n: nat, p: A, q: B)
    requires IsCurve(c)
    ensures c.e(Mul(c.g1, n, p), q) == Mul(c.gt, n, c.e(p, q))
  {
    if n == 0 {
      PairingOfZero(c, q);
    } else {
      PairingOfMultiple(c, n - 1, p, q);
      PairingAdds(c, p, Mul(c.g1, n - 1, p), q);
    }
  }

  /** `t` has order exactly `r`. */
  ghost predicate Generates<T(!new)>(g: Group<T>, r: nat, t: T) {
    r > 0 && forall m: nat, n: nat :: Mul(g, m, t) == Mul(g, n, t) <==> m % r == n % r
  }

  lemma PairingInExponents<A(!new), B(!new), T(!new)>(c: Curve<A, B, T>, p: A, t: T, m: nat, n: nat, q: B)
    requires IsCurve(c) && c.e(p, q) == Mul(c.gt, n, t)
    ensures c.e(Mul(c.g1, m, p), q) == Mul(c.gt, m * n, t)
  {
    PairingOfMultiple(c, m, p, q);
    MulMul(c.gt, m, n, t);
  }

  lemma SumOfMultiples<T(!new)>(g: Group<T>, k: nat, m: nat, n: nat, t: T)
    requires IsGroup(g)
    ensures g.add(Mul(g, k, t), g.add(Mul(g, m, t), Mul(g, n, t))) == Mul(g, k + (m + n), t)
  {
    MulAdd(g, m, n, t);
    MulAdd(g, k, m + n, t);
  }

  /** The products in the exponents of the four pairings. */
  ghost predicate Products(x: Exponents, dot: nat, left: nat, k: nat, m: nat, n: nat) {
    left == x.a * x.b && k == x.alpha * x.beta && m == dot * x.gamma && n == x.c * x.delta
  }

  /** The four pairings as multiples of `t`. */
  lemma SidesInExponents<A(!new), B(!new), T(!new)>(c: Curve<A, B, T>, p: A, t: T, vk: VerifyingKey<A, B>,
                                                    proof: Proof<A, B>, x: Exponents, s: seq<nat>,
                                                    left: nat, k: nat, m: nat, n: nat)
    requires IsCurve(c) && WrittenAs(c, p, t, vk, proof, x) && |vk.ic| == |s| + 1
    requires Products(x, DotFrom(x.ic, s), left, k, m, n)
    ensures c.e(proof.a, proof.b) == Mul(c.gt, left, t) && c.e(vk.alpha, vk.beta) == Mul(c.gt, k, t)
    ensures c.e(Combined(c.g1, vk.ic, s), vk.gamma) == Mul(c.gt, m, t) && c.e(proof.c, vk.delta) == Mul(c.gt, n, t)
  {
    CombinedOfMultiples(c.g1, p, vk.ic, x.ic, s);
    PairingInExponents(c, p, t, x.a, x.b, proof.b);
    PairingInExponents(c, p, t, x.alpha, x.beta, vk.beta);
    PairingInExponents(c, p, t, DotFrom(x.ic, s), x.gamma, vk.gamma);
    PairingInExponents(c, p, t, x.c, x.delta, vk.delta);
  }

  /** The equation between multiples of `t`. */
  lemma AcceptsNumbers<A(!new), B(!new), T(!new)>(c: Curve<A, B, T>, vk: VerifyingKey<A, B>, proof: Proof<A, B>,
                                                  s: seq<nat>, t: T, left: nat, k: nat, m: nat, n: nat)
    requires IsCurve(c) && Generates(c.gt, c.r, t) && |vk.ic| == |s| + 1
    requires c.e(proof.a, proof.b) == Mul(c.gt, left, t) && c.e(vk.alpha, vk.beta) == Mul(c.gt, k, t)
    requires c.e(Combined(c.g1, vk.ic, s), vk.gamma) == Mul(c.gt, m, t) && c.e(proof.c, vk.delta) == Mul(c.gt, n, t)
    ensures Accepts(c, vk, proof, s) <==> left % c.r == (k + (m + n)) % c.r
  {
    SumOfMultiples(c.gt, k, m, n, t);
  }

  /** For multiples of generators, what is accepted is one equation between numbers. */
  lemma AcceptsInExponents<A(!new), B(!new), T(!new)>(c: Curve<A, B, T>, p: A, t: T, vk: VerifyingKey<A, B>,
                                                      proof: Proof<A, B>, x: Exponents, s: seq<nat>,
                                                      left: nat, k: nat, m: nat, n: nat)
    requires IsCurve(c) && Generates(c.gt, c.r, t) && WrittenAs(c, p, t, vk, proof, x) && |vk.ic| == |s| + 1
    requires Products(x, DotFrom(x.ic, s), left, k, m, n)
    ensures Accepts(c, vk, proof, s) <==> left % c.r == (k + (m + n)) % c.r
  {
    SidesInExponents(c, p, t, vk, proof, x, s, left, k, m, n);
    AcceptsNumbers(c, vk, proof, s, t, left, k, m, n);
  }

  /** Subtraction in the scalar field. */
  function FrSub(r: nat, a: nat, b: nat): nat
    requires r > 0
  {
    (a - b) % r
  }

  lemma MinusOne(r: nat)
    requires r > 0
    ensures FrSub(r, 0, 1) == r - 1
  {
    assert -1 == (-1) * r + (r - 1);
  }

  /** The signals' part of `verify`: the two vectors and the multi-scalar sum. */
  method AddSignals<T(!new)>(g: Group<T>, ic: seq<T>, signals: seq<nat>) returns (vkX: T)
    requires |ic| == |signals| + 1 && g.add(ic[0], g.zero) == ic[0]
    ensures vkX == Combined(g, ic, signals)
  {
    vkX := ic[0];
    if |signals| > 0 {
      var points, scalars := [], [];
      for i := 0 to |signals|
        invariant points == ic[1..i + 1] && scalars == signals[..i]
      {
        points, scalars := points + [ic[i + 1]], scalars + [signals[i]];
      }
      assert points == ic[1..] && scalars == signals;
      vkX := g.add(vkX, Msm(g, points, scalars));
    }
  }

  /** `verify`; `None` is a trap. */
  method Verify<A(!new), B(!new), T(!new, ==)>(c: Curve<A, B, T>, vk: VerifyingKey<A, B>, proof: Proof<A, B>,
                                               signals: seq<nat>)
    returns (r: Option<bool>)
    requires IsCurve(c)
    ensures r.None? <==> |vk.ic| != |signals| + 1
    ensures r.Some? ==> (r.value <==> Accepts(c, vk, proof, signals))
  {
    if |vk.ic| != |signals| + 1 {
      return None;
    }
    RightZero(c.g1, vk.ic[0]);
    var vkX := AddSignals(c.g1, vk.ic, signals);
    var minusOne := FrSub(c.r, 0, 1);
    MinusOne(c.r);
    var negA := Mul(c.g1, minusOne, proof.a);
    CheckDecides(c, vk, proof, signals, vkX);
    r := Some(PairingSum(c, [negA, vk.alpha, vkX, proof.c], [proof.b, vk.beta, vk.gamma, vk.delta]) == c.gt.zero);
  }
}
