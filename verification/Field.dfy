/**
  Arithmetic modulo `p`, on canonical representatives, and the facts about a prime
  modulus that the circuit and the permutation need: no zero divisors, Fermat's little
  theorem, and the inverse of the fifth power.
*/
module Field {
  import opened Sums

  /** One more than the largest 32-byte value. */
  const TWO_TO_256: nat := 0x1_0000000000000000_0000000000000000_0000000000000000_0000000000000000

  function Add(p: nat, a: int, b: int): int
    requires p > 0
  {
    (a + b) % p
  }

  function Sub(p: nat, a: int, b: int): int
    requires p > 0
  {
    (a - b) % p
  }

  function Mul(p: nat, a: int, b: int): int
    requires p > 0
  {
    (a * b) % p
  }

  function Pow(p: nat, x: int, n: nat): int
    requires p > 0
  {
    if n == 0 then 1 % p else Mul(p, x, Pow(p, x, n - 1))
  }

  predicate Canonical(p: nat, a: int) {
    0 <= a < p
  }

  ghost predicate IsPrime(p: nat) {
    p >= 2 && forall d :: 2 <= d < p ==> p % d != 0
  }

  // ----- reduction -----------------------------------------------------------------------------

  lemma GrowsWith(p: nat, k: int)
    requires p > 0 && k >= 1
    ensures p * k >= p
  {
    assert p * (k - 1) >= 0;
  }

  lemma SmallMultiple(p: int, k: int)
    requires p > 0 && -p < p * k < p
    ensures k == 0
  {
    if k > 0 {
      GrowsWith(p, k);
    } else if k < 0 {
      assert p * -k == -(p * k);
      GrowsWith(p, -k);
    }
  }

  lemma ModUnique(p: nat, n: int, q: int, r: int)
    requires 0 <= r < p && n == p * q + r
    ensures n % p == r
  {
    assert p * (n / p - q) == p * (n / p) - p * q;
    SmallMultiple(p, n / p - q);
  }

  lemma ModShift(p: nat, a: int, k: int)
    requires p > 0
    ensures (a + p * k) % p == a % p
  {
    assert a + p * k == p * (a / p + k) + a % p;
    ModUnique(p, a + p * k, a / p + k, a % p);
  }

  /** Congruent numbers differ by a multiple of the modulus. */
  lemma Multiple(p: nat, a: int, b: int) returns (k: int)
    requires p > 0 && a % p == b % p
    ensures a == b + p * k
  {
    k := a / p - b / p;
    assert p * k == p * (a / p) - p * (b / p);
  }

  lemma ReduceMul(p: nat, a: int, b: int)
    requires p > 0
    ensures (a % p * b) % p == (a * b) % p
    ensures (b * (a % p)) % p == (b * a) % p
  {
    var q := a / p;
    assert a * b == a % p * b + p * (q * b) by {
      assert a == a % p + p * q;
    }
    ModShift(p, a % p * b, q * b);
  }

  lemma ReduceAdd(p: nat, a: int, b: int)
    requires p > 0
    ensures (a % p + b) % p == (a + b) % p
    ensures (b + a % p) % p == (b + a) % p
  {
    ModShift(p, a % p + b, a / p);
  }

  lemma MulAssoc(p: nat, a: int, b: int, c: int)
    requires p > 0
    ensures Mul(p, Mul(p, a, b), c) == Mul(p, a, Mul(p, b, c)) == (a * b * c) % p
  {
    ReduceMul(p, a * b, c);
    ReduceMul(p, b * c, a);
    assert a * b * c == a * (b * c);
  }

  lemma CanonicalMod(p: nat, a: int)
    requires Canonical(p, a)
    ensures a % p == a
  {
  }

  // ----- prime moduli --------------------------------------------------------------------------

  /** A prime modulus has no zero divisors. */
  lemma {:induction false} NoZeroDivisors(p: nat, a: int, b: int)
    requires IsPrime(p) && (a * b) % p == 0
    ensures a % p == 0 || b % p == 0
  {
    ReduceMul(p, a, b);
    if a % p != 0 {
      SmallCofactor(p, a % p, b);
    }
  }

  lemma {:induction false} SmallCofactor(p: nat, a: nat, b: int)
    requires IsPrime(p) && 0 < a < p && (a * b) % p == 0
    ensures b % p == 0
    decreases a
  {
    if a != 1 {
      var q, r := p / a, p % a;
      var k := Multiple(p, a * b, 0);
      assert r * b == p * (b - q * k) by {
        assert p == q * a + r;
        assert p * b == q * (a * b) + r * b;
        assert q * (p * k) == p * (q * k);
      }
      ModShift(p, 0, b - q * k);
      SmallCofactor(p, r, b);
    }
  }

  /** Cancellation: a nonzero factor can be divided out of a congruence. */
  lemma Cancel(p: nat, a: int, x: int, y: int)
    requires IsPrime(p) && a % p != 0 && (a * x) % p == (a * y) % p
    ensures x % p == y % p
  {
    var k := Multiple(p, a * x, a * y);
    assert a * (x - y) == p * k;
    ModShift(p, 0, k);
    NoZeroDivisors(p, a, x - y);
    var j := Multiple(p, x - y, 0);
    ModShift(p, y, j);
  }

  lemma {:induction false} PowSum(p: nat, x: int, m: nat, n: nat)
    requires p > 0
    ensures Pow(p, x, m + n) == Mul(p, Pow(p, x, m), Pow(p, x, n))
  {
    if m == 0 {
      ReduceMul(p, 1, Pow(p, x, n));
      PowCanonical(p, x, n);
    } else {
      PowSum(p, x, m - 1, n);
      MulAssoc(p, x, Pow(p, x, m - 1), Pow(p, x, n));
    }
  }

  lemma PowCanonical(p: nat, x: int, n: nat)
    requires p > 0
    ensures Canonical(p, Pow(p, x, n)) && Pow(p, x, n) % p == Pow(p, x, n)
  {
    if n == 0 {
      ModRange(p, 1);
    } else {
      ModRange(p, x * Pow(p, x, n - 1));
    }
  }

  lemma ModRange(p: nat, a: int)
    requires p > 0
    ensures Canonical(p, a % p) && a % p % p == a % p
  {
    CanonicalMod(p, a % p);
  }

  lemma {:induction false} PowProduct(p: nat, x: int, m: nat, n: nat)
    requires p > 0
    ensures Pow(p, x, m * n) == Pow(p, Pow(p, x, m), n)
  {
    if n == 0 {
      assert m * n == 0;
    } else {
      PowProduct(p, x, m, n - 1);
      assert m * n == m + m * (n - 1);
      PowSum(p, x, m, m * (n - 1));
    }
  }

  // ----- Fermat's little theorem: multiplying by `a` permutes the nonzero residues ---------------

  ghost function Product(p: nat, s: set<int>): int
    requires p > 0
    decreases s
  {
    if s == {} then 1 % p else Mul(p, Pick(s), Product(p, s - {Pick(s)}))
  }

  lemma {:induction false} ProductAny(p: nat, s: set<int>, y: int)
    requires p > 0 && y in s
    ensures Product(p, s) == Mul(p, y, Product(p, s - {y}))
  {
    var x := Pick(s);
    if x != y {
      ProductAny(p, s - {x}, y);
      ProductAny(p, s - {y}, x);
      var rest := Product(p, s - {x} - {y});
      assert s - {x} - {y} == s - {y} - {x};
      MulAssoc(p, x, y, rest);
      MulAssoc(p, y, x, rest);
    }
  }

  ghost function Scaled(p: nat, a: int, s: set<int>): set<int>
    requires p > 0
  {
    set i | i in s :: (a * i) % p
  }

  ghost predicate Residues(p: nat, s: set<int>) {
    forall i :: i in s ==> 0 < i < p
  }

  lemma ScaleInjective(p: nat, a: int, i: int, j: int)
    requires IsPrime(p) && a % p != 0 && 0 < i < p && 0 < j < p && (a * i) % p == (a * j) % p
    ensures i == j
  {
    Cancel(p, a, i, j);
    CanonicalMod(p, i);
    CanonicalMod(p, j);
  }

  /** Taking one residue out of a set takes its scaled residue out of the scaled set. */
  lemma ScaledWithout(p: nat, a: int, s: set<int>, x: int)
    requires IsPrime(p) && a % p != 0 && Residues(p, s) && x in s
    ensures (a * x) % p in Scaled(p, a, s)
    ensures Scaled(p, a, s) - {(a * x) % p} == Scaled(p, a, s - {x})
  {
    forall i | i in s - {x}
      ensures (a * i) % p != (a * x) % p
    {
      if (a * i) % p == (a * x) % p { ScaleInjective(p, a, i, x); }
    }
    forall y | y in Scaled(p, a, s) - {(a * x) % p}
      ensures y in Scaled(p, a, s - {x})
    {
      var i :| i in s && (a * i) % p == y;
      assert i in s - {x};
    }
  }

  lemma {:induction false} ScaledProduct(p: nat, a: int, s: set<int>)
    requires IsPrime(p) && a % p != 0 && Residues(p, s)
    ensures |Scaled(p, a, s)| == |s|
    ensures Product(p, Scaled(p, a, s)) == Mul(p, Pow(p, a, |s|), Product(p, s))
  {
    if s == {} {
      assert Scaled(p, a, s) == {};
      CanonicalMod(p, 1);
    } else {
      var x := Pick(s);
      ScaledProduct(p, a, s - {x});
      ScaledWithout(p, a, s, x);
      ProductAny(p, Scaled(p, a, s), (a * x) % p);
      PullOut(p, a, x, Pow(p, a, |s| - 1), Product(p, s - {x}));
    }
  }

  lemma PullOut(p: nat, a: int, x: int, w: int, r: int)
    requires p > 0
    ensures Mul(p, (a * x) % p, Mul(p, w, r)) == Mul(p, Mul(p, a, w), Mul(p, x, r))
  {
    MulAssoc(p, a * x, w, r);
    ReduceMul(p, a * x, Mul(p, w, r));
    MulAssoc(p, a * w, x, r);
    ReduceMul(p, a * w, Mul(p, x, r));
    assert a * x * w * r == a * w * x * r;
  }

  lemma {:induction false} ProductNonzero(p: nat, s: set<int>)
    requires IsPrime(p) && Residues(p, s)
    ensures Product(p, s) % p != 0
  {
    if s != {} {
      var x := Pick(s);
      ProductNonzero(p, s - {x});
      var rest := Product(p, s - {x});
      if (x * rest) % p == 0 {
        NoZeroDivisors(p, x, rest);
        CanonicalMod(p, x);
      }
      CanonicalMod(p, Product(p, s));
    }
  }

  lemma SubsetOfSameSize<T>(a: set<T>, b: set<T>)
    requires a <= b && |a| == |b|
    ensures a == b
  {
    assert |b - a| == |b| - |a| by { assert b == a + (b - a); }
  }

  /** The numbers 1 .. n. */
  ghost function UpTo(n: nat): (s: set<int>)
    ensures forall i :: i in s <==> 1 <= i <= n
    ensures |s| == n
  {
    if n == 0 then {} else UpTo(n - 1) + {n}
  }

  ghost predicate AllResidues(p: nat, s: set<int>) {
    |s| == p - 1 && forall i :: i in s <==> 0 < i < p
  }

  lemma ScaledIsResidues(p: nat, a: int, s: set<int>)
    requires IsPrime(p) && a % p != 0 && AllResidues(p, s)
    ensures Scaled(p, a, s) == s
  {
    ScaledProduct(p, a, s);
    forall i | i in s
      ensures (a * i) % p in s
    {
      ScaleNonzero(p, a, i);
    }
    SubsetOfSameSize(Scaled(p, a, s), s);
  }

  lemma ScaleNonzero(p: nat, a: int, i: int)
    requires IsPrime(p) && a % p != 0 && 0 < i < p
    ensures 0 < (a * i) % p < p
  {
    if (a * i) % p == 0 {
      NoZeroDivisors(p, a, i);
      CanonicalMod(p, i);
    }
  }

  /** If scaling by `a` permutes a set of residues, it changes their product by a factor and not at all. */
  lemma ResiduesScaled(p: nat, a: int, s: set<int>)
    requires IsPrime(p) && a % p != 0 && Residues(p, s) && Scaled(p, a, s) == s
    ensures Mul(p, Pow(p, a, |s|), Product(p, s)) == Product(p, s)
  {
    ScaledProduct(p, a, s);
  }

  lemma PowerIsOne(p: nat, a: int, s: set<int>)
    requires IsPrime(p) && a % p != 0 && AllResidues(p, s)
    ensures Pow(p, a, |s|) == 1
  {
    ScaledIsResidues(p, a, s);
    ResiduesScaled(p, a, s);
    ProductNonzero(p, s);
    ProductCanonical(p, s);
    FixedFactor(p, Pow(p, a, |s|), Product(p, s));
    PowCanonical(p, a, |s|);
  }

  lemma ResiduesExist(p: nat) returns (s: set<int>)
    requires p > 0
    ensures AllResidues(p, s)
  {
    s := UpTo(p - 1);
  }

  /** Fermat's little theorem. */
  lemma Fermat(p: nat, a: int)
    requires IsPrime(p) && a % p != 0
    ensures Pow(p, a, p - 1) == 1
  {
    var s := ResiduesExist(p);
    PowerIsOne(p, a, s);
  }

  lemma ProductCanonical(p: nat, s: set<int>)
    requires p > 0
    ensures Canonical(p, Product(p, s))
  {
  }

  lemma FixedFactor(p: nat, c: int, w: int)
    requires IsPrime(p) && Canonical(p, w) && w % p != 0 && Mul(p, c, w) == w
    ensures c % p == 1
  {
    CanonicalMod(p, w);
    assert (w * c) % p == (w * 1) % p;
    Cancel(p, w, c, 1);
  }

  // ----- the fifth power -------------------------------------------------------------------------

  /** An exponent that undoes the fifth power: `5 * e == 1 + k * (p - 1)`. */
  lemma FifthRoot(p: nat) returns (e: nat, k: nat)
    requires p >= 2 && p % 5 != 1
    ensures 5 * e == 1 + k * (p - 1)
  {
    var t, m := (p - 1) / 5, (p - 1) % 5;
    assert p - 1 == 5 * t + m;
    if m == 1 {
      e, k := 4 * t + 1, 4;
    } else if m == 2 {
      e, k := 2 * t + 1, 2;
    } else if m == 3 {
      e, k := 3 * t + 2, 3;
    } else {
      e, k := t + 1, 1;
    }
  }

  lemma {:induction false} PowOfOne(p: nat, n: nat)
    requires p >= 2
    ensures Pow(p, 1, n) == 1
  {
    if n > 0 {
      PowOfOne(p, n - 1);
    }
  }

  lemma {:induction false} PowOfZero(p: nat, n: nat)
    requires p >= 2 && n > 0
    ensures Pow(p, 0, n) == 0
  {
  }

  lemma FifthPowerInverse(p: nat, x: int, e: nat, k: nat)
    requires IsPrime(p) && Canonical(p, x) && 5 * e == 1 + k * (p - 1)
    ensures Pow(p, Pow(p, x, 5), e) == x
  {
    PowProduct(p, x, 5, e);
    if x == 0 {
      PowOfZero(p, 5 * e);
    } else {
      CanonicalMod(p, x);
      Fermat(p, x);
      PowProduct(p, x, p - 1, k);
      PowOfOne(p, k);
      PowSuccessor(p, x, (p - 1) * k);
    }
  }

  lemma PowSuccessor(p: nat, x: int, n: nat)
    requires p > 0 && Canonical(p, x) && Pow(p, x, n) == 1
    ensures Pow(p, x, 1 + n) == x
  {
    assert Pow(p, x, 1 + n) == Mul(p, x, 1);
    CanonicalMod(p, x);
  }

  /** The fifth power is injective modulo a prime `p` with `gcd(5, p - 1) == 1`. */
  lemma FifthPowerInjective(p: nat, x: int, y: int)
    requires IsPrime(p) && p % 5 != 1
    requires Canonical(p, x) && Canonical(p, y) && Pow(p, x, 5) == Pow(p, y, 5)
    ensures x == y
  {
    var e, k := FifthRoot(p);
    FifthPowerInverse(p, x, e, k);
    FifthPowerInverse(p, y, e, k);
  }
}
