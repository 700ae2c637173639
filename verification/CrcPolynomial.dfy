/**
  The checksum as a polynomial remainder over GF(2). A message of n bits is read as a polynomial,
  first bit highest; multiplied by x^16 it has n + 16 coefficients. The register is its remainder
  modulo g = x^16 + x^12 + x^5 + 1. Two messages of equal length that differ only within 16
  neighbouring bits never have the same remainder.
*/
module CrcPolynomial {
  import opened Base32
  import opened Base32Code
  import opened Crc16

  /** Bit `15 - i` of a register: the bit that is at the top after `i` doublings. */
  predicate TopAt(c: Word, i: nat) {
    Top(Iterate(Doubled, c, i))
  }

  /** What `out` says of `x` as `f` moves it along. */
  function Trace<T>(f: T -> T, out: T -> bool, x: T, n: nat): (r: seq<bool>)
    ensures |r| == n && forall i :: 0 <= i < n ==> r[i] == out(Iterate(f, x, i))
  {
    if n == 0 then [] else Trace(f, out, x, n - 1) + [out(Iterate(f, x, n - 1))]
  }

  function Tops(c: Word, n: nat): (r: seq<bool>)
    ensures |r| == n && forall i :: 0 <= i < n ==> r[i] == TopAt(c, i)
  {
    Trace(Doubled, Top, c, n)
  }

  /** The 16 coefficients of a register, highest first. */
  function Coefs(c: Word): (r: seq<bool>)
    ensures |r| == 16
  {
    Tops(c, 16)
  }

  /** The 8 bits of a byte, highest first. */
  function ByteBits(x: Word): (r: seq<bool>)
    ensures |r| == 8
  {
    Tops(High(x), 8)
  }

  function MessageBits(data: seq<Word>): (bits: seq<bool>)
    ensures |bits| == 8 * |data|
  {
    if data == [] then [] else MessageBits(data[..|data| - 1]) + ByteBits(data[|data| - 1])
  }

  // ----- division --------------------------------------------------------------------------------

  function At(q: seq<bool>, i: int): bool {
    0 <= i < |q| && q[i]
  }

  /** Coefficient `i` (highest first) of the quotient times g: its copies shifted by 0, 4, 11 and 16 places. */
  function TimesG(q: seq<bool>, i: int): bool {
    (At(q, i) != At(q, i - 4)) != (At(q, i - 11) != At(q, i - 16))
  }

  /** Coefficient `i` of a remainder below x^16, in a message of `n` bits. */
  function RemainderAt(r: seq<bool>, n: nat, i: int): bool {
    n <= i && At(r, i - n)
  }

  /** `bits * x^16 == q * g + r`, coefficient by coefficient. */
  ghost predicate Division(bits: seq<bool>, q: seq<bool>, r: seq<bool>) {
    && |q| == |bits| && |r| == 16
    && forall i :: 0 <= i < |bits| + 16 ==> At(bits, i) == (TimesG(q, i) != RemainderAt(r, |bits|, i))
  }

  ghost predicate IsRemainder(bits: seq<bool>, c: Word) {
    Is16(c) && exists q :: Division(bits, q, Coefs(c))
  }

  // ----- the bits of a register ----------------------------------------------------------------------

  lemma {:induction false} IterateShift<T>(f: T -> T, x: T, n: nat)
    ensures Iterate(f, f(x), n) == Iterate(f, x, n + 1)
  {
    if n != 0 {
      IterateShift(f, x, n - 1);
    }
  }

  lemma {:induction false} IterateSum<T>(f: T -> T, x: T, m: nat, n: nat)
    ensures Iterate(f, Iterate(f, x, m), n) == Iterate(f, x, m + n)
  {
    if n != 0 {
      IterateSum(f, x, m, n - 1);
    }
  }

  lemma TopAtDoubled(c: Word, i: nat)
    ensures TopAt(Doubled(c), i) == TopAt(c, i + 1)
  {
    IterateShift(Doubled, c, i);
  }

  lemma TopAtXor(a: Word, b: Word, i: nat)
    ensures TopAt(Xor(a, b), i) == (TopAt(a, i) != TopAt(b, i))
  {
    forall u, v ensures Doubled(Xor(u, v)) == Xor(Doubled(u), Doubled(v)) { DoubledDoubled(u, v); }
    IterateLinear(Doubled, Xor, a, b, i);
    TopOf(Iterate(Doubled, a, i), Iterate(Doubled, b, i));
  }

  lemma EightDoublings(c: Word)
    ensures Doubled(Doubled(Doubled(Doubled(Doubled(Doubled(Doubled(Doubled(c)))))))) == (c << 8) & 0xffff
  {
  }

  lemma DoubledAway(c: Word)
    ensures Iterate(Doubled, c, 16) == 0
  {
    IterateEight(Doubled, c);
    EightDoublings(c);
    var d := Iterate(Doubled, c, 8);
    IterateEight(Doubled, d);
    EightDoublings(d);
    IterateSum(Doubled, c, 8, 8);
    assert (((c << 8) & 0xffff) << 8) & 0xffff == 0;
  }

  lemma DoublingKernel(c: Word)
    requires Is16(c) && !Top(c) && Doubled(c) == 0
    ensures c == 0
  {
  }

  lemma DoubledIs16(c: Word)
    ensures Is16(Doubled(c))
  {
  }

  /** A register that never shows a one on its way out was empty. */
  lemma {:induction false} NoTops(c: Word, n: nat)
    requires Is16(c) && Iterate(Doubled, c, n) == 0 && forall i :: 0 <= i < n ==> !TopAt(c, i)
    ensures c == 0
    decreases n
  {
    if n != 0 {
      forall i | 0 <= i < n - 1
        ensures !TopAt(Doubled(c), i)
      {
        TopAtDoubled(c, i);
      }
      IterateShift(Doubled, c, n - 1);
      DoubledIs16(c);
      NoTops(Doubled(c), n - 1);
      assert !TopAt(c, 0);
      DoublingKernel(c);
    }
  }

  lemma NoDifference(c: Word, d: Word, i: nat)
    requires Coefs(c) == Coefs(d) && i < 16
    ensures !TopAt(Xor(c, d), i)
  {
    TopAtXor(c, d, i);
    assert Coefs(c)[i] == Coefs(d)[i];
  }

  /** The coefficients determine the register. */
  lemma SameCoefs(c: Word, d: Word)
    requires Is16(c) && Is16(d) && Coefs(c) == Coefs(d)
    ensures c == d
  {
    forall i | 0 <= i < 16 ensures !TopAt(Xor(c, d), i) { NoDifference(c, d, i); }
    XorIs16(c, d);
    DoubledAway(Xor(c, d));
    NoTops(Xor(c, d), 16);
    XorZero(c, d);
  }

  // ----- the register, one bit at a time -----------------------------------------------------------

  function FoldBits<T>(f: (T, bool) -> T, start: T, bits: seq<bool>): T {
    if bits == [] then start else f(FoldBits(f, start, bits[..|bits| - 1]), bits[|bits| - 1])
  }

  function Entering(b: bool): Word {
    if b then 0x8000 else 0
  }

  /** One message bit enters at the top. */
  function Enter(c: Word, b: bool): Word {
    Step(Xor(c, Entering(b)))
  }

  function Register(start: Word, bits: seq<bool>): Word {
    FoldBits(Enter, start, bits)
  }

  /** One turn of the register on coefficients: shift, and subtract g if a one falls out. */
  function Turn(r: seq<bool>, b: bool): (r': seq<bool>)
    requires |r| == 16
    ensures |r'| == 16
  {
    var top := r[0] != b;
    [r[1], r[2], r[3], r[4] != top, r[5], r[6], r[7], r[8], r[9], r[10], r[11] != top, r[12], r[13], r[14], r[15], top]
  }

  /** The coefficients of g below x^16. */
  predicate InG(i: nat) {
    i == 3 || i == 10 || i == 15
  }

  /** 0x1021 on its way out. */
  function GeneratorAt(i: nat): Word
    requires i < 16
  {
    [0x1021, 0x2042, 0x4084, 0x8108, 0x0210, 0x0420, 0x0840, 0x1080,
     0x2100, 0x4200, 0x8400, 0x0800, 0x1000, 0x2000, 0x4000, 0x8000][i]
  }

  lemma GeneratorMoves(i: nat)
    requires i < 15
    ensures GeneratorAt(i + 1) == Doubled(GeneratorAt(i))
  {
  }

  lemma GeneratorTop(i: nat)
    requires i < 16
    ensures Top(GeneratorAt(i)) == InG(i)
  {
  }

  lemma {:induction false} GeneratorIs(i: nat)
    requires i < 16
    ensures Iterate(Doubled, GeneratorAt(0), i) == GeneratorAt(i)
  {
    if i != 0 {
      GeneratorIs(i - 1);
      GeneratorMoves(i - 1);
    }
  }

  lemma GeneratorBits(i: nat)
    requires i < 16
    ensures TopAt(GeneratorAt(0), i) == InG(i)
  {
    GeneratorIs(i);
    GeneratorTop(i);
  }

  lemma ReducedIs(c: Word)
    ensures Reduced(c) == Xor(Doubled(c), GeneratorAt(0))
  {
  }

  lemma StepBit(c: Word, i: nat)
    requires i < 16
    ensures TopAt(Step(c), i) == (TopAt(c, i + 1) != (Top(c) && InG(i)))
  {
    TopAtDoubled(c, i);
    ReducedIs(c);
    GeneratorBits(i);
    TopAtXor(Doubled(c), GeneratorAt(0), i);
  }

  lemma {:induction false} ZeroBits(i: nat)
    ensures Iterate(Doubled, 0, i) == 0 && !TopAt(0, i)
  {
    if i != 0 {
      ZeroBits(i - 1);
    }
  }

  lemma EnteringBit(b: bool, i: nat)
    ensures TopAt(Entering(b), i) == (b && i == 0)
  {
    if i != 0 {
      TopAtDoubled(Entering(b), i - 1);
      assert Doubled(Entering(b)) == 0;
      ZeroBits(i - 1);
    }
  }

  lemma EnterBit(c: Word, b: bool, i: nat)
    requires i < 16
    ensures TopAt(Enter(c, b), i) == (TopAt(c, i + 1) != ((Top(c) != b) && InG(i)))
  {
    var e := Xor(c, Entering(b));
    StepBit(e, i);
    TopAtXor(c, Entering(b), i + 1);
    EnteringBit(b, i + 1);
    TopAtXor(c, Entering(b), 0);
    EnteringBit(b, 0);
  }

  lemma TurnedBit(c: Word, b: bool, i: nat)
    requires i < 16
    ensures TopAt(Enter(c, b), i) == Turn(Coefs(c), b)[i]
  {
    EnterBit(c, b, i);
    TurnAt(Coefs(c), b, i);
    LastBit(c);
    assert TopAt(c, 0) == Top(c);
  }

  lemma EnterTurns(c: Word, b: bool)
    ensures Coefs(Enter(c, b)) == Turn(Coefs(c), b)
  {
    forall i | 0 <= i < 16 ensures TopAt(Enter(c, b), i) == Turn(Coefs(c), b)[i] { TurnedBit(c, b, i); }
  }

  lemma LastBit(c: Word)
    ensures !TopAt(c, 16)
  {
    DoubledAway(c);
  }

  lemma TurnAt(r: seq<bool>, b: bool, i: nat)
    requires |r| == 16 && i < 16
    ensures Turn(r, b)[i] == ((i < 15 && r[i + 1]) != ((r[0] != b) && InG(i)))
  {
  }

  /** One more message bit: the quotient's next bit is the old top coefficient plus the new bit. */
  lemma DivisionStep(bits: seq<bool>, q: seq<bool>, r: seq<bool>, b: bool)
    requires Division(bits, q, r)
    ensures Division(bits + [b], q + [r[0] != b], Turn(r, b))
  {
    forall i | 0 <= i < |bits| + 17
      ensures At(bits + [b], i) == (TimesG(q + [r[0] != b], i) != RemainderAt(Turn(r, b), |bits| + 1, i))
    {
      if i < |bits| + 16 {
        assert At(bits, i) == (TimesG(q, i) != RemainderAt(r, |bits|, i));
        DivisionAt(bits, q, r, b, i);
      }
    }
  }

  lemma DivisionAt(bits: seq<bool>, q: seq<bool>, r: seq<bool>, b: bool, i: nat)
    requires |q| == |bits| && |r| == 16 && i < |bits| + 16
    requires At(bits, i) == (TimesG(q, i) != RemainderAt(r, |bits|, i))
    ensures At(bits + [b], i) == (TimesG(q + [r[0] != b], i) != RemainderAt(Turn(r, b), |bits| + 1, i))
  {
  }

  lemma NothingDivides()
    ensures Division([], [], Coefs(0))
  {
    forall i: nat ensures !TopAt(0, i) { ZeroBits(i); }
  }

  lemma RegisterStep(bits: seq<bool>, q: seq<bool>, c: Word, b: bool)
    requires Division(bits, q, Coefs(c))
    ensures Division(bits + [b], q + [Coefs(c)[0] != b], Coefs(Enter(c, b)))
  {
    EnterTurns(c, b);
    DivisionStep(bits, q, Coefs(c), b);
  }

  lemma {:induction false} RegisterDivides(bits: seq<bool>) returns (q: seq<bool>)
    ensures Division(bits, q, Coefs(Register(0, bits)))
  {
    if bits == [] {
      q := [];
      NothingDivides();
    } else {
      var n := |bits| - 1;
      var c := Register(0, bits[..n]);
      q := RegisterDivides(bits[..n]);
      RegisterStep(bits[..n], q, c, bits[n]);
      q := q + [Coefs(c)[0] != bits[n]];
      assert bits[..n] + [bits[n]] == bits;
    }
  }

  // ----- the remainder is unique --------------------------------------------------------------------

  lemma {:induction false} QuotientsAgree(bits: seq<bool>, q: seq<bool>, r: seq<bool>,
                                             bits': seq<bool>, q': seq<bool>, r': seq<bool>, i: nat)
    requires Division(bits, q, r) && Division(bits', q', r') && i <= |bits| == |bits'| && bits[..i] == bits'[..i]
    ensures q[..i] == q'[..i]
  {
    if i != 0 {
      var k := i - 1;
      assert bits[..k] == bits[..i][..k] == bits'[..i][..k] == bits'[..k];
      assert bits[k] == bits[..i][k] == bits'[..i][k] == bits'[k];
      QuotientsAgree(bits, q, r, bits', q', r', k);
      assert At(bits, k) == (TimesG(q, k) != RemainderAt(r, |bits|, k));
      assert At(bits', k) == (TimesG(q', k) != RemainderAt(r', |bits|, k));
      Earlier(q, q', k, k - 4);
      Earlier(q, q', k, k - 11);
      Earlier(q, q', k, k - 16);
      assert q[k] == q'[k];
      assert q[..i] == q[..k] + [q[k]];
      assert q'[..i] == q'[..k] + [q'[k]];
    }
  }

  lemma Earlier(q: seq<bool>, q': seq<bool>, k: nat, j: int)
    requires |q| == |q'| && k <= |q| && q[..k] == q'[..k] && j < k
    ensures At(q, j) == At(q', j)
  {
    if j >= 0 {
      assert q[j] == q[..k][j] == q'[..k][j] == q'[j];
    }
  }

  lemma RemainderUnique(bits: seq<bool>, c: Word, d: Word)
    requires IsRemainder(bits, c) && IsRemainder(bits, d)
    ensures c == d
  {
    var q :| Division(bits, q, Coefs(c));
    var q' :| Division(bits, q', Coefs(d));
    CoefsUnique(bits, q, Coefs(c), q', Coefs(d));
    SameCoefs(c, d);
  }

  lemma CoefsUnique(bits: seq<bool>, q: seq<bool>, r: seq<bool>, q': seq<bool>, r': seq<bool>)
    requires Division(bits, q, r) && Division(bits, q', r')
    ensures r == r'
  {
    var n := |bits|;
    QuotientsAgree(bits, q, r, bits, q', r', n);
    assert q == q[..n] == q'[..n] == q';
    forall t | 0 <= t < 16
      ensures r[t] == r'[t]
    {
      assert At(bits, n + t) == (TimesG(q, n + t) != RemainderAt(r, n, n + t));
      assert At(bits, n + t) == (TimesG(q, n + t) != RemainderAt(r', n, n + t));
    }
  }

  // ----- the byte-wise loop computes the bit-wise register --------------------------------------------

  lemma FoldOne<T>(f: (T, bool) -> T, start: T, bits: seq<bool>, b: bool)
    ensures FoldBits(f, start, bits + [b]) == f(FoldBits(f, start, bits), b)
  {
    assert (bits + [b])[..|bits|] == bits;
  }

  lemma {:induction false} FoldAppend<T>(f: (T, bool) -> T, start: T, a: seq<bool>, b: seq<bool>)
    ensures FoldBits(f, start, a + b) == FoldBits(f, FoldBits(f, start, a), b)
  {
    if b == [] {
      assert a + b == a;
    } else {
      var n := |b| - 1;
      FoldAppend(f, start, a, b[..n]);
      assert (a + b)[..|a + b| - 1] == a + b[..n];
    }
  }

  lemma FlippedTop(p: Word)
    ensures ((p ^ 0x8000) & 0x8000 != 0) == !(p & 0x8000 != 0) && ((p ^ 0x8000) << 1) & 0xffff == (p << 1) & 0xffff
  {
  }

  /** Without its top bit, a register is just doubled. */
  lemma StepRest(p: Word)
    ensures Step(Xor(p, Entering(Top(p)))) == Doubled(p)
  {
    if Top(p) {
      FlippedTop(p);
    } else {
      XorRightZero(p);
    }
  }

  /** A step absorbs the top bit of what is still pending and moves the rest up. */
  lemma Absorb(s: Word, p: Word)
    ensures Step(Xor(s, p)) == Xor(Enter(s, Top(p)), Doubled(p))
  {
    var e := Entering(Top(p));
    XorFour(s, e, p, e);
    XorZero(e, e);
    XorRightZero(Xor(s, p));
    StepLinear(Xor(s, e), Xor(p, e));
    StepRest(p);
  }

  lemma AbsorbAny()
    ensures forall u, v {:trigger Enter(u, Top(v)), Doubled(v)} :: Step(Xor(u, v)) == Xor(Enter(u, Top(v)), Doubled(v))
  {
    forall u, v
      ensures Step(Xor(u, v)) == Xor(Enter(u, Top(v)), Doubled(v))
    {
      Absorb(u, v);
    }
  }

  lemma {:induction false} FoldPending<T>(step: T -> T, enter: (T, bool) -> T, double: T -> T, top: T -> bool,
                                          add: (T, T) -> T, s: T, p: T, n: nat)
    requires forall u, v :: step(add(u, v)) == add(enter(u, top(v)), double(v))
    ensures Iterate(step, add(s, p), n) == add(FoldBits(enter, s, Trace(double, top, p, n)), Iterate(double, p, n))
  {
    if n != 0 {
      FoldPending(step, enter, double, top, add, s, p, n - 1);
      FoldOne(enter, s, Trace(double, top, p, n - 1), top(Iterate(double, p, n - 1)));
    }
  }

  /** Turning a register with something pending is entering the pending bits one by one. */
  lemma EnterTops(s: Word, p: Word, n: nat)
    ensures Steps(Xor(s, p), n) == Xor(Register(s, Tops(p, n)), Iterate(Doubled, p, n))
  {
    AbsorbAny();
    FoldPending(Step, Enter, Doubled, Top, Xor, s, p, n);
  }

  lemma XorRightZero(a: Word)
    ensures Xor(a, 0) == a
  {
  }

  lemma HighDoublesAway(x: Word)
    ensures ((x << 8) << 8) & 0xffff == 0
  {
  }

  /** A byte entered at once is its bits entered one by one. */
  lemma UpdateEnters(c: Word, x: Word)
    ensures Update(c, x) == Register(c, ByteBits(x))
  {
    EnterTops(c, High(x), 8);
    IterateEight(Doubled, High(x));
    EightDoublings(High(x));
    HighDoublesAway(x);
    XorRightZero(Register(c, ByteBits(x)));
  }

  lemma {:induction false} CrcIsRegister(data: seq<Word>)
    requires Bytes(data)
    ensures Crc(data) == Register(0, MessageBits(data))
  {
    if data != [] {
      var n := |data| - 1;
      CrcIsRegister(data[..n]);
      UpdateEnters(Crc(data[..n]), data[n]);
      FoldAppend(Enter, 0, MessageBits(data[..n]), ByteBits(data[n]));
    }
  }

  /** The checksum is the remainder of the message times x^16 modulo g, and the only one. */
  lemma CrcIsRemainder(data: seq<Word>, c: Word)
    requires Bytes(data)
    ensures IsRemainder(MessageBits(data), c) <==> c == Crc(data)
  {
    CrcIs16(data);
    CrcIsRegister(data);
    var q := RegisterDivides(MessageBits(data));
    if IsRemainder(MessageBits(data), c) {
      RemainderUnique(MessageBits(data), c, Crc(data));
    }
  }

  // ----- a burst of 16 bits ----------------------------------------------------------------------------

  /** The two agree everywhere but in the `n` places from `from` on. */
  ghost predicate Within<T>(a: seq<T>, b: seq<T>, from: nat, n: nat) {
    |a| == |b| && forall i :: 0 <= i < |a| && !(from <= i < from + n) ==> a[i] == b[i]
  }

  lemma Later(q: seq<bool>, q': seq<bool>, j: nat, k: nat)
    requires |q| == |q'| && j <= |q| && q[j..] == q'[j..] && j <= k
    ensures At(q, k) == At(q', k)
  {
    if k < |q| {
      assert q[k] == q[j..][k - j] == q'[j..][k - j] == q'[k];
    }
  }

  /** With equal remainders, quotients agree from `j` on if the messages agree from `j + 16` on. */
  lemma {:induction false} QuotientsAgreeFrom(bits: seq<bool>, q: seq<bool>, bits': seq<bool>, q': seq<bool>,
                                              r: seq<bool>, from: nat, j: nat)
    requires Division(bits, q, r) && Division(bits', q', r) && Within(bits, bits', from, 16) && from <= j <= |bits|
    ensures q[j..] == q'[j..]
    decreases |bits| - j
  {
    if j < |bits| {
      QuotientsAgreeFrom(bits, q, bits', q', r, from, j + 1);
      var i := j + 16;
      assert At(bits, i) == (TimesG(q, i) != RemainderAt(r, |bits|, i));
      assert At(bits', i) == (TimesG(q', i) != RemainderAt(r, |bits|, i));
      assert At(bits, i) == At(bits', i);
      Later(q, q', j + 1, i);
      Later(q, q', j + 1, i - 4);
      Later(q, q', j + 1, i - 11);
      assert q[j] == q'[j];
      assert q[j..] == [q[j]] + q[j + 1..];
      assert q'[j..] == [q'[j]] + q'[j + 1..];
    }
  }

  /** Equal remainders: the message is the quotient times g, and the quotients agree on both sides of the burst. */
  lemma BurstDivides(bits: seq<bool>, q: seq<bool>, bits': seq<bool>, q': seq<bool>, r: seq<bool>, from: nat)
    requires Division(bits, q, r) && Division(bits', q', r) && Within(bits, bits', from, 16) && from <= |bits|
    ensures bits == bits'
  {
    assert bits[..from] == bits'[..from];
    QuotientsAgree(bits, q, r, bits', q', r, from);
    QuotientsAgreeFrom(bits, q, bits', q', r, from, from);
    assert q == q[..from] + q[from..] == q'[..from] + q'[from..] == q';
    forall i | 0 <= i < |bits|
      ensures bits[i] == bits'[i]
    {
      assert At(bits, i) == (TimesG(q, i) != RemainderAt(r, |bits|, i));
      assert At(bits', i) == (TimesG(q', i) != RemainderAt(r, |bits|, i));
    }
  }

  lemma BurstRegister(bits: seq<bool>, bits': seq<bool>, from: nat)
    requires Within(bits, bits', from, 16) && from <= |bits| && Register(0, bits) == Register(0, bits')
    ensures bits == bits'
  {
    var q := RegisterDivides(bits);
    var q' := RegisterDivides(bits');
    BurstDivides(bits, q, bits', q', Coefs(Register(0, bits)), from);
  }

  // ----- the bits of a message, written one after the other ------------------------------------------------

  lemma FirstBit(x: Word)
    requires IsByte(x)
    ensures Top(High(x)) == BitOfByte(x, 0)
  {
    assert (x << 8) & 0x8000 != 0 <==> x & 0x80 != 0;
  }

  lemma BitsMove(x: Word, t: nat)
    requires IsByte(x) && t < 7
    ensures var y := (x << 1) & 0xff; IsByte(y) && Doubled(High(x)) == High(y) && BitOfByte(y, t) == BitOfByte(x, t + 1)
  {
  }

  lemma {:induction false} BitOfTops(x: Word, t: nat)
    requires IsByte(x) && t < 8
    ensures TopAt(High(x), t) == BitOfByte(x, t)
    decreases t
  {
    if t == 0 {
      FirstBit(x);
    } else {
      TopAtDoubled(High(x), t - 1);
      BitsMove(x, t - 1);
      BitOfTops((x << 1) & 0xff, t - 1);
    }
  }

  lemma {:induction false} MessageBit(data: seq<Word>, i: nat)
    requires Bytes(data) && i < 8 * |data|
    ensures MessageBits(data)[i] == ByteBit(data, i)
    decreases |data|
  {
    var n := |data| - 1;
    if i < 8 * n {
      MessageBit(data[..n], i);
    } else {
      assert i / 8 == n && i % 8 == i - 8 * n;
      BitOfTops(data[n], i - 8 * n);
    }
  }

  lemma SameBitsSameByte(x: Word, y: Word)
    requires IsByte(x) && IsByte(y) && forall t :: 0 <= t < 8 ==> BitOfByte(x, t) == BitOfByte(y, t)
    ensures x == y
  {
    assert BitOfByte(x, 0) == BitOfByte(y, 0) && BitOfByte(x, 1) == BitOfByte(y, 1);
    assert BitOfByte(x, 2) == BitOfByte(y, 2) && BitOfByte(x, 3) == BitOfByte(y, 3);
    assert BitOfByte(x, 4) == BitOfByte(y, 4) && BitOfByte(x, 5) == BitOfByte(y, 5);
    assert BitOfByte(x, 6) == BitOfByte(y, 6) && BitOfByte(x, 7) == BitOfByte(y, 7);
  }

  lemma SameByteAt(a: seq<Word>, b: seq<Word>, j: nat)
    requires Bytes(a) && Bytes(b) && j < |a| == |b|
    requires forall i :: 8 * j <= i < 8 * j + 8 ==> ByteBit(a, i) == ByteBit(b, i)
    ensures a[j] == b[j]
  {
    forall t | 0 <= t < 8
      ensures BitOfByte(a[j], t) == BitOfByte(b[j], t)
    {
      assert ByteBit(a, 8 * j + t) == ByteBit(b, 8 * j + t);
      assert (8 * j + t) / 8 == j && (8 * j + t) % 8 == t;
    }
    SameBitsSameByte(a[j], b[j]);
  }

  /** The two messages have the same length and agree in every bit but the `n` from `from` on. */
  ghost predicate BitsWithin(a: seq<Word>, b: seq<Word>, from: nat, n: nat) {
    |a| == |b| && forall i :: 0 <= i < 8 * |a| && !(from <= i < from + n) ==> ByteBit(a, i) == ByteBit(b, i)
  }

  lemma MessageWithin(a: seq<Word>, b: seq<Word>, from: nat, n: nat)
    requires Bytes(a) && Bytes(b) && BitsWithin(a, b, from, n)
    ensures Within(MessageBits(a), MessageBits(b), from, n)
  {
    forall i | 0 <= i < 8 * |a| && !(from <= i < from + n)
      ensures MessageBits(a)[i] == MessageBits(b)[i]
    {
      MessageBit(a, i);
      MessageBit(b, i);
    }
  }

  lemma SameMessage(a: seq<Word>, b: seq<Word>)
    requires Bytes(a) && Bytes(b) && |a| == |b| && MessageBits(a) == MessageBits(b)
    ensures a == b
  {
    forall j | 0 <= j < |a|
      ensures a[j] == b[j]
    {
      forall i | 8 * j <= i < 8 * j + 8
        ensures ByteBit(a, i) == ByteBit(b, i)
      {
        MessageBit(a, i);
        MessageBit(b, i);
      }
      SameByteAt(a, b, j);
    }
  }

  /** Two messages that differ only within 16 neighbouring bits have the same checksum only if they are equal. */
  lemma CrcBurst(a: seq<Word>, b: seq<Word>, from: nat)
    requires Bytes(a) && Bytes(b) && BitsWithin(a, b, from, 16)
    ensures Crc(a) == Crc(b) <==> a == b
  {
    if Crc(a) == Crc(b) {
      CrcIsRegister(a);
      CrcIsRegister(b);
      MessageWithin(a, b, from, 16);
      BurstRegister(MessageBits(a), MessageBits(b), if from <= 8 * |a| then from else 8 * |a|);
      SameMessage(a, b);
    }
  }
}
