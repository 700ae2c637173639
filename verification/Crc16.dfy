/**
  The browser's CRC-16/XMODEM (frontend/src/lib/stellarAddress.ts) on 32-bit words, and what
  it promises: it is linear on messages of equal length, and appending it leaves nothing over.
*/
module Crc16 {
  import opened Base32

  function Xor(a: Word, b: Word): Word {
    a ^ b
  }

  /** A byte lined up with the top of the 16-bit register. */
  function High(byte: Word): Word {
    byte << 8
  }

  predicate Top(c: Word) {
    c & 0x8000 != 0
  }

  function Doubled(c: Word): Word {
    (c << 1) & 0xffff
  }

  function Reduced(c: Word): Word {
    ((c << 1) ^ 0x1021) & 0xffff
  }

  /** One turn of the inner loop. */
  function Step(c: Word): Word {
    if Top(c) then Reduced(c) else Doubled(c)
  }

  function Iterate<T>(f: T -> T, x: T, n: nat): T {
    if n == 0 then x else f(Iterate(f, x, n - 1))
  }

  function Steps(c: Word, n: nat): Word {
    Iterate(Step, c, n)
  }

  /** One byte of the outer loop. */
  function Update(crc: Word, byte: Word): Word {
    Steps(Xor(crc, High(byte)), 8)
  }

  function Crc(data: seq<Word>): Word {
    if data == [] then 0 else Update(Crc(data[..|data| - 1]), data[|data| - 1])
  }

  /** The inner loop. */
  method EightSteps(start: Word) returns (crc: Word)
    ensures crc == Steps(start, 8)
  {
    crc := start;
    for i := 0 to 8
      invariant crc == Steps(start, i)
    {
      crc := Step(crc);
    }
  }

  method Compute(data: seq<Word>) returns (crc: Word)
    ensures crc == Crc(data)
  {
    crc := 0x0000;
    for k := 0 to |data|
      invariant crc == Crc(data[..k])
    {
      assert data[..k + 1][..k] == data[..k];
      crc := EightSteps(Xor(crc, High(data[k])));
    }
    assert data[..|data|] == data;
  }

  predicate IsByte(b: Word) {
    b < 256
  }

  predicate Is16(c: Word) {
    c < 0x1_0000
  }

  // ----- facts about single words ----------------------------------------------------------------

  lemma StepIs16(a: Word)
    ensures Is16(Step(a))
  {
  }

  lemma TopXor(a: Word, b: Word)
    ensures ((a ^ b) & 0x8000 != 0) == ((a & 0x8000 != 0) != (b & 0x8000 != 0))
  {
  }

  lemma DoubledXor(a: Word, b: Word)
    ensures ((a ^ b) << 1) & 0xffff == ((a << 1) & 0xffff) ^ ((b << 1) & 0xffff)
  {
  }

  lemma ReducedXorLeft(a: Word, b: Word)
    ensures (((a ^ b) << 1) ^ 0x1021) & 0xffff == (((a << 1) ^ 0x1021) & 0xffff) ^ ((b << 1) & 0xffff)
  {
  }

  lemma ReducedXorRight(a: Word, b: Word)
    ensures (((a ^ b) << 1) ^ 0x1021) & 0xffff == ((a << 1) & 0xffff) ^ (((b << 1) ^ 0x1021) & 0xffff)
  {
  }

  lemma ReducedXorBoth(a: Word, b: Word)
    ensures ((a ^ b) << 1) & 0xffff == (((a << 1) ^ 0x1021) & 0xffff) ^ (((b << 1) ^ 0x1021) & 0xffff)
  {
  }

  // The same four facts about the named operations.

  lemma TopOf(a: Word, b: Word)
    ensures Top(Xor(a, b)) == (Top(a) != Top(b))
  {
    TopXor(a, b);
  }

  lemma DoubledDoubled(a: Word, b: Word)
    ensures Doubled(Xor(a, b)) == Xor(Doubled(a), Doubled(b))
  {
    DoubledXor(a, b);
  }

  lemma ReducedDoubled(a: Word, b: Word)
    ensures Reduced(Xor(a, b)) == Xor(Reduced(a), Doubled(b))
  {
    ReducedXorLeft(a, b);
  }

  lemma DoubledReduced(a: Word, b: Word)
    ensures Reduced(Xor(a, b)) == Xor(Doubled(a), Reduced(b))
  {
    ReducedXorRight(a, b);
  }

  lemma ReducedReduced(a: Word, b: Word)
    ensures Doubled(Xor(a, b)) == Xor(Reduced(a), Reduced(b))
  {
    ReducedXorBoth(a, b);
  }

  lemma XorZero(a: Word, b: Word)
    ensures Xor(a, b) == 0 <==> a == b
  {
  }

  lemma XorIs16(a: Word, b: Word)
    requires Is16(a) && Is16(b)
    ensures Is16(Xor(a, b))
  {
  }

  lemma HighIs16(x: Word)
    requires IsByte(x)
    ensures Is16(High(x))
  {
  }

  lemma XorExchange(c: Word, d: Word, x: Word, y: Word)
    ensures Xor(Xor(c, d), High(Xor(x, y))) == Xor(Xor(c, High(x)), Xor(d, High(y)))
  {
    HighXor(x, y);
    XorFour(c, d, High(x), High(y));
  }

  lemma HighXor(x: Word, y: Word)
    ensures High(Xor(x, y)) == Xor(High(x), High(y))
  {
  }

  lemma XorAssociates(a: Word, b: Word, c: Word)
    ensures Xor(Xor(a, b), c) == Xor(a, Xor(b, c))
  {
  }

  lemma XorCommutes(a: Word, b: Word)
    ensures Xor(a, b) == Xor(b, a)
  {
  }

  lemma XorFour(a: Word, b: Word, c: Word, d: Word)
    ensures Xor(Xor(a, b), Xor(c, d)) == Xor(Xor(a, c), Xor(b, d))
  {
    XorAssociates(a, b, Xor(c, d));
    XorAssociates(b, c, d);
    XorCommutes(b, c);
    XorAssociates(c, b, d);
    XorAssociates(a, c, Xor(b, d));
  }

  // ----- steps and bytes -------------------------------------------------------------------------

  /** One turn is linear. */
  lemma StepLinear(a: Word, b: Word)
    ensures Step(Xor(a, b)) == Xor(Step(a), Step(b))
  {
    TopOf(a, b);
    if Top(a) {
      if Top(b) { ReducedReduced(a, b); } else { ReducedDoubled(a, b); }
    } else {
      if Top(b) { DoubledReduced(a, b); } else { DoubledDoubled(a, b); }
    }
  }

  lemma {:induction false} IterateKeeps<T>(f: T -> T, keeps: T -> bool, x: T, n: nat)
    requires keeps(x) && forall y :: keeps(y) ==> keeps(f(y))
    ensures keeps(Iterate(f, x, n))
  {
    if n != 0 {
      IterateKeeps(f, keeps, x, n - 1);
    }
  }

  lemma {:induction false} IterateLinear<T>(f: T -> T, add: (T, T) -> T, x: T, y: T, n: nat)
    requires forall u, v :: f(add(u, v)) == add(f(u), f(v))
    ensures Iterate(f, add(x, y), n) == add(Iterate(f, x, n), Iterate(f, y, n))
  {
    if n != 0 {
      IterateLinear(f, add, x, y, n - 1);
    }
  }

  lemma StepsIs16(a: Word, n: nat)
    requires Is16(a)
    ensures Is16(Steps(a, n))
  {
    forall y | Is16(y) ensures Is16(Step(y)) { StepIs16(y); }
    IterateKeeps(Step, Is16, a, n);
  }

  lemma StepsLinear(a: Word, b: Word, n: nat)
    ensures Steps(Xor(a, b), n) == Xor(Steps(a, n), Steps(b, n))
  {
    forall u, v ensures Step(Xor(u, v)) == Xor(Step(u), Step(v)) { StepLinear(u, v); }
    IterateLinear(Step, Xor, a, b, n);
  }

  /** The checksum register is linear in its old value and the new byte. */
  lemma UpdateLinear(c: Word, d: Word, x: Word, y: Word)
    ensures Update(Xor(c, d), Xor(x, y)) == Xor(Update(c, x), Update(d, y))
  {
    XorExchange(c, d, x, y);
    StepsLinear(Xor(c, High(x)), Xor(d, High(y)), 8);
  }

  lemma UpdateIs16(c: Word, x: Word)
    requires Is16(c) && IsByte(x)
    ensures Is16(Update(c, x))
  {
    HighIs16(x);
    XorIs16(c, High(x));
    StepsIs16(Xor(c, High(x)), 8);
  }

  lemma {:induction false} CrcIs16(data: seq<Word>)
    requires Bytes(data)
    ensures Is16(Crc(data))
  {
    if data != [] {
      CrcIs16(data[..|data| - 1]);
      UpdateIs16(Crc(data[..|data| - 1]), data[|data| - 1]);
    }
  }

  lemma IterateEight<T>(f: T -> T, x: T)
    ensures Iterate(f, x, 8) == f(f(f(f(f(f(f(f(x))))))))
  {
    assert Iterate(f, x, 2) == f(f(x));
    assert Iterate(f, x, 4) == f(f(Iterate(f, x, 2)));
    assert Iterate(f, x, 6) == f(f(Iterate(f, x, 4)));
  }

  lemma StepsEight(c: Word)
    ensures Steps(c, 8) == Step(Step(Step(Step(Step(Step(Step(Step(c))))))))
  {
    IterateEight(Step, c);
  }

  // ----- messages --------------------------------------------------------------------------------

  function XorAll(a: seq<Word>, b: seq<Word>): (r: seq<Word>)
    requires |a| == |b|
    ensures |r| == |a| && forall i :: 0 <= i < |a| ==> r[i] == Xor(a[i], b[i])
  {
    if a == [] then [] else XorAll(a[..|a| - 1], b[..|a| - 1]) + [Xor(a[|a| - 1], b[|a| - 1])]
  }

  /** The checksum is linear on messages of equal length. */
  lemma {:induction false} CrcLinear(a: seq<Word>, b: seq<Word>)
    requires |a| == |b| && Bytes(a) && Bytes(b)
    ensures Crc(XorAll(a, b)) == Xor(Crc(a), Crc(b))
  {
    if a == [] {
      XorZero(0, 0);
    } else {
      var n := |a| - 1;
      CrcLinear(a[..n], b[..n]);
      CrcIs16(a[..n]);
      CrcIs16(b[..n]);
      assert XorAll(a, b)[..n] == XorAll(a[..n], b[..n]);
      UpdateLinear(Crc(a[..n]), Crc(b[..n]), a[n], b[n]);
    }
  }

  lemma LowByteBits(e: Word)
    requires IsByte(e)
    ensures Step(Step(Step(Step(Step(Step(Step(Step(e)))))))) == e << 8
  {
  }

  /** A byte in the low half moves to the top. */
  lemma LowByteMoves(e: Word)
    requires IsByte(e)
    ensures Steps(e, 8) == High(e)
  {
    StepsEight(e);
    LowByteBits(e);
  }

  lemma StepOfZero()
    ensures Step(0) == 0
  {
  }

  lemma {:induction false} StepsOfZero(n: nat)
    ensures Steps(0, n) == 0
  {
    if n != 0 {
      StepsOfZero(n - 1);
      StepOfZero();
    }
  }

  lemma TopCancels(c: Word)
    requires Is16(c)
    ensures Xor(c, High(c >> 8)) == c & 0xff && IsByte(c & 0xff)
  {
  }

  /** Entering a register's own high byte and then its low byte empties it. */
  lemma RegisterCancels(c: Word)
    requires Is16(c)
    ensures Update(Update(c, c >> 8), c & 0xff) == 0
  {
    TopCancels(c);
    LowByteMoves(c & 0xff);
    XorZero(High(c & 0xff), High(c & 0xff));
    StepsOfZero(8);
  }

  lemma CrcAppend(data: seq<Word>, x: Word)
    ensures Crc(data + [x]) == Update(Crc(data), x)
  {
    assert (data + [x])[..|data|] == data;
  }

  lemma CrcAppendTwo(data: seq<Word>, x: Word, y: Word)
    ensures Crc(data + [x, y]) == Update(Update(Crc(data), x), y)
  {
    CrcAppend(data, x);
    CrcAppend(data + [x], y);
    assert data + [x] + [y] == data + [x, y];
  }

  /** Appending the checksum, high byte first, leaves the register empty. */
  lemma CrcResidue(data: seq<Word>)
    requires Bytes(data)
    ensures var c := Crc(data); Crc(data + [c >> 8, c & 0xff]) == 0
  {
    var c := Crc(data);
    CrcIs16(data);
    CrcAppendTwo(data, c >> 8, c & 0xff);
    RegisterCancels(c);
  }

  lemma XorLeftZero(a: Word)
    ensures Xor(0, a) == a
  {
  }

  // ----- a byte at a time ------------------------------------------------------------------------

  /** Eight turns of a byte lined up with the top, without the turns. */
  function Fast(x: Word): Word {
    var y := x ^ (x >> 4);
    ((y << 12) ^ (y << 5) ^ y) & 0xffff
  }

  lemma FastBits(x: Word)
    requires IsByte(x)
    ensures Step(Step(Step(Step(Step(Step(Step(Step(x << 8)))))))) == Fast(x)
  {
  }

  lemma FastSteps(x: Word)
    requires IsByte(x)
    ensures Steps(High(x), 8) == Fast(x)
  {
    StepsEight(High(x));
    FastBits(x);
  }

  lemma FastIs16(x: Word)
    ensures Is16(Fast(x))
  {
  }

  lemma SplitBits(c: Word, b: Word)
    requires c < 0x1_0000 && b < 256
    ensures c ^ (b << 8) == (((c >> 8) ^ b) << 8) ^ (c & 0xff) && (c >> 8) ^ b < 256 && c & 0xff < 256
  {
  }

  lemma SplitRegister(c: Word, b: Word)
    requires Is16(c) && IsByte(b)
    ensures Xor(c, High(b)) == Xor(High(Xor(c >> 8, b)), c & 0xff)
    ensures IsByte(Xor(c >> 8, b)) && IsByte(c & 0xff)
  {
    SplitBits(c, b);
  }

  /** The outer loop's body in one expression. */
  function FastUpdate(c: Word, b: Word): Word {
    Xor(Fast(Xor(c >> 8, b)), High(c & 0xff))
  }

  lemma SplitSteps(e: Word, upper: Word, lower: Word)
    requires IsByte(upper) && IsByte(lower) && e == Xor(High(upper), lower)
    ensures Steps(e, 8) == Xor(Fast(upper), High(lower))
  {
    StepsLinear(High(upper), lower, 8);
    FastSteps(upper);
    LowByteMoves(lower);
  }

  lemma UpdateFast(c: Word, b: Word)
    requires Is16(c) && IsByte(b)
    ensures Update(c, b) == FastUpdate(c, b)
  {
    SplitRegister(c, b);
    SplitSteps(Xor(c, High(b)), Xor(c >> 8, b), c & 0xff);
  }
}
