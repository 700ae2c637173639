/**
  The browser's base32 decoder (frontend/src/lib/stellarAddress.ts). Everything is a 32-bit
  word, as the bitwise operators of the original make it; the accumulator is never masked.
*/
module Base32 {
  import opened Wrappers

  type Word = bv32

  /** `indexOf`: the first position of `c` at or after `from`, or -1. */
  function IndexOf(s: string, c: char, from: nat): (i: int)
    requires from <= |s|
    ensures i == -1 || (from <= i < |s| && s[i] == c)
    ensures i == -1 <==> c !in s[from..]
    decreases |s| - from
  {
    if from == |s| then -1
    else if s[from] == c then from
    else IndexOf(s, c, from + 1)
  }

  /** The alphabet is a parameter: the proofs need only that it has 32 letters. */
  type Alphabet = s: string | |s| == 32 witness seq(32, _ => 'A')

  predicate InAlphabet(al: Alphabet, c: char) {
    IndexOf(al, c, 0) != -1
  }

  function WordOf(i: nat): (w: Word)
    requires i < 32
    ensures w < 32
  {
    i as bv32
  }

  /** The 5-bit group a character stands for; 0 for a character outside the alphabet. */
  function Group(al: Alphabet, c: char): (g: Word)
    ensures g < 32
  {
    var i := IndexOf(al, c, 0);
    if i == -1 then 0 else WordOf(i)
  }

  ghost predicate Groups(gs: seq<Word>) {
    forall i :: 0 <= i < |gs| ==> gs[i] < 32
  }

  ghost predicate Bytes(bs: seq<Word>) {
    forall i :: 0 <= i < |bs| ==> bs[i] < 256
  }

  /** Byte `r` of block `q`: five bytes are read off eight groups (section 6 of RFC 4648). */
  function BlockByte(gs: seq<Word>, q: nat, r: nat): Word
    requires r < 5 && 8 * (5 * q + r + 1) <= 5 * |gs|
  {
    var k := 8 * q;
    match r
    case 0 => ((gs[k] << 3) | (gs[k + 1] >> 2)) & 0xff
    case 1 => ((gs[k + 1] << 6) | (gs[k + 2] << 1) | (gs[k + 3] >> 4)) & 0xff
    case 2 => ((gs[k + 3] << 4) | (gs[k + 4] >> 1)) & 0xff
    case 3 => ((gs[k + 4] << 7) | (gs[k + 5] << 2) | (gs[k + 6] >> 3)) & 0xff
    case _ => ((gs[k + 6] << 5) | gs[k + 7]) & 0xff
  }

  function ByteAt(gs: seq<Word>, j: nat): Word
    requires 8 * (j + 1) <= 5 * |gs|
  {
    BlockByte(gs, j / 5, j % 5)
  }

  /** The number of bits waiting after the `m`-th group of a block. */
  function Waiting(m: nat): nat
    requires m < 8
  {
    [0, 5, 2, 7, 4, 1, 6, 3][m]
  }

  /** The bits waiting in the accumulator after `m` groups of block `q`. */
  ghost predicate Pending(value: Word, gs: seq<Word>, q: nat, m: nat)
    requires m < 8 && 8 * q + m <= |gs|
  {
    var k := 8 * q;
    match m
    case 0 => true
    case 1 => value & 0x1f == gs[k]
    case 2 => value & 0x03 == gs[k + 1] & 0x03
    case 3 => value & 0x7f == ((gs[k + 1] & 0x03) << 5) | gs[k + 2]
    case 4 => value & 0x0f == gs[k + 3] & 0x0f
    case 5 => value & 0x01 == gs[k + 4] & 0x01
    case 6 => value & 0x3f == ((gs[k + 4] & 0x01) << 5) | gs[k + 5]
    case _ => value & 0x07 == gs[k + 6] & 0x07
  }

  /** `value >>> n` for the shifts that occur. */
  function Shr(v: Word, n: nat): Word
    requires n <= 4
  {
    match n case 0 => v case 1 => v >> 1 case 2 => v >> 2 case 3 => v >> 3 case _ => v >> 4
  }

  /** How many bytes of a block its first `m` groups have completed. */
  function Taken(m: nat): nat
    requires m < 8
  {
    [0, 0, 1, 1, 2, 3, 3, 4][m]
  }

  function Shifted(value: Word, g: Word): Word {
    (value << 5) | g
  }

  /** What shifting in one group does to the pending bits, residue by residue: facts about 32-bit words. */
  lemma ShiftIn(v: Word, a: Word, b: Word, g: Word)
    requires a < 32 && b < 32 && g < 32
    ensures var next := Shifted(v, g);
      && next & 0x1f == g && next & 0x03 == g & 0x03 && next & 0x0f == g & 0x0f
      && next & 0x01 == g & 0x01 && next & 0x07 == g & 0x07
      && (v & 0x03 == b & 0x03 ==> next & 0x7f == ((b & 0x03) << 5) | g)
      && (v & 0x01 == b & 0x01 ==> next & 0x3f == ((b & 0x01) << 5) | g)
      && (v & 0x1f == b ==> (next >> 2) & 0xff == ((b << 3) | (g >> 2)) & 0xff)
      && (v & 0x7f == ((a & 0x03) << 5) | b ==> (next >> 4) & 0xff == ((a << 6) | (b << 1) | (g >> 4)) & 0xff)
      && (v & 0x0f == b & 0x0f ==> (next >> 1) & 0xff == ((b << 4) | (g >> 1)) & 0xff)
      && (v & 0x3f == ((a & 0x01) << 5) | b ==> (next >> 3) & 0xff == ((a << 7) | (b << 2) | (g >> 3)) & 0xff)
      && (v & 0x07 == b & 0x07 ==> next & 0xff == ((b << 5) | g) & 0xff)
  {
  }

  lemma EarlyPending(value: Word, gs: seq<Word>, q: nat, m: nat)
    requires m < 4 && 8 * q + m < |gs| && Groups(gs) && Pending(value, gs, q, m)
    ensures Pending(Shifted(value, gs[8 * q + m]), gs, q, m + 1)
  {
    var k := 8 * q;
    match m
    case 0 => ShiftIn(value, 0, 0, gs[k]);
    case 1 => ShiftIn(value, 0, gs[k], gs[k + 1]);
    case 2 => ShiftIn(value, 0, gs[k + 1], gs[k + 2]);
    case _ => ShiftIn(value, gs[k + 1], gs[k + 2], gs[k + 3]);
  }

  lemma LatePending(value: Word, gs: seq<Word>, q: nat, m: nat)
    requires 4 <= m < 7 && 8 * q + m < |gs| && Groups(gs) && Pending(value, gs, q, m)
    ensures Pending(Shifted(value, gs[8 * q + m]), gs, q, m + 1)
  {
    var k := 8 * q;
    match m
    case 4 => ShiftIn(value, 0, gs[k + 3], gs[k + 4]);
    case 5 => ShiftIn(value, 0, gs[k + 4], gs[k + 5]);
    case _ => ShiftIn(value, gs[k + 4], gs[k + 5], gs[k + 6]);
  }

  /** One more group: what is waiting afterwards. */
  lemma AccumulatePending(value: Word, gs: seq<Word>, q: nat, m: nat)
    requires m < 8 && 8 * q + m < |gs| && Groups(gs) && Pending(value, gs, q, m)
    ensures var next := Shifted(value, gs[8 * q + m]);
      if m == 7 then Pending(next, gs, q + 1, 0) else Pending(next, gs, q, m + 1)
  {
    if m < 4 {
      EarlyPending(value, gs, q, m);
    } else if m < 7 {
      LatePending(value, gs, q, m);
    }
  }

  /** The byte that falls out of the first half of a block. */
  lemma EarlyByte(value: Word, gs: seq<Word>, q: nat, m: nat)
    requires (m == 1 || m == 3) && 8 * q + m < |gs| && Groups(gs) && Pending(value, gs, q, m)
    ensures Shr(Shifted(value, gs[8 * q + m]), Waiting(m) - 3) & 0xff == BlockByte(gs, q, Taken(m))
  {
    var k := 8 * q;
    if m == 1 {
      ShiftIn(value, 0, gs[k], gs[k + 1]);
    } else {
      ShiftIn(value, gs[k + 1], gs[k + 2], gs[k + 3]);
    }
  }

  /** The bytes that fall out of the second half. */
  lemma LateByte(value: Word, gs: seq<Word>, q: nat, m: nat)
    requires (m == 4 || m == 6 || m == 7) && 8 * q + m < |gs| && Groups(gs) && Pending(value, gs, q, m)
    ensures Shr(Shifted(value, gs[8 * q + m]), Waiting(m) - 3) & 0xff == BlockByte(gs, q, Taken(m))
  {
    var k := 8 * q;
    if m == 4 {
      ShiftIn(value, 0, gs[k + 3], gs[k + 4]);
    } else if m == 6 {
      ShiftIn(value, gs[k + 4], gs[k + 5], gs[k + 6]);
    } else {
      ShiftIn(value, 0, gs[k + 6], gs[k + 7]);
    }
  }

  /** One more group: the byte that falls out when eight bits are there. */
  lemma AccumulateByte(value: Word, gs: seq<Word>, q: nat, m: nat)
    requires m < 8 && Waiting(m) >= 3 && 8 * q + m < |gs| && Groups(gs) && Pending(value, gs, q, m)
    ensures Shr(Shifted(value, gs[8 * q + m]), Waiting(m) - 3) & 0xff == BlockByte(gs, q, Taken(m))
  {
    if m <= 3 { EarlyByte(value, gs, q, m); } else { LateByte(value, gs, q, m); }
  }

  // ----- the specification ---------------------------------------------------------------------

  function GroupsOf(al: Alphabet, s: string): (gs: seq<Word>)
    ensures |gs| == |s| && Groups(gs)
    ensures forall k :: 0 <= k < |s| ==> gs[k] == Group(al, s[k])
  {
    if s == [] then [] else GroupsOf(al, s[..|s| - 1]) + [Group(al, s[|s| - 1])]
  }

  /** The first `n` bytes read off the groups. */
  function BytesOf(gs: seq<Word>, n: nat): (bs: seq<Word>)
    requires 8 * n <= 5 * |gs|
    ensures |bs| == n && forall j :: 0 <= j < n ==> bs[j] == ByteAt(gs, j)
  {
    if n == 0 then [] else BytesOf(gs, n - 1) + [ByteAt(gs, n - 1)]
  }

  predicate OverAlphabet(al: Alphabet, s: string) {
    forall k :: 0 <= k < |s| ==> InAlphabet(al, s[k])
  }

  /** The decoding of a string over the alphabet: floor(5n/8) bytes. */
  function Decoded(al: Alphabet, s: string): (bs: seq<Word>)
    ensures |bs| == 5 * |s| / 8
  {
    BytesOf(GroupsOf(al, s), 5 * |s| / 8)
  }

  /** The byte that group `m` of block `q` completes, by its position in the whole output. */
  lemma BytePosition(gs: seq<Word>, q: nat, m: nat)
    requires m < 8 && 8 * q + m < |gs| && Waiting(m) >= 3
    ensures 5 * (8 * q + m) / 8 == 5 * q + Taken(m) && 8 * (5 * q + Taken(m) + 1) <= 5 * |gs|
    ensures ByteAt(gs, 5 * q + Taken(m)) == BlockByte(gs, q, Taken(m))
  {
    var j, r := 5 * q + Taken(m), Taken(m);
    assert j / 5 == q && j % 5 == r;
  }

  /** What reading the `m`-th group does to the two counts. */
  lemma Tables(m: nat)
    requires m < 8
    ensures var taken := if Waiting(m) >= 3 then 1 else 0;
      var left := Waiting(m) + 5 - 8 * taken;
      if m == 7 then left == 0 && Taken(m) + taken == 5 else left == Waiting(m + 1) && Taken(m) + taken == Taken(m + 1)
  {
  }

  type BitCount = n: nat | n < 8

  /** The decoder's state after `i` groups. */
  ghost predicate Reading(gs: seq<Word>, i: nat, bits: BitCount, value: Word, out: seq<Word>) {
    var q, m := i / 8, i % 8;
    && i <= |gs| && bits == Waiting(m) && Pending(value, gs, q, m)
    && |out| == 5 * q + Taken(m) && 8 * |out| <= 5 * |gs| && out == BytesOf(gs, |out|)
  }

  /** The byte that the `m`-th group of block `q` completes is the next byte of the decoding. */
  lemma NextByte(gs: seq<Word>, q: nat, m: nat, value: Word)
    requires m < 8 && 8 * q + m < |gs| && Groups(gs) && Pending(value, gs, q, m) && Waiting(m) >= 3
    ensures var n := 5 * q + Taken(m);
      && 8 * (n + 1) <= 5 * |gs|
      && BytesOf(gs, n) + [Shr(Shifted(value, gs[8 * q + m]), Waiting(m) - 3) & 0xff] == BytesOf(gs, n + 1)
  {
    AccumulateByte(value, gs, q, m);
    BytePosition(gs, q, m);
  }

  /** Counting one more group: the next state, given what the accumulator and the output have become. */
  lemma ReadOne(gs: seq<Word>, q: nat, m: nat, bits: BitCount, value: Word, out: seq<Word>)
    requires m < 8 && 8 * q + m < |gs| && bits == Waiting(m)
    requires if m == 7 then Pending(value, gs, q + 1, 0) else Pending(value, gs, q, m + 1)
    requires 8 * |out| <= 5 * |gs| && out == BytesOf(gs, |out|)
    requires |out| == 5 * q + Taken(m) + if bits >= 3 then 1 else 0
    ensures Reading(gs, 8 * q + m + 1, if bits >= 3 then bits - 3 else bits + 5, value, out)
  {
    Tables(m);
    if m == 7 {
      assert (8 * q + m + 1) / 8 == q + 1 && (8 * q + m + 1) % 8 == 0;
    } else {
      assert (8 * q + m + 1) / 8 == q && (8 * q + m + 1) % 8 == m + 1;
    }
  }

  function WithByte(out: seq<Word>, value: Word, bits: nat): seq<Word>
    requires bits <= 12
  {
    if bits >= 8 then out + [Shr(value, bits - 8) & 0xff] else out
  }

  /** What the loop body does to the output, block position made explicit. */
  lemma ReadByte(gs: seq<Word>, q: nat, m: nat, bits: BitCount, value: Word, out: seq<Word>)
    requires m < 8 && 8 * q + m < |gs| && Groups(gs) && Pending(value, gs, q, m)
    requires bits == Waiting(m) && |out| == 5 * q + Taken(m) && 8 * |out| <= 5 * |gs| && out == BytesOf(gs, |out|)
    ensures var out' := WithByte(out, Shifted(value, gs[8 * q + m]), bits + 5);
      |out'| == |out| + (if bits >= 3 then 1 else 0) && 8 * |out'| <= 5 * |gs| && out' == BytesOf(gs, |out'|)
  {
    if bits >= 3 {
      NextByte(gs, q, m, value);
    }
  }

  lemma ReadNext(gs: seq<Word>, i: nat, bits: BitCount, value: Word, out: seq<Word>)
    requires i < |gs| && Groups(gs) && Reading(gs, i, bits, value, out)
    ensures var value' := Shifted(value, gs[i]);
      Reading(gs, i + 1, if bits >= 3 then bits - 3 else bits + 5, value', WithByte(out, value', bits + 5))
  {
    var q, m := i / 8, i % 8;
    assert 8 * q + m == i;
    AccumulatePending(value, gs, q, m);
    ReadByte(gs, q, m, bits, value, out);
    var value' := Shifted(value, gs[i]);
    ReadOne(gs, q, m, bits, value', WithByte(out, value', bits + 5));
  }

  /** After all groups the output is floor(5n/8) bytes long. */
  lemma ReadAll(gs: seq<Word>, bits: BitCount, value: Word, out: seq<Word>)
    requires Reading(gs, |gs|, bits, value, out)
    ensures out == BytesOf(gs, 5 * |gs| / 8)
  {
    var q, m := |gs| / 8, |gs| % 8;
    assert |gs| == 8 * q + m;
    assert 5 * |gs| / 8 == 5 * q + Taken(m);
  }

  /** The decoder's variables between two groups. */
  datatype Accumulator = Accumulator(bits: BitCount, value: Word, out: seq<Word>)

  function Feed(d: Accumulator, g: Word): Accumulator {
    var value := Shifted(d.value, g);
    Accumulator(if d.bits >= 3 then d.bits - 3 else d.bits + 5, value, WithByte(d.out, value, d.bits + 5))
  }

  function FoldFirst<S, T>(f: (S, T) -> S, s: S, xs: seq<T>, i: nat): S
    requires i <= |xs|
  {
    if i == 0 then s else f(FoldFirst(f, s, xs, i - 1), xs[i - 1])
  }

  /** What every step of a fold keeps holds all along it. */
  lemma {:induction false} FoldKeeps<S, T>(f: (S, T) -> S, s: S, xs: seq<T>, i: nat, keeps: (nat, S) -> bool)
    requires i <= |xs| && keeps(0, s)
    requires forall k: nat, d :: k < |xs| && keeps(k, d) ==> keeps(k + 1, f(d, xs[k]))
    ensures keeps(i, FoldFirst(f, s, xs, i))
  {
    if i != 0 {
      FoldKeeps(f, s, xs, i - 1, keeps);
    }
  }

  /** The decoder after `i` groups. */
  function FeedFirst(gs: seq<Word>, i: nat): Accumulator
    requires i <= |gs|
  {
    FoldFirst(Feed, Accumulator(0, 0, []), gs, i)
  }

  ghost predicate Reads(gs: seq<Word>, i: nat, d: Accumulator) {
    Reading(gs, i, d.bits, d.value, d.out)
  }

  lemma FeedStep(gs: seq<Word>, i: nat, d: Accumulator)
    requires i < |gs| && Groups(gs) && Reads(gs, i, d)
    ensures Reads(gs, i + 1, Feed(d, gs[i]))
  {
    ReadNext(gs, i, d.bits, d.value, d.out);
  }

  /** The waiting bits are right whatever is left above them in the accumulator. */
  lemma FeedReads(gs: seq<Word>)
    requires Groups(gs)
    ensures Reads(gs, |gs|, FeedFirst(gs, |gs|))
  {
    var keeps := (i: nat, d: Accumulator) => Reads(gs, i, d);
    forall k: nat, d | k < |gs| && keeps(k, d)
      ensures keeps(k + 1, Feed(d, gs[k]))
    {
      FeedStep(gs, k, d);
    }
    FoldKeeps(Feed, Accumulator(0, 0, []), gs, |gs|, keeps);
  }

  lemma FeedAll(gs: seq<Word>)
    requires Groups(gs)
    ensures FeedFirst(gs, |gs|).out == BytesOf(gs, 5 * |gs| / 8)
  {
    FeedReads(gs);
    var d := FeedFirst(gs, |gs|);
    ReadAll(gs, d.bits, d.value, d.out);
  }

  /** The body of the loop: shift the group in, and take a byte out when there is one. */
  method Push(bits0: BitCount, value0: Word, out0: seq<Word>, g: Word) returns (bits: BitCount, value: Word,
              out: seq<Word>)
    ensures Accumulator(bits, value, out) == Feed(Accumulator(bits0, value0, out0), g)
  {
    value := Shifted(value0, g);
    var count := bits0 + 5;
    if count >= 8 {
      out := out0 + [Shr(value, count - 8) & 0xff];
      bits := count - 8;
    } else {
      out := out0;
      bits := count;
    }
  }

  /** `base32Decode`. */
  method Decode(al: Alphabet, input: string) returns (r: Option<seq<Word>>)
    ensures r == if OverAlphabet(al, input) then Some(Decoded(al, input)) else None
  {
    var bits: BitCount, value: Word, out := 0, 0, [];
    ghost var gs := GroupsOf(al, input);
    for i := 0 to |input|
      invariant forall k :: 0 <= k < i ==> InAlphabet(al, input[k])
      invariant Accumulator(bits, value, out) == FeedFirst(gs, i)
    {
      var idx := IndexOf(al, input[i], 0);
      if idx == -1 {
        return None;
      }
      bits, value, out := Push(bits, value, out, WordOf(idx));
    }
    FeedAll(gs);
    r := Some(out);
  }
}
