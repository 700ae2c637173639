/**
  Base32 as a code: encoding by section 6 of RFC 4648, the proof that the browser's decoder
  inverts it on whole blocks, and the bit stream that both read.
*/
module Base32Code {
  import opened Base32

  /** Group `m` of block `q`: eight groups are read off five bytes. */
  function BlockGroup(bs: seq<Word>, q: nat, m: nat): Word
    requires m < 8 && 5 * q + 5 <= |bs|
  {
    var k := 5 * q;
    match m
    case 0 => bs[k] >> 3
    case 1 => ((bs[k] & 0x07) << 2) | (bs[k + 1] >> 6)
    case 2 => (bs[k + 1] >> 1) & 0x1f
    case 3 => ((bs[k + 1] & 0x01) << 4) | (bs[k + 2] >> 4)
    case 4 => ((bs[k + 2] & 0x0f) << 1) | (bs[k + 3] >> 7)
    case 5 => (bs[k + 3] >> 2) & 0x1f
    case 6 => ((bs[k + 3] & 0x03) << 3) | (bs[k + 4] >> 5)
    case _ => bs[k + 4] & 0x1f
  }

  /** The groups of a byte string of whole blocks. */
  function EncodedGroups(bs: seq<Word>, n: nat): (gs: seq<Word>)
    requires |bs| % 5 == 0 && 5 * n <= 8 * |bs|
    ensures |gs| == n && forall k :: 0 <= k < n ==> gs[k] == GroupAt(bs, k)
  {
    if n == 0 then [] else EncodedGroups(bs, n - 1) + [GroupAt(bs, n - 1)]
  }

  function GroupAt(bs: seq<Word>, k: nat): Word
    requires |bs| % 5 == 0 && 5 * (k + 1) <= 8 * |bs|
  {
    BlockInRange(|bs| / 5, k);
    BlockGroup(bs, k / 8, k % 8)
  }

  lemma BlockInRange(blocks: nat, k: nat)
    requires k < 8 * blocks
    ensures 5 * (k / 8) + 5 <= 5 * blocks
  {
  }

  lemma GroupIsSmall(b0: Word, b1: Word, b2: Word, b3: Word, b4: Word)
    requires b0 < 256 && b1 < 256 && b2 < 256 && b3 < 256 && b4 < 256
    ensures b0 >> 3 < 32 && ((b0 & 0x07) << 2) | (b1 >> 6) < 32 && (b1 >> 1) & 0x1f < 32
    ensures ((b1 & 0x01) << 4) | (b2 >> 4) < 32 && ((b2 & 0x0f) << 1) | (b3 >> 7) < 32 && (b3 >> 2) & 0x1f < 32
    ensures ((b3 & 0x03) << 3) | (b4 >> 5) < 32 && b4 & 0x1f < 32
  {
  }

  lemma GroupsSmall(bs: seq<Word>, q: nat, m: nat)
    requires Bytes(bs) && m < 8 && 5 * q + 5 <= |bs|
    ensures BlockGroup(bs, q, m) < 32
  {
    var k := 5 * q;
    GroupIsSmall(bs[k], bs[k + 1], bs[k + 2], bs[k + 3], bs[k + 4]);
  }

  /** Each byte of a block, to its groups and back. */
  lemma Byte0(b0: Word, b1: Word)
    requires b0 < 256 && b1 < 256
    ensures (((b0 >> 3) << 3) | ((((b0 & 0x07) << 2) | (b1 >> 6)) >> 2)) & 0xff == b0
  {
  }

  lemma Byte1(b0: Word, b1: Word, b2: Word)
    requires b0 < 256 && b1 < 256 && b2 < 256
    ensures (((((b0 & 0x07) << 2) | (b1 >> 6)) << 6) | (((b1 >> 1) & 0x1f) << 1)
            | ((((b1 & 0x01) << 4) | (b2 >> 4)) >> 4)) & 0xff == b1
  {
  }

  lemma Byte2(b1: Word, b2: Word, b3: Word)
    requires b1 < 256 && b2 < 256 && b3 < 256
    ensures (((((b1 & 0x01) << 4) | (b2 >> 4)) << 4) | ((((b2 & 0x0f) << 1) | (b3 >> 7)) >> 1)) & 0xff == b2
  {
  }

  lemma Byte3(b2: Word, b3: Word, b4: Word)
    requires b2 < 256 && b3 < 256 && b4 < 256
    ensures (((((b2 & 0x0f) << 1) | (b3 >> 7)) << 7) | (((b3 >> 2) & 0x1f) << 2)
            | ((((b3 & 0x03) << 3) | (b4 >> 5)) >> 3)) & 0xff == b3
  {
  }

  lemma Byte4(b3: Word, b4: Word)
    requires b3 < 256 && b4 < 256
    ensures (((((b3 & 0x03) << 3) | (b4 >> 5)) << 5) | (b4 & 0x1f)) & 0xff == b4
  {
  }

  /** Block `q` of `gs` is the encoding of block `q` of `bs`. */
  ghost predicate BlockOf(bs: seq<Word>, gs: seq<Word>, q: nat) {
    && 5 * q + 5 <= |bs| && 8 * q + 8 <= |gs|
    && forall m :: 0 <= m < 8 ==> gs[8 * q + m] == BlockGroup(bs, q, m)
  }

  lemma BlocksMatch(bs: seq<Word>, gs: seq<Word>, q: nat)
    requires |bs| % 5 == 0 && 5 * q + 5 <= |bs| && 5 * |gs| == 8 * |bs|
    requires forall k :: 0 <= k < |gs| ==> gs[k] == GroupAt(bs, k)
    ensures BlockOf(bs, gs, q)
  {
    forall m | 0 <= m < 8
      ensures gs[8 * q + m] == BlockGroup(bs, q, m)
    {
      assert (8 * q + m) / 8 == q && (8 * q + m) % 8 == m;
    }
  }

  lemma BlockDecodes(bs: seq<Word>, gs: seq<Word>, q: nat, r: nat)
    requires Bytes(bs) && r < 5 && BlockOf(bs, gs, q)
    ensures BlockByte(gs, q, r) == bs[5 * q + r]
  {
    var k, i := 5 * q, 8 * q;
    match r
    case 0 =>
      assert gs[i] == BlockGroup(bs, q, 0) && gs[i + 1] == BlockGroup(bs, q, 1);
      Byte0(bs[k], bs[k + 1]);
    case 1 =>
      assert gs[i + 1] == BlockGroup(bs, q, 1) && gs[i + 2] == BlockGroup(bs, q, 2);
      assert gs[i + 3] == BlockGroup(bs, q, 3);
      Byte1(bs[k], bs[k + 1], bs[k + 2]);
    case 2 =>
      assert gs[i + 3] == BlockGroup(bs, q, 3) && gs[i + 4] == BlockGroup(bs, q, 4);
      Byte2(bs[k + 1], bs[k + 2], bs[k + 3]);
    case 3 =>
      assert gs[i + 4] == BlockGroup(bs, q, 4) && gs[i + 5] == BlockGroup(bs, q, 5);
      assert gs[i + 6] == BlockGroup(bs, q, 6);
      Byte3(bs[k + 2], bs[k + 3], bs[k + 4]);
    case _ =>
      assert gs[i + 6] == BlockGroup(bs, q, 6) && gs[i + 7] == BlockGroup(bs, q, 7);
      Byte4(bs[k + 3], bs[k + 4]);
  }

  /** Decoding inverts encoding. */
  lemma DecodeEncode(bs: seq<Word>, blocks: nat)
    requires Bytes(bs) && |bs| == 5 * blocks
    ensures var gs := EncodedGroups(bs, 8 * blocks); Groups(gs) && BytesOf(gs, |bs|) == bs
  {
    var gs := EncodedGroups(bs, 8 * blocks);
    forall k | 0 <= k < |gs|
      ensures gs[k] < 32
    {
      GroupsSmall(bs, k / 8, k % 8);
    }
    forall j | 0 <= j < |bs|
      ensures ByteAt(gs, j) == bs[j]
    {
      BlocksMatch(bs, gs, j / 5);
      BlockDecodes(bs, gs, j / 5, j % 5);
    }
  }

  lemma ByteIsSmall(gs: seq<Word>, q: nat, r: nat)
    requires r < 5 && 8 * (5 * q + r + 1) <= 5 * |gs|
    ensures BlockByte(gs, q, r) < 256
  {
  }

  /** Block `q` of `bs` is the decoding of block `q` of `gs`. */
  ghost predicate BlockFrom(gs: seq<Word>, bs: seq<Word>, q: nat) {
    && 5 * q + 5 <= |bs| && 8 * q + 8 <= |gs|
    && forall r :: 0 <= r < 5 ==> bs[5 * q + r] == BlockByte(gs, q, r)
  }

  lemma BlocksDecoded(gs: seq<Word>, bs: seq<Word>, q: nat)
    requires 8 * q + 8 <= |gs| && 5 * q + 5 <= |bs| && 8 * |bs| <= 5 * |gs|
    requires forall j :: 0 <= j < |bs| ==> bs[j] == ByteAt(gs, j)
    ensures BlockFrom(gs, bs, q)
  {
    forall r | 0 <= r < 5
      ensures bs[5 * q + r] == BlockByte(gs, q, r)
    {
      assert (5 * q + r) / 5 == q && (5 * q + r) % 5 == r;
    }
  }

  // Each group of a block, to its bytes and back.

  lemma Group0(g0: Word, g1: Word)
    requires g0 < 32 && g1 < 32
    ensures (((g0 << 3) | (g1 >> 2)) & 0xff) >> 3 == g0
  {
  }

  lemma Group1(g0: Word, g1: Word, g2: Word, g3: Word)
    requires g0 < 32 && g1 < 32 && g2 < 32 && g3 < 32
    ensures (((((g0 << 3) | (g1 >> 2)) & 0xff) & 0x07) << 2) | ((((g1 << 6) | (g2 << 1) | (g3 >> 4)) & 0xff) >> 6) == g1
  {
  }

  lemma Group2(g1: Word, g2: Word, g3: Word)
    requires g1 < 32 && g2 < 32 && g3 < 32
    ensures ((((g1 << 6) | (g2 << 1) | (g3 >> 4)) & 0xff) >> 1) & 0x1f == g2
  {
  }

  lemma Group3(g1: Word, g2: Word, g3: Word, g4: Word)
    requires g1 < 32 && g2 < 32 && g3 < 32 && g4 < 32
    ensures (((((g1 << 6) | (g2 << 1) | (g3 >> 4)) & 0xff) & 0x01) << 4) | ((((g3 << 4) | (g4 >> 1)) & 0xff) >> 4) == g3
  {
  }

  lemma Group4(g3: Word, g4: Word, g5: Word, g6: Word)
    requires g3 < 32 && g4 < 32 && g5 < 32 && g6 < 32
    ensures (((((g3 << 4) | (g4 >> 1)) & 0xff) & 0x0f) << 1) | ((((g4 << 7) | (g5 << 2) | (g6 >> 3)) & 0xff) >> 7) == g4
  {
  }

  lemma Group5(g4: Word, g5: Word, g6: Word)
    requires g4 < 32 && g5 < 32 && g6 < 32
    ensures ((((g4 << 7) | (g5 << 2) | (g6 >> 3)) & 0xff) >> 2) & 0x1f == g5
  {
  }

  lemma Group6(g4: Word, g5: Word, g6: Word, g7: Word)
    requires g4 < 32 && g5 < 32 && g6 < 32 && g7 < 32
    ensures (((((g4 << 7) | (g5 << 2) | (g6 >> 3)) & 0xff) & 0x03) << 3) | ((((g6 << 5) | g7) & 0xff) >> 5) == g6
  {
  }

  lemma Group7(g6: Word, g7: Word)
    requires g6 < 32 && g7 < 32
    ensures (((g6 << 5) | g7) & 0xff) & 0x1f == g7
  {
  }

  lemma FirstHalfEncodes(gs: seq<Word>, bs: seq<Word>, q: nat, m: nat)
    requires Groups(gs) && m < 4 && BlockFrom(gs, bs, q)
    ensures BlockGroup(bs, q, m) == gs[8 * q + m]
  {
    var k, i := 8 * q, 5 * q;
    match m
    case 0 =>
      assert bs[i] == BlockByte(gs, q, 0);
      Group0(gs[k], gs[k + 1]);
    case 1 =>
      assert bs[i] == BlockByte(gs, q, 0) && bs[i + 1] == BlockByte(gs, q, 1);
      Group1(gs[k], gs[k + 1], gs[k + 2], gs[k + 3]);
    case 2 =>
      assert bs[i + 1] == BlockByte(gs, q, 1);
      Group2(gs[k + 1], gs[k + 2], gs[k + 3]);
    case _ =>
      assert bs[i + 1] == BlockByte(gs, q, 1) && bs[i + 2] == BlockByte(gs, q, 2);
      Group3(gs[k + 1], gs[k + 2], gs[k + 3], gs[k + 4]);
  }

  lemma SecondHalfEncodes(gs: seq<Word>, bs: seq<Word>, q: nat, m: nat)
    requires Groups(gs) && 4 <= m < 8 && BlockFrom(gs, bs, q)
    ensures BlockGroup(bs, q, m) == gs[8 * q + m]
  {
    var k, i := 8 * q, 5 * q;
    match m
    case 4 =>
      assert bs[i + 2] == BlockByte(gs, q, 2) && bs[i + 3] == BlockByte(gs, q, 3);
      Group4(gs[k + 3], gs[k + 4], gs[k + 5], gs[k + 6]);
    case 5 =>
      assert bs[i + 3] == BlockByte(gs, q, 3);
      Group5(gs[k + 4], gs[k + 5], gs[k + 6]);
    case 6 =>
      assert bs[i + 3] == BlockByte(gs, q, 3) && bs[i + 4] == BlockByte(gs, q, 4);
      Group6(gs[k + 4], gs[k + 5], gs[k + 6], gs[k + 7]);
    case _ =>
      assert bs[i + 4] == BlockByte(gs, q, 4);
      Group7(gs[k + 6], gs[k + 7]);
  }

  lemma BlockEncodes(gs: seq<Word>, bs: seq<Word>, q: nat, m: nat)
    requires Groups(gs) && m < 8 && BlockFrom(gs, bs, q)
    ensures BlockGroup(bs, q, m) == gs[8 * q + m]
  {
    if m < 4 { FirstHalfEncodes(gs, bs, q, m); } else { SecondHalfEncodes(gs, bs, q, m); }
  }

  /** Encoding inverts decoding. */
  lemma EncodeDecode(gs: seq<Word>, blocks: nat, n: nat)
    requires Groups(gs) && |gs| == 8 * blocks && n == 5 * blocks
    ensures var bs := BytesOf(gs, n); Bytes(bs) && |bs| % 5 == 0 && EncodedGroups(bs, |gs|) == gs
  {
    var bs := BytesOf(gs, n);
    forall j | 0 <= j < |bs|
      ensures bs[j] < 256
    {
      ByteIsSmall(gs, j / 5, j % 5);
    }
    forall k | 0 <= k < |gs|
      ensures GroupAt(bs, k) == gs[k]
    {
      BlocksDecoded(gs, bs, k / 8);
      BlockEncodes(gs, bs, k / 8, k % 8);
    }
  }

  // ----- both ways, on strings of whole blocks ---------------------------------------------------------

  function Encoded(bs: seq<Word>): (gs: seq<Word>)
    requires |bs| % 5 == 0
    ensures 5 * |gs| == 8 * |bs|
  {
    EncodedGroups(bs, 8 * |bs| / 5)
  }

  lemma BlockCounts(blocks: nat)
    ensures 5 * (8 * blocks) / 8 == 5 * blocks && 8 * (5 * blocks) / 5 == 8 * blocks
  {
  }

  lemma EncodedDecodes(bs: seq<Word>)
    requires Bytes(bs) && |bs| % 5 == 0
    ensures var gs := Encoded(bs); Groups(gs) && BytesOf(gs, 5 * |gs| / 8) == bs
  {
    var blocks := |bs| / 5;
    assert |bs| == 5 * blocks;
    BlockCounts(blocks);
    DecodeEncode(bs, blocks);
  }

  lemma EncodedTo(bs: seq<Word>, m: nat)
    requires |bs| % 5 == 0 && 5 * m == 8 * |bs|
    ensures Encoded(bs) == EncodedGroups(bs, m)
  {
    assert 8 * |bs| / 5 == m;
  }

  lemma DecodedEncodes(gs: seq<Word>)
    requires Groups(gs) && |gs| % 8 == 0
    ensures var bs := BytesOf(gs, 5 * |gs| / 8); Bytes(bs) && |bs| % 5 == 0 && Encoded(bs) == gs
  {
    var blocks := |gs| / 8;
    BlockCounts(blocks);
    var n := 5 * |gs| / 8;
    EncodeDecode(gs, blocks, n);
    EncodedTo(BytesOf(gs, n), |gs|);
  }

  // ----- the bit stream ----------------------------------------------------------------------------

  /** Bit `t` of a group and of a byte, highest first. */
  function BitOfGroup(g: Word, t: nat): bool
    requires t < 5
  {
    match t
    case 0 => g & 0x10 != 0
    case 1 => g & 0x08 != 0
    case 2 => g & 0x04 != 0
    case 3 => g & 0x02 != 0
    case _ => g & 0x01 != 0
  }

  function BitOfByte(b: Word, t: nat): bool
    requires t < 8
  {
    match t
    case 0 => b & 0x80 != 0
    case 1 => b & 0x40 != 0
    case 2 => b & 0x20 != 0
    case 3 => b & 0x10 != 0
    case 4 => b & 0x08 != 0
    case 5 => b & 0x04 != 0
    case 6 => b & 0x02 != 0
    case _ => b & 0x01 != 0
  }

  /** Bit `i` of the groups, or of the bytes, written one after the other. */
  function GroupBit(gs: seq<Word>, i: nat): bool
    requires i < 5 * |gs|
  {
    BitOfGroup(gs[i / 5], i % 5)
  }

  function ByteBit(bs: seq<Word>, i: nat): bool
    requires i < 8 * |bs|
  {
    BitOfByte(bs[i / 8], i % 8)
  }

  // Bit `t` of each of a block's five bytes, in the groups it spans.

  lemma BitOfByte0(a: Word, b: Word, t: nat)
    requires a < 32 && b < 32 && t < 8
    ensures BitOfByte(((a << 3) | (b >> 2)) & 0xff, t) == if t < 5 then BitOfGroup(a, t) else BitOfGroup(b, t - 5)
  {
  }

  lemma BitOfByte1(a: Word, b: Word, c: Word, t: nat)
    requires a < 32 && b < 32 && c < 32 && t < 8
    ensures BitOfByte(((a << 6) | (b << 1) | (c >> 4)) & 0xff, t) ==
      if t < 2 then BitOfGroup(a, t + 3) else if t < 7 then BitOfGroup(b, t - 2) else BitOfGroup(c, 0)
  {
  }

  lemma BitOfByte2(a: Word, b: Word, t: nat)
    requires a < 32 && b < 32 && t < 8
    ensures BitOfByte(((a << 4) | (b >> 1)) & 0xff, t) == if t < 4 then BitOfGroup(a, t + 1) else BitOfGroup(b, t - 4)
  {
  }

  lemma BitOfByte3(a: Word, b: Word, c: Word, t: nat)
    requires a < 32 && b < 32 && c < 32 && t < 8
    ensures BitOfByte(((a << 7) | (b << 2) | (c >> 3)) & 0xff, t) ==
      if t < 1 then BitOfGroup(a, 4) else if t < 6 then BitOfGroup(b, t - 1) else BitOfGroup(c, t - 6)
  {
  }

  lemma BitOfByte4(a: Word, b: Word, t: nat)
    requires a < 32 && b < 32 && t < 8
    ensures BitOfByte(((a << 5) | b) & 0xff, t) == if t < 3 then BitOfGroup(a, t + 2) else BitOfGroup(b, t - 3)
  {
  }

  lemma EarlyBlockBit(gs: seq<Word>, q: nat, r: nat, t: nat)
    requires Groups(gs) && r < 2 && t < 8 && 8 * (5 * q + r + 1) <= 5 * |gs|
    ensures 8 * q + (8 * r + t) / 5 < |gs|
    ensures BitOfByte(BlockByte(gs, q, r), t) == BitOfGroup(gs[8 * q + (8 * r + t) / 5], (8 * r + t) % 5)
  {
    var k := 8 * q;
    if r == 0 { BitOfByte0(gs[k], gs[k + 1], t); } else { BitOfByte1(gs[k + 1], gs[k + 2], gs[k + 3], t); }
  }

  lemma LateBlockBit(gs: seq<Word>, q: nat, r: nat, t: nat)
    requires Groups(gs) && 2 <= r < 5 && t < 8 && 8 * (5 * q + r + 1) <= 5 * |gs|
    ensures 8 * q + (8 * r + t) / 5 < |gs|
    ensures BitOfByte(BlockByte(gs, q, r), t) == BitOfGroup(gs[8 * q + (8 * r + t) / 5], (8 * r + t) % 5)
  {
    var k := 8 * q;
    match r
    case 2 => BitOfByte2(gs[k + 3], gs[k + 4], t);
    case 3 => BitOfByte3(gs[k + 4], gs[k + 5], gs[k + 6], t);
    case _ => BitOfByte4(gs[k + 6], gs[k + 7], t);
  }

  /** Bit `t` of byte `r` of a block is bit `8r + t` of the block's forty. */
  lemma BlockBit(gs: seq<Word>, q: nat, r: nat, t: nat)
    requires Groups(gs) && r < 5 && t < 8 && 8 * (5 * q + r + 1) <= 5 * |gs|
    ensures 8 * q + (8 * r + t) / 5 < |gs|
    ensures BitOfByte(BlockByte(gs, q, r), t) == BitOfGroup(gs[8 * q + (8 * r + t) / 5], (8 * r + t) % 5)
  {
    if r < 2 { EarlyBlockBit(gs, q, r, t); } else { LateBlockBit(gs, q, r, t); }
  }

  /** Bit `t` of byte `5q + r` is bit `u` of group `8q + m`. */
  lemma StreamIndex(i: nat, q: nat, r: nat, t: nat, m: nat, u: nat)
    requires r < 5 && t < 8 && u < 5 && i == 8 * (5 * q + r) + t && 8 * r + t == 5 * m + u
    ensures i / 5 == 8 * q + m && i % 5 == u
  {
    assert i == 5 * (8 * q + m) + u;
  }

  /** The decoded bytes are the groups' bits, in order, cut into eights. */
  lemma SameBitStream(gs: seq<Word>, n: nat, i: nat)
    requires Groups(gs) && 8 * n <= 5 * |gs| && i < 8 * n
    ensures ByteBit(BytesOf(gs, n), i) == GroupBit(gs, i)
  {
    var j, t := i / 8, i % 8;
    var q, r := j / 5, j % 5;
    BlockBit(gs, q, r, t);
    StreamIndex(i, q, r, t, (8 * r + t) / 5, (8 * r + t) % 5);
  }
}
