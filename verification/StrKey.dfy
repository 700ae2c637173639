/**
  The browser's address check (frontend/src/lib/stellarAddress.ts): which strings it accepts,
  and the promise it is there for, that a mistyped address is caught: exactly which changes of
  up to three neighbouring characters it catches.
*/
module StrKey {
  import opened Wrappers
  import opened Base32
  import opened Base32Code
  import opened Crc16
  import opened CrcPolynomial

  const BASE32_ALPHABET: Alphabet := "ABCDEFGHIJKLMNOPQRSTUVWXYZ234567"

  /** A character the address pattern lets through. */
  predicate Letter(c: char) {
    'A' <= c <= 'Z' || '2' <= c <= '7'
  }

  /** What the proofs need of the alphabet: its letters are the pattern's, each once, and `G` is the seventh. */
  ghost predicate Fits(al: Alphabet) {
    && al[6] == 'G'
    && (forall c :: InAlphabet(al, c) <==> Letter(c))
    && (forall i, j :: 0 <= i < j < 32 ==> al[i] != al[j])
  }

  /** Position of a letter in the alphabet of section 6 of RFC 4648. */
  function Rank(c: char): int {
    if 'A' <= c <= 'Z' then c as int - 'A' as int
    else if '2' <= c <= '7' then c as int - '2' as int + 26
    else -1
  }

  ghost predicate Ranked(al: Alphabet) {
    forall i :: 0 <= i < 32 ==> Rank(al[i]) == i
  }

  lemma {:induction false} RankIsIndex(al: Alphabet, c: char, from: nat)
    requires Ranked(al) && from <= 32 && (Rank(c) == -1 || from <= Rank(c))
    ensures IndexOf(al, c, from) == Rank(c)
    decreases 32 - from
  {
    if from < 32 {
      if al[from] != c {
        assert Rank(c) != from by { RankInjective(c, al[from]); }
        RankIsIndex(al, c, from + 1);
      }
    }
  }

  lemma RankInjective(c: char, d: char)
    requires c != d && Rank(d) != -1
    ensures Rank(c) != Rank(d)
  {
  }

  lemma RankedFits(al: Alphabet)
    requires Ranked(al)
    ensures Fits(al)
  {
    forall c
      ensures InAlphabet(al, c) <==> Letter(c)
    {
      RankIsIndex(al, c, 0);
    }
    assert Rank(al[6]) == Rank('G');
    if al[6] != 'G' {
      RankInjective(al[6], 'G');
    }
  }

  lemma AlphabetRanked()
    ensures Ranked(BASE32_ALPHABET)
  {
  }

  lemma AlphabetFits()
    ensures Fits(BASE32_ALPHABET)
  {
    AlphabetRanked();
    RankedFits(BASE32_ALPHABET);
  }

  // ----- letters and groups -----------------------------------------------------------------------

  lemma IndexRoundTrip(i: int)
    requires 0 <= i < 32
    ensures (i as bv32) as int == i
  {
  }

  lemma WordValue(i: nat)
    requires i < 32
    ensures WordOf(i) as int == i
  {
    IndexRoundTrip(i);
  }

  lemma StandardGroup(al: Alphabet, c: char)
    requires Ranked(al)
    ensures InAlphabet(al, c) <==> Rank(c) != -1
    ensures InAlphabet(al, c) ==> Group(al, c) as int == Rank(c)
  {
    RankIsIndex(al, c, 0);
    if Rank(c) != -1 {
      WordValue(Rank(c));
    }
  }

  /** The alphabet of section 6 of RFC 4648: A to Z stand for 0 to 25, 2 to 7 for 26 to 31. */
  lemma AlphabetIsStandard(c: char)
    ensures 'A' <= c <= 'Z' ==> Group(BASE32_ALPHABET, c) as int == c as int - 'A' as int
    ensures '2' <= c <= '7' ==> Group(BASE32_ALPHABET, c) as int == c as int - '2' as int + 26
    ensures InAlphabet(BASE32_ALPHABET, c) <==> 'A' <= c <= 'Z' || '2' <= c <= '7'
  {
    AlphabetRanked();
    StandardGroup(BASE32_ALPHABET, c);
  }

  lemma ValueWord(g: Word)
    requires g < 32
    ensures (g as int) < 32 && WordOf(g as int) == g
  {
  }

  /** Different letters stand for different groups. */
  lemma GroupInjective(al: Alphabet, c: char, d: char)
    requires InAlphabet(al, c) && InAlphabet(al, d) && Group(al, c) == Group(al, d)
    ensures c == d
  {
    WordValue(IndexOf(al, c, 0));
    WordValue(IndexOf(al, d, 0));
  }

  function LetterOf(al: Alphabet, g: Word): char
    requires g < 32
  {
    ValueWord(g);
    al[g as int]
  }

  lemma {:induction false} IndexOfLetter(al: Alphabet, i: nat, from: nat)
    requires from <= i < 32 && forall a, b :: 0 <= a < b < 32 ==> al[a] != al[b]
    ensures IndexOf(al, al[i], from) == i
    decreases i - from
  {
    if from < i {
      IndexOfLetter(al, i, from + 1);
    }
  }

  lemma GroupOfLetter(al: Alphabet, g: Word)
    requires Fits(al) && g < 32
    ensures InAlphabet(al, LetterOf(al, g)) && Group(al, LetterOf(al, g)) == g
  {
    ValueWord(g);
    IndexOfLetter(al, g as int, 0);
  }

  lemma LetterOfGroup(al: Alphabet, c: char)
    requires InAlphabet(al, c)
    ensures LetterOf(al, Group(al, c)) == c
  {
    WordValue(IndexOf(al, c, 0));
  }

  /** The text that stands for a sequence of groups. */
  function TextOf(al: Alphabet, gs: seq<Word>): (s: string)
    requires forall k :: 0 <= k < |gs| ==> gs[k] < 32
    ensures |s| == |gs| && forall k :: 0 <= k < |gs| ==> s[k] == LetterOf(al, gs[k])
  {
    if gs == [] then [] else TextOf(al, gs[..|gs| - 1]) + [LetterOf(al, gs[|gs| - 1])]
  }

  lemma GroupsOfText(al: Alphabet, gs: seq<Word>)
    requires Fits(al) && Groups(gs)
    ensures OverAlphabet(al, TextOf(al, gs)) && GroupsOf(al, TextOf(al, gs)) == gs
  {
    forall k | 0 <= k < |gs|
      ensures InAlphabet(al, TextOf(al, gs)[k]) && GroupsOf(al, TextOf(al, gs))[k] == gs[k]
    {
      GroupOfLetter(al, gs[k]);
    }
  }

  lemma TextOfGroups(al: Alphabet, s: string)
    requires OverAlphabet(al, s)
    ensures TextOf(al, GroupsOf(al, s)) == s
  {
    forall k | 0 <= k < |s|
      ensures TextOf(al, GroupsOf(al, s))[k] == s[k]
    {
      LetterOfGroup(al, s[k]);
    }
  }

  // ----- the check --------------------------------------------------------------------------------

  /** The pattern: `G`, then 55 letters. */
  predicate Shaped(s: string) {
    && |s| == 56 && s[0] == 'G'
    && forall k :: 1 <= k < 56 ==> Letter(s[k])
  }

  function LittleEndian(low: Word, high: Word): Word {
    low | (high << 8)
  }

  predicate Sealed(d: seq<Word>) {
    |d| == 35 && Crc(d[..33]) == LittleEndian(d[33], d[34])
  }

  /** The pattern matches and the last two bytes are the checksum of the first 33. */
  predicate Accepted(al: Alphabet, s: string) {
    Shaped(s) && Sealed(Decoded(al, s))
  }

  lemma ShapedOverAlphabet(al: Alphabet, s: string)
    requires Fits(al) && Shaped(s)
    ensures OverAlphabet(al, s)
  {
    forall k | 0 <= k < 56
      ensures InAlphabet(al, s[k])
    {
      assert Letter(s[k]);
    }
  }

  method Check(al: Alphabet, value: string) returns (ok: bool)
    requires Fits(al)
    ensures ok == Accepted(al, value)
  {
    if !Shaped(value) {
      return false;
    }
    ShapedOverAlphabet(al, value);
    var decoded := Decode(al, value);
    if decoded.None? || |decoded.value| != 35 {
      return false;
    }
    var payload := decoded.value[..33];
    var checksum := LittleEndian(decoded.value[33], decoded.value[34]);
    var crc := Compute(payload);
    ok := crc == checksum;
  }

  // ----- what is accepted --------------------------------------------------------------------------

  /** 33 payload bytes whose first has 6 in its upper five bits: every version byte from 48 to 55. */
  ghost predicate IsPayload(p: seq<Word>) {
    |p| == 33 && Bytes(p) && p[0] >> 3 == 6
  }

  /** The checksum follows the payload, low byte first. */
  function WithChecksum(p: seq<Word>): (d: seq<Word>)
    ensures |d| == |p| + 2
  {
    p + [Crc(p) & 0xff, Crc(p) >> 8]
  }

  ghost predicate IsTextOf(al: Alphabet, s: string, d: seq<Word>) {
    |d| % 5 == 0 && Groups(Encoded(d)) && s == TextOf(al, Encoded(d))
  }

  ghost predicate IsKeyOf(al: Alphabet, s: string, p: seq<Word>) {
    IsPayload(p) && IsTextOf(al, s, WithChecksum(p))
  }

  lemma SplitChecksum(low: Word, high: Word)
    requires low < 256 && high < 256
    ensures LittleEndian(low, high) & 0xff == low && LittleEndian(low, high) >> 8 == high
  {
  }

  lemma JoinChecksum(c: Word)
    requires Is16(c)
    ensures LittleEndian(c & 0xff, c >> 8) == c && c & 0xff < 256 && c >> 8 < 256
  {
  }

  lemma SeventhLetter(al: Alphabet, c: char)
    requires Fits(al) && InAlphabet(al, c)
    ensures Group(al, c) == 6 <==> c == 'G'
  {
    IndexOfLetter(al, 6, 0);
    if Group(al, c) == 6 {
      GroupInjective(al, c, 'G');
    }
  }

  /** An accepted string is the encoding of its own 35 bytes, and they are bytes. */
  lemma AcceptedEncodes(al: Alphabet, s: string)
    requires Fits(al) && Shaped(s)
    ensures var gs := GroupsOf(al, s); var d := Decoded(al, s);
      |d| == 35 && Bytes(d) && Encoded(d) == gs && TextOf(al, gs) == s && d[0] >> 3 == 6
  {
    var gs := GroupsOf(al, s);
    ShapedOverAlphabet(al, s);
    DecodedEncodes(gs);
    TextOfGroups(al, s);
    SeventhLetter(al, s[0]);
    assert GroupAt(Decoded(al, s), 0) == gs[0];
  }

  lemma SealedSplits(d: seq<Word>)
    requires Bytes(d) && Sealed(d)
    ensures WithChecksum(d[..33]) == d
  {
    SplitChecksum(d[33], d[34]);
  }

  lemma ChecksumSeals(p: seq<Word>)
    requires |p| == 33 && Bytes(p)
    ensures var d := WithChecksum(p); Bytes(d) && Sealed(d) && d[..33] == p
  {
    CrcIs16(p);
    JoinChecksum(Crc(p));
    assert WithChecksum(p)[..33] == p;
  }

  lemma AcceptedIsKey(al: Alphabet, s: string)
    requires Fits(al) && Accepted(al, s)
    ensures IsKeyOf(al, s, Decoded(al, s)[..33])
  {
    var d := Decoded(al, s);
    AcceptedEncodes(al, s);
    SealedSplits(d);
  }

  /** The text of 35 bytes whose first begins with the group of `G`. */
  lemma EncodedText(al: Alphabet, d: seq<Word>)
    requires Fits(al) && Bytes(d) && |d| == 35 && d[0] >> 3 == 6
    ensures var gs := Encoded(d);
      Groups(gs) && Shaped(TextOf(al, gs)) && Decoded(al, TextOf(al, gs)) == d
  {
    var gs := Encoded(d);
    EncodedDecodes(d);
    assert gs[0] == GroupAt(d, 0) == BlockGroup(d, 0, 0);
    GroupsOfText(al, gs);
    TextShaped(al, gs);
  }

  lemma TextShaped(al: Alphabet, gs: seq<Word>)
    requires Fits(al) && Groups(gs) && |gs| == 56 && gs[0] == 6
    ensures Shaped(TextOf(al, gs))
  {
    GroupsOfText(al, gs);
    SeventhLetter(al, TextOf(al, gs)[0]);
  }

  lemma KeyIsAccepted(al: Alphabet, s: string, p: seq<Word>)
    requires Fits(al) && IsKeyOf(al, s, p)
    ensures Accepted(al, s) && Decoded(al, s)[..33] == p
  {
    ChecksumSeals(p);
    EncodedText(al, WithChecksum(p));
  }

  /** A string is accepted exactly when it is the StrKey text of some payload. */
  lemma AcceptedIff(s: string)
    ensures Accepted(BASE32_ALPHABET, s) <==> exists p :: IsKeyOf(BASE32_ALPHABET, s, p)
  {
    var al := BASE32_ALPHABET;
    AlphabetFits();
    if Accepted(al, s) {
      AcceptedIsKey(al, s);
    }
    forall p | IsKeyOf(al, s, p)
      ensures Accepted(al, s)
    {
      KeyIsAccepted(al, s, p);
    }
  }

  /** `isValidPublicKey`: true on the StrKey texts and nowhere else. */
  method IsValidPublicKey(value: string) returns (ok: bool)
    ensures ok <==> exists p :: IsKeyOf(BASE32_ALPHABET, value, p)
  {
    AlphabetFits();
    AcceptedIff(value);
    ok := Check(BASE32_ALPHABET, value);
  }

  // ----- the version byte ---------------------------------------------------------------------------

  lemma VersionBits(g: Word)
    requires g < 32
    ensures ((6 << 3) | (g >> 2)) & 0xff == 48 <==> g < 4
  {
  }

  lemma SmallGroup(al: Alphabet, c: char)
    requires Fits(al) && InAlphabet(al, c)
    ensures Group(al, c) < 4 <==> c in al[..4]
  {
    var i := IndexOf(al, c, 0);
    WordValue(i);
    assert WordOf(i) < 4 <==> i < 4 by { SmallWord(i); }
    if c in al[..4] {
      var j :| 0 <= j < 4 && al[j] == c;
      IndexOfLetter(al, j, 0);
    }
  }

  lemma SmallWord(i: nat)
    requires i < 32
    ensures WordOf(i) < 4 <==> i < 4
  {
    WordValue(i);
  }

  /** An accepted key carries the public-key version byte exactly when its second character is A, B, C or D. */
  lemma VersionByteIff(al: Alphabet, s: string)
    requires Fits(al) && Accepted(al, s)
    ensures Decoded(al, s)[0] == 48 <==> s[1] in al[..4]
  {
    var gs := GroupsOf(al, s);
    ShapedOverAlphabet(al, s);
    SeventhLetter(al, s[0]);
    assert ByteAt(gs, 0) == ((gs[0] << 3) | (gs[1] >> 2)) & 0xff;
    VersionBits(gs[1]);
    SmallGroup(al, s[1]);
  }

  /** Every payload has an accepted key, so the seven other version bytes from 49 to 55 are accepted too. */
  lemma EveryPayloadHasKey(al: Alphabet, p: seq<Word>) returns (s: string)
    requires Fits(al) && IsPayload(p)
    ensures Accepted(al, s) && Decoded(al, s)[..33] == p
  {
    ChecksumSeals(p);
    EncodedText(al, WithChecksum(p));
    s := TextOf(al, Encoded(WithChecksum(p)));
  }

  // ----- one, two and three wrong characters ---------------------------------------------------------

  lemma SameGroups(al: Alphabet, s: string, t: string, from: nat, n: nat)
    requires Within(s, t, from, n)
    ensures Within(GroupsOf(al, s), GroupsOf(al, t), from, n)
  {
  }

  /** Group `k` holds bits `5k` to `5k + 4`. */
  lemma OutsideGroups(i: nat, k: nat, from: nat, n: nat)
    requires k == i / 5 && !(5 * from <= i < 5 * (from + n))
    ensures !(from <= k < from + n)
  {
  }

  /** A change of `n` groups changes at most `5n` bits. */
  lemma BitsTouched(gs: seq<Word>, hs: seq<Word>, from: nat, n: nat, bytes: nat)
    requires Groups(gs) && Groups(hs) && Within(gs, hs, from, n) && 8 * bytes <= 5 * |gs|
    ensures BitsWithin(BytesOf(gs, bytes), BytesOf(hs, bytes), 5 * from, 5 * n)
  {
    forall i | 0 <= i < 8 * bytes && !(5 * from <= i < 5 * from + 5 * n)
      ensures ByteBit(BytesOf(gs, bytes), i) == ByteBit(BytesOf(hs, bytes), i)
    {
      OutsideGroups(i, i / 5, from, n);
      SameBitStream(gs, bytes, i);
      SameBitStream(hs, bytes, i);
    }
  }

  /** Two accepted shapes whose 35 bytes agree are the same text. */
  lemma SameBytesSameText(al: Alphabet, s: string, t: string)
    requires Fits(al) && Shaped(s) && Shaped(t)
    requires Decoded(al, s) == Decoded(al, t)
    ensures s == t
  {
    AcceptedEncodes(al, s);
    AcceptedEncodes(al, t);
  }

  /** Bytes before the window agree. */
  lemma SamePrefix(d: seq<Word>, e: seq<Word>, from: nat, n: nat, k: nat)
    requires Bytes(d) && Bytes(e) && BitsWithin(d, e, from, n) && k <= |d| && 8 * k <= from
    ensures d[..k] == e[..k]
  {
    forall j | 0 <= j < k ensures d[j] == e[j] { SameByteAt(d, e, j); }
  }

  lemma PrefixBits(d: seq<Word>, e: seq<Word>, from: nat, n: nat, k: nat)
    requires BitsWithin(d, e, from, n) && k <= |d|
    ensures BitsWithin(d[..k], e[..k], from, n)
  {
    forall i | 0 <= i < 8 * k && !(from <= i < from + n)
      ensures ByteBit(d[..k], i) == ByteBit(e[..k], i)
    {
      assert ByteBit(d, i) == ByteBit(e, i);
    }
  }

  lemma SameParts(d: seq<Word>, e: seq<Word>)
    requires |d| == |e| == 35 && d[..33] == e[..33] && d[33] == e[33] && d[34] == e[34]
    ensures d == e
  {
    assert d == d[..33] + [d[33], d[34]] && e == e[..33] + [e[33], e[34]];
  }

  /** A window of at most 16 bits that ends before the checksum: the payloads agree, as their checksums do. */
  lemma PayloadAgrees(d: seq<Word>, e: seq<Word>, from: nat)
    requires Bytes(d) && Bytes(e) && Sealed(d) && Sealed(e) && BitsWithin(d, e, from, 16) && from <= 248
    ensures d == e
  {
    SameByteAt(d, e, 33);
    SameByteAt(d, e, 34);
    PrefixBits(d, e, from, 16, 33);
    CrcBurst(d[..33], e[..33], from);
    SameParts(d, e);
  }

  /** A window inside the checksum: the payloads agree, so the checksums do. */
  lemma ChecksumAgrees(d: seq<Word>, e: seq<Word>, from: nat, n: nat)
    requires Bytes(d) && Bytes(e) && Sealed(d) && Sealed(e) && BitsWithin(d, e, from, n) && 264 <= from
    ensures d == e
  {
    SamePrefix(d, e, from, n, 33);
    SealedSplits(d);
    SealedSplits(e);
  }

  lemma GroupsOfShape(al: Alphabet, s: string)
    requires Fits(al) && Shaped(s)
    ensures var gs := GroupsOf(al, s); |gs| == 56 && Groups(gs) && OverAlphabet(al, s) && Bytes(BytesOf(gs, 35))
    ensures Decoded(al, s) == BytesOf(GroupsOf(al, s), 35)
  {
    ShapedOverAlphabet(al, s);
    AcceptedEncodes(al, s);
  }

  lemma WiderWindow(d: seq<Word>, e: seq<Word>, from: nat)
    requires BitsWithin(d, e, from, 15)
    ensures BitsWithin(d, e, from, 16)
  {
  }

  /** Three characters on one side of the border between payload and checksum: 15 bits. */
  lemma OneSided(al: Alphabet, s: string, t: string, from: nat)
    requires Fits(al) && Accepted(al, s) && Within(s, t, from, 3) && (from <= 49 || 53 <= from)
    ensures Accepted(al, t) <==> s == t
  {
    if Accepted(al, t) {
      GroupsOfShape(al, s);
      GroupsOfShape(al, t);
      SameGroups(al, s, t, from, 3);
      BitsTouched(GroupsOf(al, s), GroupsOf(al, t), from, 3, 35);
      var d, e := Decoded(al, s), Decoded(al, t);
      WiderWindow(d, e, 5 * from);
      if from <= 49 { PayloadAgrees(d, e, 5 * from); } else { ChecksumAgrees(d, e, 5 * from, 15); }
      SameBytesSameText(al, s, t);
    }
  }

  // ----- the windows across the border -----------------------------------------------------------------

  // Bytes 31 to 34, from the groups they span.

  function Byte31(g49: Word, g50: Word, g51: Word): Word {
    ((g49 << 6) | (g50 << 1) | (g51 >> 4)) & 0xff
  }

  function Byte32(g51: Word, g52: Word): Word {
    ((g51 << 4) | (g52 >> 1)) & 0xff
  }

  function Byte33(g52: Word, g53: Word, g54: Word): Word {
    ((g52 << 7) | (g53 << 2) | (g54 >> 3)) & 0xff
  }

  function Byte34(g54: Word, g55: Word): Word {
    ((g54 << 5) | g55) & 0xff
  }

  lemma LastBytes(gs: seq<Word>, n: nat)
    requires |gs| == 56 && n == 35
    ensures BytesOf(gs, n)[31] == Byte31(gs[49], gs[50], gs[51]) && BytesOf(gs, n)[32] == Byte32(gs[51], gs[52])
    ensures BytesOf(gs, n)[33] == Byte33(gs[52], gs[53], gs[54]) && BytesOf(gs, n)[34] == Byte34(gs[54], gs[55])
  {
    assert ByteAt(gs, 31) == BlockByte(gs, 6, 1) && ByteAt(gs, 32) == BlockByte(gs, 6, 2);
    assert ByteAt(gs, 33) == BlockByte(gs, 6, 3) && ByteAt(gs, 34) == BlockByte(gs, 6, 4);
  }

  lemma Byte31Xor(a: Word, b: Word, c: Word, a': Word, b': Word, c': Word)
    requires a < 32 && b < 32 && c < 32 && a' < 32 && b' < 32 && c' < 32
    ensures Xor(Byte31(a, b, c), Byte31(a', b', c')) == Byte31(Xor(a, a'), Xor(b, b'), Xor(c, c'))
  {
  }

  lemma Byte32Xor(a: Word, b: Word, a': Word, b': Word)
    requires a < 32 && b < 32 && a' < 32 && b' < 32
    ensures Xor(Byte32(a, b), Byte32(a', b')) == Byte32(Xor(a, a'), Xor(b, b'))
  {
  }

  lemma Byte33Xor(a: Word, b: Word, c: Word, a': Word, b': Word, c': Word)
    requires a < 32 && b < 32 && c < 32 && a' < 32 && b' < 32 && c' < 32
    ensures Xor(Byte33(a, b, c), Byte33(a', b', c')) == Byte33(Xor(a, a'), Xor(b, b'), Xor(c, c'))
  {
  }

  lemma Byte34Xor(a: Word, b: Word, a': Word, b': Word)
    requires a < 32 && b < 32 && a' < 32 && b' < 32
    ensures Xor(Byte34(a, b), Byte34(a', b')) == Byte34(Xor(a, a'), Xor(b, b'))
  {
  }

  lemma LittleEndianXor(low: Word, high: Word, low': Word, high': Word)
    requires IsByte(low) && IsByte(high) && IsByte(low') && IsByte(high')
    ensures Xor(LittleEndian(low, high), LittleEndian(low', high')) == LittleEndian(Xor(low, low'), Xor(high, high'))
  {
  }

  lemma PayloadCrc(d: seq<Word>)
    requires |d| == 35
    ensures Crc(d[..33]) == Update(Update(Crc(d[..31]), d[31]), d[32])
  {
    assert d[..33] == d[..31] + [d[31], d[32]];
    CrcAppendTwo(d[..31], d[31], d[32]);
  }

  lemma SameDifference(x: Word, y: Word, u: Word, v: Word)
    requires x == u
    ensures y == v <==> Xor(x, y) == Xor(u, v)
  {
  }

  /** Next to a sealed string, another that agrees up to byte 30 is sealed exactly when the differences are. */
  lemma SealedDifference(d: seq<Word>, e: seq<Word>)
    requires Bytes(d) && Bytes(e) && Sealed(d) && |e| == 35 && d[..31] == e[..31]
    ensures Sealed(e) <==>
      Update(Update(0, Xor(d[31], e[31])), Xor(d[32], e[32])) == LittleEndian(Xor(d[33], e[33]), Xor(d[34], e[34]))
  {
    var c := Crc(d[..31]);
    PayloadCrc(d);
    PayloadCrc(e);
    UpdateLinear(c, c, d[31], e[31]);
    XorZero(c, c);
    UpdateLinear(Update(c, d[31]), Update(c, e[31]), d[32], e[32]);
    LittleEndianXor(d[33], d[34], e[33], e[34]);
    SameDifference(Crc(d[..33]), Crc(e[..33]), LittleEndian(d[33], d[34]), LittleEndian(e[33], e[34]));
  }

  /** The changes of three neighbouring groups that the checksum does not see. */
  predicate Missed(from: nat, x: Word, y: Word, z: Word) {
    || (from == 50 && x == 0x08 && y == 0x18 && z == 0x15)
    || (from == 52 && x == 0x09 && y == 0x01 && z == 0x02)
    || (from == 52 && x == 0x04 && y == 0x10 && z == 0x11)
    || (from == 52 && x == 0x0d && y == 0x11 && z == 0x13)
  }

  /** Two bytes entering an empty register. */
  function Entered(a: Word, b: Word): Word {
    FastUpdate(Fast(a), b)
  }

  lemma EnteredAfter(a: Word, b: Word, c: Word)
    requires IsByte(b) && c == Fast(a) && Is16(c)
    ensures Update(c, b) == Entered(a, b)
  {
    UpdateFast(c, b);
  }

  lemma EnteredTwice(a: Word, b: Word)
    requires IsByte(a) && IsByte(b)
    ensures Update(Update(0, a), b) == Entered(a, b)
  {
    XorLeftZero(High(a));
    FastSteps(a);
    FastIs16(a);
    EnteredAfter(a, b, Fast(a));
  }

  /** Changes of groups 49 to 55 that keep a sealed string sealed. */
  predicate Unseen(a: Word, b: Word, c: Word, d: Word, e: Word, f: Word, g: Word) {
    Update(Update(0, Byte31(a, b, c)), Byte32(c, d)) == LittleEndian(Byte33(d, e, f), Byte34(f, g))
  }

  lemma Bits50(x: Word, y: Word, z: Word)
    requires x < 32 && y < 32 && z < 32
    ensures Entered(Byte31(0, x, y), Byte32(y, z)) == LittleEndian(Byte33(z, 0, 0), Byte34(0, 0)) <==>
      (x == 0 && y == 0 && z == 0) || Missed(50, x, y, z)
  {
  }

  lemma Bits51(x: Word, y: Word, z: Word)
    requires x < 32 && y < 32 && z < 32
    ensures Entered(Byte31(0, 0, x), Byte32(x, y)) == LittleEndian(Byte33(y, z, 0), Byte34(0, 0)) <==>
      x == 0 && y == 0 && z == 0
  {
  }

  lemma Bits52(x: Word, y: Word, z: Word)
    requires x < 32 && y < 32 && z < 32
    ensures Entered(Byte31(0, 0, 0), Byte32(0, x)) == LittleEndian(Byte33(x, y, z), Byte34(z, 0)) <==>
      (x == 0 && y == 0 && z == 0) || Missed(52, x, y, z)
  {
  }

  lemma BytesAreBytes(a: Word, b: Word, c: Word)
    ensures IsByte(Byte31(a, b, c)) && IsByte(Byte32(a, b))
  {
  }

  lemma Window50(x: Word, y: Word, z: Word)
    requires x < 32 && y < 32 && z < 32
    ensures Unseen(0, x, y, z, 0, 0, 0) <==> (x == 0 && y == 0 && z == 0) || Missed(50, x, y, z)
  {
    BytesAreBytes(0, x, y);
    BytesAreBytes(y, z, 0);
    EnteredTwice(Byte31(0, x, y), Byte32(y, z));
    Bits50(x, y, z);
  }

  lemma Window51(x: Word, y: Word, z: Word)
    requires x < 32 && y < 32 && z < 32
    ensures Unseen(0, 0, x, y, z, 0, 0) <==> x == 0 && y == 0 && z == 0
  {
    BytesAreBytes(0, 0, x);
    BytesAreBytes(x, y, 0);
    EnteredTwice(Byte31(0, 0, x), Byte32(x, y));
    Bits51(x, y, z);
  }

  lemma Window52(x: Word, y: Word, z: Word)
    requires x < 32 && y < 32 && z < 32
    ensures Unseen(0, 0, 0, x, y, z, 0) <==> (x == 0 && y == 0 && z == 0) || Missed(52, x, y, z)
  {
    BytesAreBytes(0, 0, 0);
    BytesAreBytes(0, x, 0);
    EnteredTwice(Byte31(0, 0, 0), Byte32(0, x));
    Bits52(x, y, z);
  }

  function DifferenceAt(gs: seq<Word>, hs: seq<Word>, k: nat): Word
    requires k < |gs| == |hs|
  {
    Xor(gs[k], hs[k])
  }

  lemma DifferenceIsGroup(gs: seq<Word>, hs: seq<Word>, k: nat)
    requires Groups(gs) && Groups(hs) && k < |gs| == |hs|
    ensures DifferenceAt(gs, hs, k) < 32 && (DifferenceAt(gs, hs, k) == 0 <==> gs[k] == hs[k])
  {
    var g, h := gs[k], hs[k];
    assert g ^ h < 32 && (g ^ h == 0 <==> g == h);
  }

  /** The differences of bytes 31 to 34 are read off the differences of groups 49 to 55. */
  lemma DifferentBytes(gs: seq<Word>, hs: seq<Word>, n: nat)
    requires |gs| == |hs| == 56 && n == 35 && Groups(gs) && Groups(hs)
    ensures var d, e := BytesOf(gs, n), BytesOf(hs, n);
      && Xor(d[31], e[31]) == Byte31(DifferenceAt(gs, hs, 49), DifferenceAt(gs, hs, 50), DifferenceAt(gs, hs, 51))
      && Xor(d[32], e[32]) == Byte32(DifferenceAt(gs, hs, 51), DifferenceAt(gs, hs, 52))
      && Xor(d[33], e[33]) == Byte33(DifferenceAt(gs, hs, 52), DifferenceAt(gs, hs, 53), DifferenceAt(gs, hs, 54))
      && Xor(d[34], e[34]) == Byte34(DifferenceAt(gs, hs, 54), DifferenceAt(gs, hs, 55))
  {
    LastBytes(gs, n);
    LastBytes(hs, n);
    Byte31Xor(gs[49], gs[50], gs[51], hs[49], hs[50], hs[51]);
    Byte32Xor(gs[51], gs[52], hs[51], hs[52]);
    Byte33Xor(gs[52], gs[53], gs[54], hs[52], hs[53], hs[54]);
    Byte34Xor(gs[54], gs[55], hs[54], hs[55]);
  }

  lemma DifferentGroups(gs: seq<Word>, hs: seq<Word>, from: nat)
    requires |gs| == 56 && Groups(gs) && Groups(hs) && Within(gs, hs, from, 3) && from <= 53
    ensures forall k :: 0 <= k < 56 ==> DifferenceAt(gs, hs, k) < 32
    ensures forall k :: 0 <= k < 56 && !(from <= k < from + 3) ==> DifferenceAt(gs, hs, k) == 0
    ensures var x, y, z := DifferenceAt(gs, hs, from), DifferenceAt(gs, hs, from + 1), DifferenceAt(gs, hs, from + 2);
      x == y == z == 0 <==> gs == hs
  {
    forall k | 0 <= k < 56
      ensures DifferenceAt(gs, hs, k) < 32 && (DifferenceAt(gs, hs, k) == 0 <==> gs[k] == hs[k])
    {
      DifferenceIsGroup(gs, hs, k);
    }
  }

  /** Next to a sealed string, a change of the last seven groups is sealed exactly if it is unseen. */
  lemma SealedUnseen(gs: seq<Word>, hs: seq<Word>, n: nat)
    requires |gs| == |hs| == 56 && n == 35 && Groups(gs) && Groups(hs)
    requires var d, e := BytesOf(gs, n), BytesOf(hs, n); Bytes(d) && Bytes(e) && Sealed(d) && d[..31] == e[..31]
    ensures Sealed(BytesOf(hs, n)) <==>
      Unseen(DifferenceAt(gs, hs, 49), DifferenceAt(gs, hs, 50), DifferenceAt(gs, hs, 51), DifferenceAt(gs, hs, 52),
             DifferenceAt(gs, hs, 53), DifferenceAt(gs, hs, 54), DifferenceAt(gs, hs, 55))
  {
    SealedDifference(BytesOf(gs, n), BytesOf(hs, n));
    DifferentBytes(gs, hs, n);
  }

  /** Groups that differ within a window across the border. */
  lemma Bordering(gs: seq<Word>, hs: seq<Word>, from: nat, n: nat)
    requires |gs| == 56 && n == 35 && Groups(gs) && Groups(hs) && Within(gs, hs, from, 3) && 50 <= from <= 52
    requires var d, e := BytesOf(gs, n), BytesOf(hs, n); Bytes(d) && Bytes(e) && Sealed(d)
    ensures var x, y, z := DifferenceAt(gs, hs, from), DifferenceAt(gs, hs, from + 1), DifferenceAt(gs, hs, from + 2);
      Sealed(BytesOf(hs, n)) <==> gs == hs || Missed(from, x, y, z)
  {
    BitsTouched(gs, hs, from, 3, n);
    SamePrefix(BytesOf(gs, n), BytesOf(hs, n), 5 * from, 15, 31);
    SealedUnseen(gs, hs, n);
    DifferentGroups(gs, hs, from);
    var x, y, z := DifferenceAt(gs, hs, from), DifferenceAt(gs, hs, from + 1), DifferenceAt(gs, hs, from + 2);
    if from == 50 { Window50(x, y, z); } else if from == 51 { Window51(x, y, z); } else { Window52(x, y, z); }
  }

  /** By how much the groups of two characters differ. */
  function Changed(al: Alphabet, s: string, t: string, k: nat): Word
    requires k < |s| == |t|
  {
    Xor(Group(al, s[k]), Group(al, t[k]))
  }

  lemma SameGroupsSameText(al: Alphabet, s: string, t: string)
    requires OverAlphabet(al, s) && OverAlphabet(al, t) && GroupsOf(al, s) == GroupsOf(al, t)
    ensures s == t
  {
    TextOfGroups(al, s);
    TextOfGroups(al, t);
  }

  /** `t` has the shape and differs from `s` by a change that is missed. */
  predicate Slips(al: Alphabet, s: string, t: string, from: nat)
    requires |s| == |t| && from + 2 < |s|
  {
    Shaped(t) && Missed(from, Changed(al, s, t, from), Changed(al, s, t, from + 1), Changed(al, s, t, from + 2))
  }

  lemma OnlyTwoPlaces(al: Alphabet, s: string, t: string, from: nat)
    requires |s| == |t| && from + 2 < |s| && from != 50 && from != 52
    ensures !Slips(al, s, t, from)
  {
  }

  lemma AcrossTheBorder(al: Alphabet, s: string, t: string, from: nat)
    requires Fits(al) && Accepted(al, s) && Shaped(t) && Within(s, t, from, 3) && 50 <= from <= 52
    ensures Accepted(al, t) <==> s == t || Slips(al, s, t, from)
  {
    GroupsOfShape(al, s);
    GroupsOfShape(al, t);
    SameGroups(al, s, t, from, 3);
    var gs, hs := GroupsOf(al, s), GroupsOf(al, t);
    Bordering(gs, hs, from, 35);
    if gs == hs {
      SameGroupsSameText(al, s, t);
    }
  }

  /**
    Changing up to three neighbouring characters of an accepted address, to anything at all, gives another accepted
    address exactly when the groups change by one of four triples at one of two places.
  */
  lemma ThreeNeighbours(al: Alphabet, s: string, t: string, from: nat)
    requires Fits(al) && Accepted(al, s) && Within(s, t, from, 3) && from <= 53
    ensures Accepted(al, t) <==> s == t || Slips(al, s, t, from)
  {
    if from <= 49 || from == 53 {
      OneSided(al, s, t, from);
      OnlyTwoPlaces(al, s, t, from);
    } else if Shaped(t) {
      AcrossTheBorder(al, s, t, from);
    }
  }

  lemma SameLetter(al: Alphabet, s: string, t: string, k: nat)
    requires k < |s| == |t| && s[k] == t[k]
    ensures Changed(al, s, t, k) == 0
  {
    XorZero(Group(al, s[k]), Group(al, t[k]));
  }

  /** A change of fewer than three characters is none of the four. */
  lemma NotMissed(al: Alphabet, s: string, t: string, from: nat)
    requires |s| == |t| && from + 2 < |s| && (s[from + 1] == t[from + 1] || s[from + 2] == t[from + 2] || from == 53)
    ensures !Slips(al, s, t, from)
  {
    if s[from + 1] == t[from + 1] {
      SameLetter(al, s, t, from + 1);
    } else if s[from + 2] == t[from + 2] {
      SameLetter(al, s, t, from + 2);
    }
  }

  /** Changing two neighbouring characters of an accepted address always gives a rejected one. */
  lemma TwoNeighbours(al: Alphabet, s: string, t: string, i: nat)
    requires Fits(al) && Accepted(al, s) && Within(s, t, i, 2) && s != t
    ensures !Accepted(al, t)
  {
    var from := if i <= 53 then i else 53;
    NotMissed(al, s, t, from);
    ThreeNeighbours(al, s, t, from);
  }

  function Swapped(s: string, i: nat, j: nat): (t: string)
    requires i < j < |s|
    ensures Within(s, t, i, j - i + 1) && (s[i] != s[j] ==> s != t)
  {
    assert s[i] != s[j] ==> s[i] != s[i := s[j]][j := s[i]][i];
    s[i := s[j]][j := s[i]]
  }

  /** Swapping two different characters at most two places apart gives a rejected address. */
  lemma SwapIsCaught(al: Alphabet, s: string, i: nat, j: nat)
    requires Fits(al) && Accepted(al, s) && i < j < |s| && j <= i + 2 && s[i] != s[j]
    ensures !Accepted(al, Swapped(s, i, j))
  {
    var t := Swapped(s, i, j);
    if j == i + 1 {
      TwoNeighbours(al, s, t, i);
    } else {
      NotMissed(al, s, t, i);
      ThreeNeighbours(al, s, t, i);
    }
  }

  /** The letter whose group differs from that of `c` by `x`. */
  function Moved(al: Alphabet, c: char, x: Word): char
    requires x < 32
  {
    XorIsGroup(Group(al, c), x);
    LetterOf(al, Xor(Group(al, c), x))
  }

  lemma XorIsGroup(g: Word, x: Word)
    requires g < 32 && x < 32
    ensures Xor(g, x) < 32
  {
  }

  lemma XorTwice(g: Word, x: Word)
    ensures Xor(g, Xor(g, x)) == x
  {
  }

  lemma MovedBy(al: Alphabet, c: char, x: Word)
    requires Fits(al) && x < 32
    ensures Letter(Moved(al, c, x)) && Xor(Group(al, c), Group(al, Moved(al, c, x))) == x
  {
    XorIsGroup(Group(al, c), x);
    GroupOfLetter(al, Xor(Group(al, c), x));
    XorTwice(Group(al, c), x);
  }

  lemma MovedIsOther(al: Alphabet, c: char, x: Word)
    requires Fits(al) && 0 < x < 32
    ensures Moved(al, c, x) != c
  {
    MovedBy(al, c, x);
    XorZero(Group(al, c), Group(al, c));
  }

  /** Characters 50, 51 and 52 moved by the triple that is missed there. */
  function Respelled(al: Alphabet, s: string): (t: string)
    requires |s| == 56
    ensures Within(s, t, 50, 3)
  {
    s[50 := Moved(al, s[50], 0x08)][51 := Moved(al, s[51], 0x18)][52 := Moved(al, s[52], 0x15)]
  }

  lemma RespelledIs(al: Alphabet, s: string)
    requires Fits(al) && Shaped(s)
    ensures var t := Respelled(al, s); s != t && Slips(al, s, t, 50)
  {
    MovedBy(al, s[50], 0x08);
    MovedBy(al, s[51], 0x18);
    MovedBy(al, s[52], 0x15);
    MovedIsOther(al, s[50], 0x08);
    var t := Respelled(al, s);
    assert t[50] == Moved(al, s[50], 0x08) && t[51] == Moved(al, s[51], 0x18) && t[52] == Moved(al, s[52], 0x15);
  }

  /** Three neighbouring wrong characters are not always caught: next to every accepted address there is another. */
  lemma NotEveryThree(al: Alphabet, s: string)
    requires Fits(al) && Accepted(al, s)
    ensures var t := Respelled(al, s); s != t && Within(s, t, 50, 3) && Accepted(al, t)
  {
    RespelledIs(al, s);
    ThreeNeighbours(al, s, Respelled(al, s), 50);
  }

  /** Changing any one character of an accepted address, to anything at all, gives a rejected one. */
  lemma OneWrongCharacter(s: string, t: string, i: nat)
    requires Accepted(BASE32_ALPHABET, s) && Within(s, t, i, 1) && s != t
    ensures !Accepted(BASE32_ALPHABET, t)
  {
    AlphabetFits();
    TwoNeighbours(BASE32_ALPHABET, s, t, i);
  }
}
