/**
  A note's secret on its way from the sender to the recipient's prover: minted from random
  bytes, printed as 64 hex digits, carried in a claim link's fragment
  (frontend/src/lib/shieldedNote.ts), parsed into a field element (zk-prover-wasm/src/lib.rs).
*/
module NoteLink {
  import opened Wrappers
  import Field

  type Byte = n: nat | n < 256

  // `n` is throughout the number of bytes of a printed field element; the code's is 32.

  // ----- hexadecimal digits ------------------------------------------------------------------------

  function Digit(v: nat): char
    requires v < 16
  {
    "0123456789abcdef"[v]
  }

  function ValueOf(c: char): Option<nat> {
    if '0' <= c <= '9' then Some(c as nat - '0' as nat)
    else if 'a' <= c <= 'f' then Some(c as nat - 'a' as nat + 10)
    else if 'A' <= c <= 'F' then Some(c as nat - 'A' as nat + 10)
    else None
  }

  predicate IsHex(c: char) {
    ValueOf(c).Some?
  }

  function Lower(c: char): char {
    if 'A' <= c <= 'Z' then (c as int - 'A' as int + 'a' as int) as char else c
  }

  function LowerCase(s: string): (r: string)
    ensures |r| == |s| && forall i :: 0 <= i < |s| ==> r[i] == Lower(s[i])
  {
    if s == "" then "" else LowerCase(s[..|s| - 1]) + [Lower(s[|s| - 1])]
  }

  lemma DigitValue(v: nat)
    requires v < 16
    ensures ValueOf(Digit(v)) == Some(v) && Lower(Digit(v)) == Digit(v)
  {
  }

  lemma DigitOfValue(c: char)
    requires IsHex(c)
    ensures ValueOf(c).value < 16 && Digit(ValueOf(c).value) == Lower(c) && ValueOf(Lower(c)) == ValueOf(c)
  {
  }

  ghost predicate AllHex(s: string) {
    forall i :: 0 <= i < |s| ==> IsHex(s[i])
  }

  /** The number that hex digits denote. */
  function HexValue(s: string): nat
    requires AllHex(s)
  {
    if s == "" then 0
    else
      assert IsHex(s[|s| - 1]);
      16 * HexValue(s[..|s| - 1]) + ValueOf(s[|s| - 1]).value
  }

  function Power16(n: nat): (p: nat)
    ensures p > 0
  {
    if n == 0 then 1 else 16 * Power16(n - 1)
  }

  /** `n` digits, zero-padded. */
  function Padded(v: nat, n: nat): (s: string)
    ensures |s| == n && forall i :: 0 <= i < n ==> IsHex(s[i]) && Lower(s[i]) == s[i]
  {
    DigitValue(v % 16);
    if n == 0 then "" else Padded(v / 16, n - 1) + [Digit(v % 16)]
  }

  lemma {:induction false} PaddedValue(v: nat, n: nat)
    requires v < Power16(n)
    ensures HexValue(Padded(v, n)) == v
  {
    if n != 0 {
      PaddedValue(v / 16, n - 1);
      DigitValue(v % 16);
      var s := Padded(v, n);
      assert s[..n - 1] == Padded(v / 16, n - 1);
    }
  }

  lemma SplitDigit(high: nat, low: nat)
    requires low < 16
    ensures (16 * high + low) / 16 == high && (16 * high + low) % 16 == low
  {
  }

  lemma PaddedStep(v: nat, high: nat, n: nat, c: char)
    requires IsHex(c) && v == 16 * high + ValueOf(c).value
    ensures Padded(v, n + 1) == Padded(high, n) + [Lower(c)]
  {
    DigitOfValue(c);
    SplitDigit(high, ValueOf(c).value);
  }

  /** Digits are determined by their value and their number, up to case. */
  lemma {:induction false} PaddedOfValue(s: string)
    requires AllHex(s)
    ensures Padded(HexValue(s), |s|) == LowerCase(s)
  {
    if s != "" {
      var n := |s| - 1;
      PaddedOfValue(s[..n]);
      PaddedStep(HexValue(s), HexValue(s[..n]), n, s[n]);
    }
  }

  // ----- the sender: toString(16) and padStart(2n, '0') ---------------------------------------------

  /** No leading zeros; a single 0 for 0. */
  function ToString16(v: nat): (s: string)
    ensures |s| > 0
  {
    if v < 16 then [Digit(v)] else ToString16(v / 16) + [Digit(v % 16)]
  }

  function PadStart(s: string, n: nat): string
    decreases n - |s|
  {
    if |s| >= n then s else PadStart(['0'] + s, n)
  }

  function ToHex(v: nat, n: nat): string {
    PadStart(ToString16(v), 2 * n)
  }

  function Zeros(n: nat): (s: string)
    ensures |s| == n
  {
    if n == 0 then "" else Zeros(n - 1) + "0"
  }

  lemma {:induction false} PadStartZeros(s: string, n: nat)
    requires |s| <= n
    ensures PadStart(s, n) == Zeros(n - |s|) + s
    decreases n - |s|
  {
    if |s| < n {
      PadStartZeros(['0'] + s, n);
      assert Zeros(n - |s|) + s == Zeros(n - |s| - 1) + (['0'] + s);
    } else {
      assert Zeros(0) + s == s;
    }
  }

  lemma {:induction false} PaddedZero(n: nat)
    ensures Padded(0, n) == Zeros(n)
  {
    if n != 0 {
      PaddedZero(n - 1);
    }
  }

  lemma Sixteenth(v: nat, p: nat)
    requires v < 16 * p
    ensures v / 16 < p
  {
  }

  lemma {:induction false} PaddedFromString(v: nat, n: nat)
    requires v < Power16(n) && n > 0
    ensures |ToString16(v)| <= n && Padded(v, n) == Zeros(n - |ToString16(v)|) + ToString16(v)
  {
    if v < 16 {
      PaddedZero(n - 1);
    } else {
      Sixteenth(v, Power16(n - 1));
      PaddedFromString(v / 16, n - 1);
      assert Zeros(n - |ToString16(v)|) + (ToString16(v / 16) + [Digit(v % 16)])
          == (Zeros(n - |ToString16(v)|) + ToString16(v / 16)) + [Digit(v % 16)];
    }
  }

  /** The printed secret has exactly 2n digits, whatever its leading zeros. */
  lemma ToHexIs(v: nat, n: nat)
    requires v < Power16(2 * n) && n > 0
    ensures ToHex(v, n) == Padded(v, 2 * n)
  {
    PaddedFromString(v, 2 * n);
    PadStartZeros(ToString16(v), 2 * n);
  }

  // ----- bytes ---------------------------------------------------------------------------------------

  function BigEndian(bs: seq<Byte>): nat {
    if bs == [] then 0 else 256 * BigEndian(bs[..|bs| - 1]) + bs[|bs| - 1]
  }

  /** `u8::from_str_radix(_, 16)` on two characters; it takes a leading plus sign. */
  function ByteOfPair(a: char, b: char): Option<Byte> {
    if a == '+' then if IsHex(b) then Some(ByteValue(0, b)) else None
    else if IsHex(a) && IsHex(b) then Some(ByteValue(ValueOf(a).value, b)) else None
  }

  function ByteValue(high: nat, b: char): Byte
    requires high < 16 && IsHex(b)
  {
    16 * high + ValueOf(b).value
  }

  /** `hex_to_bytes`; `None` where the original panics. */
  function HexToBytes(s: string): Option<seq<Byte>> {
    if s == "" then Some([])
    else if |s| == 1 then None
    else
      var rest, last := HexToBytes(s[..|s| - 2]), ByteOfPair(s[|s| - 2], s[|s| - 1]);
      if rest.None? || last.None? then None else Some(rest.value + [last.value])
  }

  lemma HexValueOfPair(s: string, n: nat)
    requires AllHex(s) && |s| == n + 2
    ensures AllHex(s[..n])
    ensures ByteOfPair(s[n], s[n + 1]).Some?
    ensures HexValue(s) == 256 * HexValue(s[..n]) + ByteOfPair(s[n], s[n + 1]).value
  {
    var t := s[..n + 1];
    assert t[..n] == s[..n] && t[n] == s[n];
    assert HexValue(t) == 16 * HexValue(t[..n]) + ValueOf(t[n]).value;
  }

  lemma BigEndianAppend(bs: seq<Byte>, b: Byte)
    ensures BigEndian(bs + [b]) == 256 * BigEndian(bs) + b
  {
    assert (bs + [b])[..|bs|] == bs;
  }

  lemma HexToBytesPair(s: string, n: nat)
    requires |s| == n + 2 && HexToBytes(s[..n]).Some? && ByteOfPair(s[n], s[n + 1]).Some?
    ensures HexToBytes(s) == Some(HexToBytes(s[..n]).value + [ByteOfPair(s[n], s[n + 1]).value])
  {
  }

  lemma {:induction false} HexToBytesValue(s: string)
    requires AllHex(s) && |s| % 2 == 0
    ensures HexToBytes(s).Some? && |HexToBytes(s).value| == |s| / 2 && BigEndian(HexToBytes(s).value) == HexValue(s)
  {
    if s != "" {
      var n := |s| - 2;
      HexValueOfPair(s, n);
      HexToBytesValue(s[..n]);
      HexToBytesPair(s, n);
      BigEndianAppend(HexToBytes(s[..n]).value, ByteOfPair(s[n], s[n + 1]).value);
    }
  }

  function TrimStart0x(s: string): (t: string)
    ensures AllHex(s) ==> t == s
  {
    if |s| >= 2 && s[0] == '0' && s[1] == 'x' then
      assert !IsHex(s[1]);
      TrimStart0x(s[2..])
    else s
  }

  function ZeroBytes(n: nat): (bs: seq<Byte>)
    ensures |bs| == n
  {
    if n == 0 then [] else ZeroBytes(n - 1) + [0]
  }

  function Reduced(v: nat, r: nat): (f: nat)
    requires r > 0
    ensures f < r && (v < r ==> f == v)
  {
    v % r
  }

  /** `fr_from_hex` over the scalar field of order `r`; `None` where the original panics. */
  function FrFromHex(r: nat, n: nat, s: string): Option<nat>
    requires r > 0
  {
    var raw := HexToBytes(TrimStart0x(s));
    if raw.None? || |raw.value| > n then None
    else Some(FrOfBytes(r, n, raw.value))
  }

  /** The bytes, right-aligned in `n`, as a field element. */
  function FrOfBytes(r: nat, n: nat, raw: seq<Byte>): nat
    requires r > 0 && |raw| <= n
  {
    Reduced(BigEndian(ZeroBytes(n - |raw|) + raw), r)
  }

  lemma FrOfBytesIs(r: nat, n: nat, raw: seq<Byte>)
    requires r > 0 && |raw| <= n
    ensures FrOfBytes(r, n, raw) == Reduced(BigEndian(raw), r)
  {
    var padded := ZeroBytes(n - |raw|) + raw;
    LeadingZeros(n - |raw|, raw);
    SameReduced(BigEndian(padded), BigEndian(raw), r);
  }

  lemma SameReduced(u: nat, v: nat, r: nat)
    requires r > 0 && u == v
    ensures Reduced(u, r) == Reduced(v, r)
  {
  }

  lemma {:induction false} LeadingZeros(n: nat, bs: seq<Byte>)
    ensures BigEndian(ZeroBytes(n) + bs) == BigEndian(bs)
  {
    var all := ZeroBytes(n) + bs;
    if bs != [] {
      assert all[..|all| - 1] == ZeroBytes(n) + bs[..|bs| - 1];
      LeadingZeros(n, bs[..|bs| - 1]);
    } else if n != 0 {
      assert all == ZeroBytes(n) && all[..n - 1] == ZeroBytes(n - 1) + [];
      LeadingZeros(n - 1, []);
    }
  }

  /** On up to n pairs of hex digits `fr_from_hex` is their value modulo the order. */
  lemma FrFromHexValue(r: nat, n: nat, s: string)
    requires r > 0 && AllHex(s) && |s| % 2 == 0 && |s| <= 2 * n
    ensures FrFromHex(r, n, s) == Some(Reduced(HexValue(s), r))
  {
    HexToBytesValue(s);
    FrOfBytesIs(r, n, HexToBytes(s).value);
  }

  // ----- fr_to_hex -------------------------------------------------------------------------------------

  function BytesBigEndian(v: nat, n: nat): (bs: seq<Byte>)
    ensures |bs| == n
  {
    if n == 0 then [] else BytesBigEndian(v / 256, n - 1) + [v % 256]
  }

  function TwoDigits(b: Byte): string {
    [Digit(b / 16), Digit(b % 16)]
  }

  function HexOf(bs: seq<Byte>): (s: string)
    ensures |s| == 2 * |bs|
  {
    if bs == [] then "" else HexOf(bs[..|bs| - 1]) + TwoDigits(bs[|bs| - 1])
  }

  /** `to_hex`. */
  method PrintBytes(bs: seq<Byte>) returns (s: string)
    ensures s == HexOf(bs)
  {
    s := "";
    for i := 0 to |bs|
      invariant s == HexOf(bs[..i])
    {
      assert bs[..i + 1][..i] == bs[..i];
      s := s + TwoDigits(bs[i]);
    }
    assert bs[..|bs|] == bs;
  }

  function FrToHex(f: nat, n: nat): string {
    HexOf(BytesBigEndian(f, n))
  }

  lemma {:induction false} HexOfBytes(v: nat, n: nat)
    ensures HexOf(BytesBigEndian(v, n)) == Padded(v, 2 * n)
  {
    if n != 0 {
      HexOfBytes(v / 256, n - 1);
      var bs := BytesBigEndian(v, n);
      assert bs[..n - 1] == BytesBigEndian(v / 256, n - 1);
      assert v / 16 / 16 == v / 256 && v / 16 % 16 == v % 256 / 16 && v % 16 == v % 256 % 16;
      assert Padded(v, 2 * n) == (Padded(v / 16 / 16, 2 * n - 2) + [Digit(v / 16 % 16)]) + [Digit(v % 16)];
    }
  }

  lemma ParsePadded(r: nat, n: nat, f: nat)
    requires f < r <= Power16(2 * n)
    ensures FrFromHex(r, n, Padded(f, 2 * n)) == Some(f)
  {
    var s := Padded(f, 2 * n);
    FrFromHexValue(r, n, s);
    PaddedValue(f, 2 * n);
  }

  /** Parsing what was printed gives the field element back. */
  lemma FrRoundTrip(r: nat, n: nat, f: nat)
    requires f < r <= Power16(2 * n)
    ensures FrFromHex(r, n, FrToHex(f, n)) == Some(f)
  {
    HexOfBytes(f, n);
    ParsePadded(r, n, f);
  }

  /** A string is the padded form of a number exactly when it is lower-case and denotes it. */
  lemma PaddedIff(v: nat, s: string)
    requires AllHex(s) && v < Power16(|s|)
    ensures Padded(v, |s|) == s <==> LowerCase(s) == s && HexValue(s) == v
  {
    PaddedOfValue(s);
    PaddedValue(v, |s|);
  }

  lemma ReducedIff(v: nat, r: nat)
    requires r > 0
    ensures Reduced(v, r) == v <==> v < r
  {
  }

  lemma PrintedIff(f: nat, n: nat, s: string)
    requires AllHex(s) && |s| == 2 * n && f < Power16(2 * n)
    ensures FrToHex(f, n) == s <==> LowerCase(s) == s && HexValue(s) == f
  {
    HexOfBytes(f, n);
    PaddedIff(f, s);
  }

  /** Printing what was parsed gives the string back exactly when it was lower-case and already reduced. */
  lemma HexRoundTripIff(r: nat, n: nat, s: string)
    requires 0 < r <= Power16(2 * n) && AllHex(s) && |s| == 2 * n
    ensures FrFromHex(r, n, s).Some?
    ensures FrToHex(FrFromHex(r, n, s).value, n) == s <==> LowerCase(s) == s && HexValue(s) < r
  {
    FrFromHexValue(r, n, s);
    PrintedIff(Reduced(HexValue(s), r), n, s);
    ReducedIff(HexValue(s), r);
  }

  // ----- the claim link --------------------------------------------------------------------------------

  function EncodeSealedClaimLink(origin: string, secretHex: string): string {
    origin + "/claim/sealed#s=" + secretHex
  }

  /** What the browser reports as the location's hash: from the first `#` on. */
  function FragmentOf(url: string): string
    decreases |url|
  {
    if url == "" then "" else if url[0] == '#' then url else FragmentOf(url[1..])
  }

  /** The pattern matches at the start of `s`. */
  predicate MatchesHere(s: string, n: nat) {
    && |s| >= 2 * n + 3 && (s[0] == '#' || s[0] == '&') && s[1] == 's' && s[2] == '='
    && forall i :: 3 <= i < 2 * n + 3 ==> IsHex(s[i])
  }

  /** The leftmost match's 2n digits, in lower case. */
  function DecodeSealedClaimSecret(hash: string, n: nat): Option<string>
    decreases |hash|
  {
    if MatchesHere(hash, n) then Some(LowerCase(hash[3..2 * n + 3]))
    else if hash == "" then None
    else DecodeSealedClaimSecret(hash[1..], n)
  }

  lemma {:induction false} FragmentOfLink(origin: string, rest: string)
    requires '#' !in origin
    ensures FragmentOf(origin + ['#'] + rest) == ['#'] + rest
  {
    var url := origin + ['#'] + rest;
    if origin == "" {
      assert url == ['#'] + rest;
    } else {
      assert url[1..] == origin[1..] + ['#'] + rest;
      FragmentOfLink(origin[1..], rest);
    }
  }

  lemma DecodeFragment(hex: string, n: nat)
    requires |hex| == 2 * n && forall i :: 0 <= i < 2 * n ==> IsHex(hex[i]) && Lower(hex[i]) == hex[i]
    ensures DecodeSealedClaimSecret("#s=" + hex, n) == Some(hex)
  {
    var hash := "#s=" + hex;
    assert hash[3..2 * n + 3] == hex;
    assert forall i :: 3 <= i < 2 * n + 3 ==> hash[i] == hex[i - 3];
    assert LowerCase(hex) == hex;
  }

  /** The pattern matches first at position `i`. */
  ghost predicate FirstMatch(hash: string, n: nat, i: nat) {
    i <= |hash| && MatchesHere(hash[i..], n) && forall j :: 0 <= j < i ==> !MatchesHere(hash[j..], n)
  }

  /** The secret is read at the first match, if there is one, in lower case. */
  lemma {:induction false} DecodesFirstMatch(hash: string, n: nat)
    ensures DecodeSealedClaimSecret(hash, n).None? <==> forall i: nat :: i <= |hash| ==> !MatchesHere(hash[i..], n)
    ensures forall i: nat :: FirstMatch(hash, n, i) ==>
      DecodeSealedClaimSecret(hash, n) == Some(LowerCase(hash[i..][3..2 * n + 3]))
    decreases |hash|
  {
    assert hash[0..] == hash;
    if !MatchesHere(hash, n) && hash != "" {
      DecodesFirstMatch(hash[1..], n);
      forall i | 0 <= i < |hash| ensures hash[1..][i..] == hash[i + 1..] { }
      forall i: nat | FirstMatch(hash, n, i)
        ensures i > 0 && FirstMatch(hash[1..], n, i - 1) && hash[1..][i - 1..] == hash[i..]
      {
        forall j | 0 <= j < i - 1 ensures !MatchesHere(hash[1..][j..], n) { assert hash[1..][j..] == hash[j + 1..]; }
        assert hash[1..][i - 1..] == hash[i..];
      }
      if i: nat :| i <= |hash| && MatchesHere(hash[i..], n) {
        assert hash[1..][i - 1..] == hash[i..];
      }
    }
  }

  /** Where the secret is read: after `#` or `&`, as the value of `s`, before whatever follows. */
  predicate Carries(hash: string, before: string, c: char, hex: string, after: string, n: nat) {
    && hash == before + [c] + "s=" + hex + after && (c == '#' || c == '&')
    && |hex| == 2 * n && forall d :: d in hex ==> IsHex(d)
  }

  lemma MatchOf(s: string, n: nat, c: char, hex: string, after: string)
    requires Carries(s, "", c, hex, after, n)
    ensures MatchesHere(s, n) && s[3..2 * n + 3] == hex
  {
    assert s == [c, 's', '='] + hex + after;
    assert forall i :: 3 <= i < 2 * n + 3 ==> s[i] == hex[i - 3];
  }

  /** A secret that the fragment carries is read, provided no equals sign comes before. */
  lemma {:induction false} CarriedIsDecoded(hash: string, before: string, c: char, hex: string, after: string, n: nat)
    requires Carries(hash, before, c, hex, after, n) && '=' !in before
    ensures DecodeSealedClaimSecret(hash, n) == Some(LowerCase(hex))
    decreases |before|
  {
    if before == "" {
      MatchOf(hash, n, c, hex, after);
    } else {
      assert hash[2] != '=' by { assert hash[2] == (before + [c] + "s=")[2]; }
      assert hash[1..] == before[1..] + [c] + "s=" + hex + after;
      CarriedIsDecoded(hash[1..], before[1..], c, hex, after, n);
    }
  }

  lemma MatchCarries(s: string, n: nat)
    requires MatchesHere(s, n)
    ensures Carries(s, "", s[0], s[3..2 * n + 3], s[2 * n + 3..], n)
  {
    var hex, after := s[3..2 * n + 3], s[2 * n + 3..];
    assert s == [s[0], 's', '='] + hex + after;
    assert "" + [s[0]] + "s=" == [s[0], 's', '='];
    assert forall i :: 0 <= i < 2 * n ==> hex[i] == s[i + 3];
  }

  lemma CarriesLater(first: char, s: string, before: string, c: char, hex: string, after: string, n: nat)
    requires Carries(s, before, c, hex, after, n)
    ensures Carries([first] + s, [first] + before, c, hex, after, n)
  {
    assert [first] + (before + [c] + "s=" + hex + after) == [first] + before + [c] + "s=" + hex + after;
  }

  /** And whatever is read was carried. */
  lemma {:induction false} DecodedIsCarried(hash: string, n: nat)
    returns (before: string, c: char, hex: string, after: string)
    requires DecodeSealedClaimSecret(hash, n).Some?
    ensures Carries(hash, before, c, hex, after, n) && DecodeSealedClaimSecret(hash, n) == Some(LowerCase(hex))
    decreases |hash|
  {
    if MatchesHere(hash, n) {
      before, c, hex, after := "", hash[0], hash[3..2 * n + 3], hash[2 * n + 3..];
      MatchCarries(hash, n);
    } else {
      before, c, hex, after := DecodedIsCarried(hash[1..], n);
      CarriesLater(hash[0], hash[1..], before, c, hex, after, n);
      before := [hash[0]] + before;
      assert [hash[0]] + hash[1..] == hash;
    }
  }

  lemma LinkFragment(origin: string, hex: string)
    requires '#' !in origin
    ensures var link := EncodeSealedClaimLink(origin, hex);
      FragmentOf(link) == "#s=" + hex && link == origin + "/claim/sealed" + FragmentOf(link)
  {
    var path := origin + "/claim/sealed";
    assert EncodeSealedClaimLink(origin, hex) == path + ['#'] + ("s=" + hex);
    FragmentOfLink(path, "s=" + hex);
    assert ['#'] + ("s=" + hex) == "#s=" + hex;
  }

  /** The link carries a printed secret unharmed. */
  lemma LinkRoundTrip(origin: string, v: nat, n: nat)
    requires '#' !in origin && v < Power16(2 * n) && n > 0
    ensures var link := EncodeSealedClaimLink(origin, ToHex(v, n));
      && link == origin + "/claim/sealed" + FragmentOf(link)
      && DecodeSealedClaimSecret(FragmentOf(link), n) == Some(ToHex(v, n))
  {
    ToHexIs(v, n);
    LinkFragment(origin, ToHex(v, n));
    DecodeFragment(ToHex(v, n), n);
  }

  lemma ReducedIsCongruent(v: nat, r: nat)
    requires r > 0
    ensures Reduced(v, r) % r == v % r
  {
    Field.ModRange(r, v);
  }

  lemma SmallIsReduced(a: nat, b: nat, r: nat)
    requires a < r && b < r
    ensures a % r == b % r <==> a == b
  {
    Field.CanonicalMod(r, a);
    Field.CanonicalMod(r, b);
  }

  /** A printed secret: two lower-case digits a byte, their value below the order and congruent to that of the bytes. */
  ghost predicate Mints(r: nat, buf: seq<Byte>, hex: string)
    requires r > 0
  {
    && |hex| == 2 * |buf| && AllHex(hex) && LowerCase(hex) == hex
    && HexValue(hex) < r && HexValue(hex) % r == BigEndian(buf) % r
  }

  lemma MintedSecret(r: nat, buf: seq<Byte>)
    requires 0 < r <= Power16(2 * |buf|) && buf != []
    ensures Mints(r, buf, ToHex(Reduced(BigEndian(buf), r), |buf|))
  {
    var f := Reduced(BigEndian(buf), r);
    ToHexIs(f, |buf|);
    LowerPadded(f, 2 * |buf|);
    PaddedValue(f, 2 * |buf|);
    ReducedIsCongruent(BigEndian(buf), r);
  }

  lemma LowerPadded(v: nat, n: nat)
    ensures LowerCase(Padded(v, n)) == Padded(v, n)
  {
  }

  /** Two buffers of one length mint the same secret exactly when their values are congruent. */
  lemma SameSecretIff(r: nat, a: seq<Byte>, b: seq<Byte>, x: string, y: string)
    requires r > 0 && |a| == |b| && Mints(r, a, x) && Mints(r, b, y)
    ensures x == y <==> BigEndian(a) % r == BigEndian(b) % r
  {
    SmallIsReduced(HexValue(x), HexValue(y), r);
    PaddedOfValue(x);
    PaddedOfValue(y);
  }

  /** Only one string is minted from given bytes. */
  lemma MintedOnce(r: nat, buf: seq<Byte>, x: string, y: string)
    requires r > 0 && Mints(r, buf, x) && Mints(r, buf, y)
    ensures x == y
  {
    SameSecretIff(r, buf, buf, x, y);
  }

  /** Up to n pairs of digits are parsed to the field element congruent to their value. */
  lemma ParsedIsCongruent(r: nat, n: nat, s: string)
    requires r > 0 && AllHex(s) && |s| % 2 == 0 && |s| <= 2 * n
    ensures FrFromHex(r, n, s).Some? && FrFromHex(r, n, s).value < r
    ensures FrFromHex(r, n, s).value % r == HexValue(s) % r
  {
    FrFromHexValue(r, n, s);
    ReducedIsCongruent(HexValue(s), r);
  }

  /** What `from_str_radix` takes for two characters: two digits, or a plus sign and a digit. */
  predicate IsPair(a: char, b: char) {
    IsHex(b) && (IsHex(a) || a == '+')
  }

  lemma {:induction false} HexToBytesIff(s: string)
    ensures HexToBytes(s).Some? <==> |s| % 2 == 0 && forall i :: 0 <= i < |s| / 2 ==> IsPair(s[2 * i], s[2 * i + 1])
    ensures HexToBytes(s).Some? ==> |HexToBytes(s).value| == |s| / 2
    decreases |s|
  {
    if |s| >= 2 {
      var n := |s| - 2;
      HexToBytesIff(s[..n]);
      if |s| % 2 == 0 {
        assert forall i :: 0 <= i < n / 2 ==> s[..n][2 * i] == s[2 * i] && s[..n][2 * i + 1] == s[2 * i + 1];
        assert s[n] == s[2 * (n / 2)] && s[n + 1] == s[2 * (n / 2) + 1];
      }
    }
  }

  /** Exactly which strings `fr_from_hex` does not panic on: at most n pairs, once leading `0x` are gone. */
  lemma ParsesIff(r: nat, n: nat, s: string)
    requires r > 0
    ensures var t := TrimStart0x(s);
      FrFromHex(r, n, s).Some? <==>
      |t| % 2 == 0 && |t| <= 2 * n && forall i :: 0 <= i < |t| / 2 ==> IsPair(t[2 * i], t[2 * i + 1])
  {
    HexToBytesIff(TrimStart0x(s));
  }

  function Prefixes(k: nat): string {
    if k == 0 then "" else "0x" + Prefixes(k - 1)
  }

  /** Trimming takes off every leading `0x`, and nothing else. */
  lemma {:induction false} TrimmedIs(s: string) returns (k: nat)
    ensures s == Prefixes(k) + TrimStart0x(s) && !("0x" <= TrimStart0x(s))
    decreases |s|
  {
    k := 0;
    if "0x" <= s {
      var j := TrimmedIs(s[2..]);
      k := j + 1;
      PrefixMore(s, j, TrimStart0x(s[2..]));
    }
  }

  lemma PrefixMore(s: string, k: nat, t: string)
    requires "0x" <= s && s[2..] == Prefixes(k) + t
    ensures s == Prefixes(k + 1) + t
  {
    assert s == "0x" + s[2..];
    assert "0x" + (Prefixes(k) + t) == "0x" + Prefixes(k) + t;
  }

  function UnsignedDigit(c: char): char {
    if c == '+' then '0' else c
  }

  /** Pair by pair, a plus sign where a high digit belongs counts as a zero. */
  function Unsigned(s: string): (t: string)
    ensures |t| == |s|
  {
    if |s| < 2 then s else Unsigned(s[..|s| - 2]) + [UnsignedDigit(s[|s| - 2]), s[|s| - 1]]
  }

  lemma UnsignedPair(a: char, b: char)
    requires ByteOfPair(a, b).Some?
    ensures IsHex(UnsignedDigit(a)) && IsHex(b) && UnsignedDigit(b) == b
    ensures ByteOfPair(UnsignedDigit(a), b) == ByteOfPair(a, b)
  {
  }

  lemma OnePairMore(s: string, a: char, b: char)
    requires AllHex(s) && IsHex(a) && IsHex(b) && HexToBytes(s).Some? && ByteOfPair(a, b).Some?
    ensures AllHex(s + [a, b])
    ensures HexToBytes(s + [a, b]) == Some(HexToBytes(s).value + [ByteOfPair(a, b).value])
  {
    assert (s + [a, b])[..|s|] == s;
    HexToBytesPair(s + [a, b], |s|);
  }

  lemma {:induction false} SignsAreZeros(s: string)
    requires HexToBytes(s).Some?
    ensures |s| % 2 == 0 && AllHex(Unsigned(s)) && HexToBytes(Unsigned(s)) == HexToBytes(s)
    decreases |s|
  {
    if s != "" {
      var n := |s| - 2;
      SignsAreZeros(s[..n]);
      UnsignedPair(s[n], s[n + 1]);
      OnePairMore(Unsigned(s[..n]), UnsignedDigit(s[n]), s[n + 1]);
      HexToBytesPair(s, n);
    }
  }

  /** Whatever is parsed, the element is congruent to the value of its digits. */
  lemma ParsedValue(r: nat, n: nat, s: string)
    requires r > 0 && FrFromHex(r, n, s).Some?
    ensures var t := Unsigned(TrimStart0x(s));
      AllHex(t) && FrFromHex(r, n, s).value < r && FrFromHex(r, n, s).value % r == HexValue(t) % r
  {
    var t, raw := TrimStart0x(s), HexToBytes(TrimStart0x(s)).value;
    SignsAreZeros(t);
    HexToBytesValue(Unsigned(t));
    FrOfBytesIs(r, n, raw);
    ReducedIsCongruent(BigEndian(raw), r);
  }

  /** A leading `0x`, or several, makes no difference. */
  lemma PrefixIgnored(r: nat, n: nat, s: string)
    requires r > 0
    ensures FrFromHex(r, n, "0x" + s) == FrFromHex(r, n, s)
  {
    assert ("0x" + s)[2..] == s;
  }

  /** `generateNote`, up to the commitment: fold the random bytes, reduce, print. */
  method GenerateSecret(r: nat, buf: seq<Byte>) returns (secretHex: string)
    requires r > 0
    ensures secretHex == ToHex(Reduced(BigEndian(buf), r), |buf|)
    ensures buf != [] && r <= Power16(2 * |buf|) ==> Mints(r, buf, secretHex)
  {
    var v: nat := 0;
    for i := 0 to |buf|
      invariant v == BigEndian(buf[..i])
    {
      assert buf[..i + 1][..i] == buf[..i];
      v := 256 * v + buf[i];
    }
    assert buf[..|buf|] == buf;
    secretHex := ToHex(Reduced(v, r), |buf|);
    if buf != [] && r <= Power16(2 * |buf|) {
      MintedSecret(r, buf);
    }
  }

  /**
    For all random bytes: the link carries the minted secret, and the recipient's prover and the sender's parse
    from it the same field element, the one congruent to the bytes, and hence the same commitment.
  */
  lemma SecretArrives(r: nat, buf: seq<Byte>, origin: string, secretHex: string)
    requires r > 0 && '#' !in origin && Mints(r, buf, secretHex)
    ensures var received := DecodeSealedClaimSecret(FragmentOf(EncodeSealedClaimLink(origin, secretHex)), |buf|);
      received == Some(secretHex)
    ensures var v := FrFromHex(r, |buf|, secretHex);
      v.Some? && v.value < r && v.value % r == BigEndian(buf) % r
  {
    LinkFragment(origin, secretHex);
    DecodeMinted(r, buf, secretHex);
    ParseMinted(r, buf, secretHex);
  }

  lemma ParseMinted(r: nat, buf: seq<Byte>, hex: string)
    requires r > 0 && Mints(r, buf, hex)
    ensures var v := FrFromHex(r, |buf|, hex); v.Some? && v.value < r && v.value % r == BigEndian(buf) % r
  {
    assert |hex| % 2 == 0;
    ParsedIsCongruent(r, |buf|, hex);
    CongruenceChains(FrFromHex(r, |buf|, hex).value, HexValue(hex), BigEndian(buf), r);
  }

  lemma CongruenceChains(a: nat, b: nat, c: nat, r: nat)
    requires r > 0 && a % r == b % r && b % r == c % r
    ensures a % r == c % r
  {
  }

  lemma DecodeMinted(r: nat, buf: seq<Byte>, hex: string)
    requires r > 0 && Mints(r, buf, hex)
    ensures DecodeSealedClaimSecret("#s=" + hex, |buf|) == Some(hex)
  {
    assert "#s=" + hex == "" + ['#'] + "s=" + hex + "";
    CarriedIsDecoded("#s=" + hex, "", '#', hex, "", |buf|);
  }
}
