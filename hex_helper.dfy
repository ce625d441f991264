/** `MacToUInt`: the device's id string, read as hex pairs into a 16-byte
    buffer whose first four bytes are then packed big-endian. Each character
    of the id stands for one UTF-16 code unit, which is exact for characters
    below U+10000; a character above U+FFFF, two code units in .NET, is not
    modelled as such. */
module HexHelper {
  import opened Bytes
  import opened Outcomes

  /** `Convert.ToByte(char)` fails for a character above 255. */
  predicate Overflows(c: char) {
    c as int > 255
  }

  /** `char.ToUpper` on the code points 0..255, assuming a culture that
      upper-cases them as the invariant culture does: ASCII and Latin-1 small
      letters move to their capitals, two of which lie above 255 (micro sign
      and y with diaeresis). */
  function Upper(code: int): (u: int)
    requires 0 <= code < 256
    ensures 'a' as int <= code <= 'z' as int ==> u == code - 32
    ensures 0 <= code < 'a' as int ==> u == code
  {
    if 'a' as int <= code <= 'z' as int then code - 32
    else if 0xE0 <= code <= 0xFE && code != 0xF7 then code - 32
    else if code == 0xB5 then 0x39C
    else if code == 0xFF then 0x178
    else code
  }

  /** The digit value of one character: upper-case it, subtract 0x30 with
      byte wrap-around, and subtract 7 more when above 9. */
  function Digit(code: int): u8
    requires 0 <= code < 256
  {
    var s := (Upper(code) - 0x30) % 256;
    if s > 9 then s - 7 else s
  }

  /** Byte `i` of the buffer: sixteen times the first digit plus the second,
      truncated to a byte. */
  function PairByte(c1: char, c2: char): u8
    requires !Overflows(c1) && !Overflows(c2)
  {
    (Digit(c1 as int) * 16 + Digit(c2 as int)) % 256
  }

  /** The exception the loop meets first, scanning pairs from `i` on: an
      overflowing character, or a seventeenth pair that does not fit the
      16-byte buffer. A trailing odd character is never looked at. */
  function FirstFault(s: string, i: nat): Option<Error>
    decreases |s| / 2 - i
  {
    if i >= |s| / 2 then None
    else if Overflows(s[2 * i]) || Overflows(s[2 * i + 1]) then Some(MacCharacterOverflow)
    else if i >= 16 then Some(MacIndexOutOfRange)
    else FirstFault(s, i + 1)
  }

  /** Byte `i` of the buffer after the loop: filled from pair `i` when the
      string has one, otherwise still 0. */
  function ByteAt(s: string, i: nat): u8 {
    if i < |s| / 2 && !Overflows(s[2 * i]) && !Overflows(s[2 * i + 1]) then PairByte(s[2 * i], s[2 * i + 1])
    else 0
  }

  /** Bytes 0..3 packed big-endian into a `uint`. The source shifts each
      byte into its own 8-bit range and ORs them; the ranges are disjoint, so
      the OR is this sum. */
  function Pack(b0: u8, b1: u8, b2: u8, b3: u8): u32 {
    b0 * 0x100_0000 + b1 * 0x1_0000 + b2 * 0x100 + b3
  }

  /** What `MacToUInt` returns or throws. */
  function MacValue(s: string): Result<u32> {
    match FirstFault(s, 0)
    case Some(e) => Failure(e)
    case None => Success(Pack(ByteAt(s, 0), ByteAt(s, 1), ByteAt(s, 2), ByteAt(s, 3)))
  }

  method MacToUInt(pbSrc: string) returns (r: Result<u32>)
    ensures r == MacValue(pbSrc)
  {
    var pbDest := new u8[16](_ => 0);
    var i := 0;
    while i < |pbSrc| / 2
      invariant 0 <= i <= |pbSrc| / 2 && i <= 16
      invariant FirstFault(pbSrc, i) == FirstFault(pbSrc, 0)
      invariant forall j :: 0 <= j < 16 ==> pbDest[j] == if j < i then ByteAt(pbSrc, j) else 0
    {
      var pair := ReadPair(pbSrc[2 * i], pbSrc[2 * i + 1]);
      if pair.None? {
        return Failure(MacCharacterOverflow);
      }
      if i >= 16 {
        return Failure(MacIndexOutOfRange);
      }
      assert FirstFault(pbSrc, i) == FirstFault(pbSrc, i + 1);
      pbDest[i] := pair.value;
      i := i + 1;
    }
    assert FirstFault(pbSrc, 0) == None;
    assert pbDest[0] == ByteAt(pbSrc, 0) && pbDest[1] == ByteAt(pbSrc, 1);
    assert pbDest[2] == ByteAt(pbSrc, 2) && pbDest[3] == ByteAt(pbSrc, 3);
    r := Success((pbDest[0] as int) * 0x100_0000 + (pbDest[1] as int) * 0x1_0000 + (pbDest[2] as int) * 0x100 + pbDest[3]);
  }

  /** One pass of the `MacToUInt` loop before the store: both characters
      converted to bytes (None when either is above 255), upper-cased and
      turned into digits, then combined. */
  method ReadPair(h1: char, h2: char) returns (r: Option<u8>)
    ensures r.None? <==> Overflows(h1) || Overflows(h2)
    ensures r.Some? ==> r.value == PairByte(h1, h2)
  {
    if h1 as int > 255 || h2 as int > 255 {
      return None;
    }
    var s1 := (Upper(h1 as int) - 0x30) % 256;
    if s1 > 9 {
      s1 := s1 - 7;
    }
    var s2 := (Upper(h2 as int) - 0x30) % 256;
    if s2 > 9 {
      s2 := s2 - 7;
    }
    r := Some((s1 * 16 + s2) % 256);
  }

  /** '0'..'9' are 0..9, and 'A'..'F' and 'a'..'f' are 10..15. */
  lemma DigitValues(c: char)
    ensures '0' <= c <= '9' ==> Digit(c as int) == c as int - '0' as int
    ensures 'A' <= c <= 'F' ==> Digit(c as int) == c as int - 'A' as int + 10
    ensures 'a' <= c <= 'f' ==> Digit(c as int) == c as int - 'a' as int + 10
  {
  }

  /** Two characters the parser cannot tell apart: both overflow, or both
      upper-case to the same character. */
  predicate SameDigit(a: char, b: char) {
    (Overflows(a) && Overflows(b)) ||
    (!Overflows(a) && !Overflows(b) && Upper(a as int) == Upper(b as int))
  }

  lemma {:induction false} FaultsAgree(s: string, t: string, i: nat)
    requires |s| == |t| && forall k :: 0 <= k < |s| ==> SameDigit(s[k], t[k])
    ensures FirstFault(s, i) == FirstFault(t, i)
    decreases |s| / 2 - i
  {
    if i < |s| / 2 {
      assert SameDigit(s[2 * i], t[2 * i]) && SameDigit(s[2 * i + 1], t[2 * i + 1]);
      FaultsAgree(s, t, i + 1);
    }
  }

  /** Hex digits are case-insensitive: strings that agree up to upper-casing
      give the same id, or the same exception. */
  lemma CaseInsensitive(s: string, t: string)
    requires |s| == |t| && forall k :: 0 <= k < |s| ==> SameDigit(s[k], t[k])
    ensures MacValue(s) == MacValue(t)
  {
    FaultsAgree(s, t, 0);
    forall j | 0 <= j < 4
      ensures ByteAt(s, j) == ByteAt(t, j)
    {
      if j < |s| / 2 {
        assert SameDigit(s[2 * j], t[2 * j]) && SameDigit(s[2 * j + 1], t[2 * j + 1]);
      }
    }
  }

  /** The documented example id. */
  lemma ExampleId()
    ensures MacValue("417F0CD3") == Success(0x417F0CD3)
  {
    var u := "417F0CD3";
    assert FirstFault(u, 4) == None;
    assert FirstFault(u, 3) == None;
    assert FirstFault(u, 2) == None;
    assert FirstFault(u, 1) == None;
    assert FirstFault(u, 0) == None;
    assert ByteAt(u, 0) == 0x41;
    assert ByteAt(u, 1) == 0x7F;
    assert ByteAt(u, 2) == 0x0C;
    assert ByteAt(u, 3) == 0xD3;
  }

  /** The same id in lower case. */
  lemma ExampleIdLowerCase()
    ensures MacValue("417f0cd3") == Success(0x417F0CD3)
  {
    var u, l := "417F0CD3", "417f0cd3";
    forall k | 0 <= k < 8
      ensures SameDigit(u[k], l[k])
    {
    }
    CaseInsensitive(u, l);
    ExampleId();
  }

  /** A trailing odd character is ignored. */
  lemma OddCharacterIgnored(s: string)
    requires |s| % 2 == 1
    ensures MacValue(s) == MacValue(s[..|s| - 1])
  {
    var t := s[..|s| - 1];
    FaultsOnPrefix(s, t, 0);
  }

  lemma {:induction false} FaultsOnPrefix(s: string, t: string, i: nat)
    requires |t| <= |s| && |t| / 2 == |s| / 2 && t == s[..|t|]
    ensures FirstFault(s, i) == FirstFault(t, i)
    decreases |s| / 2 - i
  {
    if i < |s| / 2 {
      FaultsOnPrefix(s, t, i + 1);
    }
  }

  /** A fault-free scan of pairs `i` onward keeps a fault-free scan of any
      shorter prefix. */
  lemma {:induction false} NoFaultOnPrefix(s: string, n: nat, i: nat)
    requires n <= |s| && FirstFault(s, i) == None
    ensures FirstFault(s[..n], i) == None
    decreases |s| / 2 - i
  {
    if i < n / 2 {
      assert s[..n][2 * i] == s[2 * i] && s[..n][2 * i + 1] == s[2 * i + 1];
      NoFaultOnPrefix(s, n, i + 1);
    }
  }

  /** Characters after the 8th do not affect a successful result. */
  lemma TailIgnored(s: string)
    requires |s| >= 8 && MacValue(s).Success?
    ensures MacValue(s[..8]) == MacValue(s)
  {
    NoFaultOnPrefix(s, 8, 0);
  }

  /** The result holds buffer bytes 0..3 big-endian: its wire bytes, least
      significant first, are bytes 3, 2, 1 and 0 of the buffer. */
  lemma PackedBigEndian(s: string, v: u32)
    requires MacValue(s) == Success(v)
    ensures EncodeU32(v) == [ByteAt(s, 3), ByteAt(s, 2), ByteAt(s, 1), ByteAt(s, 0)]
  {
    var e := [ByteAt(s, 3), ByteAt(s, 2), ByteAt(s, 1), ByteAt(s, 0)];
    DecodeFour(e);
    U32RoundTrip(v, e);
  }

  /** Pairs the string does not have leave their bytes 0, so a string
      shorter than 8 characters yields zero low-order bytes. */
  lemma ShortStringLowBytesZero(s: string, v: u32)
    requires |s| < 8 && MacValue(s) == Success(v)
    ensures forall k :: 0 <= k < 4 - |s| / 2 ==> EncodeU32(v)[k] == 0
  {
    PackedBigEndian(s, v);
    LeadingZeros(s, EncodeU32(v));
  }

  lemma LeadingZeros(s: string, e: seq<u8>)
    requires |s| < 8 && e == [ByteAt(s, 3), ByteAt(s, 2), ByteAt(s, 1), ByteAt(s, 0)]
    ensures forall k :: 0 <= k < 4 - |s| / 2 ==> e[k] == 0
  {
  }

  /** The scan from pair `i` on finds no fault exactly when the string has
      at most 16 pairs (or none left) and none of the characters still to be
      read overflows. */
  lemma {:induction false} NoFaultIff(s: string, i: nat)
    ensures FirstFault(s, i) == None <==>
      i >= |s| / 2 ||
      (|s| / 2 <= 16 && forall k :: 2 * i <= k < 2 * (|s| / 2) ==> !Overflows(s[k]))
    decreases |s| / 2 - i
  {
    if i < |s| / 2 {
      NoFaultIff(s, i + 1);
      if !Overflows(s[2 * i]) && !Overflows(s[2 * i + 1]) && i < 16 && FirstFault(s, i + 1) == None {
        if i + 1 < |s| / 2 {
          forall k | 2 * i <= k < 2 * (|s| / 2)
            ensures !Overflows(s[k])
          {
            if k >= 2 * (i + 1) {
              assert 2 * (i + 1) <= k < 2 * (|s| / 2);
            }
          }
        }
      }
    }
  }

  /** The parse fails exactly when the string has more than 16 pairs, or
      one of the characters it reads is above 255. */
  lemma FailureIff(s: string)
    ensures MacValue(s).Failure? <==>
      |s| >= 34 || exists k :: 0 <= k < 2 * (|s| / 2) && Overflows(s[k])
  {
    NoFaultIff(s, 0);
  }

  /** A 34-character or longer id without overflowing characters fails on
      the seventeenth pair, which lies past the 16-byte buffer. */
  lemma {:induction false} TooLongFaults(s: string, i: nat)
    requires |s| >= 34 && i <= 16
    requires forall k :: 0 <= k < 34 ==> !Overflows(s[k])
    ensures FirstFault(s, i) == Some(MacIndexOutOfRange)
    decreases 16 - i
  {
    if i < 16 {
      TooLongFaults(s, i + 1);
    }
  }

  lemma TooLong(s: string)
    requires |s| >= 34 && forall k :: 0 <= k < 34 ==> !Overflows(s[k])
    ensures MacValue(s) == Failure(MacIndexOutOfRange)
  {
    TooLongFaults(s, 0);
  }

  /** The canonical spelling of an id: eight upper-case hex digits, most
      significant first. */
  function HexChar(d: nat): char
    requires d < 16
  {
    if d < 10 then (0x30 + d) as char else (0x41 + d - 10) as char
  }

  function HexByte(b: u8): string {
    [HexChar(b / 16), HexChar(b % 16)]
  }

  function HexString(x: u32): (s: string)
    ensures |s| == 8
  {
    var e := EncodeU32(x);
    HexByte(e[3]) + HexByte(e[2]) + HexByte(e[1]) + HexByte(e[0])
  }

  lemma DigitOfHexChar(d: nat)
    requires d < 16
    ensures !Overflows(HexChar(d)) && Digit(HexChar(d) as int) == d
  {
  }

  lemma PairOfHexByte(b: u8)
    ensures PairByte(HexByte(b)[0], HexByte(b)[1]) == b
  {
    DigitOfHexChar(b / 16);
    DigitOfHexChar(b % 16);
  }

  /** The four pairs of the canonical spelling are the four bytes of the
      value, most significant first. */
  lemma HexStringBytes(x: u32, j: nat)
    requires j < 4
    ensures !Overflows(HexString(x)[2 * j]) && !Overflows(HexString(x)[2 * j + 1])
    ensures ByteAt(HexString(x), j) == EncodeU32(x)[3 - j]
  {
    var e := EncodeU32(x);
    var s := HexString(x);
    assert s[2 * j..2 * j + 2] == HexByte(e[3 - j]);
    DigitOfHexChar(e[3 - j] / 16);
    DigitOfHexChar(e[3 - j] % 16);
    PairOfHexByte(e[3 - j]);
  }

  lemma DecodeFour(e: seq<u8>)
    requires |e| == 4
    ensures DecodeU32(e) == Pack(e[3], e[2], e[1], e[0])
  {
  }

  /** Every id printed as eight hex digits parses back to itself. */
  lemma HexRoundTrip(x: u32)
    ensures MacValue(HexString(x)) == Success(x)
  {
    var e := EncodeU32(x);
    var s := HexString(x);
    HexStringBytes(x, 0);
    HexStringBytes(x, 1);
    HexStringBytes(x, 2);
    HexStringBytes(x, 3);
    assert FirstFault(s, 0) == None by {
      assert FirstFault(s, 4) == None;
      assert FirstFault(s, 3) == None;
      assert FirstFault(s, 2) == None;
      assert FirstFault(s, 1) == None;
    }
    U32RoundTrip(x, e);
    DecodeFour(e);
  }
}
