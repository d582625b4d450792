/**
 * The browser's `btoa` and `atob`: Base64 with the alphabet and `=` padding
 * of section 4 of RFC 4648, over "binary strings" whose characters are the
 * byte values 0..255. `atob` is the forgiving decoder of the WHATWG Infra
 * Standard: it skips ASCII whitespace, accepts missing padding and ignores
 * the unused low bits of the last character.
 */
module Base64 {
  import opened Common

  /** The `DOMException` both functions throw. */
  datatype DomError = InvalidCharacterError

  /** A character of the Base64 alphabet. */
  predicate InAlphabet(c: char) {
    'A' <= c <= 'Z' || 'a' <= c <= 'z' || '0' <= c <= '9' || c == '+' || c == '/'
  }

  /** The character that encodes the 6-bit value `i`. */
  function SextetChar(i: nat): (c: char)
    requires i < 64
    ensures InAlphabet(c)
  {
    if i < 26 then ('A' as int + i) as char
    else if i < 52 then ('a' as int + i - 26) as char
    else if i < 62 then ('0' as int + i - 52) as char
    else if i == 62 then '+'
    else '/'
  }

  /** The 6-bit value an alphabet character encodes. */
  function SextetOf(c: char): (i: nat)
    requires InAlphabet(c)
    ensures i < 64 && SextetChar(i) == c
  {
    if 'A' <= c <= 'Z' then c as int - 'A' as int
    else if 'a' <= c <= 'z' then c as int - 'a' as int + 26
    else if '0' <= c <= '9' then c as int - '0' as int + 52
    else if c == '+' then 62
    else 63
  }

  lemma SextetOfChar(i: nat)
    requires i < 64
    ensures SextetOf(SextetChar(i)) == i
  {
  }

  /** The characters of one full group of three bytes. */
  function Group(b0: Byte, b1: Byte, b2: Byte): (s: string)
    ensures |s| == 4 && forall k | 0 <= k < 4 :: InAlphabet(s[k])
  {
    [SextetChar(b0 / 4), SextetChar(b0 % 4 * 16 + b1 / 16),
     SextetChar(b1 % 16 * 4 + b2 / 64), SextetChar(b2 % 64)]
  }

  /** The two characters of a last group holding one byte. */
  function OneByteTail(b0: Byte): (s: string)
    ensures |s| == 2 && forall k | 0 <= k < 2 :: InAlphabet(s[k])
  {
    [SextetChar(b0 / 4), SextetChar(b0 % 4 * 16)]
  }

  /** The three characters of a last group holding two bytes. */
  function TwoByteTail(b0: Byte, b1: Byte): (s: string)
    ensures |s| == 3 && forall k | 0 <= k < 3 :: InAlphabet(s[k])
  {
    [SextetChar(b0 / 4), SextetChar(b0 % 4 * 16 + b1 / 16), SextetChar(b1 % 16 * 4)]
  }

  /** The characters for `bs`, without the trailing `=` padding. */
  function Unpadded(bs: seq<Byte>): (s: string)
    ensures 3 * |s| == 4 * |bs| + (if |bs| % 3 == 0 then 0 else 3 - |bs| % 3)
    ensures |s| % 4 == (if |bs| % 3 == 0 then 0 else |bs| % 3 + 1)
    ensures forall k | 0 <= k < |s| :: InAlphabet(s[k])
  {
    if |bs| == 0 then ""
    else if |bs| == 1 then OneByteTail(bs[0])
    else if |bs| == 2 then TwoByteTail(bs[0], bs[1])
    else
      var g, rest := Group(bs[0], bs[1], bs[2]), Unpadded(bs[3..]);
      UnpaddedLengthStep(|bs|, |rest|);
      AlphabetConcat(g, rest);
      g + rest
  }

  /** The length facts of `Unpadded` carry over a leading full group. */
  lemma UnpaddedLengthStep(n: nat, r: nat)
    requires n >= 3
    requires 3 * r == 4 * (n - 3) + (if (n - 3) % 3 == 0 then 0 else 3 - (n - 3) % 3)
    requires r % 4 == (if (n - 3) % 3 == 0 then 0 else (n - 3) % 3 + 1)
    ensures 3 * (4 + r) == 4 * n + (if n % 3 == 0 then 0 else 3 - n % 3)
    ensures (4 + r) % 4 == (if n % 3 == 0 then 0 else n % 3 + 1)
  {
    var m := n % 3;
    assert n == 3 * (n / 3) + m;
    assert n - 3 == 3 * (n / 3 - 1) + m;
    assert (n - 3) % 3 == m;
    var c := if m == 0 then 0 else m + 1;
    assert r == 4 * (r / 4) + c;
    assert 4 + r == 4 * (r / 4 + 1) + c;
  }

  lemma AlphabetConcat(a: string, b: string)
    requires forall k | 0 <= k < |a| :: InAlphabet(a[k])
    requires forall k | 0 <= k < |b| :: InAlphabet(b[k])
    ensures forall k | 0 <= k < |a + b| :: InAlphabet((a + b)[k])
  {
  }

  /** The `=` characters that fill the last group of four. */
  function Padding(n: nat): string {
    if n % 3 == 1 then "==" else if n % 3 == 2 then "=" else ""
  }

  /** Base64 encoding with padding (section 4 of RFC 4648). */
  function Encode(bs: seq<Byte>): (s: string)
    ensures |s| == 4 * ((|bs| + 2) / 3)
    ensures forall k | 0 <= k < |s| :: InAlphabet(s[k]) || s[k] == '='
  {
    var u := Unpadded(bs);
    EncodedLength(|bs|, |u|);
    u + Padding(|bs|)
  }

  lemma EncodedLength(n: nat, u: nat)
    requires 3 * u == 4 * n + (if n % 3 == 0 then 0 else 3 - n % 3)
    ensures u + |Padding(n)| == 4 * ((n + 2) / 3)
  {
  }

  /** The binary string whose characters are the given byte values. */
  function Binary(bs: seq<Byte>): (s: string)
    ensures |s| == |bs|
    ensures forall k | 0 <= k < |s| :: s[k] as int == bs[k]
  {
    seq(|bs|, k requires 0 <= k < |bs| => bs[k] as char)
  }

  /** Every character is one byte wide. */
  predicate IsBinary(s: string) {
    forall k | 0 <= k < |s| :: s[k] as int < 256
  }

  /** The byte values of a binary string. */
  function Latin1(s: string): (bs: seq<Byte>)
    requires IsBinary(s)
    ensures |bs| == |s|
    ensures forall k | 0 <= k < |s| :: bs[k] == s[k] as int
  {
    seq(|s|, k requires 0 <= k < |s| && IsBinary(s) => s[k] as int)
  }

  /** `btoa(s)`: throws on a character wider than one byte. */
  function Btoa(s: string): (r: Result<string, DomError>)
    ensures r.Err? <==> !IsBinary(s)
  {
    if IsBinary(s) then Ok(Encode(Latin1(s))) else Err(InvalidCharacterError)
  }

  /** ASCII whitespace: tab, line feed, form feed, carriage return, space. */
  predicate IsAsciiWhitespace(c: char) {
    c == '\t' || c == '\n' || c == '\U{000C}' || c == '\r' || c == ' '
  }

  function StripWhitespace(s: string): (r: string)
    ensures |r| <= |s|
    ensures forall c :: c in r <==> c in s && !IsAsciiWhitespace(c)
  {
    if s == [] then ""
    else if IsAsciiWhitespace(s[0]) then StripWhitespace(s[1..])
    else [s[0]] + StripWhitespace(s[1..])
  }

  /** A length that is a multiple of four loses one or two trailing `=`. */
  function StripPadding(s: string): (r: string)
    ensures r <= s
    ensures forall k | |r| <= k < |s| :: s[k] == '='
  {
    if |s| % 4 == 0 && EndsWith(s, "==") then s[..|s| - 2]
    else if |s| % 4 == 0 && EndsWith(s, "=") then s[..|s| - 1]
    else s
  }

  /** The bytes that groups of four alphabet characters, and a short last group, carry. */
  function DecodeSextets(s: string): (bs: seq<Byte>)
    requires |s| % 4 != 1
    requires forall k | 0 <= k < |s| :: InAlphabet(s[k])
  {
    if |s| == 0 then []
    else if |s| == 2 then
      [SextetOf(s[0]) * 4 + SextetOf(s[1]) / 16]
    else if |s| == 3 then
      [SextetOf(s[0]) * 4 + SextetOf(s[1]) / 16, SextetOf(s[1]) % 16 * 16 + SextetOf(s[2]) / 4]
    else
      [SextetOf(s[0]) * 4 + SextetOf(s[1]) / 16, SextetOf(s[1]) % 16 * 16 + SextetOf(s[2]) / 4,
       SextetOf(s[2]) % 4 * 64 + SextetOf(s[3])]
      + DecodeSextets(s[4..])
  }

  /** `atob(s)`: the forgiving Base64 decode, throwing on malformed input. */
  function Atob(s: string): (r: Result<string, DomError>)
    ensures r.Ok? ==> IsBinary(r.value)
  {
    var data := StripPadding(StripWhitespace(s));
    if |data| % 4 == 1 then Err(InvalidCharacterError)
    else if exists k | 0 <= k < |data| :: !InAlphabet(data[k]) then Err(InvalidCharacterError)
    else Ok(Binary(DecodeSextets(data)))
  }

  // ------------------------------------------------------------ round trip

  /** A full group decodes on its own, whatever follows it. */
  lemma DecodeSextetsGroup(g: string, t: string)
    requires |g| == 4 && forall k | 0 <= k < 4 :: InAlphabet(g[k])
    requires |t| % 4 != 1 && forall k | 0 <= k < |t| :: InAlphabet(t[k])
    ensures |g + t| % 4 != 1 && forall k | 0 <= k < |g + t| :: InAlphabet((g + t)[k])
    ensures DecodeSextets(g + t) == DecodeSextets(g) + DecodeSextets(t)
  {
    assert (g + t)[4..] == t;
    assert g[4..] == [];
  }

  /** One trailing byte comes back out of its two characters. */
  lemma DecodeOneByteTail(b0: Byte)
    ensures DecodeSextets(OneByteTail(b0)) == [b0]
  {
    var hi, lo := b0 / 4, b0 % 4 * 16;
    SextetOfChar(hi);
    SextetOfChar(lo);
    var s := OneByteTail(b0);
    assert SextetOf(s[0]) == hi && SextetOf(s[1]) == lo;
    assert hi * 4 + lo / 16 == b0;
  }

  /** Two trailing bytes come back out of their three characters. */
  lemma DecodeTwoByteTail(b0: Byte, b1: Byte)
    ensures DecodeSextets(TwoByteTail(b0, b1)) == [b0, b1]
  {
    var x, y, z := b0 / 4, b0 % 4 * 16 + b1 / 16, b1 % 16 * 4;
    TwoByteArithmetic(b0, b1, x, y, z);
    DecodeThreeChars(x, y, z);
  }

  lemma DecodeThreeChars(x: nat, y: nat, z: nat)
    requires x < 64 && y < 64 && z < 64
    ensures DecodeSextets([SextetChar(x), SextetChar(y), SextetChar(z)]) == [x * 4 + y / 16, y % 16 * 16 + z / 4]
  {
    SextetOfChar(x);
    SextetOfChar(y);
    SextetOfChar(z);
  }

  lemma TwoByteArithmetic(b0: int, b1: int, x: int, y: int, z: int)
    requires 0 <= b0 < 256 && 0 <= b1 < 256
    requires x == b0 / 4 && y == b0 % 4 * 16 + b1 / 16 && z == b1 % 16 * 4
    ensures 0 <= x < 64 && 0 <= y < 64 && 0 <= z < 64
    ensures x * 4 + y / 16 == b0
    ensures y % 16 * 16 + z / 4 == b1
  {
    assert y / 16 == b0 % 4 && y % 16 == b1 / 16;
  }

  /** A full group comes back out of its four characters. */
  lemma DecodeGroup(b0: Byte, b1: Byte, b2: Byte)
    ensures DecodeSextets(Group(b0, b1, b2)) == [b0, b1, b2]
  {
    var w, x, y, z := b0 / 4, b0 % 4 * 16 + b1 / 16, b1 % 16 * 4 + b2 / 64, b2 % 64;
    GroupArithmetic(b0, b1, b2, w, x, y, z);
    DecodeFourChars(w, x, y, z);
  }

  lemma DecodeFourChars(w: nat, x: nat, y: nat, z: nat)
    requires w < 64 && x < 64 && y < 64 && z < 64
    ensures DecodeSextets([SextetChar(w), SextetChar(x), SextetChar(y), SextetChar(z)])
      == [w * 4 + x / 16, x % 16 * 16 + y / 4, y % 4 * 64 + z]
  {
    SextetOfChar(w);
    SextetOfChar(x);
    SextetOfChar(y);
    SextetOfChar(z);
    var s := [SextetChar(w), SextetChar(x), SextetChar(y), SextetChar(z)];
    assert s[4..] == [];
  }

  /** The sextets of one group of three bytes give the bytes back. */
  lemma GroupArithmetic(b0: int, b1: int, b2: int, w: int, x: int, y: int, z: int)
    requires 0 <= b0 < 256 && 0 <= b1 < 256 && 0 <= b2 < 256
    requires w == b0 / 4 && x == b0 % 4 * 16 + b1 / 16 && y == b1 % 16 * 4 + b2 / 64 && z == b2 % 64
    ensures 0 <= w < 64 && 0 <= x < 64 && 0 <= y < 64 && 0 <= z < 64
    ensures w * 4 + x / 16 == b0
    ensures x % 16 * 16 + y / 4 == b1
    ensures y % 4 * 64 + z == b2
  {
    assert x / 16 == b0 % 4 && x % 16 == b1 / 16;
    assert y / 4 == b1 % 16 && y % 4 == b2 / 64;
  }

  /** The padding-free characters decode back to the bytes. */
  lemma {:induction false} DecodeUnpadded(bs: seq<Byte>)
    ensures DecodeSextets(Unpadded(bs)) == bs
  {
    if |bs| == 1 {
      DecodeOneByteTail(bs[0]);
    } else if |bs| == 2 {
      DecodeTwoByteTail(bs[0], bs[1]);
    } else if |bs| >= 3 {
      DecodeUnpadded(bs[3..]);
      DecodeUnpaddedStep(bs);
    }
  }

  /** A leading group decodes to its bytes ahead of what the rest decodes to. */
  lemma DecodeUnpaddedStep(bs: seq<Byte>)
    requires |bs| >= 3 && DecodeSextets(Unpadded(bs[3..])) == bs[3..]
    ensures DecodeSextets(Unpadded(bs)) == bs
  {
    var g, t := Group(bs[0], bs[1], bs[2]), Unpadded(bs[3..]);
    assert Unpadded(bs) == g + t;
    DecodeSextetsGroup(g, t);
    DecodeGroup(bs[0], bs[1], bs[2]);
    SplitThree(bs);
  }

  lemma SplitThree(bs: seq<Byte>)
    requires |bs| >= 3
    ensures bs == [bs[0], bs[1], bs[2]] + bs[3..]
  {
  }

  /** Text without whitespace is left as it is. */
  lemma {:induction false} StripWhitespaceKeeps(s: string)
    requires forall k | 0 <= k < |s| :: !IsAsciiWhitespace(s[k])
    ensures StripWhitespace(s) == s
  {
    if s != [] {
      StripWhitespaceKeeps(s[1..]);
    }
  }

  /** The padding the encoder adds is exactly the padding the decoder strips. */
  lemma StripEncodedPadding(bs: seq<Byte>)
    ensures StripPadding(Encode(bs)) == Unpadded(bs)
  {
    StripPaddingAfter(Unpadded(bs), |bs|);
  }

  lemma StripPaddingAfter(u: string, n: nat)
    requires forall k | 0 <= k < |u| :: InAlphabet(u[k])
    requires |u| % 4 == (if n % 3 == 0 then 0 else n % 3 + 1)
    ensures StripPadding(u + Padding(n)) == u
  {
    var s := u + Padding(n);
    if n % 3 == 1 {
      assert s[..|s| - 2] == u;
    } else if n % 3 == 2 {
      assert s[|s| - 2] == u[|u| - 1];
      assert s[..|s| - 1] == u;
    } else {
      assert s == u;
      if |u| > 0 {
        assert s[|s| - 1] == u[|u| - 1];
      }
    }
  }

  /** Text that is alphabet characters once whitespace and padding are gone decodes to their bytes. */
  lemma AtobOfAlphabetText(s: string, data: string)
    requires StripPadding(StripWhitespace(s)) == data
    requires |data| % 4 != 1 && forall k | 0 <= k < |data| :: InAlphabet(data[k])
    ensures Atob(s) == Ok(Binary(DecodeSextets(data)))
  {
  }

  /** Text made only of alphabet characters has no padding to strip. */
  lemma StripPaddingKeepsAlphabet(u: string)
    requires forall k | 0 <= k < |u| :: InAlphabet(u[k])
    ensures StripPadding(u) == u
  {
    if |u| > 0 {
      assert InAlphabet(u[|u| - 1]);
    }
  }

  /** `atob(btoa(s)) == s` for every binary string (as bytes, for every byte sequence). */
  lemma AtobEncode(bs: seq<Byte>)
    ensures Atob(Encode(bs)) == Ok(Binary(bs))
  {
    var s := Encode(bs);
    StripWhitespaceKeeps(s);
    StripEncodedPadding(bs);
    AtobOfAlphabetText(s, Unpadded(bs));
    DecodeUnpadded(bs);
  }

  /** The decoder also takes the encoding without its padding. */
  lemma AtobAcceptsMissingPadding(bs: seq<Byte>)
    ensures Atob(Unpadded(bs)) == Ok(Binary(bs))
  {
    var u := Unpadded(bs);
    StripWhitespaceKeeps(u);
    StripPaddingKeepsAlphabet(u);
    AtobOfAlphabetText(u, u);
    DecodeUnpadded(bs);
  }

  /** `btoa` of a binary string is the encoding of its bytes. */
  lemma BtoaOfBinary(bs: seq<Byte>)
    ensures Btoa(Binary(bs)) == Ok(Encode(bs))
  {
    assert Latin1(Binary(bs)) == bs;
  }

  // ------------------------------------------------------ malformed input

  /** A character that is neither whitespace, nor in the alphabet, nor `=` is refused. */
  lemma AtobRejectsForeignCharacter(s: string, i: nat)
    requires i < |s| && !IsAsciiWhitespace(s[i]) && !InAlphabet(s[i]) && s[i] != '='
    ensures Atob(s) == Err(InvalidCharacterError)
  {
    var stripped := StripWhitespace(s);
    var data := StripPadding(stripped);
    assert s[i] in s;
    var j :| 0 <= j < |stripped| && stripped[j] == s[i];
    assert j < |data|;
    assert data[j] == s[i];
  }

  /** After whitespace is skipped, a length of one more than a multiple of four is refused. */
  lemma AtobRejectsStrayCharacter(s: string)
    requires |StripWhitespace(s)| % 4 == 1
    ensures Atob(s) == Err(InvalidCharacterError)
  {
  }

  /** `=` anywhere but in the last two places is refused. */
  lemma AtobRejectsInnerPadding(s: string, i: nat)
    requires forall k | 0 <= k < |s| :: !IsAsciiWhitespace(s[k])
    requires i + 2 < |s| && s[i] == '='
    ensures Atob(s) == Err(InvalidCharacterError)
  {
    StripWhitespaceKeeps(s);
    var data := StripPadding(s);
    assert i < |data|;
  }

  /** `btoa` refuses a character wider than one byte. */
  lemma BtoaRejectsWideCharacter(s: string, i: nat)
    requires i < |s| && s[i] as int >= 256
    ensures Btoa(s) == Err(InvalidCharacterError)
  {
  }
}
