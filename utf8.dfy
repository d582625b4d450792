/**
 * UTF-8 as the browser's `TextEncoder` and `TextDecoder` apply it
 * (RFC 3629; the decoder is the UTF-8 decoder of the WHATWG Encoding
 * Standard in replacement mode). A Dafny `char` is a Unicode scalar value,
 * so every string here is one `TextEncoder` encodes without replacement.
 */
module Utf8 {
  import opened Common

  const Replacement: char := '\U{FFFD}'
  const ByteOrderMark: char := '\U{FEFF}'

  /** A byte of the form 10xxxxxx. */
  predicate Continuation(b: Byte) {
    0x80 <= b <= 0xBF
  }

  /** The one-to-four-byte encoding of one scalar value (section 3 of RFC 3629). */
  function EncodeChar(c: char): (bs: seq<Byte>)
    ensures 1 <= |bs| <= 4
    ensures |bs| == 1 <==> c as int < 0x80
    ensures |bs| == 2 <==> 0x80 <= c as int < 0x800
    ensures |bs| == 3 <==> 0x800 <= c as int < 0x10000
    ensures forall k | 1 <= k < |bs| :: Continuation(bs[k])
  {
    var cp := c as int;
    if cp < 0x80 then [cp]
    else if cp < 0x800 then [0xC0 + cp / 64, 0x80 + cp % 64]
    else if cp < 0x10000 then [0xE0 + cp / 4096, 0x80 + cp / 64 % 64, 0x80 + cp % 64]
    else [0xF0 + cp / 262144, 0x80 + cp / 4096 % 64, 0x80 + cp / 64 % 64, 0x80 + cp % 64]
  }

  /** `new TextEncoder().encode(s)` */
  function Encode(s: string): (bs: seq<Byte>)
    ensures |s| <= |bs| <= 4 * |s|
  {
    if s == [] then [] else EncodeChar(s[0]) + Encode(s[1..])
  }

  /** One decoded scalar value and the number of bytes it took. */
  datatype Step = Step(c: char, used: nat)

  /** A two-byte sequence led by C2..DF. */
  function Two(bs: seq<Byte>): (st: Step)
    requires |bs| > 0 && 0xC2 <= bs[0] <= 0xDF
    ensures 1 <= st.used <= |bs| && st.used <= 2
  {
    if |bs| < 2 || !Continuation(bs[1]) then Step(Replacement, 1)
    else Step(((bs[0] as int - 0xC0) * 64 + (bs[1] as int - 0x80)) as char, 2)
  }

  /**
   * A three-byte sequence led by E0..EF: after E0 the second byte is at
   * least A0 (no overlong form), after ED at most 9F (no surrogate).
   */
  function Three(bs: seq<Byte>): (st: Step)
    requires |bs| > 0 && 0xE0 <= bs[0] <= 0xEF
    ensures 1 <= st.used <= |bs| && st.used <= 3
  {
    var lower := if bs[0] == 0xE0 then 0xA0 else 0x80;
    var upper := if bs[0] == 0xED then 0x9F else 0xBF;
    if |bs| < 2 || !(lower <= bs[1] <= upper) then Step(Replacement, 1)
    else if |bs| < 3 || !Continuation(bs[2]) then Step(Replacement, 2)
    else Step(((bs[0] as int - 0xE0) * 4096 + (bs[1] as int - 0x80) * 64 + (bs[2] as int - 0x80)) as char, 3)
  }

  /**
   * A four-byte sequence led by F0..F4: after F0 the second byte is at
   * least 90 (no overlong form), after F4 at most 8F (nothing past U+10FFFF).
   */
  function Four(bs: seq<Byte>): (st: Step)
    requires |bs| > 0 && 0xF0 <= bs[0] <= 0xF4
    ensures 1 <= st.used <= |bs| && st.used <= 4
  {
    var lower := if bs[0] == 0xF0 then 0x90 else 0x80;
    var upper := if bs[0] == 0xF4 then 0x8F else 0xBF;
    if |bs| < 2 || !(lower <= bs[1] <= upper) then Step(Replacement, 1)
    else if |bs| < 3 || !Continuation(bs[2]) then Step(Replacement, 2)
    else if |bs| < 4 || !Continuation(bs[3]) then Step(Replacement, 3)
    else Step(((bs[0] as int - 0xF0) * 262144 + (bs[1] as int - 0x80) * 4096
               + (bs[2] as int - 0x80) * 64 + (bs[3] as int - 0x80)) as char, 4)
  }

  /**
   * The decoder's next output. A malformed or truncated sequence yields one
   * U+FFFD and consumes the bytes read before the offending one, which is
   * read again as the start of the next sequence.
   */
  function DecodeStep(bs: seq<Byte>): (st: Step)
    requires |bs| > 0
    ensures 1 <= st.used <= |bs|
  {
    var b0 := bs[0];
    if b0 <= 0x7F then Step(b0 as char, 1)
    else if 0xC2 <= b0 <= 0xDF then Two(bs)
    else if 0xE0 <= b0 <= 0xEF then Three(bs)
    else if 0xF0 <= b0 <= 0xF4 then Four(bs)
    else Step(Replacement, 1)
  }

  /** The scalar values the decoder emits for `bs`, byte order mark included. */
  function Decode(bs: seq<Byte>): (s: string)
    ensures |s| <= |bs|
    decreases |bs|
  {
    if bs == [] then []
    else
      var st := DecodeStep(bs);
      [st.c] + Decode(bs[st.used..])
  }

  /**
   * `new TextDecoder().decode(bs)`: the decoder's output with a leading
   * U+FEFF dropped, since `ignoreBOM` defaults to false.
   */
  function DecodeText(bs: seq<Byte>): (s: string)
    ensures |s| <= |bs|
  {
    var all := Decode(bs);
    if |all| > 0 && all[0] == ByteOrderMark then all[1..] else all
  }

  // ------------------------------------------------------------ round trip

  /** The decoder reads back one encoded scalar value, whatever follows it. */
  lemma DecodeStepEncodeChar(c: char, rest: seq<Byte>)
    ensures DecodeStep(EncodeChar(c) + rest) == Step(c, |EncodeChar(c)|)
  {
    var cp := c as int;
    if cp < 0x80 {
    } else if cp < 0x800 {
      DecodeTwo(c, rest);
    } else if cp < 0x10000 {
      DecodeThree(c, rest);
    } else {
      DecodeFour(c, rest);
    }
  }

  lemma DecodeTwo(c: char, rest: seq<Byte>)
    requires 0x80 <= c as int < 0x800
    ensures DecodeStep(EncodeChar(c) + rest) == Step(c, 2)
  {
    var cp := c as int;
    var bs := EncodeChar(c) + rest;
    assert bs[0] == 0xC0 + cp / 64 && bs[1] == 0x80 + cp % 64;
    assert Two(bs).c as int == cp;
  }

  lemma DecodeThree(c: char, rest: seq<Byte>)
    requires 0x800 <= c as int < 0x10000
    ensures DecodeStep(EncodeChar(c) + rest) == Step(c, 3)
  {
    var cp := c as int;
    var bs := EncodeChar(c) + rest;
    ThreeBytes(cp);
    assert bs[0] == 0xE0 + cp / 4096 && bs[1] == 0x80 + cp / 64 % 64 && bs[2] == 0x80 + cp % 64;
    assert Three(bs).c as int == cp;
  }

  lemma DecodeFour(c: char, rest: seq<Byte>)
    requires 0x10000 <= c as int
    ensures DecodeStep(EncodeChar(c) + rest) == Step(c, 4)
  {
    var cp := c as int;
    var bs := EncodeChar(c) + rest;
    FourBytes(cp);
    assert bs[0] == 0xF0 + cp / 262144 && bs[1] == 0x80 + cp / 4096 % 64;
    assert bs[2] == 0x80 + cp / 64 % 64 && bs[3] == 0x80 + cp % 64;
    assert Four(bs).c as int == cp;
  }

  lemma ThreeBytes(cp: int)
    requires 0x800 <= cp < 0x10000 && !(0xD800 <= cp < 0xE000)
    ensures cp / 4096 * 4096 + cp / 64 % 64 * 64 + cp % 64 == cp
    ensures cp / 4096 == 0 ==> cp / 64 % 64 >= 0x20
    ensures cp / 4096 == 0xD ==> cp / 64 % 64 < 0x20
  {
    assert cp / 64 == cp / 4096 * 64 + cp / 64 % 64;
    assert cp == cp / 64 * 64 + cp % 64;
  }

  lemma FourBytes(cp: int)
    requires 0x10000 <= cp < 0x110000
    ensures cp / 262144 * 262144 + cp / 4096 % 64 * 4096 + cp / 64 % 64 * 64 + cp % 64 == cp
    ensures 0 < cp / 262144 || cp / 4096 % 64 >= 0x10
    ensures cp / 262144 <= 4
    ensures cp / 262144 == 4 ==> cp / 4096 % 64 < 0x10
  {
    assert cp / 4096 == cp / 262144 * 64 + cp / 4096 % 64;
    assert cp / 64 == cp / 4096 * 64 + cp / 64 % 64;
    assert cp == cp / 64 * 64 + cp % 64;
  }

  /** Decoding what the encoder wrote gives the string back, byte order mark included. */
  lemma {:induction false} DecodeEncode(s: string)
    ensures Decode(Encode(s)) == s
  {
    if s != [] {
      var head, tail := EncodeChar(s[0]), Encode(s[1..]);
      DecodeStepEncodeChar(s[0], tail);
      assert (head + tail)[|head|..] == tail;
      DecodeEncode(s[1..]);
    }
  }

  /** `TextDecoder` gives back every string that does not begin with U+FEFF. */
  lemma DecodeTextEncode(s: string)
    requires s == [] || s[0] != ByteOrderMark
    ensures DecodeText(Encode(s)) == s
  {
    DecodeEncode(s);
  }

  /** ... and drops the U+FEFF a string begins with. */
  lemma DecodeTextDropsLeadingMark(s: string)
    requires |s| > 0 && s[0] == ByteOrderMark
    ensures DecodeText(Encode(s)) == s[1..]
    ensures DecodeText(Encode(s)) != s
  {
    DecodeEncode(s);
  }

  // ------------------------------------------------------ malformed input

  /** A byte that cannot start a sequence decodes to one U+FFFD and is consumed. */
  lemma StrayByteIsReplaced(b: Byte, rest: seq<Byte>)
    requires 0x80 <= b <= 0xC1 || 0xF5 <= b
    ensures Decode([b] + rest) == [Replacement] + Decode(rest)
  {
    assert ([b] + rest)[1..] == rest;
  }

  /** An encoded surrogate (ED A0..BF) is refused at its second byte. */
  lemma SurrogateIsReplaced(b1: Byte, b2: Byte)
    requires 0xA0 <= b1 <= 0xBF && Continuation(b2)
    ensures Decode([0xED, b1, b2]) == [Replacement, Replacement, Replacement]
  {
    var bs: seq<Byte> := [0xED, b1, b2];
    assert DecodeStep(bs) == Step(Replacement, 1);
    assert bs[1..] == [b1, b2];
    assert DecodeStep([b1, b2]) == Step(Replacement, 1);
    assert [b1, b2][1..] == [b2];
    assert DecodeStep([b2]) == Step(Replacement, 1);
    assert [b2][1..] == [];
    assert Decode([b2]) == [Replacement];
    assert Decode([b1, b2]) == [Replacement, Replacement];
  }

  /** A sequence cut short by the end of input decodes to a single U+FFFD. */
  lemma TruncatedIsOneReplacement(b0: Byte, b1: Byte)
    requires 0xE1 <= b0 <= 0xEC && Continuation(b1)
    ensures Decode([b0, b1]) == [Replacement]
  {
    assert DecodeStep([b0, b1]) == Step(Replacement, 2);
    assert [b0, b1][2..] == [];
  }
}
