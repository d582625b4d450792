/**
 * User ids carried in URLs: `encodeUserId` writes a user id as the Base64 of
 * its UTF-8 bytes and `decodeUserId` reads it back. Decoding throws the
 * `DOMException` of `atob` on text that is not Base64.
 */
module UserIdCodec {
  import opened Common
  import Utf8
  import Base64

  /** `encodeUserId(userId)`: `btoa(String.fromCharCode(...new TextEncoder().encode(userId)))`. */
  function EncodeUserId(userId: string): (r: string)
    ensures r == Base64.Encode(Utf8.Encode(userId))
    ensures |r| == 4 * ((|Utf8.Encode(userId)| + 2) / 3)
    ensures forall k | 0 <= k < |r| :: Base64.InAlphabet(r[k]) || r[k] == '='
  {
    var data := Utf8.Encode(userId);
    Base64.BtoaOfBinary(data);
    Base64.Btoa(Base64.Binary(data)).value
  }

  /** `Uint8Array` element stores: a char code taken modulo 256. */
  function CharCodes(s: string): (bs: seq<Byte>)
    ensures |bs| == |s|
    ensures Base64.IsBinary(s) ==> forall k | 0 <= k < |s| :: bs[k] == s[k] as int
  {
    seq(|s|, k requires 0 <= k < |s| => s[k] as int % 256)
  }

  /** What `decodeUserId(encoded)` returns or throws. */
  function DecodedUserId(encoded: string): Result<string, Base64.DomError> {
    match Base64.Atob(encoded)
    case Err(e) => Err(e)
    case Ok(decodedString) => Ok(Utf8.DecodeText(CharCodes(decodedString)))
  }

  /**
   * The loop of `decodeUserId`: one byte per decoded character, each the
   * character's code, which `atob` keeps below 256.
   */
  method FillBytes(decodedString: string) returns (data: array<Byte>)
    ensures data.Length == |decodedString|
    ensures data[..] == CharCodes(decodedString)
    ensures Base64.IsBinary(decodedString) ==>
      forall k | 0 <= k < data.Length :: data[k] == decodedString[k] as int
  {
    data := new Byte[|decodedString|];
    for i := 0 to |decodedString|
      invariant forall k | 0 <= k < i :: data[k] == decodedString[k] as int % 256
    {
      data[i] := decodedString[i] as int % 256;
    }
  }

  /** `decodeUserId(encoded)` */
  method DecodeUserId(encoded: string) returns (r: Result<string, Base64.DomError>)
    ensures r == DecodedUserId(encoded)
  {
    var decoded := Base64.Atob(encoded);
    if decoded.Err? {
      return Err(decoded.error);
    }
    var data := FillBytes(decoded.value);
    r := Ok(Utf8.DecodeText(data[..]));
  }

  // ------------------------------------------------------------ round trip

  /** The bytes `atob` hands the loop are the UTF-8 bytes of the user id. */
  lemma DecodedBytes(userId: string)
    ensures Base64.Atob(EncodeUserId(userId)).Ok?
    ensures CharCodes(Base64.Atob(EncodeUserId(userId)).value) == Utf8.Encode(userId)
  {
    var data := Utf8.Encode(userId);
    Base64.AtobEncode(data);
    assert CharCodes(Base64.Binary(data)) == data;
  }

  /** Decoding gives back every user id that does not begin with U+FEFF. */
  lemma RoundTrip(userId: string)
    requires userId == [] || userId[0] != Utf8.ByteOrderMark
    ensures DecodedUserId(EncodeUserId(userId)) == Ok(userId)
  {
    DecodedBytes(userId);
    Utf8.DecodeTextEncode(userId);
  }

  /** A user id beginning with U+FEFF comes back without it. */
  lemma LeadingMarkIsLost(userId: string)
    requires |userId| > 0 && userId[0] == Utf8.ByteOrderMark
    ensures DecodedUserId(EncodeUserId(userId)) == Ok(userId[1..])
    ensures DecodedUserId(EncodeUserId(userId)) != Ok(userId)
  {
    DecodedBytes(userId);
    Utf8.DecodeTextDropsLeadingMark(userId);
  }

  /** The id made of U+FEFF alone decodes to the empty id. */
  lemma MarkAloneDecodesEmpty()
    ensures DecodedUserId(EncodeUserId([Utf8.ByteOrderMark])) == Ok("")
  {
    LeadingMarkIsLost([Utf8.ByteOrderMark]);
  }

  /**
   * Decoding with `new TextDecoder('utf-8', { ignoreBOM: true })`, which
   * keeps a leading U+FEFF.
   */
  function DecodedUserIdKeepingMark(encoded: string): Result<string, Base64.DomError> {
    match Base64.Atob(encoded)
    case Err(e) => Err(e)
    case Ok(decodedString) => Ok(Utf8.Decode(CharCodes(decodedString)))
  }

  /** With the mark kept, decoding inverts encoding for every user id. */
  lemma RoundTripKeepingMark(userId: string)
    ensures DecodedUserIdKeepingMark(EncodeUserId(userId)) == Ok(userId)
  {
    DecodedBytes(userId);
    Utf8.DecodeEncode(userId);
  }

  /** The two decoders agree except on a leading U+FEFF. */
  lemma DecodersAgreeWithoutMark(encoded: string)
    ensures DecodedUserId(encoded).Err? <==> DecodedUserIdKeepingMark(encoded).Err?
    ensures DecodedUserIdKeepingMark(encoded).Ok? ==>
      var s := DecodedUserIdKeepingMark(encoded).value;
      DecodedUserId(encoded) == Ok(if |s| > 0 && s[0] == Utf8.ByteOrderMark then s[1..] else s)
  {
  }

  // ------------------------------------------------------ malformed input

  /** Text with a character outside Base64, whitespace and `=` throws. */
  lemma DecodeRejectsForeignCharacter(encoded: string, i: nat)
    requires i < |encoded|
    requires !Base64.IsAsciiWhitespace(encoded[i]) && !Base64.InAlphabet(encoded[i]) && encoded[i] != '='
    ensures DecodedUserId(encoded) == Err(Base64.InvalidCharacterError)
  {
    Base64.AtobRejectsForeignCharacter(encoded, i);
  }

  /** Text whose length, whitespace aside, is one more than a multiple of four throws. */
  lemma DecodeRejectsStrayCharacter(encoded: string)
    requires |Base64.StripWhitespace(encoded)| % 4 == 1
    ensures DecodedUserId(encoded) == Err(Base64.InvalidCharacterError)
  {
    Base64.AtobRejectsStrayCharacter(encoded);
  }
}
