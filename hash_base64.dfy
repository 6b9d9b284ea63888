/** `HashBase64` (src/support/hash/base64.rs): key text is the padded standard base64 of
    the UTF-8 bytes of a string. Decoding fails with a 500 when the text is not base64
    and when the bytes it gives are not UTF-8. */
module HashBase64 {
  import opened Wrappers
  import opened Errors
  import Base64
  import Utf8

  /** The rendering of a `data_encoding::DecodeError`; the position it also reports is
      not modelled. */
  function Describe(kind: Base64.DecodeKind): string {
    match kind
    case InvalidLength => "invalid length"
    case InvalidSymbol => "invalid symbol"
    case NonZeroTrailingBits => "non-zero trailing bits"
    case InvalidPadding => "invalid padding length"
  }

  /** The rendering of a `FromUtf8Error`; the offending index is not modelled. */
  const InvalidUtf8Cause := "invalid utf-8 sequence"

  /** `HashBase64::decode`: base64 over the key's bytes, then `String::from_utf8`. */
  function Decode(key: string): (r: Result<string>)
    ensures r.Ok? ==> Base64.Decode(Utf8.Encode(key)) == Base64.Decoded(Utf8.Encode(r.value))
    ensures Base64.Decode(Utf8.Encode(key)).Invalid? ==>
              r == Err(ToBusinessError(LibraryError(Base64Decode, Describe(Base64.Decode(Utf8.Encode(key)).kind)),
                                       "Failed to decode base64", None))
    ensures Base64.Decode(Utf8.Encode(key)).Decoded? && Utf8.Decode(Base64.Decode(Utf8.Encode(key)).bytes).None? ==>
              r == Err(ToBusinessError(LibraryError(FromUtf8, InvalidUtf8Cause),
                                       "Failed to convert base64 bytes to string", None))
    ensures r.Err? ==> Base64.Decode(Utf8.Encode(key)).Invalid? || Utf8.Decode(Base64.Decode(Utf8.Encode(key)).bytes).None?
  {
    match Base64.Decode(Utf8.Encode(key))
    case Invalid(kind) =>
      Err(ToBusinessError(LibraryError(Base64Decode, Describe(kind)), "Failed to decode base64", None))
    case Decoded(bytes) =>
      match Utf8.Decode(bytes)
      case None =>
        Err(ToBusinessError(LibraryError(FromUtf8, InvalidUtf8Cause), "Failed to convert base64 bytes to string", None))
      case Some(text) =>
        Utf8.EncodeDecode(bytes);
        Ok(text)
  }

  /** `HashBase64::encode`: never fails; the text is the padded base64 of the bytes, four
      symbols for every three bytes begun. */
  function Encode(plainText: string): (r: Result<string>)
    ensures r.Ok?
    ensures |r.value| == 4 * ((|Utf8.Encode(plainText)| + 2) / 3)
    ensures Utf8.Encode(r.value) == Base64.Encode(Utf8.Encode(plainText))
  {
    var text := Base64.Encode(Utf8.Encode(plainText));
    Utf8.EncodeFromAscii(text);
    Ok(Utf8.FromAscii(text))
  }

  /** Round trip: every string decodes back from its encoding. */
  lemma RoundTrip(plainText: string)
    ensures Decode(Encode(plainText).value) == Ok(plainText)
  {
    var bytes := Utf8.Encode(plainText);
    Base64.DecodeEncode(bytes);
    Utf8.DecodeEncode(plainText);
  }

  /** A key that decodes is the encoding of what it decodes to exactly when its padding
      is in its last quantum only. */
  lemma DecodedKeyIsEncoding(key: string)
    requires Decode(key).Ok?
    ensures Encode(Decode(key).value) == Ok(key) <==> Base64.PaddedAtEndOnly(Utf8.Encode(key))
  {
    var plain := Decode(key).value;
    var bytes := Base64.Decode(Utf8.Encode(key)).bytes;
    Utf8.EncodeDecode(bytes);
    Base64.EncodeDecode(Utf8.Encode(key));
    if Base64.PaddedAtEndOnly(Utf8.Encode(key)) {
      assert Utf8.Encode(Encode(plain).value) == Utf8.Encode(key);
      Utf8.DecodeEncode(Encode(plain).value);
      Utf8.DecodeEncode(key);
    }
  }

  /** The key `Zg==Zg==`, two padded quanta, decodes to `ff`. */
  lemma DecodePaddedQuanta()
    ensures Decode("Zg==Zg==") == Ok("ff")
  {
    assert Utf8.Encode("Zg==Zg==") == [0x5A, 0x67, 0x3D, 0x3D, 0x5A, 0x67, 0x3D, 0x3D];
    Base64.PaddedQuantaConcatenate();
    assert Utf8.Encode("ff") == [0x66, 0x66];
    Utf8.DecodeEncode("ff");
  }

  /** The empty key decodes to the empty string. */
  lemma DecodeEmpty()
    ensures Decode("") == Ok("")
  {
    assert Utf8.Encode("") == [];
    Base64.DecodeEmpty();
  }

  /** Text that is not base64 fails with 500 and a message that names the base64 decoder
      and the reason; text that is base64 of bytes that are not UTF-8 fails with 500 and a
      message that names the UTF-8 conversion. Neither carries tags. */
  lemma DecodeErrorMessages(key: string)
    ensures var d := Base64.Decode(Utf8.Encode(key));
      && (d.Invalid? ==> Decode(key) == Err(Fail(InternalServerError,
            "DecodeError error" + ": " + "Failed to decode base64" + " :: " + Describe(d.kind))))
      && (d.Decoded? && Utf8.Decode(d.bytes).None? ==> Decode(key) == Err(Fail(InternalServerError,
            "UTF8 Error" + ": " + "Failed to convert base64 bytes to string" + " :: " + InvalidUtf8Cause)))
  {
    var d := Base64.Decode(Utf8.Encode(key));
    if d.Invalid? {
      Base64ErrorMessage(d.kind);
    } else {
      Utf8ErrorMessage();
    }
  }

  /** The rendering of the base64 failure. */
  lemma Base64ErrorMessage(kind: Base64.DecodeKind)
    ensures ToBusinessError(LibraryError(Base64Decode, Describe(kind)), "Failed to decode base64", None)
            == Fail(InternalServerError, "DecodeError error" + ": " + "Failed to decode base64" + " :: " + Describe(kind))
  {
  }

  /** The rendering of the UTF-8 failure. */
  lemma Utf8ErrorMessage()
    ensures ToBusinessError(LibraryError(FromUtf8, InvalidUtf8Cause), "Failed to convert base64 bytes to string", None)
            == Fail(InternalServerError, "UTF8 Error" + ": " + "Failed to convert base64 bytes to string" + " :: " + InvalidUtf8Cause)
  {
  }

  /** A key with a byte outside the alphabet in front of its padding (`!A==`) is refused
      as an invalid symbol; one with three `=` (`Z===`) as an invalid padding length. */
  lemma DecodeMisplacedBytes()
    ensures Decode("!A==") == Err(Fail(InternalServerError,
      "DecodeError error" + ": " + "Failed to decode base64" + " :: " + "invalid symbol"))
    ensures Decode("Z===") == Err(Fail(InternalServerError,
      "DecodeError error" + ": " + "Failed to decode base64" + " :: " + "invalid padding length"))
  {
    assert Utf8.Encode("!A==") == [0x21, 0x41, 0x3D, 0x3D];
    assert Utf8.Encode("Z===") == [0x5A, 0x3D, 0x3D, 0x3D];
    Base64.DecodeErrorKinds();
    DecodeErrorMessages("!A==");
    DecodeErrorMessages("Z===");
  }

  /** A key whose length in bytes is not a multiple of four is refused as base64. */
  lemma DecodeNeedsWholeQuanta(key: string)
    requires |Utf8.Encode(key)| % 4 != 0
    ensures Decode(key) == Err(Fail(InternalServerError,
      "DecodeError error" + ": " + "Failed to decode base64" + " :: " + "invalid length"))
  {
    DecodeErrorMessages(key);
  }
}
