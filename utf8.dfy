/** UTF-8, as Rust uses it for `String`: `str::as_bytes` is `Encode`, and
    `String::from_utf8` is `Decode`, which accepts exactly the well-formed byte
    sequences of the Unicode standard (no overlong forms, no surrogates, nothing
    above U+10FFFF). A Dafny `char` is a Unicode scalar value, like a Rust `char`. */
module Utf8 {
  import opened Wrappers

  /** A continuation byte `10xxxxxx`. */
  predicate IsContinuation(b: byte) {
    0x80 <= b <= 0xBF
  }

  /** The bytes of one scalar value, most significant group first. */
  function EncodeChar(c: char): (bs: seq<byte>)
    ensures 1 <= |bs| <= 4
  {
    var cp := c as int;
    var q1, r1 := cp / 64, cp % 64;
    var q2, r2 := q1 / 64, q1 % 64;
    var q3, r3 := q2 / 64, q2 % 64;
    if cp < 0x80 then [cp as byte]
    else if cp < 0x800 then [(0xC0 + q1) as byte, (0x80 + r1) as byte]
    else if cp < 0x10000 then [(0xE0 + q2) as byte, (0x80 + r2) as byte, (0x80 + r1) as byte]
    else [(0xF0 + q3) as byte, (0x80 + r3) as byte, (0x80 + r2) as byte, (0x80 + r1) as byte]
  }

  /** `str::as_bytes`: the UTF-8 encoding of a text. */
  function Encode(s: string): (bs: seq<byte>)
    ensures |bs| >= |s|
  {
    if s == [] then [] else EncodeChar(s[0]) + Encode(s[1..])
  }

  /** The second byte allowed after a three-byte lead (Table 3-7 of the Unicode standard). */
  predicate SecondOfThree(b0: byte, b1: byte) {
    if b0 == 0xE0 then 0xA0 <= b1 <= 0xBF
    else if b0 == 0xED then 0x80 <= b1 <= 0x9F
    else IsContinuation(b1)
  }

  /** The second byte allowed after a four-byte lead. */
  predicate SecondOfFour(b0: byte, b1: byte) {
    if b0 == 0xF0 then 0x90 <= b1 <= 0xBF
    else if b0 == 0xF4 then 0x80 <= b1 <= 0x8F
    else IsContinuation(b1)
  }

  /** Decodes the scalar value at the head of `bs` and says how many bytes it used,
      or `None` if the head is not a well-formed sequence. */
  function DecodeFirst(bs: seq<byte>): (r: Option<(char, nat)>)
    requires |bs| > 0
    ensures r.Some? ==> 1 <= r.value.1 <= 4 && r.value.1 <= |bs|
  {
    var b0 := bs[0];
    if b0 < 0x80 then
      Some((b0 as int as char, 1))
    else if 0xC2 <= b0 <= 0xDF then
      if |bs| >= 2 && IsContinuation(bs[1]) then
        var cp := (b0 as int - 0xC0) * 64 + (bs[1] as int - 0x80);
        Some((cp as char, 2))
      else None
    else if 0xE0 <= b0 <= 0xEF then
      if |bs| >= 3 && SecondOfThree(b0, bs[1]) && IsContinuation(bs[2]) then
        var cp := ((b0 as int - 0xE0) * 64 + (bs[1] as int - 0x80)) * 64 + (bs[2] as int - 0x80);
        Some((cp as char, 3))
      else None
    else if 0xF0 <= b0 <= 0xF4 then
      if |bs| >= 4 && SecondOfFour(b0, bs[1]) && IsContinuation(bs[2]) && IsContinuation(bs[3]) then
        var cp := (((b0 as int - 0xF0) * 64 + (bs[1] as int - 0x80)) * 64 + (bs[2] as int - 0x80)) * 64
                  + (bs[3] as int - 0x80);
        Some((cp as char, 4))
      else None
    else None
  }

  /** `String::from_utf8`: the text the bytes encode, or `None` if they are not UTF-8. */
  function Decode(bs: seq<byte>): (r: Option<string>)
    ensures r.Some? ==> |r.value| <= |bs| <= 4 * |r.value|
    decreases |bs|
  {
    if bs == [] then Some([])
    else match DecodeFirst(bs)
      case None => None
      case Some(head) =>
        match Decode(bs[head.1..])
        case None => None
        case Some(rest) => Some([head.0] + rest)
  }

  /** The encoding of one scalar value is read back as that value, whatever follows. */
  lemma DecodeFirstOfEncodeChar(c: char, rest: seq<byte>)
    ensures DecodeFirst(EncodeChar(c) + rest) == Some((c, |EncodeChar(c)|))
  {
    var bs := EncodeChar(c) + rest;
    var cp := c as int;
    var q1, r1 := cp / 64, cp % 64;
    var q2, r2 := q1 / 64, q1 % 64;
    var q3, r3 := q2 / 64, q2 % 64;
    assert cp == q1 * 64 + r1;
    assert q1 == q2 * 64 + r2;
    assert q2 == q3 * 64 + r3;
    if cp < 0x80 {
    } else if cp < 0x800 {
      assert bs[0] as int == 0xC0 + q1 && bs[1] as int == 0x80 + r1;
    } else if cp < 0x10000 {
      assert bs[0] as int == 0xE0 + q2 && bs[1] as int == 0x80 + r2 && bs[2] as int == 0x80 + r1;
      assert q2 == 0 ==> r2 >= 32;
      assert q2 == 13 ==> r2 < 32;
    } else {
      assert bs[0] as int == 0xF0 + q3 && bs[1] as int == 0x80 + r3;
      assert bs[2] as int == 0x80 + r2 && bs[3] as int == 0x80 + r1;
      assert q3 == 0 ==> r3 >= 16;
      assert q3 == 4 ==> r3 < 16;
    }
  }

  /** Round trip: every text decodes back from its bytes. */
  lemma {:induction false} DecodeEncode(s: string)
    ensures Decode(Encode(s)) == Some(s)
  {
    if s != [] {
      var head := EncodeChar(s[0]);
      var tail := Encode(s[1..]);
      assert Encode(s) == head + tail;
      DecodeFirstOfEncodeChar(s[0], tail);
      assert (head + tail)[|head|..] == tail;
      DecodeEncode(s[1..]);
      assert [s[0]] + s[1..] == s;
    }
  }

  /** A well-formed head sequence is the encoding of the value it decodes to. */
  lemma EncodeCharOfDecodeFirst(bs: seq<byte>)
    requires |bs| > 0 && DecodeFirst(bs).Some?
    ensures EncodeChar(DecodeFirst(bs).value.0) == bs[..DecodeFirst(bs).value.1]
  {
    var c := DecodeFirst(bs).value.0;
    var cp := c as int;
    var b0 := bs[0] as int;
    if b0 < 0x80 {
    } else if b0 <= 0xDF {
      var v1 := bs[1] as int - 0x80;
      assert cp == (b0 - 0xC0) * 64 + v1;
      assert cp / 64 == b0 - 0xC0 && cp % 64 == v1;
    } else if b0 <= 0xEF {
      var v1, v2 := bs[1] as int - 0x80, bs[2] as int - 0x80;
      var q1 := (b0 - 0xE0) * 64 + v1;
      assert cp == q1 * 64 + v2;
      assert cp / 64 == q1 && cp % 64 == v2;
      assert q1 / 64 == b0 - 0xE0 && q1 % 64 == v1;
    } else {
      var v1, v2, v3 := bs[1] as int - 0x80, bs[2] as int - 0x80, bs[3] as int - 0x80;
      var q2 := (b0 - 0xF0) * 64 + v1;
      var q1 := q2 * 64 + v2;
      assert cp == q1 * 64 + v3;
      assert cp / 64 == q1 && cp % 64 == v3;
      assert q1 / 64 == q2 && q1 % 64 == v2;
      assert q2 / 64 == b0 - 0xF0 && q2 % 64 == v1;
    }
  }

  /** The other direction: bytes that decode are exactly the encoding of what they
      decode to, so `from_utf8` accepts one byte form per text. */
  lemma {:induction false} EncodeDecode(bs: seq<byte>)
    requires Decode(bs).Some?
    ensures Encode(Decode(bs).value) == bs
    decreases |bs|
  {
    if bs != [] {
      var head := DecodeFirst(bs).value;
      EncodeCharOfDecodeFirst(bs);
      EncodeDecode(bs[head.1..]);
      assert bs == bs[..head.1] + bs[head.1..];
    }
  }

  /** The text whose characters are the given ASCII bytes. */
  function FromAscii(bs: seq<byte>): (s: string)
    requires forall i :: 0 <= i < |bs| ==> bs[i] < 0x80
    ensures |s| == |bs|
  {
    if bs == [] then [] else [bs[0] as int as char] + FromAscii(bs[1..])
  }

  /** ASCII text is encoded byte for byte. */
  lemma {:induction false} EncodeFromAscii(bs: seq<byte>)
    requires forall i :: 0 <= i < |bs| ==> bs[i] < 0x80
    ensures Encode(FromAscii(bs)) == bs
  {
    if bs != [] {
      EncodeFromAscii(bs[1..]);
    }
  }

  /** A text whose encoding is all ASCII is the text of those bytes. */
  lemma {:induction false} FromAsciiOfEncode(s: string)
    requires forall i :: 0 <= i < |Encode(s)| ==> Encode(s)[i] < 0x80
    ensures FromAscii(Encode(s)) == s
  {
    if s != [] {
      var head := EncodeChar(s[0]);
      assert head[0] == Encode(s)[0];
      assert |head| == 1;
      assert Encode(s)[1..] == Encode(s[1..]);
      forall i | 0 <= i < |Encode(s[1..])| ensures Encode(s[1..])[i] < 0x80 {
        assert Encode(s[1..])[i] == Encode(s)[i + 1];
      }
      FromAsciiOfEncode(s[1..]);
    }
  }
}
