/** The padded base64 encoding with the standard alphabet (section 4 of RFC 4648),
    as the `data_encoding::BASE64` encoding applies it: the text length must be a
    multiple of four, padding may close any quantum (a padded quantum ends one encoded
    group and decoding goes on behind it), and the unused bits of the last symbol before
    the padding must be zero. Both sides are bytes. */
module Base64 {
  import opened Wrappers

  /** The padding character `=`. */
  const Pad: byte := 0x3D

  /** The symbol of a six-bit value: `A`-`Z`, `a`-`z`, `0`-`9`, `+`, `/`. */
  function Symbol(v: int): (b: byte)
    requires 0 <= v < 64
    ensures b < 0x80 && b != Pad
  {
    if v < 26 then (0x41 + v) as byte
    else if v < 52 then (0x61 + v - 26) as byte
    else if v < 62 then (0x30 + v - 52) as byte
    else if v == 62 then 0x2B
    else 0x2F
  }

  /** The six-bit value of an alphabet symbol; `None` for anything else, padding included. */
  function Value(b: byte): (r: Option<int>)
    ensures r.Some? ==> 0 <= r.value < 64 && Symbol(r.value) == b
    ensures b == Pad ==> r.None?
  {
    if 0x41 <= b <= 0x5A then Some(b as int - 0x41)
    else if 0x61 <= b <= 0x7A then Some(b as int - 0x61 + 26)
    else if 0x30 <= b <= 0x39 then Some(b as int - 0x30 + 52)
    else if b == 0x2B then Some(62)
    else if b == 0x2F then Some(63)
    else None
  }

  /** Every symbol is read back as its value. */
  lemma ValueOfSymbol(v: int)
    requires 0 <= v < 64
    ensures Value(Symbol(v)) == Some(v)
  {
  }

  /** Three bytes as four symbols. */
  function EncodeBlock(b0: byte, b1: byte, b2: byte): seq<byte> {
    [Symbol(b0 as int / 4), Symbol((b0 as int % 4) * 16 + b1 as int / 16),
     Symbol((b1 as int % 16) * 4 + b2 as int / 64), Symbol(b2 as int % 64)]
  }

  /** `BASE64.encode`: four symbols per three bytes, the last quantum padded with `=`. */
  function Encode(data: seq<byte>): (text: seq<byte>)
    ensures |text| == 4 * ((|data| + 2) / 3)
    ensures forall i :: 0 <= i < |text| ==> text[i] < 0x80
    decreases |data|
  {
    if |data| == 0 then []
    else if |data| == 1 then
      [Symbol(data[0] as int / 4), Symbol((data[0] as int % 4) * 16), Pad, Pad]
    else if |data| == 2 then
      [Symbol(data[0] as int / 4), Symbol((data[0] as int % 4) * 16 + data[1] as int / 16),
       Symbol((data[1] as int % 16) * 4), Pad]
    else EncodeBlock(data[0], data[1], data[2]) + Encode(data[3..])
  }

  /** Why a text is not accepted. */
  datatype DecodeKind = InvalidLength | InvalidSymbol | NonZeroTrailingBits | InvalidPadding

  /** The outcome of `BASE64.decode`. */
  datatype DecodeResult = Decoded(bytes: seq<byte>) | Invalid(kind: DecodeKind)

  /** A quantum of four symbols as three bytes. Any byte outside the alphabet, `=`
      included, is an invalid symbol. */
  function DecodeFull(q: seq<byte>): (r: DecodeResult)
    requires |q| == 4
    ensures r.Decoded? ==> |r.bytes| == 3
  {
    if Value(q[0]).None? || Value(q[1]).None? || Value(q[2]).None? || Value(q[3]).None? then
      Invalid(InvalidSymbol)
    else
      var v0, v1, v2, v3 := Value(q[0]).value, Value(q[1]).value, Value(q[2]).value, Value(q[3]).value;
      Decoded([(v0 * 4 + v1 / 16) as byte, ((v1 % 16) * 16 + v2 / 4) as byte, ((v2 % 4) * 64 + v3) as byte])
  }

  /** One quantum, which may end in `=`. Three or four trailing `=` leave too few symbols
      and are an invalid padding length; otherwise the symbols in front of the padding
      are decoded, a byte outside the alphabet among them (an `=` too) being an invalid
      symbol, and the bits the padding leaves over in the last symbol must be zero. A
      quantum without padding is a full one. */
  function DecodeQuantum(q: seq<byte>): (r: DecodeResult)
    requires |q| == 4
    ensures r.Decoded? ==> 1 <= |r.bytes| <= 3
    ensures q[3] != Pad ==> r == DecodeFull(q)
    ensures r == Invalid(InvalidPadding) <==> q[1] == Pad && q[2] == Pad && q[3] == Pad
  {
    if q[3] != Pad then DecodeFull(q)
    else if q[2] != Pad then
      if Value(q[0]).None? || Value(q[1]).None? || Value(q[2]).None? then Invalid(InvalidSymbol)
      else
        var v0, v1, v2 := Value(q[0]).value, Value(q[1]).value, Value(q[2]).value;
        if v2 % 4 != 0 then Invalid(NonZeroTrailingBits)
        else Decoded([(v0 * 4 + v1 / 16) as byte, ((v1 % 16) * 16 + v2 / 4) as byte])
    else if q[1] != Pad then
      if Value(q[0]).None? || Value(q[1]).None? then Invalid(InvalidSymbol)
      else
        var v0, v1 := Value(q[0]).value, Value(q[1]).value;
        if v1 % 16 != 0 then Invalid(NonZeroTrailingBits) else Decoded([(v0 * 4 + v1 / 16) as byte])
    else Invalid(InvalidPadding)
  }

  /** `BASE64.decode`: quantum by quantum, the first failure deciding the error. A padded
      quantum ends its own group of bytes and decoding goes on behind it, so the text of a
      concatenation of encodings decodes to the concatenated bytes. */
  function Decode(text: seq<byte>): (r: DecodeResult)
    ensures |text| % 4 != 0 ==> r == Invalid(InvalidLength)
    ensures r.Decoded? ==> |text| / 4 <= |r.bytes| <= 3 * (|text| / 4)
    decreases |text|
  {
    if |text| % 4 != 0 then Invalid(InvalidLength)
    else if text == [] then Decoded([])
    else
      match DecodeQuantum(text[..4])
      case Invalid(k) => Invalid(k)
      case Decoded(head) =>
        match Decode(text[4..])
        case Invalid(k) => Invalid(k)
        case Decoded(rest) => Decoded(head + rest)
  }

  /** A text is accepted only if its length is a multiple of four. */
  lemma DecodeNeedsWholeQuanta(text: seq<byte>)
    requires Decode(text).Decoded?
    ensures |text| % 4 == 0
  {
  }

  /** The empty text decodes to no bytes. */
  lemma DecodeEmpty()
    ensures Decode([]) == Decoded([])
  {
  }

  /** A text of one quantum decodes as that quantum. */
  lemma DecodeOneQuantum(q: seq<byte>)
    requires |q| == 4
    ensures Decode(q) == DecodeQuantum(q)
  {
    assert q[..4] == q && q[4..] == [];
    if DecodeQuantum(q).Decoded? {
      var head := DecodeQuantum(q).bytes;
      assert head + [] == head;
    }
  }

  /** Three encoded bytes are read back. */
  lemma DecodeEncodeBlock(b0: byte, b1: byte, b2: byte)
    ensures DecodeQuantum(EncodeBlock(b0, b1, b2)) == Decoded([b0, b1, b2])
  {
    var x0, x1, x2 := b0 as int, b1 as int, b2 as int;
    var s0, s1, s2, s3 := x0 / 4, (x0 % 4) * 16 + x1 / 16, (x1 % 16) * 4 + x2 / 64, x2 % 64;
    ValueOfSymbol(s0);
    ValueOfSymbol(s1);
    ValueOfSymbol(s2);
    ValueOfSymbol(s3);
    assert s1 / 16 == x0 % 4 && s1 % 16 == x1 / 16;
    assert s2 / 4 == x1 % 16 && s2 % 4 == x2 / 64;
  }

  /** A single byte, padded with two `=`, is read back. */
  lemma DecodeEncodeOne(b0: byte)
    ensures DecodeQuantum(Encode([b0])) == Decoded([b0])
  {
    var x0 := b0 as int;
    var s0, s1 := x0 / 4, (x0 % 4) * 16;
    var q := Encode([b0]);
    assert q == [Symbol(s0), Symbol(s1), Pad, Pad];
    ValueOfSymbol(s0);
    ValueOfSymbol(s1);
    assert s0 * 4 + s1 / 16 == x0;
  }

  /** Two bytes, padded with one `=`, are read back. */
  lemma DecodeEncodeTwo(b0: byte, b1: byte)
    ensures DecodeQuantum(Encode([b0, b1])) == Decoded([b0, b1])
  {
    var x0, x1 := b0 as int, b1 as int;
    var s0, s1, s2 := x0 / 4, (x0 % 4) * 16 + x1 / 16, (x1 % 16) * 4;
    var q := Encode([b0, b1]);
    assert q == [Symbol(s0), Symbol(s1), Symbol(s2), Pad];
    ValueOfSymbol(s0);
    ValueOfSymbol(s1);
    ValueOfSymbol(s2);
    assert s1 / 16 == x0 % 4 && s1 % 16 == x1 / 16;
    assert s0 * 4 + s1 / 16 == x0;
    assert (s1 % 16) * 16 + s2 / 4 == x1;
  }

  /** A quantum followed by a decodable text decodes to both byte strings in turn. */
  lemma DecodeSplit(q: seq<byte>, rest: seq<byte>, head: seq<byte>, tail: seq<byte>)
    requires |q| == 4
    requires DecodeQuantum(q) == Decoded(head) && Decode(rest) == Decoded(tail)
    ensures Decode(q + rest) == Decoded(head + tail)
  {
    DecodeNeedsWholeQuanta(rest);
    var text := q + rest;
    assert text[..4] == q && text[4..] == rest;
  }

  /** A text of more than one quantum that decodes is its first quantum's bytes and then
      the bytes of the rest. */
  lemma DecodeStep(text: seq<byte>)
    requires |text| >= 4 && Decode(text).Decoded?
    ensures DecodeQuantum(text[..4]).Decoded? && Decode(text[4..]).Decoded?
    ensures Decode(text).bytes == DecodeQuantum(text[..4]).bytes + Decode(text[4..]).bytes
  {
  }

  /** Three bytes alone come back. */
  lemma DecodeEncodeThree(b0: byte, b1: byte, b2: byte)
    ensures Decode(Encode([b0, b1, b2])) == Decoded([b0, b1, b2])
  {
    var block := EncodeBlock(b0, b1, b2);
    EncodeThree([b0, b1, b2]);
    DecodeEncodeBlock(b0, b1, b2);
    DecodeOneQuantum(block);
  }

  /** Three bytes are encoded as one full quantum. */
  lemma EncodeThree(data: seq<byte>)
    requires |data| == 3
    ensures Encode(data) == EncodeBlock(data[0], data[1], data[2])
  {
    assert Encode(data) == EncodeBlock(data[0], data[1], data[2]) + Encode([]);
  }

  /** One step of the round trip: if a tail comes back, so does the tail behind three bytes. */
  lemma DecodeEncodeStep(b0: byte, b1: byte, b2: byte, tail: seq<byte>)
    requires tail != []
    requires Decode(Encode(tail)) == Decoded(tail)
    ensures Decode(Encode([b0, b1, b2] + tail)) == Decoded([b0, b1, b2] + tail)
  {
    var data := [b0, b1, b2] + tail;
    assert data[3..] == tail;
    var block := EncodeBlock(b0, b1, b2);
    var rest := Encode(tail);
    assert Encode(data) == block + rest;
    DecodeEncodeBlock(b0, b1, b2);
    DecodeSplit(block, rest, [b0, b1, b2], tail);
  }

  /** A byte string of more than three bytes is its first three and the rest. */
  lemma SplitThree(data: seq<byte>)
    requires |data| > 3
    ensures [data[0], data[1], data[2]] + data[3..] == data
  {
  }

  /** Round trip: decoding an encoding gives the bytes back. */
  lemma {:induction false} DecodeEncode(data: seq<byte>)
    ensures Decode(Encode(data)) == Decoded(data)
    decreases |data|
  {
    if |data| == 0 {
    } else if |data| == 1 {
      DecodeEncodeOne(data[0]);
      DecodeOneQuantum(Encode([data[0]]));
      assert data == [data[0]];
    } else if |data| == 2 {
      DecodeEncodeTwo(data[0], data[1]);
      DecodeOneQuantum(Encode([data[0], data[1]]));
      assert data == [data[0], data[1]];
    } else {
      if |data| == 3 {
        DecodeEncodeThree(data[0], data[1], data[2]);
        assert data == [data[0], data[1], data[2]];
      } else {
        DecodeEncode(data[3..]);
        DecodeEncodeStep(data[0], data[1], data[2], data[3..]);
        SplitThree(data);
      }
    }
  }

  /** Decoding a concatenation of decodable texts gives the concatenation of their bytes. */
  lemma {:induction false} DecodeConcat(a: seq<byte>, b: seq<byte>)
    requires Decode(a).Decoded? && Decode(b).Decoded?
    ensures Decode(a + b) == Decoded(Decode(a).bytes + Decode(b).bytes)
    decreases |a|
  {
    if a == [] {
      assert a + b == b;
    } else {
      DecodeNeedsWholeQuanta(a);
      DecodeNeedsWholeQuanta(b);
      DecodeStep(a);
      var q, r := a[..4], a[4..];
      DecodeConcat(r, b);
      DecodeConcatStep(q, r, b, DecodeQuantum(q).bytes, Decode(r).bytes, Decode(b).bytes);
      assert q + r == a;
    }
  }

  /** The step of `DecodeConcat`: a quantum in front of two texts whose concatenation decodes. */
  lemma DecodeConcatStep(q: seq<byte>, r: seq<byte>, b: seq<byte>, head: seq<byte>, middle: seq<byte>, tail: seq<byte>)
    requires |q| == 4 && DecodeQuantum(q) == Decoded(head) && Decode(r + b) == Decoded(middle + tail)
    ensures Decode(q + r + b) == Decoded(head + middle + tail)
  {
    DecodeSplit(q, r + b, head, middle + tail);
    assert q + (r + b) == q + r + b;
    assert head + (middle + tail) == head + middle + tail;
  }

  /** The encoding of `"ff"` twice over, each `f` on its own padded quantum (`Zg==Zg==`),
      decodes to `ff`, yet it is not the encoding of `ff` (`ZmY=`): an accepted text need
      not be canonical. */
  lemma PaddedQuantaConcatenate()
    ensures Decode([0x5A, 0x67, Pad, Pad, 0x5A, 0x67, Pad, Pad]) == Decoded([0x66, 0x66])
    ensures Encode([0x66, 0x66]) != [0x5A, 0x67, Pad, Pad, 0x5A, 0x67, Pad, Pad]
  {
    var q: seq<byte> := [0x5A, 0x67, Pad, Pad];
    assert Value(0x5A) == Some(25) && Value(0x67) == Some(32);
    assert DecodeQuantum(q) == Decoded([0x66]);
    DecodeOneQuantum(q);
    DecodeConcat(q, q);
    assert q + q == [0x5A, 0x67, Pad, Pad, 0x5A, 0x67, Pad, Pad];
  }

  /** Which error a misplaced byte gives. `!A==`, `A!==` and `!AB=` hold a byte outside
      the alphabet in front of their padding, and `Zg=g` an `=` that does not trail: all
      four are invalid symbols. `Z===` and `====` leave fewer than two symbols in front
      of their padding: an invalid padding length. */
  lemma DecodeErrorKinds()
    ensures Decode([0x21, 0x41, Pad, Pad]) == Invalid(InvalidSymbol)
    ensures Decode([0x41, 0x21, Pad, Pad]) == Invalid(InvalidSymbol)
    ensures Decode([0x21, 0x41, 0x42, Pad]) == Invalid(InvalidSymbol)
    ensures Decode([0x5A, 0x67, Pad, 0x67]) == Invalid(InvalidSymbol)
    ensures Decode([0x5A, Pad, Pad, Pad]) == Invalid(InvalidPadding)
    ensures Decode([Pad, Pad, Pad, Pad]) == Invalid(InvalidPadding)
  {
    DecodeOneQuantum([0x21, 0x41, Pad, Pad]);
    DecodeOneQuantum([0x41, 0x21, Pad, Pad]);
    DecodeOneQuantum([0x21, 0x41, 0x42, Pad]);
    DecodeOneQuantum([0x5A, 0x67, Pad, 0x67]);
    DecodeOneQuantum([0x5A, Pad, Pad, Pad]);
    DecodeOneQuantum([Pad, Pad, Pad, Pad]);
  }

  /** Padding appears in the last quantum only. */
  predicate PaddedAtEndOnly(text: seq<byte>) {
    forall i :: 0 <= i < |text| - 4 ==> text[i] != Pad
  }

  /** An encoding pads its last quantum only. */
  lemma {:induction false} EncodePaddedAtEndOnly(data: seq<byte>)
    ensures PaddedAtEndOnly(Encode(data))
    decreases |data|
  {
    if |data| > 3 {
      EncodePaddedAtEndOnly(data[3..]);
      var block, rest := EncodeBlock(data[0], data[1], data[2]), Encode(data[3..]);
      assert Encode(data) == block + rest;
      forall i | 0 <= i < |block + rest| - 4
        ensures (block + rest)[i] != Pad
      {
        if i >= 4 {
          assert (block + rest)[i] == rest[i - 4];
        }
      }
    }
  }

  /** Re-encoding a decoded full quantum gives the quantum back. */
  lemma EncodeDecodeFull(q: seq<byte>)
    requires |q| == 4 && DecodeFull(q).Decoded?
    ensures var d := DecodeFull(q).bytes; EncodeBlock(d[0], d[1], d[2]) == q
  {
    var v0, v1, v2, v3 := Value(q[0]).value, Value(q[1]).value, Value(q[2]).value, Value(q[3]).value;
    assert DecodeFull(q).bytes == [(v0 * 4 + v1 / 16) as byte, ((v1 % 16) * 16 + v2 / 4) as byte, ((v2 % 4) * 64 + v3) as byte];
    EncodeValues(v0, v1, v2, v3);
    assert q == [Symbol(v0), Symbol(v1), Symbol(v2), Symbol(v3)];
  }

  /** The three bytes that four six-bit values make encode back to those values' symbols. */
  lemma EncodeValues(v0: int, v1: int, v2: int, v3: int)
    requires 0 <= v0 < 64 && 0 <= v1 < 64 && 0 <= v2 < 64 && 0 <= v3 < 64
    ensures EncodeBlock((v0 * 4 + v1 / 16) as byte, ((v1 % 16) * 16 + v2 / 4) as byte, ((v2 % 4) * 64 + v3) as byte)
            == [Symbol(v0), Symbol(v1), Symbol(v2), Symbol(v3)]
  {
    var x0, x1, x2 := v0 * 4 + v1 / 16, (v1 % 16) * 16 + v2 / 4, (v2 % 4) * 64 + v3;
    assert x0 / 4 == v0 && x0 % 4 == v1 / 16;
    assert x1 / 16 == v1 % 16 && x1 % 16 == v2 / 4;
    assert x2 / 64 == v2 % 4 && x2 % 64 == v3;
  }

  /** Re-encoding a decoded quantum gives the quantum back. */
  lemma EncodeDecodeQuantum(q: seq<byte>)
    requires |q| == 4 && DecodeQuantum(q).Decoded?
    ensures var d := DecodeQuantum(q).bytes; (|d| == 3 ==> EncodeBlock(d[0], d[1], d[2]) == q) && (|d| < 3 ==> Encode(d) == q)
  {
    if q[3] != Pad {
      EncodeDecodeFull(q);
    } else if q[2] == Pad {
      EncodeDecodeTwoPads(q);
    } else {
      EncodeDecodeOnePad(q);
    }
  }

  /** Re-encoding the byte of a quantum padded with two `=` gives the quantum back. */
  lemma EncodeDecodeTwoPads(q: seq<byte>)
    requires |q| == 4 && q[2] == Pad && q[3] == Pad && DecodeQuantum(q).Decoded?
    ensures Encode(DecodeQuantum(q).bytes) == q
  {
    var v0, v1 := Value(q[0]).value, Value(q[1]).value;
    var x0 := v0 * 4 + v1 / 16;
    assert DecodeQuantum(q).bytes == [x0 as byte];
    assert x0 / 4 == v0 && (x0 % 4) * 16 == v1;
  }

  /** Re-encoding the two bytes of a quantum padded with one `=` gives the quantum back. */
  lemma EncodeDecodeOnePad(q: seq<byte>)
    requires |q| == 4 && q[2] != Pad && q[3] == Pad && DecodeQuantum(q).Decoded?
    ensures Encode(DecodeQuantum(q).bytes) == q
  {
    var v0, v1, v2 := Value(q[0]).value, Value(q[1]).value, Value(q[2]).value;
    var x0, x1 := v0 * 4 + v1 / 16, (v1 % 16) * 16 + v2 / 4;
    assert DecodeQuantum(q).bytes == [x0 as byte, x1 as byte];
    assert x0 / 4 == v0 && x0 % 4 == v1 / 16;
    assert x1 / 16 == v1 % 16 && (x1 % 16) * 4 == v2;
  }

  /** A text padded in its last quantum only that decodes is exactly the encoding of what
      it decodes to, so each byte string has one such text. */
  lemma {:induction false} EncodeDecodeCanonical(text: seq<byte>)
    requires Decode(text).Decoded? && PaddedAtEndOnly(text)
    ensures Encode(Decode(text).bytes) == text
    decreases |text|
  {
    if text == [] {
    } else if |text| == 4 {
      DecodeOneQuantum(text);
      EncodeDecodeQuantum(text);
      var d := DecodeQuantum(text).bytes;
      if |d| == 3 {
        assert Encode(d) == EncodeBlock(d[0], d[1], d[2]) + Encode(d[3..]);
      }
    } else {
      DecodeNeedsWholeQuanta(text);
      assert text[3] != Pad;
      var head := DecodeFull(text[..4]).bytes;
      var rest := Decode(text[4..]).bytes;
      EncodeDecodeFull(text[..4]);
      assert PaddedAtEndOnly(text[4..]) by {
        forall i | 0 <= i < |text[4..]| - 4
          ensures text[4..][i] != Pad
        {
          assert text[4..][i] == text[i + 4];
        }
      }
      EncodeDecodeCanonical(text[4..]);
      var d := head + rest;
      assert d[..3] == head && d[3..] == rest;
      assert Encode(d) == EncodeBlock(d[0], d[1], d[2]) + Encode(d[3..]);
      assert text == text[..4] + text[4..];
    }
  }

  /** A text that decodes is the encoding of what it decodes to exactly when padding
      appears in its last quantum only; other accepted texts are concatenations of padded
      encodings. */
  lemma EncodeDecode(text: seq<byte>)
    requires Decode(text).Decoded?
    ensures Encode(Decode(text).bytes) == text <==> PaddedAtEndOnly(text)
  {
    if PaddedAtEndOnly(text) {
      EncodeDecodeCanonical(text);
    } else {
      EncodePaddedAtEndOnly(Decode(text).bytes);
    }
  }
}
