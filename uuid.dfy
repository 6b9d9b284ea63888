/** UUIDs as the `uuid` crate handles them: sixteen bytes, shown as lower-case
    hyphenated hexadecimal, parsed by `Uuid::parse_str`; and `CustomUuidFns::to_uuid`
    (src/infra/uuid.rs), which turns a parse failure into a 400. */
module Uuid {
  import opened Wrappers
  import opened Errors

  /** A UUID: sixteen bytes. */
  type Uuid = s: seq<byte> | |s| == 16 witness seq(16, _ => 0)

  /** `Uuid::nil`: all bits zero. */
  const Nil: Uuid := seq(16, _ => 0)

  /** `Uuid::is_nil`. */
  predicate IsNil(u: Uuid) {
    forall i :: 0 <= i < 16 ==> u[i] == 0
  }

  /** What `Uuid::now_v7` produces: version nibble 7 and the RFC 4122 variant bits. */
  predicate IsVersion7(u: Uuid) {
    u[6] as int / 16 == 7 && u[8] as int / 64 == 2
  }

  /** A version 7 UUID is never the nil UUID. */
  lemma Version7IsNotNil(u: Uuid)
    requires IsVersion7(u)
    ensures !IsNil(u)
  {
    assert u[6] != 0;
  }

  lemma NilIsNil()
    ensures IsNil(Nil)
  {
  }

  /** The lower-case hexadecimal digit of a value below 16. */
  function HexDigit(v: int): (c: char)
    requires 0 <= v < 16
  {
    if v < 10 then (0x30 + v) as char else (0x61 + v - 10) as char
  }

  /** The value of a hexadecimal digit of either case. */
  function HexValue(c: char): (r: Option<int>)
    ensures r.Some? ==> 0 <= r.value < 16
  {
    if '0' <= c <= '9' then Some(c as int - 0x30)
    else if 'a' <= c <= 'f' then Some(c as int - 0x61 + 10)
    else if 'A' <= c <= 'F' then Some(c as int - 0x41 + 10)
    else None
  }

  /** Bytes as lower-case hexadecimal, two digits per byte. */
  function ToHex(bs: seq<byte>): (h: string)
    ensures |h| == 2 * |bs|
  {
    if bs == [] then [] else [HexDigit(bs[0] as int / 16), HexDigit(bs[0] as int % 16)] + ToHex(bs[1..])
  }

  /** Hexadecimal text of either case as bytes; `None` if a character is not a digit. */
  function FromHex(h: string): (r: Option<seq<byte>>)
    requires |h| % 2 == 0
    ensures r.Some? ==> 2 * |r.value| == |h|
  {
    if h == [] then Some([])
    else match (HexValue(h[0]), HexValue(h[1]), FromHex(h[2..]))
      case (Some(hi), Some(lo), Some(rest)) => Some([(hi * 16 + lo) as byte] + rest)
      case _ => None
  }

  /** Hexadecimal text is read back as the bytes it was written from. */
  lemma {:induction false} FromHexToHex(bs: seq<byte>)
    ensures FromHex(ToHex(bs)) == Some(bs)
  {
    if bs != [] {
      var h := ToHex(bs);
      assert h[2..] == ToHex(bs[1..]);
      FromHexToHex(bs[1..]);
      assert [bs[0]] + bs[1..] == bs;
    }
  }

  /** `Uuid::to_string`: `xxxxxxxx-xxxx-xxxx-xxxx-xxxxxxxxxxxx`, lower case. */
  function ToText(u: Uuid): (s: string)
    ensures |s| == 36 && s != []
    ensures s[8] == '-' && s[13] == '-' && s[18] == '-' && s[23] == '-'
  {
    var h := ToHex(u);
    h[..8] + "-" + h[8..12] + "-" + h[12..16] + "-" + h[16..20] + "-" + h[20..]
  }

  /** The 32 digits of a hyphenated form, with the hyphens at 8, 13, 18 and 23 checked. */
  function ParseHyphenated(s: string): (r: Option<Uuid>)
    requires |s| == 36
  {
    if s[8] != '-' || s[13] != '-' || s[18] != '-' || s[23] != '-' then None
    else match FromHex(s[..8] + s[9..13] + s[14..18] + s[19..23] + s[24..])
      case None => None
      case Some(bs) => Some(bs)
  }

  /** `Uuid::parse_str`: the simple form (32 digits), the hyphenated form (36), the braced
      form `{…}` (38) and the URN form `urn:uuid:…` (45); digits of either case. */
  function ParseStr(s: string): (r: Option<Uuid>)
    ensures r.Some? ==> |s| == 32 || |s| == 36 || |s| == 38 || |s| == 45
  {
    if |s| == 32 then
      match FromHex(s)
      case None => None
      case Some(bs) => Some(bs)
    else if |s| == 36 then ParseHyphenated(s)
    else if |s| == 38 then
      if s[0] == '{' && s[37] == '}' then ParseHyphenated(s[1..37]) else None
    else if |s| == 45 then
      if s[..9] == "urn:uuid:" then ParseHyphenated(s[9..]) else None
    else None
  }

  /** Round trip: the text form of a UUID parses back to it. */
  lemma ParseToText(u: Uuid)
    ensures ParseStr(ToText(u)) == Some(u)
  {
    var h := ToHex(u);
    var s := ToText(u);
    HyphenatedGroups(h[..8], h[8..12], h[12..16], h[16..20], h[20..]);
    assert h[..8] + h[8..12] + h[12..16] + h[16..20] + h[20..] == h;
    FromHexToHex(u);
  }

  /** The groups of a hyphenated text sit between its hyphens. */
  lemma HyphenatedGroups(a: string, b: string, c: string, d: string, e: string)
    requires |a| == 8 && |b| == 4 && |c| == 4 && |d| == 4
    ensures var s := a + "-" + b + "-" + c + "-" + d + "-" + e;
      s[..8] + s[9..13] + s[14..18] + s[19..23] + s[24..] == a + b + c + d + e
  {
    var s := a + "-" + b + "-" + c + "-" + d + "-" + e;
    assert s[..8] == a;
    assert s[9..13] == b;
    assert s[14..18] == c;
    assert s[19..23] == d;
    assert s[24..] == e;
  }

  /** `CustomUuidFns::to_uuid`: the parsed UUID, or 400 "Invalid UUID <text>" without tags. */
  function ToUuid(s: string): (r: Result<Uuid>)
    ensures r.Ok? <==> ParseStr(s).Some?
    ensures r.Ok? ==> r.value == ParseStr(s).value
    ensures r.Err? ==> r.error == Fail(BadRequest, "Invalid UUID " + s)
  {
    match ParseStr(s)
    case Some(u) => Ok(u)
    case None => Err(Fail(BadRequest, "Invalid UUID " + s))
  }

  /** The text of every UUID is accepted by `to_uuid`, and empty text is refused with 400. */
  lemma ToUuidOfText(u: Uuid)
    ensures ToUuid(ToText(u)) == Ok(u)
    ensures ToUuid("") == Err(Fail(BadRequest, "Invalid UUID "))
  {
    ParseToText(u);
  }
}
