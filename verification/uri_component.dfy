/**
  `encodeURIComponent` and its inverse `decodeURIComponent`. The encoder
  keeps the characters section 2.3 of RFC 3986 calls unreserved, plus the
  marks `! * ' ( )`, and writes every other character as the
  percent-encoded octets (section 2.1 of RFC 3986) of its UTF-8 form
  (section 3 of RFC 3629), with upper-case hexadecimal digits.
*/
module UriComponent {
  import opened Wrappers

  type Byte = b: int | 0 <= b < 256

  /** The characters `encodeURIComponent` leaves as they are. */
  predicate Unreserved(c: char) {
    || ('A' <= c <= 'Z') || ('a' <= c <= 'z') || ('0' <= c <= '9')
    || c == '-' || c == '_' || c == '.' || c == '!' || c == '~'
    || c == '*' || c == '\'' || c == '(' || c == ')'
  }

  /** The UTF-8 octets of one Unicode scalar value. */
  function Utf8(c: char): (bs: seq<Byte>)
    ensures 1 <= |bs| <= 4
  {
    var cp := c as int;
    if cp < 0x80 then [cp]
    else if cp < 0x800 then [0xC0 + cp / 0x40, 0x80 + cp % 0x40]
    else if cp < 0x1_0000 then [0xE0 + cp / 0x1000, 0x80 + cp / 0x40 % 0x40, 0x80 + cp % 0x40]
    else [0xF0 + cp / 0x4_0000, 0x80 + cp / 0x1000 % 0x40, 0x80 + cp / 0x40 % 0x40, 0x80 + cp % 0x40]
  }

  /** An upper-case hexadecimal digit. */
  function HexDigit(d: nat): (c: char)
    requires d < 16
    ensures Unreserved(c)
  {
    if d < 10 then ('0' as int + d) as char else ('A' as int + d - 10) as char
  }

  /** The value of a hexadecimal digit of either case. */
  function HexValue(c: char): (r: Option<nat>)
    ensures r.Some? ==> r.value < 16
  {
    if '0' <= c <= '9' then Some(c as int - '0' as int)
    else if 'A' <= c <= 'F' then Some(c as int - 'A' as int + 10)
    else if 'a' <= c <= 'f' then Some(c as int - 'a' as int + 10)
    else None
  }

  lemma HexRoundTrip(d: nat)
    requires d < 16
    ensures HexValue(HexDigit(d)) == Some(d)
  {
  }

  /** `%XY` for one octet. */
  function PercentByte(b: Byte): string {
    ['%', HexDigit(b / 16), HexDigit(b % 16)]
  }

  function PercentBytes(bs: seq<Byte>): (r: string)
    ensures |r| == 3 * |bs|
    ensures forall i :: 0 <= i < |r| ==> Unreserved(r[i]) || r[i] == '%'
  {
    if bs == [] then [] else PercentByte(bs[0]) + PercentBytes(bs[1..])
  }

  function EncodeChar(c: char): (r: string)
    ensures forall i :: 0 <= i < |r| ==> Unreserved(r[i]) || r[i] == '%'
  {
    if Unreserved(c) then [c] else PercentBytes(Utf8(c))
  }

  /** `encodeURIComponent(s)`: the result holds only unreserved characters
      and `%`, so never `&` or `=`. */
  function Encode(s: string): (r: string)
    ensures forall i :: 0 <= i < |r| ==> Unreserved(r[i]) || r[i] == '%'
  {
    if s == [] then [] else EncodeChar(s[0]) + Encode(s[1..])
  }

  /** A string of unreserved characters is its own encoding. */
  lemma {:induction false} EncodeUnreserved(s: string)
    requires forall i :: 0 <= i < |s| ==> Unreserved(s[i])
    ensures Encode(s) == s
  {
    if s != [] {
      EncodeUnreserved(s[1..]);
      assert [s[0]] + s[1..] == s;
    }
  }

  /** The octet written as `%XY` at the start of `s`. */
  function ReadByte(s: string): (r: Option<Byte>) {
    if |s| < 3 || s[0] != '%' then None
    else match (HexValue(s[1]), HexValue(s[2]))
      case (Some(hi), Some(lo)) => Some(hi * 16 + lo)
      case _ => None
  }

  /** The number of octets a UTF-8 sequence starting with `b` has, or 0 when
      `b` cannot start one. */
  function SequenceLength(b: Byte): nat {
    if b < 0x80 then 1
    else if 0xC0 <= b < 0xE0 then 2
    else if 0xE0 <= b < 0xF0 then 3
    else if 0xF0 <= b < 0xF8 then 4
    else 0
  }

  /** The `count` continuation octets (`10xxxxxx`) at the start of `s`,
      each written as `%XY`. */
  function ReadContinuation(s: string, count: nat): (r: Option<seq<Byte>>)
    ensures r.Some? ==> |r.value| == count && 3 * count <= |s|
    ensures r.Some? ==> forall i :: 0 <= i < count ==> 0x80 <= r.value[i] < 0xC0
  {
    if count == 0 then Some([])
    else match ReadByte(s)
      case None => None
      case Some(b) =>
        if b < 0x80 || b >= 0xC0 then None
        else match ReadContinuation(s[3..], count - 1)
          case None => None
          case Some(bs) => Some([b] + bs)
  }

  /** The code point a lead octet and its continuation octets spell. */
  function CodePoint(lead: Byte, bs: seq<Byte>): int
    requires 1 <= |bs| <= 3
  {
    var b: seq<int> := bs;
    if |b| == 1 then (lead as int - 0xC0) * 0x40 + (b[0] - 0x80)
    else if |b| == 2 then (lead as int - 0xE0) * 0x1000 + (b[0] - 0x80) * 0x40 + (b[1] - 0x80)
    else (lead as int - 0xF0) * 0x4_0000 + (b[0] - 0x80) * 0x1000 + (b[1] - 0x80) * 0x40 + (b[2] - 0x80)
  }

  /** The shortest form of a scalar value of this length: no overlong
      encoding, no surrogate, nothing above U+10FFFF. */
  predicate ValidCodePoint(cp: int, len: nat) {
    && (len == 2 ==> 0x80 <= cp < 0x800)
    && (len == 3 ==> 0x800 <= cp < 0x1_0000 && !(0xD800 <= cp < 0xE000))
    && (len == 4 ==> 0x1_0000 <= cp < 0x11_0000)
  }

  function Prepend(c: char, r: Option<string>): Option<string> {
    match r
    case None => None
    case Some(t) => Some([c] + t)
  }

  /** `decodeURIComponent(s)`; `None` where it throws `URIError`. */
  function Decode(s: string): (r: Option<string>)
    decreases |s|
  {
    if s == [] then Some([])
    else if s[0] != '%' then Prepend(s[0], Decode(s[1..]))
    else match ReadByte(s)
      case None => None
      case Some(b) =>
        var len := SequenceLength(b);
        if len == 0 then None
        else if len == 1 then Prepend(b as char, Decode(s[3..]))
        else match ReadContinuation(s[3..], len - 1)
          case None => None
          case Some(bs) =>
            var cp := CodePoint(b, bs);
            if ValidCodePoint(cp, len) then Prepend(cp as char, Decode(s[3 * len..]))
            else None
  }

  lemma ReadPercentByte(b: Byte, rest: string)
    ensures ReadByte(PercentByte(b) + rest) == Some(b)
  {
    HexRoundTrip(b / 16);
    HexRoundTrip(b % 16);
  }

  lemma {:induction false} ReadPercentContinuation(bs: seq<Byte>, rest: string)
    requires forall i :: 0 <= i < |bs| ==> 0x80 <= bs[i] < 0xC0
    ensures ReadContinuation(PercentBytes(bs) + rest, |bs|) == Some(bs)
  {
    if bs != [] {
      var tail := PercentBytes(bs[1..]) + rest;
      var s := PercentBytes(bs) + rest;
      assert s == PercentByte(bs[0]) + tail;
      ReadPercentByte(bs[0], tail);
      assert s[3..] == tail;
      ReadPercentContinuation(bs[1..], rest);
      assert [bs[0]] + bs[1..] == bs;
    }
  }

  /** Splitting a code point into 6-bit groups and joining them again. */
  lemma Groups(cp: nat)
    ensures cp / 0x40 == cp / 0x1000 * 0x40 + cp / 0x40 % 0x40
    ensures cp / 0x1000 == cp / 0x4_0000 * 0x40 + cp / 0x1000 % 0x40
    ensures cp == cp / 0x40 * 0x40 + cp % 0x40
  {
    assert cp / 0x40 / 0x40 == cp / 0x1000;
    assert cp / 0x1000 / 0x40 == cp / 0x4_0000;
  }

  /** The octets of a character outside ASCII form one well-formed UTF-8
      sequence that spells the character's code point. */
  lemma Utf8WellFormed(c: char)
    requires c as int >= 0x80
    ensures var bs := Utf8(c);
      && |bs| >= 2 && SequenceLength(bs[0]) == |bs|
      && (forall i :: 1 <= i < |bs| ==> 0x80 <= bs[i] < 0xC0)
      && CodePoint(bs[0], bs[1..]) == c as int
      && ValidCodePoint(c as int, |bs|)
  {
    Groups(c as int);
  }

  /** The decoder reads back one well-formed percent-encoded UTF-8 sequence. */
  lemma DecodeSequence(bs: seq<Byte>, rest: string)
    requires |bs| >= 2 && SequenceLength(bs[0]) == |bs|
    requires forall i :: 1 <= i < |bs| ==> 0x80 <= bs[i] < 0xC0
    requires ValidCodePoint(CodePoint(bs[0], bs[1..]), |bs|)
    ensures Decode(PercentBytes(bs) + rest) ==
      Prepend(CodePoint(bs[0], bs[1..]) as char, Decode(rest))
  {
    var s := PercentBytes(bs) + rest;
    var tail := PercentBytes(bs[1..]) + rest;
    assert s == PercentByte(bs[0]) + tail;
    ReadPercentByte(bs[0], tail);
    assert s[3..] == tail;
    ReadPercentContinuation(bs[1..], rest);
    assert s[3 * |bs|..] == rest;
  }

  /** The decoder reads back the octets the encoder writes for one character. */
  lemma DecodeEncodedChar(c: char, rest: string)
    ensures Decode(EncodeChar(c) + rest) == Prepend(c, Decode(rest))
  {
    if Unreserved(c) {
      assert EncodeChar(c) + rest == [c] + rest;
    } else if c as int < 0x80 {
      var b: Byte := c as int;
      assert Utf8(c) == [b];
      assert PercentBytes([b]) == PercentByte(b);
      ReadPercentByte(b, rest);
      assert (PercentByte(b) + rest)[3..] == rest;
    } else {
      Utf8WellFormed(c);
      DecodeSequence(Utf8(c), rest);
    }
  }

  /** `decodeURIComponent(encodeURIComponent(s)) == s`. */
  lemma {:induction false} DecodeEncode(s: string)
    ensures Decode(Encode(s)) == Some(s)
  {
    if s != [] {
      DecodeEncode(s[1..]);
      DecodeEncodedChar(s[0], Encode(s[1..]));
      assert [s[0]] + s[1..] == s;
    }
  }
}
