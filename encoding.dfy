/** `Buffer.from(content, "utf-8").toString('base64')`: the UTF-8 bytes of
    a text, written in base64 with the alphabet and padding of section 4 of
    RFC 4648. Each encoding comes with the decoding that undoes it. */
module Encoding {
  import opened Wrappers

  type Byte = b: int | 0 <= b < 256

  /** The UTF-8 bytes of one Unicode scalar value (section 3 of RFC 3629):
      its bits cut into groups of six from the right, behind a lead byte that
      tells how many bytes follow. */
  function CharBytes(c: char): (bs: seq<Byte>)
    ensures 1 <= |bs| <= 4
  {
    var cp := c as int;
    var q0 := cp / 0x40;
    var q1 := q0 / 0x40;
    if cp < 0x80 then [cp]
    else if cp < 0x800 then [0xC0 + q0, 0x80 + cp % 0x40]
    else if cp < 0x10000 then [0xE0 + q1, 0x80 + q0 % 0x40, 0x80 + cp % 0x40]
    else [0xF0 + q1 / 0x40, 0x80 + q1 % 0x40, 0x80 + q0 % 0x40, 0x80 + cp % 0x40]
  }

  function Utf8(s: string): seq<Byte> {
    if s == [] then [] else CharBytes(s[0]) + Utf8(s[1..])
  }

  /** How many bytes the sequence starting with lead byte `b` takes, or 0 for
      a byte that cannot start one. */
  function SequenceLength(b: Byte): nat {
    if b < 0x80 then 1
    else if 0xC0 <= b < 0xE0 then 2
    else if 0xE0 <= b < 0xF0 then 3
    else if 0xF0 <= b < 0xF8 then 4
    else 0
  }

  /** The bits a sequence of one to four bytes carries, read as UTF-8. */
  function Bits(bs: seq<Byte>): int {
    if |bs| == 1 then bs[0] as int
    else if |bs| == 2 then (bs[0] as int - 0xC0) * 0x40 + (bs[1] as int - 0x80)
    else if |bs| == 3 then ((bs[0] as int - 0xE0) * 0x40 + (bs[1] as int - 0x80)) * 0x40 + (bs[2] as int - 0x80)
    else if |bs| == 4 then
      (((bs[0] as int - 0xF0) * 0x40 + (bs[1] as int - 0x80)) * 0x40 + (bs[2] as int - 0x80)) * 0x40 + (bs[3] as int - 0x80)
    else -1
  }

  /** The scalar value of one sequence when it is exactly the encoding of
      one (which rules out overlong forms and surrogates). */
  function DecodeChar(bs: seq<Byte>): Option<char> {
    var cp := Bits(bs);
    if (0 <= cp < 0xD800 || 0xE000 <= cp < 0x11_0000) && CharBytes(cp as char) == bs then Some(cp as char)
    else None
  }

  /** UTF-8 decoding: `None` for bytes that are not a well-formed encoding. */
  function Utf8Decode(bs: seq<Byte>): Option<string> {
    if bs == [] then Some([])
    else
      var n := SequenceLength(bs[0]);
      if n == 0 || n > |bs| then None
      else match DecodeChar(bs[..n])
        case None => None
        case Some(c) =>
          match Utf8Decode(bs[n..])
          case None => None
          case Some(rest) => Some([c] + rest)
  }

  /** A scalar value's bytes start with a lead byte announcing their
      number, and decode back to it. */
  lemma CharBytesDecode(c: char)
    ensures SequenceLength(CharBytes(c)[0]) == |CharBytes(c)|
    ensures DecodeChar(CharBytes(c)) == Some(c)
  {
    var cp := c as int;
    assert cp == cp / 0x40 * 0x40 + cp % 0x40;
    assert cp / 0x40 == cp / 0x40 / 0x40 * 0x40 + cp / 0x40 % 0x40;
    assert cp / 0x40 / 0x40 == cp / 0x40 / 0x40 / 0x40 * 0x40 + cp / 0x40 / 0x40 % 0x40;
    assert Bits(CharBytes(c)) == cp;
  }

  /** Decoding the UTF-8 bytes of a text gives the text back. */
  lemma {:induction false} Utf8RoundTrip(s: string)
    ensures Utf8Decode(Utf8(s)) == Some(s)
  {
    if s != [] {
      var head := CharBytes(s[0]);
      var bs := Utf8(s);
      CharBytesDecode(s[0]);
      assert bs[..|head|] == head;
      assert bs[|head|..] == Utf8(s[1..]);
      Utf8RoundTrip(s[1..]);
      assert [s[0]] + s[1..] == s;
    }
  }

  /** The digit for a 6-bit value in the base64 alphabet (Table 1 of RFC 4648). */
  function Digit(v: nat): char
    requires v < 64
  {
    if v < 26 then ('A' as int + v) as char
    else if v < 52 then ('a' as int + v - 26) as char
    else if v < 62 then ('0' as int + v - 52) as char
    else if v == 62 then '+'
    else '/'
  }

  /** The value of a base64 digit, `None` for any other character (`=` included). */
  function DigitValue(c: char): Option<nat> {
    if 'A' <= c <= 'Z' then Some(c as int - 'A' as int)
    else if 'a' <= c <= 'z' then Some(c as int - 'a' as int + 26)
    else if '0' <= c <= '9' then Some(c as int - '0' as int + 52)
    else if c == '+' then Some(62)
    else if c == '/' then Some(63)
    else None
  }

  lemma DigitValueOf(v: nat)
    requires v < 64
    ensures DigitValue(Digit(v)) == Some(v)
  {
  }

  /** Base64 text of a byte sequence: each group of three bytes becomes
      four digits, and a final group of one or two bytes becomes two or three
      digits padded with `=` to four. */
  function Base64(bs: seq<Byte>): string {
    if |bs| == 0 then ""
    else if |bs| == 1 then GroupOne(bs[0])
    else if |bs| == 2 then GroupTwo(bs[0], bs[1])
    else GroupThree(bs[0], bs[1], bs[2]) + Base64(bs[3..])
  }

  function GroupThree(x: Byte, y: Byte, z: Byte): (g: string)
    ensures |g| == 4
  {
    [Digit(x / 4), Digit(x % 4 * 16 + y / 16), Digit(y % 16 * 4 + z / 64), Digit(z % 64)]
  }

  function GroupTwo(x: Byte, y: Byte): (g: string)
    ensures |g| == 4
  {
    [Digit(x / 4), Digit(x % 4 * 16 + y / 16), Digit(y % 16 * 4)] + "="
  }

  function GroupOne(x: Byte): (g: string)
    ensures |g| == 4
  {
    [Digit(x / 4), Digit(x % 4 * 16)] + "=="
  }

  /** The bytes of one group of four characters, `None` if it is not valid. */
  function DecodeGroup(g: string): Option<seq<Byte>>
    requires |g| == 4
  {
    var a := DigitValue(g[0]);
    var b := DigitValue(g[1]);
    var c := DigitValue(g[2]);
    var d := DigitValue(g[3]);
    if a.None? || b.None? then None
    else if g[2] == '=' && g[3] == '=' then
      if b.value % 16 == 0 then Some([a.value * 4 + b.value / 16]) else None
    else if c.None? then None
    else if g[3] == '=' then
      if c.value % 4 == 0 then Some([a.value * 4 + b.value / 16, b.value % 16 * 16 + c.value / 4]) else None
    else if d.None? then None
    else Some([a.value * 4 + b.value / 16, b.value % 16 * 16 + c.value / 4, c.value % 4 * 64 + d.value])
  }

  /** Base64 decoding: `None` for a text that is not padded, canonical base64. */
  function Base64Decode(t: string): Option<seq<Byte>> {
    if t == [] then Some([])
    else if |t| < 4 then None
    else match DecodeGroup(t[..4])
      case None => None
      case Some(bytes) =>
        if |bytes| < 3 && |t| > 4 then None
        else match Base64Decode(t[4..])
          case None => None
          case Some(rest) => Some(bytes + rest)
  }

  /** Three bytes cut into four 6-bit values, and put back together. */
  lemma Sextets(x: Byte, y: Byte, z: Byte)
    ensures var s0 := x / 4;
            var s1 := x % 4 * 16 + y / 16;
            var s2 := y % 16 * 4 + z / 64;
            var s3 := z % 64;
            && s0 < 64 && s1 < 64 && s2 < 64 && s3 < 64
            && s0 * 4 + s1 / 16 == x && s1 % 16 * 16 + s2 / 4 == y && s2 % 4 * 64 + s3 == z
  {
  }

  /** Two bytes cut into three 6-bit values, the last with two zero bits. */
  lemma SextetsTwo(x: Byte, y: Byte)
    ensures var s0 := x / 4;
            var s1 := x % 4 * 16 + y / 16;
            var s2 := y % 16 * 4;
            && s0 < 64 && s1 < 64 && s2 < 64 && s2 % 4 == 0
            && s0 * 4 + s1 / 16 == x && s1 % 16 * 16 + s2 / 4 == y
  {
  }

  /** One byte cut into two 6-bit values, the last with four zero bits. */
  lemma SextetsOne(x: Byte)
    ensures var s0 := x / 4;
            var s1 := x % 4 * 16;
            s0 < 64 && s1 < 64 && s1 % 16 == 0 && s0 * 4 + s1 / 16 == x
  {
  }

  lemma GroupDecode(s0: nat, s1: nat, s2: nat, s3: nat, x: Byte, y: Byte, z: Byte)
    requires s0 < 64 && s1 < 64 && s2 < 64 && s3 < 64
    requires s0 * 4 + s1 / 16 == x && s1 % 16 * 16 + s2 / 4 == y && s2 % 4 * 64 + s3 == z
    ensures DecodeGroup([Digit(s0), Digit(s1), Digit(s2), Digit(s3)]) == Some([x, y, z])
  {
    DigitValueOf(s0);
    DigitValueOf(s1);
    DigitValueOf(s2);
    DigitValueOf(s3);
  }

  lemma GroupDecodeTwo(s0: nat, s1: nat, s2: nat, x: Byte, y: Byte)
    requires s0 < 64 && s1 < 64 && s2 < 64 && s2 % 4 == 0
    requires s0 * 4 + s1 / 16 == x && s1 % 16 * 16 + s2 / 4 == y
    ensures DecodeGroup([Digit(s0), Digit(s1), Digit(s2)] + "=") == Some([x, y])
  {
    DigitValueOf(s0);
    DigitValueOf(s1);
    DigitValueOf(s2);
  }

  lemma GroupDecodeOne(s0: nat, s1: nat, x: Byte)
    requires s0 < 64 && s1 < 64 && s1 % 16 == 0 && s0 * 4 + s1 / 16 == x
    ensures DecodeGroup([Digit(s0), Digit(s1)] + "==") == Some([x])
  {
    DigitValueOf(s0);
    DigitValueOf(s1);
  }

  lemma GroupOfThree(x: Byte, y: Byte, z: Byte)
    ensures DecodeGroup(GroupThree(x, y, z)) == Some([x, y, z])
  {
    Sextets(x, y, z);
    GroupDecode(x / 4, x % 4 * 16 + y / 16, y % 16 * 4 + z / 64, z % 64, x, y, z);
  }

  lemma GroupOfTwo(x: Byte, y: Byte)
    ensures DecodeGroup(GroupTwo(x, y)) == Some([x, y])
  {
    SextetsTwo(x, y);
    GroupDecodeTwo(x / 4, x % 4 * 16 + y / 16, y % 16 * 4, x, y);
  }

  lemma GroupOfOne(x: Byte)
    ensures DecodeGroup(GroupOne(x)) == Some([x])
  {
    SextetsOne(x);
    GroupDecodeOne(x / 4, x % 4 * 16, x);
  }

  /** Decoding the base64 text of bytes gives the bytes back. */
  lemma {:induction false} Base64RoundTrip(bs: seq<Byte>)
    ensures Base64Decode(Base64(bs)) == Some(bs)
  {
    if |bs| == 1 {
      RoundTripOne(bs);
    } else if |bs| == 2 {
      RoundTripTwo(bs);
    } else if |bs| >= 3 {
      Base64RoundTrip(bs[3..]);
      RoundTripStep(bs);
    }
  }

  lemma RoundTripOne(bs: seq<Byte>)
    requires |bs| == 1
    ensures Base64Decode(Base64(bs)) == Some(bs)
  {
    GroupOfOne(bs[0]);
    LastGroup(Base64(bs));
    assert bs == [bs[0]];
  }

  lemma RoundTripTwo(bs: seq<Byte>)
    requires |bs| == 2
    ensures Base64Decode(Base64(bs)) == Some(bs)
  {
    GroupOfTwo(bs[0], bs[1]);
    LastGroup(Base64(bs));
    assert bs == [bs[0], bs[1]];
  }

  lemma RoundTripStep(bs: seq<Byte>)
    requires |bs| >= 3
    requires Base64Decode(Base64(bs[3..])) == Some(bs[3..])
    ensures Base64Decode(Base64(bs)) == Some(bs)
  {
    var g := GroupThree(bs[0], bs[1], bs[2]);
    GroupOfThree(bs[0], bs[1], bs[2]);
    DecodeCons(g, Base64(bs[3..]), Base64(bs));
    Unroll3(bs);
  }

  lemma Unroll3<T>(s: seq<T>)
    requires |s| >= 3
    ensures s == [s[0], s[1], s[2]] + s[3..]
  {
  }

  /** A text of one group decodes as that group. */
  lemma LastGroup(t: string)
    requires |t| == 4 && DecodeGroup(t).Some?
    ensures Base64Decode(t) == DecodeGroup(t)
  {
    assert t[..4] == t;
    assert t[4..] == [];
    assert DecodeGroup(t).value + [] == DecodeGroup(t).value;
  }

  /** A full group in front of a decodable text. */
  lemma DecodeCons(g: string, rest: string, t: string)
    requires t == g + rest && |g| == 4
    requires DecodeGroup(g).Some? && |DecodeGroup(g).value| == 3 && Base64Decode(rest).Some?
    ensures Base64Decode(t) == Some(DecodeGroup(g).value + Base64Decode(rest).value)
  {
    assert t[..4] == g;
    assert t[4..] == rest;
  }

  /** The content `createContent` puts: base64 of the UTF-8 bytes. */
  function EncodeContent(content: string): string {
    Base64(Utf8(content))
  }

  /** The text put can be read back as the content. */
  lemma ContentRoundTrip(content: string)
    ensures match Base64Decode(EncodeContent(content))
            case None => false
            case Some(bytes) => Utf8Decode(bytes) == Some(content)
  {
    Base64RoundTrip(Utf8(content));
    Utf8RoundTrip(content);
  }
}
