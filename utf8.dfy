/** UTF-8 as Rust's `String::from(&str)` (encoding) and `String::from_utf8`
    (checked decoding) treat it: the well-formed byte sequences of the
    Unicode standard, table 3-7, with no surrogates, no overlong forms and
    nothing above U+10FFFF. */
module Utf8 {
  import opened Wrappers

  type Byte = b: int | 0 <= b < 0x100

  predicate IsContinuation(b: Byte) {
    0x80 <= b < 0xC0
  }

  /** The bytes of one scalar value, shortest form. */
  function EncodeChar(c: char): (bs: seq<Byte>)
    ensures 1 <= |bs| <= 4
    ensures (bs[0] < 0x80) == (|bs| == 1)
    ensures forall i :: 1 <= i < |bs| ==> IsContinuation(bs[i])
  {
    var n := c as int;
    // n in base 64: n == ((n3 * 64 + r2) * 64 + r1) * 64 + r0
    var r0, n1 := n % 0x40, n / 0x40;
    var r1, n2 := n1 % 0x40, n1 / 0x40;
    var r2, n3 := n2 % 0x40, n2 / 0x40;
    if n < 0x80 then [n]
    else if n < 0x800 then [0xC0 + n1, 0x80 + r0]
    else if n < 0x10000 then [0xE0 + n2, 0x80 + r1, 0x80 + r0]
    else [0xF0 + n3, 0x80 + r2, 0x80 + r1, 0x80 + r0]
  }

  /** The UTF-8 bytes of a string. */
  function Encode(s: string): (bs: seq<Byte>)
    ensures |s| <= |bs| <= 4 * |s|
  {
    if s == [] then [] else EncodeChar(s[0]) + Encode(s[1..])
  }

  /** The scalar value at the front of `bs` and how many bytes it takes, or
      None when the front is not a well-formed sequence. */
  function DecodeFirst(bs: seq<Byte>): (r: Option<(char, nat)>)
    requires |bs| > 0
    ensures r.Some? ==> 1 <= r.value.1 <= |bs|
  {
    var b0: int := bs[0];
    if b0 < 0x80 then
      Some((b0 as char, 1))
    else if 0xC2 <= b0 <= 0xDF then
      if |bs| >= 2 && IsContinuation(bs[1]) then
        var b1: int := bs[1];
        Some((((b0 - 0xC0) * 0x40 + (b1 - 0x80)) as char, 2))
      else None
    else if 0xE0 <= b0 <= 0xEF then
      var lo := if b0 == 0xE0 then 0xA0 else 0x80;
      var hi := if b0 == 0xED then 0xA0 else 0xC0;
      if |bs| >= 3 && lo <= bs[1] < hi && IsContinuation(bs[2]) then
        var b1: int, b2: int := bs[1], bs[2];
        Some(((((b0 - 0xE0) * 0x40 + (b1 - 0x80)) * 0x40 + (b2 - 0x80)) as char, 3))
      else None
    else if 0xF0 <= b0 <= 0xF4 then
      var lo := if b0 == 0xF0 then 0x90 else 0x80;
      var hi := if b0 == 0xF4 then 0x90 else 0xC0;
      if |bs| >= 4 && lo <= bs[1] < hi && IsContinuation(bs[2]) && IsContinuation(bs[3]) then
        var b1: int, b2: int, b3: int := bs[1], bs[2], bs[3];
        Some((((((b0 - 0xF0) * 0x40 + (b1 - 0x80)) * 0x40 + (b2 - 0x80)) * 0x40 + (b3 - 0x80)) as char, 4))
      else None
    else None
  }

  /** `String::from_utf8`: the string the bytes spell, or None when they are
      not well-formed UTF-8. */
  function Decode(bs: seq<Byte>): (r: Option<string>)
    ensures r.Some? ==> |r.value| <= |bs|
    ensures bs == [] ==> r == Some("")
    decreases |bs|
  {
    if bs == [] then Some("")
    else match DecodeFirst(bs)
      case None => None
      case Some((c, k)) =>
        match Decode(bs[k..])
        case None => None
        case Some(rest) => Some([c] + rest)
  }

  /** Well-formed UTF-8: the bytes are the encoding of some string. */
  ghost predicate IsUtf8(bs: seq<Byte>) {
    exists s :: Encode(s) == bs
  }

  lemma DecodeFirstEncodeChar(c: char, rest: seq<Byte>)
    ensures DecodeFirst(EncodeChar(c) + rest) == Some((c, |EncodeChar(c)|))
  {
    var n := c as int;
    var r0, n1 := n % 0x40, n / 0x40;
    var r1, n2 := n1 % 0x40, n1 / 0x40;
    var r2, n3 := n2 % 0x40, n2 / 0x40;
    var bs := EncodeChar(c) + rest;
    if n < 0x80 {
    } else if n < 0x800 {
      assert bs[..2] == [0xC0 + n1, 0x80 + r0];
    } else if n < 0x10000 {
      assert bs[..3] == [0xE0 + n2, 0x80 + r1, 0x80 + r0];
    } else {
      assert bs[..4] == [0xF0 + n3, 0x80 + r2, 0x80 + r1, 0x80 + r0];
    }
  }

  /** Base-64 digits of a value assembled from continuation bytes. */
  lemma Digits(hi: int, lo: int)
    requires 0 <= lo < 0x40 && 0 <= hi
    ensures (hi * 0x40 + lo) / 0x40 == hi && (hi * 0x40 + lo) % 0x40 == lo
  {
  }

  lemma DecodeFirstIsEncodeChar(bs: seq<Byte>)
    requires |bs| > 0 && DecodeFirst(bs).Some?
    ensures var (c, k) := DecodeFirst(bs).value; bs[..k] == EncodeChar(c)
  {
    var (c, k) := DecodeFirst(bs).value;
    var n := c as int;
    var b0: int := bs[0];
    if k == 2 {
      var b1: int := bs[1];
      Digits(b0 - 0xC0, b1 - 0x80);
    } else if k == 3 {
      var b1: int, b2: int := bs[1], bs[2];
      var m := (b0 - 0xE0) * 0x40 + (b1 - 0x80);
      Digits(m, b2 - 0x80);
      Digits(b0 - 0xE0, b1 - 0x80);
      assert n == m * 0x40 + (b2 - 0x80);
    } else if k == 4 {
      var b1: int, b2: int, b3: int := bs[1], bs[2], bs[3];
      var m1 := (b0 - 0xF0) * 0x40 + (b1 - 0x80);
      var m2 := m1 * 0x40 + (b2 - 0x80);
      Digits(m2, b3 - 0x80);
      Digits(m1, b2 - 0x80);
      Digits(b0 - 0xF0, b1 - 0x80);
      assert n == m2 * 0x40 + (b3 - 0x80);
    }
  }

  /** Decoding the encoding of a string gives the string back. */
  lemma {:induction false} DecodeEncode(s: string)
    ensures Decode(Encode(s)) == Some(s)
  {
    if s != [] {
      var e := EncodeChar(s[0]);
      DecodeFirstEncodeChar(s[0], Encode(s[1..]));
      assert (e + Encode(s[1..]))[|e|..] == Encode(s[1..]);
      DecodeEncode(s[1..]);
      assert [s[0]] + s[1..] == s;
    }
  }

  /** What decoding accepts re-encodes to the very same bytes. */
  lemma {:induction false} EncodeDecode(bs: seq<Byte>)
    requires Decode(bs).Some?
    ensures Encode(Decode(bs).value) == bs
    decreases |bs|
  {
    if bs != [] {
      var (c, k) := DecodeFirst(bs).value;
      DecodeFirstIsEncodeChar(bs);
      EncodeDecode(bs[k..]);
      var s := Decode(bs).value;
      assert s == [c] + Decode(bs[k..]).value;
      assert s[1..] == Decode(bs[k..]).value;
      assert bs == bs[..k] + bs[k..];
    }
  }

  /** Decoding succeeds exactly on well-formed UTF-8. */
  lemma DecodeSucceedsIffUtf8(bs: seq<Byte>)
    ensures Decode(bs).Some? <==> IsUtf8(bs)
  {
    if Decode(bs).Some? {
      EncodeDecode(bs);
    }
    if IsUtf8(bs) {
      var s :| Encode(s) == bs;
      DecodeEncode(s);
    }
  }
}
