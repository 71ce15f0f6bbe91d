/** The platform charset (UTF-8 on Android) used by `String.getBytes()` and `new String(byte[])`.

A Dafny `char` is a Unicode scalar value, so every string has a well-formed
encoding. Decoding replaces each byte that does not start a well-formed
sequence with U+FFFD.
 */
module Utf8 {
  import opened Wrappers

  type byte = b: int | 0 <= b < 256

  const REPLACEMENT: char := 0xFFFD as char

  /** The one to four bytes that encode one scalar value. */
  function EncodeChar(c: char): (r: seq<byte>)
    ensures 1 <= |r| <= 4
    ensures |r| == 1 <==> (c as int) < 0x80
  {
    var v := c as int;
    if v < 0x80 then [v]
    else if v < 0x800 then [0xC0 + v / 64, 0x80 + v % 64]
    else if v < 0x10000 then [0xE0 + v / 4096, 0x80 + (v / 64) % 64, 0x80 + v % 64]
    else [0xF0 + v / 0x40000, 0x80 + (v / 4096) % 64, 0x80 + (v / 64) % 64, 0x80 + v % 64]
  }

  function Encode(s: string): (r: seq<byte>)
    ensures |s| <= |r| <= 4 * |s|
  {
    if |s| == 0 then [] else EncodeChar(s[0]) + Encode(s[1..])
  }

  predicate IsContinuation(b: byte) {
    0x80 <= b < 0xC0
  }

  /** Decodes the well-formed sequence at the head of `bs`, with its length; None when it is malformed. */
  function DecodeHead(bs: seq<byte>): (r: Option<(char, nat)>)
    requires |bs| > 0
    ensures r.Some? ==> 1 <= r.value.1 <= |bs|
  {
    var b0: int := bs[0];
    if b0 < 0x80 then Some((b0 as char, 1))
    else if 0xC2 <= b0 < 0xE0 && |bs| >= 2 && IsContinuation(bs[1]) then
      var b1: int := bs[1];
      Some((((b0 - 0xC0) * 64 + (b1 - 0x80)) as char, 2))
    else if 0xE0 <= b0 < 0xF0 && |bs| >= 3 && IsContinuation(bs[1]) && IsContinuation(bs[2]) then
      var b1: int, b2: int := bs[1], bs[2];
      var v := (b0 - 0xE0) * 4096 + (b1 - 0x80) * 64 + (b2 - 0x80);
      if 0x800 <= v && !(0xD800 <= v < 0xE000) then Some((v as char, 3)) else None
    else if 0xF0 <= b0 < 0xF5 && |bs| >= 4
            && IsContinuation(bs[1]) && IsContinuation(bs[2]) && IsContinuation(bs[3]) then
      var b1: int, b2: int, b3: int := bs[1], bs[2], bs[3];
      var v := (b0 - 0xF0) * 0x40000 + (b1 - 0x80) * 4096 + (b2 - 0x80) * 64 + (b3 - 0x80);
      if 0x10000 <= v < 0x110000 then Some((v as char, 4)) else None
    else None
  }

  function Decode(bs: seq<byte>): (s: string)
    ensures |s| <= |bs|
    decreases |bs|
  {
    if |bs| == 0 then []
    else match DecodeHead(bs)
      case Some((c, n)) => [c] + Decode(bs[n..])
      case None => [REPLACEMENT] + Decode(bs[1..])
  }

  /** The encoding of a character is recognised at the head of any byte string. */
  lemma DecodeHeadEncodeChar(c: char, rest: seq<byte>)
    ensures DecodeHead(EncodeChar(c) + rest) == Some((c, |EncodeChar(c)|))
  {
    var v := c as int;
    if v < 0x80 {
      assert (EncodeChar(c) + rest)[0] == v;
    } else if v < 0x800 {
      DecodeHeadTwo(c, rest);
    } else if v < 0x10000 {
      DecodeHeadThree(c, rest);
    } else {
      DecodeHeadFour(c, rest);
    }
  }

  lemma DecodeHeadTwo(c: char, rest: seq<byte>)
    requires 0x80 <= c as int < 0x800
    ensures DecodeHead(EncodeChar(c) + rest) == Some((c, 2))
  {
    var v := c as int;
    var bs := EncodeChar(c) + rest;
    assert bs[0] == 0xC0 + v / 64 && bs[1] == 0x80 + v % 64;
    assert (bs[0] as int - 0xC0) * 64 + (bs[1] as int - 0x80) == v;
  }

  lemma DecodeHeadThree(c: char, rest: seq<byte>)
    requires 0x800 <= c as int < 0x10000
    ensures DecodeHead(EncodeChar(c) + rest) == Some((c, 3))
  {
    var v := c as int;
    var bs := EncodeChar(c) + rest;
    var a, b, d := v / 4096, (v / 64) % 64, v % 64;
    assert v == a * 4096 + b * 64 + d by {
      assert v / 64 == a * 64 + b;
    }
    assert bs[0] == 0xE0 + a && bs[1] == 0x80 + b && bs[2] == 0x80 + d;
  }

  lemma DecodeHeadFour(c: char, rest: seq<byte>)
    requires 0x10000 <= c as int
    ensures DecodeHead(EncodeChar(c) + rest) == Some((c, 4))
  {
    var v := c as int;
    var bs := EncodeChar(c) + rest;
    var a, b, d, e := v / 0x40000, (v / 4096) % 64, (v / 64) % 64, v % 64;
    assert v == a * 0x40000 + b * 4096 + d * 64 + e by {
      assert v / 4096 == a * 64 + b;
      assert v / 64 == (v / 4096) * 64 + d;
    }
    assert bs[0] == 0xF0 + a && bs[1] == 0x80 + b && bs[2] == 0x80 + d && bs[3] == 0x80 + e;
    assert 0 <= a < 5 && 0 <= b < 64 && 0 <= d < 64 && 0 <= e < 64;
  }

  /** Decoding inverts encoding: `new String(s.getBytes())` gives back `s`. */
  lemma {:induction false} DecodeEncode(s: string)
    ensures Decode(Encode(s)) == s
  {
    if |s| > 0 {
      var head := EncodeChar(s[0]);
      var rest := Encode(s[1..]);
      DecodeHeadEncodeChar(s[0], rest);
      assert (head + rest)[|head|..] == rest;
      DecodeEncode(s[1..]);
    }
  }

  /** Encoding distributes over concatenation. */
  lemma {:induction false} EncodeAppend(a: string, b: string)
    ensures Encode(a + b) == Encode(a) + Encode(b)
  {
    if |a| > 0 {
      assert (a + b)[1..] == a[1..] + b;
      EncodeAppend(a[1..], b);
    } else {
      assert a + b == b;
    }
  }
}
