/**
 UTF-8 as `std::str::from_utf8` accepts it: the well-formed byte sequences of
 Table 3-7 of the Unicode Standard (no overlong forms, no surrogates, nothing
 above U+10FFFF), together with the encoder it inverts.
 */
module Utf8 {
  import opened Bytes
  import opened Wrappers

  predicate IsContinuation(b: byte) {
    0x80 <= b <= 0xBF
  }

  /**
   The scalar value encoded at the front of `bs` and the number of bytes it
   takes, or None if the front is not a well-formed sequence.
   */
  function DecodeFirst(bs: seq<byte>): (r: Option<(char, nat)>)
    requires |bs| > 0
    ensures r.Some? ==> 1 <= r.value.1 <= |bs| && r.value.1 <= 4
  {
    var b0 := bs[0] as int;
    if b0 < 0x80 then
      Some((b0 as char, 1))
    else if 0xC2 <= b0 <= 0xDF then
      if |bs| >= 2 && IsContinuation(bs[1]) then
        Some((((b0 - 0xC0) * 64 + (bs[1] as int - 0x80)) as char, 2))
      else None
    else if 0xE0 <= b0 <= 0xEF then
      var lo := if b0 == 0xE0 then 0xA0 else 0x80;
      var hi := if b0 == 0xED then 0x9F else 0xBF;
      if |bs| >= 3 && lo <= bs[1] as int <= hi && IsContinuation(bs[2]) then
        Some((((b0 - 0xE0) * 4096 + (bs[1] as int - 0x80) * 64 + (bs[2] as int - 0x80)) as char, 3))
      else None
    else if 0xF0 <= b0 <= 0xF4 then
      var lo := if b0 == 0xF0 then 0x90 else 0x80;
      var hi := if b0 == 0xF4 then 0x8F else 0xBF;
      if |bs| >= 4 && lo <= bs[1] as int <= hi && IsContinuation(bs[2]) && IsContinuation(bs[3]) then
        Some((((b0 - 0xF0) * 262144 + (bs[1] as int - 0x80) * 4096
               + (bs[2] as int - 0x80) * 64 + (bs[3] as int - 0x80)) as char, 4))
      else None
    else
      None
  }

  /** `std::str::from_utf8`: the text the bytes encode, or None if they are not well-formed UTF-8. */
  function Decode(bs: seq<byte>): Option<string>
    decreases |bs|
  {
    if |bs| == 0 then Some("")
    else
      match DecodeFirst(bs)
      case None => None
      case Some((c, n)) =>
        match Decode(bs[n..])
        case None => None
        case Some(s) => Some([c] + s)
  }

  /** The UTF-8 encoding of one scalar value, shortest form. */
  function EncodeChar(c: char): (r: seq<byte>)
    ensures 1 <= |r| <= 4
  {
    var cp := c as int;
    var q1 := cp / 64;
    var q2 := q1 / 64;
    var q3 := q2 / 64;
    if cp < 0x80 then
      [cp as byte]
    else if cp < 0x800 then
      [(0xC0 + q1) as byte, (0x80 + cp % 64) as byte]
    else if cp < 0x10000 then
      [(0xE0 + q2) as byte, (0x80 + q1 % 64) as byte, (0x80 + cp % 64) as byte]
    else
      [(0xF0 + q3) as byte, (0x80 + q2 % 64) as byte, (0x80 + q1 % 64) as byte, (0x80 + cp % 64) as byte]
  }

  /** The UTF-8 encoding of a string. */
  function Encode(s: string): seq<byte> {
    if |s| == 0 then [] else EncodeChar(s[0]) + Encode(s[1..])
  }

  lemma DecodeFirstOfEncodeChar(c: char, rest: seq<byte>)
    ensures DecodeFirst(EncodeChar(c) + rest) == Some((c, |EncodeChar(c)|))
  {
    var cp := c as int;
    if cp < 0x80 {
    } else if cp < 0x800 {
      DecodeFirstOfTwo(c, rest);
    } else if cp < 0x10000 {
      DecodeFirstOfThree(c, rest);
    } else {
      DecodeFirstOfFour(c, rest);
    }
  }

  lemma DecodeFirstOfTwo(c: char, rest: seq<byte>)
    requires 0x80 <= c as int < 0x800
    ensures DecodeFirst(EncodeChar(c) + rest) == Some((c, 2))
  {
    var cp := c as int;
    assert cp == cp / 64 * 64 + cp % 64;
  }

  lemma DecodeFirstOfThree(c: char, rest: seq<byte>)
    requires 0x800 <= c as int < 0x10000
    ensures DecodeFirst(EncodeChar(c) + rest) == Some((c, 3))
  {
    var cp := c as int;
    var q1 := cp / 64;
    assert cp == q1 * 64 + cp % 64;
    assert q1 == q1 / 64 * 64 + q1 % 64;
  }

  lemma DecodeFirstOfFour(c: char, rest: seq<byte>)
    requires 0x10000 <= c as int
    ensures DecodeFirst(EncodeChar(c) + rest) == Some((c, 4))
  {
    var cp := c as int;
    var q1 := cp / 64;
    var q2 := q1 / 64;
    assert cp == q1 * 64 + cp % 64;
    assert q1 == q2 * 64 + q1 % 64;
    assert q2 == q2 / 64 * 64 + q2 % 64;
  }

  lemma DivMod64(x: int, q: int, r: int)
    requires x == q * 64 + r && 0 <= r < 64
    ensures x / 64 == q && x % 64 == r
  {
  }

  lemma EncodeCharOfDecodeFirst(bs: seq<byte>)
    requires |bs| > 0 && DecodeFirst(bs).Some?
    ensures EncodeChar(DecodeFirst(bs).value.0) == bs[..DecodeFirst(bs).value.1]
  {
    var b0 := bs[0] as int;
    if 0xC2 <= b0 <= 0xDF {
      EncodeCharOfTwo(bs);
    } else if 0xE0 <= b0 <= 0xEF {
      EncodeCharOfThree(bs);
    } else if 0xF0 <= b0 <= 0xF4 {
      EncodeCharOfFour(bs);
    }
  }

  lemma EncodeCharOfTwo(bs: seq<byte>)
    requires |bs| > 0 && DecodeFirst(bs).Some? && 0xC2 <= bs[0] <= 0xDF
    ensures EncodeChar(DecodeFirst(bs).value.0) == bs[..DecodeFirst(bs).value.1]
  {
    var cp := DecodeFirst(bs).value.0 as int;
    DivMod64(cp, bs[0] as int - 0xC0, bs[1] as int - 0x80);
  }

  lemma EncodeCharOfThree(bs: seq<byte>)
    requires |bs| > 0 && DecodeFirst(bs).Some? && 0xE0 <= bs[0] <= 0xEF
    ensures EncodeChar(DecodeFirst(bs).value.0) == bs[..DecodeFirst(bs).value.1]
  {
    var cp := DecodeFirst(bs).value.0 as int;
    var q1 := (bs[0] as int - 0xE0) * 64 + (bs[1] as int - 0x80);
    DivMod64(cp, q1, bs[2] as int - 0x80);
    DivMod64(q1, bs[0] as int - 0xE0, bs[1] as int - 0x80);
  }

  lemma EncodeCharOfFour(bs: seq<byte>)
    requires |bs| > 0 && DecodeFirst(bs).Some? && 0xF0 <= bs[0] <= 0xF4
    ensures EncodeChar(DecodeFirst(bs).value.0) == bs[..DecodeFirst(bs).value.1]
  {
    var cp := DecodeFirst(bs).value.0 as int;
    var q2 := (bs[0] as int - 0xF0) * 64 + (bs[1] as int - 0x80);
    var q1 := q2 * 64 + (bs[2] as int - 0x80);
    DivMod64(cp, q1, bs[3] as int - 0x80);
    DivMod64(q1, q2, bs[2] as int - 0x80);
    DivMod64(q2, bs[0] as int - 0xF0, bs[1] as int - 0x80);
  }

  /** Decoding undoes encoding: every string is read back from its UTF-8 bytes. */
  lemma {:induction false} DecodeOfEncode(s: string)
    ensures Decode(Encode(s)) == Some(s)
  {
    if |s| > 0 {
      var e := EncodeChar(s[0]);
      DecodeFirstOfEncodeChar(s[0], Encode(s[1..]));
      assert (e + Encode(s[1..]))[|e|..] == Encode(s[1..]);
      DecodeOfEncode(s[1..]);
      assert [s[0]] + s[1..] == s;
    }
  }

  /** Encoding undoes decoding: bytes that decode are exactly the encoding of what they decode to. */
  lemma {:induction false} EncodeOfDecode(bs: seq<byte>)
    requires Decode(bs).Some?
    ensures Encode(Decode(bs).value) == bs
    decreases |bs|
  {
    if |bs| > 0 {
      var c, n, s := DecodeStep(bs);
      EncodeOfDecode(bs[n..]);
      Glue(bs, c, n, s);
    }
  }

  /** A decodable non-empty sequence: the encoding of its first character, then a decodable rest. */
  lemma DecodeStep(bs: seq<byte>) returns (c: char, n: nat, s: string)
    requires |bs| > 0 && Decode(bs).Some?
    ensures 1 <= n <= |bs|
    ensures Decode(bs[n..]) == Some(s) && Decode(bs) == Some([c] + s)
    ensures EncodeChar(c) == bs[..n]
  {
    c, n := DecodeFirst(bs).value.0, DecodeFirst(bs).value.1;
    s := Decode(bs[n..]).value;
    EncodeCharOfDecodeFirst(bs);
  }

  lemma Glue(bs: seq<byte>, c: char, n: nat, s: string)
    requires 1 <= n <= |bs| && EncodeChar(c) == bs[..n] && Encode(s) == bs[n..]
    ensures Encode([c] + s) == bs
  {
    assert ([c] + s)[0] == c;
    assert ([c] + s)[1..] == s;
    assert bs[..n] + bs[n..] == bs;
  }

  /** Only the NUL character encodes to a zero byte. */
  lemma {:induction false} EncodeNoZero(s: string)
    requires '\0' !in s
    ensures 0 !in Encode(s)
  {
    if |s| > 0 {
      assert s[0] != '\0' && s[0] in s;
      assert '\0' !in s[1..] by {
        forall i | 0 <= i < |s[1..]| ensures s[1..][i] != '\0' { assert s[1..][i] == s[i + 1]; }
      }
      EncodeNoZero(s[1..]);
      assert EncodeChar(s[0])[0] != 0;
    }
  }
}
