/**
 Byte and fixed-width integer types, and the two renderings the core uses:
 `format!("{:02X}", b)` for key bytes and `format!("{}", n)` for numbers.
 */
module Bytes {

  newtype byte = x: int | 0 <= x < 256

  /** Rust's `u32`. */
  type u32 = x: nat | x < 0x1_0000_0000

  /** Rust's `u64`. */
  type u64 = x: nat | x < 0x1_0000_0000_0000_0000

  predicate IsUpperHexDigit(c: char) {
    '0' <= c <= '9' || 'A' <= c <= 'F'
  }

  /** The value of an upper-case hexadecimal digit. */
  function HexValue(c: char): (d: nat)
    requires IsUpperHexDigit(c)
    ensures d < 16
  {
    if c <= '9' then c as int - '0' as int else c as int - 'A' as int + 10
  }

  /** The upper-case hexadecimal digit of a value below sixteen. */
  function HexDigit(d: nat): (c: char)
    requires d < 16
    ensures IsUpperHexDigit(c) && HexValue(c) == d
  {
    if d < 10 then ('0' as int + d) as char else ('A' as int + d - 10) as char
  }

  /** `format!("{:02X}", b)`: the byte as exactly two upper-case hexadecimal digits. */
  function HexByte(b: byte): (r: string)
    ensures |r| == 2 && IsUpperHexDigit(r[0]) && IsUpperHexDigit(r[1])
    ensures HexValue(r[0]) * 16 + HexValue(r[1]) == b as int
  {
    [HexDigit(b as int / 16), HexDigit(b as int % 16)]
  }

  /** Every byte rendered by `HexByte`, concatenated without separators. */
  function Hex(bs: seq<byte>): (r: string)
    ensures |r| == 2 * |bs|
    ensures forall i :: 0 <= i < |r| ==> IsUpperHexDigit(r[i])
  {
    if |bs| == 0 then "" else HexByte(bs[0]) + Hex(bs[1..])
  }

  /** Reads back a string of upper-case hexadecimal digit pairs. */
  function ParseHex(s: string): (bs: seq<byte>)
    requires |s| % 2 == 0
    requires forall i :: 0 <= i < |s| ==> IsUpperHexDigit(s[i])
    ensures 2 * |bs| == |s|
  {
    if |s| == 0 then [] else [(HexValue(s[0]) * 16 + HexValue(s[1])) as byte] + ParseHex(s[2..])
  }

  /** Hexadecimal rendering loses nothing: the bytes can be read back. */
  lemma {:induction false} ParseHexOfHex(bs: seq<byte>)
    ensures ParseHex(Hex(bs)) == bs
  {
    if |bs| > 0 {
      var h := Hex(bs);
      assert h == HexByte(bs[0]) + Hex(bs[1..]);
      assert h[2..] == Hex(bs[1..]);
      ParseHexOfHex(bs[1..]);
      assert [bs[0]] + bs[1..] == bs;
    }
  }

  /** The decimal digit of a value below ten. */
  function DecimalDigit(d: nat): (c: char)
    requires d < 10
    ensures '0' <= c <= '9' && c as int - '0' as int == d
  {
    ('0' as int + d) as char
  }

  /** `format!("{}", n)`: decimal digits, most significant first, without leading zeros. */
  function Decimal(n: nat): (r: string)
    ensures |r| >= 1
    ensures forall i :: 0 <= i < |r| ==> '0' <= r[i] <= '9'
    ensures r[0] == '0' <==> n == 0
    ensures n == 0 ==> r == "0"
  {
    if n < 10 then [DecimalDigit(n)] else Decimal(n / 10) + [DecimalDigit(n % 10)]
  }

  /** Reads back a string of decimal digits. */
  function ParseDecimal(s: string): nat
    requires forall i :: 0 <= i < |s| ==> '0' <= s[i] <= '9'
  {
    if |s| == 0 then 0 else ParseDecimal(s[..|s| - 1]) * 10 + (s[|s| - 1] as int - '0' as int)
  }

  /** Decimal rendering loses nothing: the number can be read back. */
  lemma {:induction false} ParseDecimalOfDecimal(n: nat)
    ensures ParseDecimal(Decimal(n)) == n
  {
    if n >= 10 {
      var r := Decimal(n);
      assert r[..|r| - 1] == Decimal(n / 10);
      ParseDecimalOfDecimal(n / 10);
    }
  }
}
