/** Bytes, fixed-width unsigned integers, their little-endian encoding, and
    UTF-8 well-formedness (the check behind Rust's `String::from_utf8`). */
module Bytes {

  type byte = x: int | 0 <= x < 0x100
  type u32 = x: int | 0 <= x < 0x1_0000_0000
  type u64 = x: int | 0 <= x < 0x1_0000_0000_0000_0000

  const U32_LIMIT: nat := 0x1_0000_0000
  const U64_LIMIT: nat := 0x1_0000_0000_0000_0000

  function Min(a: nat, b: nat): nat {
    if a < b then a else b
  }

  /** Rust's `n as u32`: the low 32 bits. */
  function AsU32(n: nat): (r: u32)
    ensures n < U32_LIMIT ==> r == n
  {
    n % U32_LIMIT
  }

  /** 256 to the power n: the number of values n bytes can hold. */
  function Pow256(n: nat): (r: nat)
    ensures r > 0
  {
    if n == 0 then 1 else 256 * Pow256(n - 1)
  }

  lemma Pow256Values()
    ensures Pow256(1) == 0x100 && Pow256(4) == U32_LIMIT && Pow256(8) == U64_LIMIT
  {
  }

  /** The n low-order bytes of v, least significant first. */
  function LeBytes(v: nat, n: nat): (r: seq<byte>)
    ensures |r| == n
  {
    if n == 0 then [] else [v % 256] + LeBytes(v / 256, n - 1)
  }

  /** The number whose little-endian representation is s. */
  function LeValue(s: seq<byte>): (r: nat)
    ensures r < Pow256(|s|)
  {
    if s == [] then 0 else s[0] + 256 * LeValue(s[1..])
  }

  /** Decoding an encoding gives back the value, for every value that fits. */
  lemma {:induction false} LeValueOfBytes(v: nat, n: nat)
    requires v < Pow256(n)
    ensures LeValue(LeBytes(v, n)) == v
  {
    if n > 0 {
      LeValueOfBytes(v / 256, n - 1);
      assert LeBytes(v, n)[1..] == LeBytes(v / 256, n - 1);
    }
  }

  /** Encoding a decoded value gives back the bytes: the encoding is a bijection. */
  lemma {:induction false} LeBytesOfValue(s: seq<byte>)
    ensures LeBytes(LeValue(s), |s|) == s
  {
    if s != [] {
      LeBytesOfValue(s[1..]);
      var v := LeValue(s);
      assert v % 256 == s[0] && v / 256 == LeValue(s[1..]);
    }
  }

  /** LeValue of four bytes spelled out: the first byte is the least significant. */
  lemma LeValueFour(s: seq<byte>)
    requires |s| == 4
    ensures LeValue(s) == s[0] as int + 0x100 * s[1] as int + 0x1_0000 * s[2] as int + 0x100_0000 * s[3] as int
  {
    assert s[1..][1..][1..][1..] == [];
    assert LeValue(s[3..]) == s[3];
    assert LeValue(s[2..]) == s[2] as int + 256 * s[3] as int;
  }

  // ---------------------------------------------------------------------
  // UTF-8 (the well-formed byte sequences of RFC 3629, section 4)

  predicate IsTail(b: byte) {
    0x80 <= b <= 0xBF
  }

  /** The length of the well-formed character that s starts with, or 0 when s
      does not start with one. */
  function CharLen(s: seq<byte>): (n: nat)
    ensures n <= 4 && n <= |s|
  {
    if |s| == 0 then 0
    else if s[0] <= 0x7F then 1
    else if 0xC2 <= s[0] <= 0xDF then
      if |s| >= 2 && IsTail(s[1]) then 2 else 0
    else if 0xE0 <= s[0] <= 0xEF then
      if |s| >= 3 && IsTail(s[2])
         && (if s[0] == 0xE0 then 0xA0 <= s[1] <= 0xBF
             else if s[0] == 0xED then 0x80 <= s[1] <= 0x9F
             else IsTail(s[1]))
      then 3 else 0
    else if 0xF0 <= s[0] <= 0xF4 then
      if |s| >= 4 && IsTail(s[2]) && IsTail(s[3])
         && (if s[0] == 0xF0 then 0x90 <= s[1] <= 0xBF
             else if s[0] == 0xF4 then 0x80 <= s[1] <= 0x8F
             else IsTail(s[1]))
      then 4 else 0
    else 0
  }

  /** s is a concatenation of well-formed UTF-8 characters. */
  predicate ValidUtf8(s: seq<byte>)
    decreases |s|, 1
  {
    s == [] || FirstCharThenValid(s)
  }

  /** s starts with a well-formed character and the rest is well-formed. */
  predicate FirstCharThenValid(s: seq<byte>)
    decreases |s|, 0
  {
    CharLen(s) > 0 && ValidUtf8(s[CharLen(s)..])
  }

  /** The bytes of a Rust `String`. */
  type Utf8 = s: seq<byte> | ValidUtf8(s) witness []

  predicate IsAscii(s: seq<byte>) {
    forall i :: 0 <= i < |s| ==> s[i] < 0x80
  }

  lemma {:induction false} AsciiIsUtf8(s: seq<byte>)
    requires IsAscii(s)
    ensures ValidUtf8(s)
  {
    if s != [] {
      assert CharLen(s) == 1;
      AsciiIsUtf8(s[1..]);
    }
  }

  /** The bytes of an ASCII string literal. */
  function AsciiBytes(s: string): (r: seq<byte>)
    requires forall i :: 0 <= i < |s| ==> s[i] < 128 as char
    ensures |r| == |s| && IsAscii(r)
    ensures forall i :: 0 <= i < |s| ==> r[i] == s[i] as int
  {
    seq(|s|, i requires 0 <= i < |s| => s[i] as int)
  }
}
