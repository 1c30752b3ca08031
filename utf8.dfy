/**
 * UTF-8 as defined by RFC 3629, the encoding behind .NET's Encoding.UTF8:
 * GetByteCount, GetBytes and GetString. Text is a sequence of Unicode scalar
 * values. Decoding replaces each maximal ill-formed subpart with U+FFFD, the
 * substitution policy .NET follows for malformed input.
 */
module Utf8 {

  newtype byte = x: int | 0 <= x < 256

  /** The number of bytes RFC 3629 uses for one scalar value. */
  function Width(c: char): (n: nat)
    ensures 1 <= n <= 4
  {
    var cp := c as int;
    if cp < 0x80 then 1 else if cp < 0x800 then 2 else if cp < 0x10000 then 3 else 4
  }

  /** Encoding.UTF8.GetByteCount: the sum of the widths of the characters. */
  function ByteCount(s: string): nat {
    if s == [] then 0 else Width(s[0]) + ByteCount(s[1..])
  }

  predicate IsContinuation(b: byte) { 0x80 <= b <= 0xBF }

  function EncodeChar(c: char): (bs: seq<byte>)
    ensures |bs| == Width(c)
  {
    var cp := c as int;
    if cp < 0x80 then [cp as byte]
    else if cp < 0x800 then [(0xC0 + cp / 64) as byte, (0x80 + cp % 64) as byte]
    else if cp < 0x10000 then
      [(0xE0 + cp / 0x1000) as byte, (0x80 + (cp / 64) % 64) as byte, (0x80 + cp % 64) as byte]
    else
      [(0xF0 + cp / 0x40000) as byte, (0x80 + (cp / 0x1000) % 64) as byte,
       (0x80 + (cp / 64) % 64) as byte, (0x80 + cp % 64) as byte]
  }

  /** Encoding.UTF8.GetBytes. Its length is GetByteCount. */
  function Encode(s: string): (bs: seq<byte>)
    ensures |bs| == ByteCount(s)
  {
    if s == [] then [] else EncodeChar(s[0]) + Encode(s[1..])
  }

  const Replacement: char := 0xFFFD as char

  /**
   * Decodes the character at the front of a non-empty byte sequence and says
   * how many bytes it used: a well-formed sequence of the table in section 4
   * of RFC 3629, or else U+FFFD for its longest well-formed prefix (at least
   * one byte).
   */
  function DecodeOne(bs: seq<byte>): (r: (char, nat))
    requires |bs| > 0
    ensures 1 <= r.1 <= |bs| && r.1 <= 4
  {
    var b0 := bs[0] as int;
    if b0 < 0x80 then (b0 as char, 1)
    else if 0xC2 <= b0 <= 0xDF then
      if |bs| < 2 || !IsContinuation(bs[1]) then (Replacement, 1)
      else (((b0 - 0xC0) * 64 + (bs[1] as int - 0x80)) as char, 2)
    else if 0xE0 <= b0 <= 0xEF then
      var lo := if b0 == 0xE0 then 0xA0 else 0x80;
      var hi := if b0 == 0xED then 0x9F else 0xBF;
      if |bs| < 2 || !(lo <= bs[1] as int <= hi) then (Replacement, 1)
      else if |bs| < 3 || !IsContinuation(bs[2]) then (Replacement, 2)
      else (((b0 - 0xE0) * 0x1000 + (bs[1] as int - 0x80) * 64 + (bs[2] as int - 0x80)) as char, 3)
    else if 0xF0 <= b0 <= 0xF4 then
      var lo := if b0 == 0xF0 then 0x90 else 0x80;
      var hi := if b0 == 0xF4 then 0x8F else 0xBF;
      if |bs| < 2 || !(lo <= bs[1] as int <= hi) then (Replacement, 1)
      else if |bs| < 3 || !IsContinuation(bs[2]) then (Replacement, 2)
      else if |bs| < 4 || !IsContinuation(bs[3]) then (Replacement, 3)
      else
        (((b0 - 0xF0) * 0x40000 + (bs[1] as int - 0x80) * 0x1000
          + (bs[2] as int - 0x80) * 64 + (bs[3] as int - 0x80)) as char, 4)
    else (Replacement, 1)
  }

  /** Encoding.UTF8.GetString. */
  function Decode(bs: seq<byte>): string
    decreases |bs|
  {
    if bs == [] then [] else [DecodeOne(bs).0] + Decode(bs[DecodeOne(bs).1..])
  }

  lemma DivMod64(n: nat)
    ensures n == (n / 64) * 64 + n % 64
    ensures n / 0x1000 == (n / 64) / 64
    ensures n / 0x40000 == (n / 0x1000) / 64
  {
  }

  /** One encoded character is read back whole, whatever follows it. */
  lemma DecodeOneEncodeChar(c: char, rest: seq<byte>)
    ensures DecodeOne(EncodeChar(c) + rest) == (c, Width(c))
  {
    var cp := c as int;
    var bs := EncodeChar(c) + rest;
    DivMod64(cp);
    DivMod64(cp / 64);
    DivMod64(cp / 0x1000);
    if cp < 0x80 {
    } else if cp < 0x800 {
      assert bs[0] as int == 0xC0 + cp / 64 && bs[1] as int == 0x80 + cp % 64;
    } else if cp < 0x10000 {
      assert bs[0] as int == 0xE0 + cp / 0x1000;
      assert bs[1] as int == 0x80 + (cp / 64) % 64;
      assert bs[2] as int == 0x80 + cp % 64;
      assert cp == (cp / 0x1000) * 0x1000 + ((cp / 64) % 64) * 64 + cp % 64;
    } else {
      assert bs[0] as int == 0xF0 + cp / 0x40000;
      assert bs[1] as int == 0x80 + (cp / 0x1000) % 64;
      assert bs[2] as int == 0x80 + (cp / 64) % 64;
      assert bs[3] as int == 0x80 + cp % 64;
      assert cp == (cp / 0x40000) * 0x40000 + ((cp / 0x1000) % 64) * 0x1000
                   + ((cp / 64) % 64) * 64 + cp % 64;
    }
  }

  /** GetString(GetBytes(s)) == s: decoding undoes encoding. */
  lemma {:induction false} DecodeEncode(s: string)
    ensures Decode(Encode(s)) == s
  {
    if s != [] {
      var head := EncodeChar(s[0]);
      var tail := Encode(s[1..]);
      DecodeOneEncodeChar(s[0], tail);
      assert (head + tail)[|head|..] == tail;
      DecodeEncode(s[1..]);
    }
  }

  /** Every character takes one to four bytes. */
  lemma {:induction false} ByteCountBounds(s: string)
    ensures |s| <= ByteCount(s) <= 4 * |s|
  {
    if s != [] {
      ByteCountBounds(s[1..]);
    }
  }

  /** ASCII text encodes byte for byte. */
  lemma {:induction false} AsciiEncodesByteForByte(s: string)
    requires forall k :: 0 <= k < |s| ==> s[k] as int < 0x80
    ensures Encode(s) == seq(|s|, k requires 0 <= k < |s| => s[k] as int as byte)
  {
    if s != [] {
      AsciiEncodesByteForByte(s[1..]);
    }
  }
}
