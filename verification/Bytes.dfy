/** Bytes, the ASCII codes the URI codec looks at, and hexadecimal digits. */
module Bytes {

  /** C's `u_char`. */
  type Byte = bv8

  /** C's `uint32_t`. */
  type Word = bv32

  const WORD_LIMIT: nat := 0x1_0000_0000

  const PERCENT: Byte := 0x25
  const QUESTION: Byte := 0x3f
  const DELETE: Byte := 0x7f
  const CASE_BIT: Byte := 0x20

  /** The printing table `hex[]`: "0123456789ABCDEF". */
  const HEX: seq<Byte> := [
    0x30, 0x31, 0x32, 0x33, 0x34, 0x35, 0x36, 0x37, 0x38, 0x39,
    0x41, 0x42, 0x43, 0x44, 0x45, 0x46
  ]

  predicate IsDigit(ch: Byte) {
    0x30 <= ch <= 0x39
  }

  /** `c >= 'a' && c <= 'f'` after folding the case bit into `c`. */
  predicate IsHexLetter(ch: Byte) {
    0x61 <= ch | CASE_BIT <= 0x66
  }

  predicate IsHex(ch: Byte) {
    IsDigit(ch) || IsHexLetter(ch)
  }

  /** A digit the encoder itself prints. */
  predicate IsUpperHex(ch: Byte) {
    IsDigit(ch) || 0x41 <= ch <= 0x46
  }

  function HexDigit(nibble: Byte): Byte
    requires nibble < 16
  {
    HEX[nibble as int]
  }

  function HexValue(ch: Byte): Byte
    requires IsHex(ch)
  {
    if IsDigit(ch) then ch - 0x30 else (ch | CASE_BIT) - 0x61 + 10
  }

  /** The byte denoted by two hexadecimal digits. */
  function HexPair(hi: Byte, lo: Byte): Byte
    requires IsHex(hi) && IsHex(lo)
  {
    (HexValue(hi) << 4) + HexValue(lo)
  }

  /** One character stands for the other: they are equal, or the letters A to F in different case. */
  predicate SameDigit(a: Byte, b: Byte) {
    a == b || (0x41 <= a <= 0x46 && b == a + 0x20) || (0x41 <= b <= 0x46 && a == b + 0x20)
  }

  /** The hexadecimal digits in either case, and what each of them is worth. */
  lemma HexDigitsAre(ch: Byte)
    ensures IsHex(ch) <==> 0x30 <= ch <= 0x39 || 0x41 <= ch <= 0x46 || 0x61 <= ch <= 0x66
    ensures IsUpperHex(ch) <==> 0x30 <= ch <= 0x39 || 0x41 <= ch <= 0x46
    ensures IsHex(ch) ==> HexValue(ch) == ch - (if ch <= 0x39 then 0x30 else if ch <= 0x46 then 0x37 else 0x57)
  {
  }

  /** The case of a digit does not matter. */
  lemma CaseOfDigit(a: Byte, b: Byte)
    requires SameDigit(a, b)
    ensures IsHex(a) <==> IsHex(b)
    ensures IsHex(a) ==> HexValue(a) == HexValue(b) && IsDigit(a) == IsDigit(b)
  {
  }

  /** Parsing what the encoder prints gives the byte back. */
  lemma PrintThenParse(b: Byte)
    ensures b >> 4 < 16 && b & 0xf < 16
    ensures IsUpperHex(HexDigit(b >> 4)) && IsUpperHex(HexDigit(b & 0xf))
    ensures HexPair(HexDigit(b >> 4), HexDigit(b & 0xf)) == b
  {
  }

  /** Printing what was parsed gives the digits back exactly when they were upper case. */
  lemma ParseThenPrint(hi: Byte, lo: Byte)
    requires IsHex(hi) && IsHex(lo)
    ensures
      var b := HexPair(hi, lo);
      HexDigit(b >> 4) == hi && HexDigit(b & 0xf) == lo <==> IsUpperHex(hi) && IsUpperHex(lo)
  {
  }

  /** The byte arithmetic of the parser never overflows: it is the arithmetic of integers. */
  lemma HexPairIsExact(hi: Byte, lo: Byte)
    requires IsHex(hi) && IsHex(lo)
    ensures HexValue(hi) < 16 && HexValue(lo) < 16
    ensures HexPair(hi, lo) as nat == 16 * (HexValue(hi) as nat) + HexValue(lo) as nat
  {
  }
}
