/**
 The nibble lookup table `hxbn` of can-os.c: it maps one byte of ASCII text
 to the four-bit value of the hex digit it spells, or to the error marker E
 (255) when the byte is not a hex digit. The table is constant data; here it
 is a total function on bytes.
 */
module HexTable {

  /** An unsigned 8-bit value: a character of the line, a table entry, a `uint8_t`. */
  newtype u8 = x: int | 0 <= x < 0x100

  /** The table's error marker for a byte that is not a hex digit. */
  const E: u8 := 255

  /** ASCII '0'..'9', 'A'..'F' and 'a'..'f'. */
  predicate IsHexDigit(c: u8) {
    (0x30 <= c <= 0x39) || (0x41 <= c <= 0x46) || (0x61 <= c <= 0x66)
  }

  /** ASCII '`' (0x60), which the table also maps to a value. */
  const Backtick: u8 := 0x60

  /** The upper-case ASCII digit ('0'..'9', 'A'..'F') that spells nibble `v`. */
  function UpperDigit(v: u8): (c: u8)
    requires v < 16
    ensures IsHexDigit(c) && !(0x61 <= c <= 0x66)
  {
    if v < 10 then 0x30 + v else 0x37 + v
  }

  /** The lower-case ASCII digit ('0'..'9', 'a'..'f') that spells nibble `v`. */
  function LowerDigit(v: u8): (c: u8)
    requires v < 16
    ensures IsHexDigit(c) && !(0x41 <= c <= 0x46)
  {
    if v < 10 then 0x30 + v else 0x57 + v
  }

  /**
   The table `hxbn[256]`: rows 0x30, 0x40 and 0x60 hold the digit values,
   every other entry is E. Besides the hex digits, the entry for '`' (0x60)
   holds 0 rather than E.
   */
  function Hxbn(c: u8): (n: u8)
    ensures n == E || n < 16
    ensures n != E <==> IsHexDigit(c) || c == Backtick
  {
    if 0x30 <= c <= 0x39 then c - 0x30
    else if 0x41 <= c <= 0x46 then c - 0x37
    else if c == Backtick then 0
    else if 0x61 <= c <= 0x66 then c - 0x57
    else E
  }

  /**
   The table reads a hex digit back as the nibble it spells, in either
   case, and reads '`' as 0.
   */
  lemma HxbnDigits(c: u8)
    ensures IsHexDigit(c) ==> UpperDigit(Hxbn(c)) == c || LowerDigit(Hxbn(c)) == c
    ensures c == Backtick ==> Hxbn(c) == 0
  {
  }

  /** Every nibble value is read back from either spelling of its digit. */
  lemma NibbleRoundTrip(v: u8)
    requires v < 16
    ensures Hxbn(UpperDigit(v)) == v && Hxbn(LowerDigit(v)) == v
  {
  }
}
