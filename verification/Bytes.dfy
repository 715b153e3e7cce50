/** The widths of the machine's integers, and bytes at the front of a text. */
module Bytes {
  const TWO_31: int := 0x8000_0000
  const TWO_32: nat := 0x1_0000_0000
  const TWO_64: nat := 0x1_0000_0000_0000_0000

  predicate StartsWith(s: string, c: char) { s != "" && s[0] == c }
}
