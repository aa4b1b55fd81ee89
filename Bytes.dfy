/** Raw file bytes and the two byte values the JSONL format cares about. */
module Bytes {

  newtype byte = b: int | 0 <= b < 256

  /** The record delimiter, `"\n".utf8`. */
  const Newline: byte := 10

  /** Carriage return: an ordinary byte to the splitter, so it stays inside a record. */
  const CarriageReturn: byte := 13

  /** The number of newline bytes in `s`. */
  function CountNewlines(s: seq<byte>): (n: nat)
    ensures n <= |s|
  {
    if s == [] then 0
    else (if s[0] == Newline then 1 else 0) + CountNewlines(s[1..])
  }

  /** The sum of the lengths of a sequence of byte strings. */
  function TotalLength(rs: seq<seq<byte>>): nat
  {
    if rs == [] then 0 else |rs[0]| + TotalLength(rs[1..])
  }
}
