/** Shared value types. */
module Wrappers {

  datatype Option<+T> = None | Some(value: T)

  /** A byte, as an integer. */
  type byte = b: int | 0 <= b < 256

  type bytes = seq<byte>

  /** The largest size_t. */
  const SIZE_MAX: nat := 0xFFFF_FFFF_FFFF_FFFF

  /** The bytes of a text in ASCII. */
  function Ascii(text: string): bytes {
    seq(|text|, i requires 0 <= i < |text| => text[i] as int % 256)
  }

  const UPPER: string := "ABCDEFGHIJKLMNOPQRSTUVWXYZ"
  const LOWER: string := "abcdefghijklmnopqrstuvwxyz"
  const DIGITS: string := "0123456789"

  /** ASCII has the letters and the digits in order. */
  lemma AsciiOrder()
    ensures |UPPER| == 26 && |LOWER| == 26 && |DIGITS| == 10
    ensures forall k :: 0 <= k < 26 ==> UPPER[k] as int == 65 + k
    ensures forall k :: 0 <= k < 26 ==> LOWER[k] as int == 97 + k
    ensures forall k :: 0 <= k < 10 ==> DIGITS[k] as int == 48 + k
  {
  }
}
