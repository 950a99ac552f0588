/** The C integer widths the relay depends on (LP64: long, ssize_t and size_t are 64 bits wide). */
module CInt {

  /** One octet of a message. */
  newtype Byte = b: int | 0 <= b < 256

  const SizeMax: int := 0xFFFF_FFFF_FFFF_FFFF
  const LongMax: int := 0x7FFF_FFFF_FFFF_FFFF
  const LongMin: int := -0x8000_0000_0000_0000

  /** The largest value an ssize_t holds (the same width as long). */
  const SsizeMax: int := LongMax

  /** Conversion of a signed value to size_t: reduction modulo 2^64. */
  function ToSizeT(x: int): (r: nat)
    ensures r <= SizeMax
    ensures 0 <= x <= SizeMax ==> r == x
    ensures LongMin <= x < 0 ==> r == x + SizeMax + 1
  {
    x % (SizeMax + 1)
  }

  /** Conversion of a size_t to ssize_t: values above SSIZE_MAX wrap to negative ones. */
  function ToSsizeT(x: nat): (r: int)
    requires x <= SizeMax
    ensures LongMin <= r <= SsizeMax
    ensures r >= 0 <==> x <= SsizeMax
    ensures x <= SsizeMax ==> r == x
  {
    if x <= SsizeMax then x else x - SizeMax - 1
  }

  /** Converting a size_t to ssize_t and back gives the original size. */
  lemma SizeRoundTrip(x: nat)
    requires x <= SizeMax
    ensures ToSizeT(ToSsizeT(x)) == x
  {
  }

  /** Clamps a mathematical integer into the range of long, as strtol does on overflow. */
  function ClampLong(x: int): (r: int)
    ensures LongMin <= r <= LongMax
    ensures LongMin <= x <= LongMax ==> r == x
    ensures x > LongMax ==> r == LongMax
    ensures x < LongMin ==> r == LongMin
  {
    if x > LongMax then LongMax else if x < LongMin then LongMin else x
  }
}
