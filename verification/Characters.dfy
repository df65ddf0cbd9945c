/** How characters are written in JSON, section 7 of RFC 8259: its escapes and hexadecimal digits as tables.
    Nothing here says how they are read. */
module Characters {
  import opened Octets

  /** The byte of an ASCII character. */
  function Ascii(c: char): Byte
    requires c < '\U{80}'
  {
    c as int
  }

  /** The characters that can stand behind a backslash, and the bytes they stand for. */
  const SHORT: string := "\"\\/bfnrt"
  const SHORT_MEANS: Bytes := [0x22, 0x5C, 0x2F, 0x08, 0x0C, 0x0A, 0x0D, 0x09]

  const DIGITS: string := "0123456789abcdef"
  const CAPITALS: string := "0123456789ABCDEF"

  /** Where a byte stands among the first `n` characters of a text. */
  function Place(b: Byte, text: string, n: nat): (r: Option<nat>)
    requires n <= |text|
    ensures r.Some? ==> r.value < n && text[r.value] as int == b
    ensures r.None? ==> forall i :: 0 <= i < n ==> text[i] as int != b
  {
    if n == 0 then None else if text[n - 1] as int == b then Some(n - 1) else Place(b, text, n - 1)
  }

  /** What a two-character escape stands for. */
  function ShortMeaning(e: Byte): Option<Byte> {
    var place := Place(e, SHORT, |SHORT|);
    if place.Some? then Some(SHORT_MEANS[place.value]) else None
  }

  /** The value of a hexadecimal digit of either case. */
  function DigitValue(b: Byte): (r: Option<nat>)
    ensures r.Some? ==> r.value < 16
  {
    var small := Place(b, DIGITS, |DIGITS|);
    if small.Some? then small else Place(b, CAPITALS, |CAPITALS|)
  }

  predicate AllHexDigits(q: Bytes) {
    forall k :: 0 <= k < |q| ==> DigitValue(q[k]).Some?
  }

  /** The 16-bit unit that four digits stand for. */
  function UnitOf(q: Bytes): (r: nat)
    requires |q| == 4 && AllHexDigits(q)
    ensures r <= 0xFFFF
  {
    0x1000 * DigitValue(q[0]).value + 0x100 * DigitValue(q[1]).value
    + 0x10 * DigitValue(q[2]).value + DigitValue(q[3]).value
  }
}
