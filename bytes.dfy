/** Bytes as Python's `bytes` objects hold them, and the one measure over them
    that the codecs need. */
module Bytes {

  type Byte = b: int | 0 <= b < 0x100

  /** The number of ASCII bytes (below 0x80) in `b`: an upper bound on how many
      base64 symbols a byte string can contain. */
  function Ascii(b: seq<Byte>): (n: nat)
    ensures n <= |b|
  {
    if b == [] then 0 else (if b[0] < 0x80 then 1 else 0) + Ascii(b[1..])
  }

  lemma {:induction false} AsciiAppend(x: seq<Byte>, y: seq<Byte>)
    ensures Ascii(x + y) == Ascii(x) + Ascii(y)
  {
    if x == [] {
      assert x + y == y;
    } else {
      assert (x + y)[1..] == x[1..] + y;
      AsciiAppend(x[1..], y);
    }
  }
}
