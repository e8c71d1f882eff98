/** UTF-8 as `str.encode('utf-8')` and `bytes.decode('utf-8')` apply it, with
    the strict error handler: the decoder accepts exactly the well-formed byte
    sequences of Table 3-7 of the Unicode Standard (no overlong forms, no
    surrogates, nothing above U+10FFFF). A Dafny `char` is a Unicode scalar
    value, so encoding is total. */
module Utf8 {
  import opened Wrappers
  import opened Bytes

  predicate IsContinuation(b: Byte)
  {
    0x80 <= b <= 0xBF
  }

  /** The one to four bytes of one scalar value. */
  function EncodeChar(c: char): (r: seq<Byte>)
    ensures 1 <= |r| <= 4
    ensures (c as int) < 0x80 <==> |r| == 1
    ensures forall i :: 0 <= i < |r| ==> (r[i] < 0x80 <==> (c as int) < 0x80)
  {
    var n := c as int;
    if n < 0x80 then [n]
    else if n < 0x800 then [0xC0 + n / 64, 0x80 + n % 64]
    else if n < 0x10000 then [0xE0 + n / 64 / 64, 0x80 + n / 64 % 64, 0x80 + n % 64]
    else [0xF0 + n / 64 / 64 / 64, 0x80 + n / 64 / 64 % 64, 0x80 + n / 64 % 64, 0x80 + n % 64]
  }

  function Encode(s: string): (r: seq<Byte>)
  {
    if s == [] then [] else EncodeChar(s[0]) + Encode(s[1..])
  }

  /** The scalar value that starts `b`, and how many bytes it occupies; None for
      a byte sequence that is not well formed. */
  function DecodeChar(b: seq<Byte>): (r: Option<(char, nat)>)
    requires |b| > 0
    ensures r.Some? ==> 1 <= r.value.1 <= |b|
  {
    var b0 := b[0] as int;
    if b0 < 0x80 then Some((b0 as char, 1))
    else if 0xC2 <= b0 <= 0xDF then
      if |b| >= 2 && IsContinuation(b[1]) then
        Some((((b0 - 0xC0) * 64 + (b[1] as int - 0x80)) as char, 2))
      else None
    else if 0xE0 <= b0 <= 0xEF then
      var lo := if b0 == 0xE0 then 0xA0 else 0x80;
      var hi := if b0 == 0xED then 0x9F else 0xBF;
      if |b| >= 3 && lo <= b[1] <= hi && IsContinuation(b[2]) then
        Some((((b0 - 0xE0) * 4096 + (b[1] as int - 0x80) * 64 + (b[2] as int - 0x80)) as char, 3))
      else None
    else if 0xF0 <= b0 <= 0xF4 then
      var lo := if b0 == 0xF0 then 0x90 else 0x80;
      var hi := if b0 == 0xF4 then 0x8F else 0xBF;
      if |b| >= 4 && lo <= b[1] <= hi && IsContinuation(b[2]) && IsContinuation(b[3]) then
        Some((((b0 - 0xF0) * 262144 + (b[1] as int - 0x80) * 4096 + (b[2] as int - 0x80) * 64 + (b[3] as int - 0x80)) as char, 4))
      else None
    else None
  }

  /** `bytes.decode('utf-8')`; None is the `UnicodeDecodeError` it raises. */
  function Decode(b: seq<Byte>): (r: Option<string>)
    decreases |b|
  {
    if b == [] then Some([])
    else
      match DecodeChar(b)
      case None => None
      case Some((c, n)) =>
        match Decode(b[n..])
        case None => None
        case Some(rest) => Some([c] + rest)
  }

  // ---------------------------------------------------------------------------
  // Round trip

  lemma DecodeEncodeTwo(c: char, rest: seq<Byte>)
    requires 0x80 <= c as int < 0x800
    ensures DecodeChar(EncodeChar(c) + rest) == Some((c, 2))
  {
    var n := c as int;
    var b := EncodeChar(c) + rest;
    assert b[0] == 0xC0 + n / 64 && b[1] == 0x80 + n % 64;
  }

  lemma DecodeEncodeThree(c: char, rest: seq<Byte>)
    requires 0x800 <= c as int < 0x10000
    ensures DecodeChar(EncodeChar(c) + rest) == Some((c, 3))
  {
    var n := c as int;
    var b := EncodeChar(c) + rest;
    var q1, r1 := n / 64, n % 64;
    var q2, r2 := q1 / 64, q1 % 64;
    assert n == q2 * 4096 + r2 * 64 + r1;
    assert b[0] == 0xE0 + q2 && b[1] == 0x80 + r2 && b[2] == 0x80 + r1;
  }

  lemma DecodeEncodeFour(c: char, rest: seq<Byte>)
    requires 0x10000 <= c as int
    ensures DecodeChar(EncodeChar(c) + rest) == Some((c, 4))
  {
    var n := c as int;
    var b := EncodeChar(c) + rest;
    var q1, r1 := n / 64, n % 64;
    var q2, r2 := q1 / 64, q1 % 64;
    var q3, r3 := q2 / 64, q2 % 64;
    assert n == q3 * 262144 + r3 * 4096 + r2 * 64 + r1;
    assert b[0] == 0xF0 + q3 && b[1] == 0x80 + r3 && b[2] == 0x80 + r2 && b[3] == 0x80 + r1;
  }

  lemma DecodeEncodeChar(c: char, rest: seq<Byte>)
    ensures DecodeChar(EncodeChar(c) + rest) == Some((c, |EncodeChar(c)|))
  {
    var n := c as int;
    if n < 0x80 {
    } else if n < 0x800 {
      DecodeEncodeTwo(c, rest);
    } else if n < 0x10000 {
      DecodeEncodeThree(c, rest);
    } else {
      DecodeEncodeFour(c, rest);
    }
  }

  /** Decoding undoes encoding: every string survives `encode` then `decode`. */
  lemma {:induction false} DecodeEncode(s: string)
    ensures Decode(Encode(s)) == Some(s)
  {
    if s != [] {
      var e := Encode(s);
      DecodeEncodeChar(s[0], Encode(s[1..]));
      assert e[|EncodeChar(s[0])|..] == Encode(s[1..]);
      DecodeEncode(s[1..]);
      assert [s[0]] + s[1..] == s;
    }
  }

  /** A byte string that decodes is the encoding of what it decodes to: the
      strict decoder accepts no second spelling of a string. */
  lemma {:induction false} DecodeEncodeOf(b: seq<Byte>)
    requires Decode(b).Some?
    ensures Encode(Decode(b).value) == b
    decreases |b|
  {
    if b != [] {
      var (c, n) := DecodeChar(b).value;
      DecodeEncodeOf(b[n..]);
      DecodeCharEncodes(b);
      assert b == b[..n] + b[n..];
    }
  }

  /** The scalar value a well-formed prefix decodes to encodes to that prefix. */
  lemma DecodeCharEncodes(b: seq<Byte>)
    requires |b| > 0 && DecodeChar(b).Some?
    ensures EncodeChar(DecodeChar(b).value.0) == b[..DecodeChar(b).value.1]
  {
    var b0 := b[0] as int;
    if b0 < 0x80 {
    } else if b0 <= 0xDF {
      EncodesTwo(b);
    } else if b0 <= 0xEF {
      EncodesThree(b);
    } else {
      EncodesFour(b);
    }
  }

  lemma EncodesTwo(b: seq<Byte>)
    requires |b| >= 2 && 0xC2 <= b[0] <= 0xDF && IsContinuation(b[1])
    ensures EncodeChar((((b[0] as int - 0xC0) * 64 + (b[1] as int - 0x80))) as char) == b[..2]
  {
    var q, x1 := b[0] as int - 0xC0, b[1] as int - 0x80;
    Split64(q, x1);
  }

  lemma EncodesThree(b: seq<Byte>)
    requires |b| >= 3 && 0xE0 <= b[0] <= 0xEF && IsContinuation(b[1]) && IsContinuation(b[2])
    requires b[0] == 0xE0 ==> b[1] >= 0xA0
    requires b[0] == 0xED ==> b[1] <= 0x9F
    ensures EncodeChar((((b[0] as int - 0xE0) * 4096 + (b[1] as int - 0x80) * 64 + (b[2] as int - 0x80))) as char) == b[..3]
  {
    var q, x1, x2 := b[0] as int - 0xE0, b[1] as int - 0x80, b[2] as int - 0x80;
    Split64(q, x1);
    Split64(q * 64 + x1, x2);
  }

  lemma EncodesFour(b: seq<Byte>)
    requires |b| >= 4 && 0xF0 <= b[0] <= 0xF4 && IsContinuation(b[1]) && IsContinuation(b[2]) && IsContinuation(b[3])
    requires b[0] == 0xF0 ==> b[1] >= 0x90
    requires b[0] == 0xF4 ==> b[1] <= 0x8F
    ensures EncodeChar((((b[0] as int - 0xF0) * 262144 + (b[1] as int - 0x80) * 4096 + (b[2] as int - 0x80) * 64 + (b[3] as int - 0x80))) as char) == b[..4]
  {
    var q, x1, x2, x3 := b[0] as int - 0xF0, b[1] as int - 0x80, b[2] as int - 0x80, b[3] as int - 0x80;
    Split64(q, x1);
    Split64(q * 64 + x1, x2);
    Split64((q * 64 + x1) * 64 + x2, x3);
  }

  lemma Split64(q: int, r: int)
    requires 0 <= r < 64
    ensures (q * 64 + r) / 64 == q && (q * 64 + r) % 64 == r
  {
  }

  /** Every character takes at least one byte. */
  lemma {:induction false} EncodeLonger(s: string)
    ensures |Encode(s)| >= |s|
  {
    if s != [] {
      EncodeLonger(s[1..]);
    }
  }

  // ---------------------------------------------------------------------------
  // ASCII

  predicate IsAscii(b: seq<Byte>)
  {
    forall i :: 0 <= i < |b| ==> b[i] < 0x80
  }

  /** The ASCII characters of `b`, one per byte. */
  function AsciiText(b: seq<Byte>): (s: string)
    requires IsAscii(b)
    ensures |s| == |b|
  {
    if b == [] then [] else [b[0] as char] + AsciiText(b[1..])
  }

  /** An ASCII byte string decodes, one character per byte, and encodes back to
      itself. */
  lemma {:induction false} AsciiRoundTrip(b: seq<Byte>)
    requires IsAscii(b)
    ensures Decode(b) == Some(AsciiText(b))
    ensures Encode(AsciiText(b)) == b
  {
    if b != [] {
      assert IsAscii(b[1..]);
      AsciiRoundTrip(b[1..]);
      var s := AsciiText(b);
      assert s[1..] == AsciiText(b[1..]);
      assert EncodeChar(s[0]) == [b[0]];
      assert b == [b[0]] + b[1..];
    }
  }

  /** Only ASCII characters contribute ASCII bytes to an encoding. */
  lemma {:induction false} EncodeAscii(s: string)
    ensures Ascii(Encode(s)) <= |s|
  {
    if s != [] {
      AsciiAppend(EncodeChar(s[0]), Encode(s[1..]));
      AsciiOfChar(s[0]);
      EncodeAscii(s[1..]);
    }
  }

  lemma AsciiOfChar(c: char)
    ensures Ascii(EncodeChar(c)) <= 1
  {
    var r := EncodeChar(c);
    if |r| > 1 {
      AllHigh(r);
    }
  }

  lemma {:induction false} AllHigh(r: seq<Byte>)
    requires forall i :: 0 <= i < |r| ==> r[i] >= 0x80
    ensures Ascii(r) == 0
  {
    if r != [] {
      AllHigh(r[1..]);
    }
  }
}
