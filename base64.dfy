/** Base64 as the Python standard library applies it to the envelopes:
    `base64.b64encode` / `base64.urlsafe_b64encode` (the encoding of section 4
    of RFC 4648, and its URL- and filename-safe variant of section 5, always
    padded with '=') and the NON-validating `base64.b64decode` /
    `base64.urlsafe_b64decode`, which are CPython's `binascii.a2b_base64` with
    strict mode off: bytes outside the alphabet are skipped, '=' ends the data
    once a quantum has at least two symbols, and a dangling quantum is an
    error ("Incorrect padding"). Both sides work on bytes, as Python's do. */
module Base64 {
  import opened Wrappers
  import opened Bytes

  datatype Alphabet = Standard | UrlSafe

  const Pad: Byte := 61  // '='

  /** The symbol for the 6-bit value `v` (Table 1 of RFC 4648; Table 2 for the
      URL-safe alphabet, which spells 62 and 63 as '-' and '_'). */
  function Symbol(v: nat, a: Alphabet): (c: Byte)
    requires v < 64
    ensures c < 0x80 && c != Pad
  {
    if v < 26 then 65 + v                         // 'A'..'Z'
    else if v < 52 then 97 + (v - 26)             // 'a'..'z'
    else if v < 62 then 48 + (v - 52)             // '0'..'9'
    else if v == 62 then (if a == Standard then 43 else 45)  // '+' or '-'
    else (if a == Standard then 47 else 95)       // '/' or '_'
  }

  /** The decoding table. `urlsafe_b64decode` first translates '-' and '_' to
      '+' and '/', so under the URL-safe alphabet both spellings of 62 and 63
      are accepted. Every other byte, '=' included, has no value. */
  function Value(c: Byte, a: Alphabet): (r: Option<nat>)
    ensures r.Some? ==> r.value < 64 && c < 0x80 && c != Pad
  {
    if 65 <= c <= 90 then Some(c - 65)
    else if 97 <= c <= 122 then Some(c - 97 + 26)
    else if 48 <= c <= 57 then Some(c - 48 + 52)
    else if c == 43 || (a == UrlSafe && c == 45) then Some(62)
    else if c == 47 || (a == UrlSafe && c == 95) then Some(63)
    else None
  }

  lemma ValueOfSymbol(v: nat, a: Alphabet)
    requires v < 64
    ensures Value(Symbol(v, a), a) == Some(v)
  {
  }

  /** `b64encode`: every three bytes become four symbols; a final one or two
      bytes become two or three symbols followed by "==" or "=". */
  function Encode(b: seq<Byte>, a: Alphabet): (r: seq<Byte>)
    decreases |b|
  {
    if |b| == 0 then []
    else if |b| == 1 then
      [Symbol(b[0] / 4, a), Symbol((b[0] % 4) * 16, a), Pad, Pad]
    else if |b| == 2 then
      [Symbol(b[0] / 4, a), Symbol((b[0] % 4) * 16 + b[1] / 16, a), Symbol((b[1] % 16) * 4, a), Pad]
    else
      Quantum(b[0], b[1], b[2], a) + Encode(b[3..], a)
  }

  /** The four symbols of three whole bytes. */
  function Quantum(b0: Byte, b1: Byte, b2: Byte, a: Alphabet): (r: seq<Byte>)
  {
    [Symbol(b0 / 4, a), Symbol((b0 % 4) * 16 + b1 / 16, a), Symbol((b1 % 16) * 4 + b2 / 64, a), Symbol(b2 % 64, a)]
  }

  /** The state machine of `a2b_base64` over the rest `s` of the input:
      `pos` is the position within the current quantum, `pads` the run of '='
      seen at position two or three, `left` the bits not yet emitted and `out`
      the bytes emitted so far. */
  function Run(s: seq<Byte>, a: Alphabet, pos: nat, pads: nat, left: nat, out: seq<Byte>): (r: Option<seq<Byte>>)
    requires pos < 4 && left < Spare(pos)
    decreases |s|
  {
    if s == [] then
      if pos == 0 then Some(out) else None  // a dangling quantum: "Incorrect padding"
    else if s[0] == Pad then
      if pos >= 2 && pos + pads + 1 >= 4 then Some(out)  // the padding ends the data
      else Run(s[1..], a, pos, if pos >= 2 then pads + 1 else pads, left, out)
    else
      match Value(s[0], a)
      case None => Run(s[1..], a, pos, pads, left, out)  // not in the alphabet: skipped
      case Some(v) =>
        if pos == 0 then Run(s[1..], a, 1, 0, v, out)
        else if pos == 1 then Run(s[1..], a, 2, 0, v % 16, out + [left * 4 + v / 16])
        else if pos == 2 then Run(s[1..], a, 3, 0, v % 4, out + [left * 16 + v / 4])
        else Run(s[1..], a, 0, 0, 0, out + [left * 64 + v])
  }

  /** How many values the carried bits can take at each position. */
  function Spare(pos: nat): (r: nat)
  {
    if pos == 2 then 16 else if pos == 3 then 4 else 64
  }

  /** `b64decode` (or, with `UrlSafe`, `urlsafe_b64decode`); None is the
      `binascii.Error` it raises. */
  function Decode(s: seq<Byte>, a: Alphabet): (r: Option<seq<Byte>>)
  {
    Run(s, a, 0, 0, 0, [])
  }

  /** The `_is_valid_base64` test: decoding does not raise. */
  predicate IsValid(s: seq<Byte>, a: Alphabet)
  {
    Decode(s, a).Some?
  }

  // ---------------------------------------------------------------------------
  // Round trip

  lemma {:induction false} RunQuantum(b0: Byte, b1: Byte, b2: Byte, rest: seq<Byte>, a: Alphabet, pads: nat, left: nat, out: seq<Byte>)
    requires left < 64
    ensures Run(Quantum(b0, b1, b2, a) + rest, a, 0, pads, left, out) == Run(rest, a, 0, 0, 0, out + [b0, b1, b2])
  {
    var v0, v1, v2, v3 := b0 / 4, (b0 % 4) * 16 + b1 / 16, (b1 % 16) * 4 + b2 / 64, b2 % 64;
    var s := Quantum(b0, b1, b2, a) + rest;
    ValueOfSymbol(v0, a);
    ValueOfSymbol(v1, a);
    ValueOfSymbol(v2, a);
    ValueOfSymbol(v3, a);
    assert v0 * 4 + v1 / 16 == b0;
    assert (v1 % 16) * 16 + v2 / 4 == b1;
    assert (v2 % 4) * 64 + v3 == b2;
    assert s[0] == Symbol(v0, a) && s[1..][0] == Symbol(v1, a) && s[1..][1..][0] == Symbol(v2, a);
    assert s[1..][1..][1..][0] == Symbol(v3, a) && s[1..][1..][1..][1..] == rest;
    calc {
      Run(s, a, 0, pads, left, out);
      Run(s[1..], a, 1, 0, v0, out);
      Run(s[1..][1..], a, 2, 0, v1 % 16, out + [b0]);
      Run(s[1..][1..][1..], a, 3, 0, v2 % 4, out + [b0] + [b1]);
      Run(rest, a, 0, 0, 0, out + [b0] + [b1] + [b2]);
    }
    assert out + [b0] + [b1] + [b2] == out + [b0, b1, b2];
  }

  /** A last single byte: two symbols and "==". */
  lemma RunFinalOne(b0: Byte, a: Alphabet, pads: nat, left: nat, out: seq<Byte>)
    requires left < 64
    ensures Run(Encode([b0], a), a, 0, pads, left, out) == Some(out + [b0])
  {
    var s := Encode([b0], a);
    var v0, v1 := b0 / 4, (b0 % 4) * 16;
    ValueOfSymbol(v0, a);
    ValueOfSymbol(v1, a);
    assert s[1..][1..] == [Pad, Pad];
    assert v0 * 4 + v1 / 16 == b0;
    calc {
      Run(s, a, 0, pads, left, out);
      Run(s[1..], a, 1, 0, v0, out);
      Run(s[1..][1..], a, 2, 0, v1 % 16, out + [b0]);
      Run(s[1..][1..][1..], a, 2, 1, v1 % 16, out + [b0]);
      Some(out + [b0]);
    }
  }

  /** A last pair of bytes: three symbols and "=". */
  lemma RunFinalTwo(b0: Byte, b1: Byte, a: Alphabet, pads: nat, left: nat, out: seq<Byte>)
    requires left < 64
    ensures Run(Encode([b0, b1], a), a, 0, pads, left, out) == Some(out + [b0, b1])
  {
    var s := Encode([b0, b1], a);
    var v0, v1, v2 := b0 / 4, (b0 % 4) * 16 + b1 / 16, (b1 % 16) * 4;
    ValueOfSymbol(v0, a);
    ValueOfSymbol(v1, a);
    ValueOfSymbol(v2, a);
    assert s[1..][1..][1..] == [Pad];
    assert v0 * 4 + v1 / 16 == b0;
    assert (v1 % 16) * 16 + v2 / 4 == b1;
    calc {
      Run(s, a, 0, pads, left, out);
      Run(s[1..], a, 1, 0, v0, out);
      Run(s[1..][1..], a, 2, 0, v1 % 16, out + [b0]);
      Run(s[1..][1..][1..], a, 3, 0, v2 % 4, out + [b0] + [b1]);
      Some(out + [b0] + [b1]);
    }
    assert out + [b0] + [b1] == out + [b0, b1];
  }

  lemma {:induction false} RunEncode(b: seq<Byte>, a: Alphabet, pads: nat, left: nat, out: seq<Byte>)
    requires left < 64
    ensures Run(Encode(b, a), a, 0, pads, left, out) == Some(out + b)
    decreases |b|
  {
    if |b| == 0 {
      assert out + b == out;
    } else if |b| == 1 {
      assert b == [b[0]];
      RunFinalOne(b[0], a, pads, left, out);
    } else if |b| == 2 {
      assert b == [b[0], b[1]];
      RunFinalTwo(b[0], b[1], a, pads, left, out);
    } else {
      RunQuantum(b[0], b[1], b[2], Encode(b[3..], a), a, pads, left, out);
      RunEncode(b[3..], a, 0, 0, out + [b[0], b[1], b[2]]);
      assert out + [b[0], b[1], b[2]] + b[3..] == out + b;
    }
  }

  /** Decoding undoes encoding, under either alphabet. */
  lemma DecodeEncode(b: seq<Byte>, a: Alphabet)
    ensures Decode(Encode(b, a), a) == Some(b)
  {
    RunEncode(b, a, 0, 0, []);
    assert [] + b == b;
  }

  lemma EncodeInjective(x: seq<Byte>, y: seq<Byte>, a: Alphabet)
    requires Encode(x, a) == Encode(y, a)
    ensures x == y
  {
    DecodeEncode(x, a);
    DecodeEncode(y, a);
  }

  // ---------------------------------------------------------------------------
  // Shape of the encoding

  /** Every encoded byte is an ASCII symbol of the alphabet or the pad. */
  lemma {:induction false} EncodeIsAscii(b: seq<Byte>, a: Alphabet)
    ensures forall i :: 0 <= i < |Encode(b, a)| ==> Encode(b, a)[i] < 0x80
    decreases |b|
  {
    if |b| >= 3 {
      EncodeIsAscii(b[3..], a);
    }
  }

  /** Four symbols for every started group of three bytes. */
  lemma {:induction false} EncodeLength(b: seq<Byte>, a: Alphabet)
    ensures |Encode(b, a)| == 4 * ((|b| + 2) / 3)
    decreases |b|
  {
    if |b| >= 3 {
      EncodeLength(b[3..], a);
    }
  }

  /** The first symbol carries the top six bits of the first byte. */
  lemma EncodeFirst(b: seq<Byte>, a: Alphabet)
    requires |b| > 0
    ensures |Encode(b, a)| > 0 && Encode(b, a)[0] == Symbol(b[0] / 4, a)
  {
  }

  // ---------------------------------------------------------------------------
  // Length bound of the decoder

  /** What the carried bits owe to the output, counted in quarter bytes. */
  function Owed(pos: nat): (r: nat)
  {
    if pos == 1 then 3 else if pos == 2 then 2 else if pos == 3 then 1 else 0
  }

  lemma {:induction false} RunLength(s: seq<Byte>, a: Alphabet, pos: nat, pads: nat, left: nat, out: seq<Byte>)
    requires pos < 4 && left < Spare(pos)
    requires Run(s, a, pos, pads, left, out).Some?
    ensures 4 * |Run(s, a, pos, pads, left, out).value| <= 4 * |out| + Owed(pos) + 3 * Ascii(s)
    decreases |s|
  {
    if s == [] {
    } else if s[0] == Pad {
      if !(pos >= 2 && pos + pads + 1 >= 4) {
        RunLength(s[1..], a, pos, if pos >= 2 then pads + 1 else pads, left, out);
      }
    } else {
      match Value(s[0], a)
      case None =>
        RunLength(s[1..], a, pos, pads, left, out);
      case Some(v) =>
        if pos == 0 {
          RunLength(s[1..], a, 1, 0, v, out);
        } else if pos == 1 {
          RunLength(s[1..], a, 2, 0, v % 16, out + [left * 4 + v / 16]);
        } else if pos == 2 {
          RunLength(s[1..], a, 3, 0, v % 4, out + [left * 16 + v / 4]);
        } else {
          RunLength(s[1..], a, 0, 0, 0, out + [left * 64 + v]);
        }
    }
  }

  /** Three bytes at most for every four ASCII bytes of input: the decoder only
      ever counts alphabet symbols, and those are ASCII. */
  lemma DecodeLength(s: seq<Byte>, a: Alphabet)
    requires Decode(s, a).Some?
    ensures 4 * |Decode(s, a).value| <= 3 * Ascii(s)
  {
    RunLength(s, a, 0, 0, 0, []);
  }
}
