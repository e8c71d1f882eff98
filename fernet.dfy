/** Fernet tokens as the `cryptography` package produces and checks them.
    The AES-128-CBC encryption and the HMAC-SHA256 tag are not modelled bit for
    bit: a `Cipher` is any pair of total functions on raw token bytes that obeys
    the laws of `Sound` (what the Fernet format guarantees about the layout of
    a token and about decrypting it). What the model does fix is the part the
    application depends on: the raw token is wrapped in url-safe base64, and a
    key is the url-safe base64 text of exactly 32 bytes. */
module Fernet {
  import opened Wrappers
  import opened Bytes
  import Base64
  import Utf8

  /** The 32 bytes of a key (16 signing bytes, then 16 encryption bytes). */
  type Key = k: seq<Byte> | |k| == 32 witness seq(32, _ => 0)

  /** What `encrypt` draws afresh on every call: the 8-byte big-endian
      timestamp read from the clock, then the 16-byte IV from `os.urandom`. */
  type Nonce = n: seq<Byte> | |n| == 24 witness seq(24, _ => 0)

  /** The version byte every token starts with. */
  const Version: Byte := 0x80

  /** Sealing and opening raw (not yet base64-encoded) tokens. `open` returns
      None where `decrypt` raises `InvalidToken`. */
  datatype Cipher = Cipher(seal: (Key, Nonce, seq<Byte>) -> seq<Byte>, open: (Key, seq<Byte>) -> Option<seq<Byte>>)

  /** The layout of a raw token for a nonce `n` and a plaintext of `len` bytes:
      the version byte, the timestamp and IV, one to sixteen bytes more than the
      plaintext of PKCS7-padded ciphertext, and the 32-byte tag. */
  predicate Layout(t: seq<Byte>, n: Nonce, len: nat)
  {
    |t| == 73 + 16 * (len / 16) && t[0] == Version && t[1..25] == n
  }

  /** The Fernet laws: a token opens, under the key that sealed it, to what
      was sealed; tokens have the Fernet layout; nothing shorter than the
      smallest token, or without the version byte, ever opens; and a token
      opens only if it is exactly what sealing its plaintext under the key
      with its own timestamp and IV gives (the HMAC tag is a function of the
      rest, CBC under a given IV is deterministic, and PKCS7 padding is
      canonical), so a tampered token never opens. */
  ghost predicate Sound(c: Cipher)
  {
    && (forall k: Key, n: Nonce, p: seq<Byte> :: c.open(k, c.seal(k, n, p)) == Some(p))
    && (forall k: Key, n: Nonce, p: seq<Byte> :: Layout(c.seal(k, n, p), n, |p|))
    && (forall k: Key, t: seq<Byte> :: c.open(k, t).Some? ==> |t| >= 73 && t[0] == Version)
    && (forall k: Key, t: seq<Byte> :: c.open(k, t).Some? ==> c.seal(k, t[1..25], c.open(k, t).value) == t)
  }

  /** `Fernet(key).encrypt(data)`, with the nonce it would draw. */
  function Encrypt(c: Cipher, k: Key, n: Nonce, data: seq<Byte>): (r: seq<Byte>)
  {
    Base64.Encode(c.seal(k, n, data), Base64.UrlSafe)
  }

  /** `Fernet(key).decrypt(token)` without a time-to-live; None is the
      `InvalidToken` it raises, for text that is not base64 as well as for a
      token that does not open. */
  function Decrypt(c: Cipher, k: Key, token: seq<Byte>): (r: Option<seq<Byte>>)
  {
    match Base64.Decode(token, Base64.UrlSafe)
    case None => None
    case Some(raw) => c.open(k, raw)
  }

  /** `Fernet(key)` for a key given as text: `urlsafe_b64decode` refuses text
      with a non-ASCII character, and the decoded key must be 32 bytes long;
      None is the `ValueError` the constructor raises. */
  function ParseKey(text: string): (r: Option<Key>)
    ensures r.Some? ==> Utf8.IsAscii(Utf8.Encode(text))
    ensures r.Some? ==> Base64.Decode(Utf8.Encode(text), Base64.UrlSafe) == Some(r.value)
  {
    var b := Utf8.Encode(text);
    if !Utf8.IsAscii(b) then None
    else
      match Base64.Decode(b, Base64.UrlSafe)
      case None => None
      case Some(raw) => if |raw| == 32 then Some(raw) else None
  }

  // ---------------------------------------------------------------------------
  // Properties

  /** A token decrypts, under the key that encrypted it, to the data. */
  lemma DecryptEncrypt(c: Cipher, k: Key, n: Nonce, data: seq<Byte>)
    requires Sound(c)
    ensures Decrypt(c, k, Encrypt(c, k, n, data)) == Some(data)
  {
    Base64.DecodeEncode(c.seal(k, n, data), Base64.UrlSafe);
  }

  /** A token is ASCII, its length is fixed by the length of the data, and it
      starts with 'g', the url-safe spelling of the version byte's top six bits. */
  lemma EncryptShape(c: Cipher, k: Key, n: Nonce, data: seq<Byte>)
    requires Sound(c)
    ensures Utf8.IsAscii(Encrypt(c, k, n, data))
    ensures |Encrypt(c, k, n, data)| == 4 * ((75 + 16 * (|data| / 16)) / 3)
    ensures Encrypt(c, k, n, data)[0] == 103  // 'g'
  {
    var raw := c.seal(k, n, data);
    assert Layout(raw, n, |data|);
    Base64.EncodeIsAscii(raw, Base64.UrlSafe);
    Base64.EncodeLength(raw, Base64.UrlSafe);
    Base64.EncodeFirst(raw, Base64.UrlSafe);
  }

  /** Only text with at least 98 ASCII bytes can decrypt: the smallest raw
      token has 73 bytes, and base64 spends four symbols on three bytes. */
  lemma DecryptNeedsLength(c: Cipher, k: Key, token: seq<Byte>)
    requires Sound(c)
    requires Decrypt(c, k, token).Some?
    ensures Ascii(token) >= 98
  {
    var raw := Base64.Decode(token, Base64.UrlSafe).value;
    assert c.open(k, raw).Some?;
    Base64.DecodeLength(token, Base64.UrlSafe);
  }

  /** A token that decrypts is, once url-safe decoded, the sealing of the data
      it decrypts to under the key, with the timestamp and IV it carries:
      decryption never yields data that was not sealed under the key. */
  lemma DecryptAuthentic(c: Cipher, k: Key, token: seq<Byte>)
    requires Sound(c)
    requires Decrypt(c, k, token).Some?
    ensures Base64.Decode(token, Base64.UrlSafe).Some?
    ensures var raw := Base64.Decode(token, Base64.UrlSafe).value;
      |raw| >= 73 && raw == c.seal(k, raw[1..25], Decrypt(c, k, token).value)
  {
    var raw := Base64.Decode(token, Base64.UrlSafe).value;
    assert c.open(k, raw).Some?;
  }

  /** Two tokens that are equal were made from the same nonce and the same data:
      encrypting the same data twice with fresh nonces never repeats a token. */
  lemma EncryptInjective(c: Cipher, k: Key, n1: Nonce, d1: seq<Byte>, n2: Nonce, d2: seq<Byte>)
    requires Sound(c)
    requires Encrypt(c, k, n1, d1) == Encrypt(c, k, n2, d2)
    ensures n1 == n2 && d1 == d2
  {
    Base64.EncodeInjective(c.seal(k, n1, d1), c.seal(k, n2, d2), Base64.UrlSafe);
    assert Layout(c.seal(k, n1, d1), n1, |d1|);
    assert Layout(c.seal(k, n2, d2), n2, |d2|);
    DecryptEncrypt(c, k, n1, d1);
    DecryptEncrypt(c, k, n2, d2);
  }

  /** The text of a key that `Fernet.generate_key` would produce (the url-safe
      base64 of 32 bytes) is accepted, and stands for those 32 bytes. */
  lemma ParseGeneratedKey(k: Key)
    ensures Utf8.IsAscii(Base64.Encode(k, Base64.UrlSafe))
    ensures ParseKey(Utf8.AsciiText(Base64.Encode(k, Base64.UrlSafe))) == Some(k)
  {
    var b := Base64.Encode(k, Base64.UrlSafe);
    Base64.EncodeIsAscii(k, Base64.UrlSafe);
    Utf8.AsciiRoundTrip(b);
    Base64.DecodeEncode(k, Base64.UrlSafe);
  }

  /** The decoded key is too short for any text of fewer than 43 ASCII
      characters, so such text is never a key. */
  lemma ShortKeyRefused(text: string)
    requires |text| < 43
    ensures ParseKey(text) == None
  {
    var b := Utf8.Encode(text);
    if Utf8.IsAscii(b) && Base64.Decode(b, Base64.UrlSafe).Some? {
      Base64.DecodeLength(b, Base64.UrlSafe);
      Utf8.EncodeAscii(text);
    }
  }

  // ---------------------------------------------------------------------------
  // The laws can be met

  /** PKCS7 padding to a whole number of 16-byte blocks. */
  function Pad16(p: seq<Byte>): (r: seq<Byte>)
    ensures |r| == 16 * (|p| / 16) + 16 && r[..|p|] == p
  {
    var m := 16 - |p| % 16;
    p + seq(m, _ => m)
  }

  /** Removing PKCS7 padding; None for padding that is not well formed. */
  function Unpad16(b: seq<Byte>): (r: Option<seq<Byte>>)
  {
    if |b| == 0 then None
    else
      var m := b[|b| - 1];
      if 1 <= m <= 16 && m <= |b| && (forall i :: |b| - m <= i < |b| ==> b[i] == m) then Some(b[..|b| - m])
      else None
  }

  lemma UnpadPad(p: seq<Byte>)
    ensures Unpad16(Pad16(p)) == Some(p)
  {
    var b := Pad16(p);
    var m := 16 - |p| % 16;
    assert b[|b| - 1] == m;
    assert b[..|b| - m] == p;
  }

  /** A cipher that keeps the Fernet layout but leaves the data in the clear
      under a constant tag; it shows that `Sound` can be met. */
  function ClearSeal(k: Key, n: Nonce, p: seq<Byte>): (r: seq<Byte>)
  {
    [Version] + n + Pad16(p) + seq(32, _ => 0)
  }

  /** Opening accepts exactly the tokens sealing would produce: the padding
      must be well formed and the token must be the sealing of what it holds. */
  function ClearOpen(k: Key, t: seq<Byte>): (r: Option<seq<Byte>>)
    ensures r.Some? ==> |t| >= 73 && t[0] == Version && ClearSeal(k, t[1..25], r.value) == t
  {
    if |t| >= 73 && t[0] == Version then
      match Unpad16(t[25..|t| - 32])
      case None => None
      case Some(p) => if ClearSeal(k, t[1..25], p) == t then Some(p) else None
    else None
  }

  lemma ClearOpenSeal(k: Key, n: Nonce, p: seq<Byte>)
    ensures Layout(ClearSeal(k, n, p), n, |p|)
    ensures ClearOpen(k, ClearSeal(k, n, p)) == Some(p)
  {
    var t := ClearSeal(k, n, p);
    assert t[1..25] == n;
    assert t[25..|t| - 32] == Pad16(p);
    UnpadPad(p);
  }

  lemma SoundCanBeMet()
    ensures Sound(Cipher(ClearSeal, ClearOpen))
  {
    var c := Cipher(ClearSeal, ClearOpen);
    forall k: Key, n: Nonce, p: seq<Byte>
      ensures c.open(k, c.seal(k, n, p)) == Some(p) && Layout(c.seal(k, n, p), n, |p|)
    {
      ClearOpenSeal(k, n, p);
    }
  }
}
