/** The encrypted model fields and the two helper functions of the
    application: values are stored as the standard base64 text of a Fernet
    token, itself the url-safe base64 of the sealed UTF-8 bytes of `str(v)`.
    One class stands for the five field classes, distinguished by `kind`; the
    key and the cipher are fixed when the field is built. */
module Encryption {
  import opened Wrappers
  import opened Bytes
  import opened Values
  import Base64
  import Utf8
  import Decimal
  import Fernet

  const FieldKeyMessage: string := "FIELD_ENCRYPTION_KEY must be set in settings for encrypted fields"
  const HelperKeyMessage: string := "FIELD_ENCRYPTION_KEY must be set in settings"

  // ---------------------------------------------------------------------------
  // Envelopes

  /** The envelope of `text`: `b64encode(fernet.encrypt(text.encode('utf-8')))`
      decoded back to text, for the nonce the Fernet call draws. */
  function Seal(c: Fernet.Cipher, k: Fernet.Key, n: Fernet.Nonce, text: string): (r: string)
  {
    var token := Fernet.Encrypt(c, k, n, Utf8.Encode(text));
    Base64.EncodeIsAscii(token, Base64.Standard);
    Utf8.AsciiText(Base64.Encode(token, Base64.Standard))
  }

  /** How far reading an envelope gets: the outer base64 does not decode, the
      Fernet token is refused, the plaintext is not UTF-8, or the plaintext. */
  datatype Opened = NotBase64 | Rejected | NotUtf8 | Plain(text: string)

  /** `fernet.decrypt(b64decode(s.encode('utf-8'))).decode('utf-8')`, step by step. */
  function Open(c: Fernet.Cipher, k: Fernet.Key, s: string): (r: Opened)
  {
    match Base64.Decode(Utf8.Encode(s), Base64.Standard)
    case None => NotBase64
    case Some(token) =>
      match Fernet.Decrypt(c, k, token)
      case None => Rejected
      case Some(data) =>
        match Utf8.Decode(data)
        case None => NotUtf8
        case Some(text) => Plain(text)
  }

  /** An envelope opens, under the key that sealed it, to the sealed text. */
  lemma OpenSeal(c: Fernet.Cipher, k: Fernet.Key, n: Fernet.Nonce, text: string)
    requires Fernet.Sound(c)
    ensures Open(c, k, Seal(c, k, n, text)) == Plain(text)
  {
    var token := Fernet.Encrypt(c, k, n, Utf8.Encode(text));
    var b := Base64.Encode(token, Base64.Standard);
    Base64.EncodeIsAscii(token, Base64.Standard);
    Utf8.AsciiRoundTrip(b);
    Base64.DecodeEncode(token, Base64.Standard);
    Fernet.DecryptEncrypt(c, k, n, Utf8.Encode(text));
    Utf8.DecodeEncode(text);
  }

  /** Every envelope is longer than its text, at least 136 characters long, and
      starts with 'Z' (the version byte 0x80 under two layers of base64). */
  lemma SealShape(c: Fernet.Cipher, k: Fernet.Key, n: Fernet.Nonce, text: string)
    requires Fernet.Sound(c)
    ensures |Seal(c, k, n, text)| >= 136
    ensures |Seal(c, k, n, text)| > |text|
    ensures Seal(c, k, n, text)[0] == 'Z'
  {
    var u := Utf8.Encode(text);
    var token := Fernet.Encrypt(c, k, n, u);
    var b := Base64.Encode(token, Base64.Standard);
    Fernet.EncryptShape(c, k, n, u);
    Base64.EncodeLength(token, Base64.Standard);
    Base64.EncodeFirst(token, Base64.Standard);
    Utf8.EncodeLonger(text);
    EnvelopeLength(|text|, |u|, |token|, |b|);
  }

  /** The arithmetic of `SealShape`: two layers of base64 around a token
      for `lu` bytes of plaintext. */
  lemma EnvelopeLength(lt: nat, lu: nat, lk: nat, lb: nat)
    requires lu >= lt
    requires lk == 4 * ((75 + 16 * (lu / 16)) / 3)
    requires lb == 4 * ((lk + 2) / 3)
    ensures lb >= 136 && lb > lt
  {
    var m := lu / 16;
    assert 16 * m > lu - 16;
    assert lk > lu && lk >= 100;
  }

  /** Two envelopes that are equal seal the same text with the same nonce;
      sealing the same text twice with fresh nonces never gives the same
      envelope. */
  lemma SealInjective(c: Fernet.Cipher, k: Fernet.Key, n1: Fernet.Nonce, t1: string, n2: Fernet.Nonce, t2: string)
    requires Fernet.Sound(c)
    requires Seal(c, k, n1, t1) == Seal(c, k, n2, t2)
    ensures n1 == n2 && t1 == t2
  {
    var token1 := Fernet.Encrypt(c, k, n1, Utf8.Encode(t1));
    var token2 := Fernet.Encrypt(c, k, n2, Utf8.Encode(t2));
    Base64.EncodeIsAscii(token1, Base64.Standard);
    Base64.EncodeIsAscii(token2, Base64.Standard);
    Utf8.AsciiRoundTrip(Base64.Encode(token1, Base64.Standard));
    Utf8.AsciiRoundTrip(Base64.Encode(token2, Base64.Standard));
    Base64.EncodeInjective(token1, token2, Base64.Standard);
    Fernet.EncryptInjective(c, k, n1, Utf8.Encode(t1), n2, Utf8.Encode(t2));
    Utf8.DecodeEncode(t1);
    Utf8.DecodeEncode(t2);
  }

  /** The raw Fernet token a stored string holds: its standard base64
      decoding, then the url-safe decoding of that. */
  function RawToken(s: string): (r: Option<seq<Byte>>)
  {
    match Base64.Decode(Utf8.Encode(s), Base64.Standard)
    case None => None
    case Some(token) => Base64.Decode(token, Base64.UrlSafe)
  }

  /** A string opens only if the raw token it holds is the sealing, under the
      key, of the UTF-8 bytes of the text it opens to: reading an envelope
      never yields a text that was not sealed under the key. */
  lemma OpenAuthentic(c: Fernet.Cipher, k: Fernet.Key, s: string)
    requires Fernet.Sound(c)
    requires Open(c, k, s).Plain?
    ensures RawToken(s).Some?
    ensures var raw := RawToken(s).value;
      |raw| >= 73 && raw == c.seal(k, raw[1..25], Utf8.Encode(Open(c, k, s).text))
  {
    var token := Base64.Decode(Utf8.Encode(s), Base64.Standard).value;
    var data := Fernet.Decrypt(c, k, token).value;
    Fernet.DecryptAuthentic(c, k, token);
    Utf8.DecodeEncodeOf(data);
  }

  /** No string of at most 130 characters gets past Fernet: its outer base64
      decodes to at most 97 bytes, fewer than the smallest token needs. */
  lemma ShortTextNeverOpens(c: Fernet.Cipher, k: Fernet.Key, s: string)
    requires Fernet.Sound(c)
    requires |s| <= 130
    ensures Open(c, k, s) == NotBase64 || Open(c, k, s) == Rejected
  {
    var b := Utf8.Encode(s);
    match Base64.Decode(b, Base64.Standard)
    case None =>
    case Some(token) =>
      if Fernet.Decrypt(c, k, token).Some? {
        Fernet.DecryptNeedsLength(c, k, token);
        Base64.DecodeLength(b, Base64.Standard);
        Utf8.EncodeAscii(s);
        assert false;
      }
  }

  // ---------------------------------------------------------------------------
  // Keys

  /** `Fernet(text)`, with its `ValueError` as `InvalidKey`. */
  function KeyOf(text: string): (r: Outcome<Fernet.Key>)
    ensures r.Ok? <==> Fernet.ParseKey(text).Some?
    ensures r.Ok? ==> r.value == Fernet.ParseKey(text).value
    ensures r.Raise? ==> r.error == InvalidKey
  {
    match Fernet.ParseKey(text)
    case None => Raise(InvalidKey)
    case Some(k) => Ok(k)
  }

  /** The key `__init__` builds a field with, from the `FIELD_ENCRYPTION_KEY`
      setting (None when it is missing or `None`). */
  function FieldKey(setting: Option<string>): (r: Outcome<Fernet.Key>)
    ensures r == Raise(ImproperlyConfigured(FieldKeyMessage)) <==> setting == None || setting == Some("")
    ensures setting.Some? && setting.value != "" ==> r == KeyOf(setting.value)
  {
    if setting == None || setting == Some("") then Raise(ImproperlyConfigured(FieldKeyMessage))
    else KeyOf(setting.value)
  }

  /** The key `encrypt_value` and `decrypt_value` use: the `key` argument when
      given (even the empty string), otherwise the setting. */
  function HelperKey(key: Option<string>, setting: Option<string>): (r: Outcome<Fernet.Key>)
    ensures r == Raise(ImproperlyConfigured(HelperKeyMessage)) <==> key == None && (setting == None || setting == Some(""))
    ensures key.Some? ==> r == KeyOf(key.value)
  {
    if key.Some? then KeyOf(key.value)
    else if setting == None || setting == Some("") then Raise(ImproperlyConfigured(HelperKeyMessage))
    else KeyOf(setting.value)
  }

  /** The helpers, called without a key, use the key a field is built with. */
  lemma HelperKeyIsFieldKey(setting: Option<string>)
    requires FieldKey(setting).Ok?
    ensures HelperKey(None, setting) == FieldKey(setting)
  {
  }

  // ---------------------------------------------------------------------------
  // The helpers

  /** `encrypt_value(value, key)`: the envelope of `str(value)`, with no test
      for a value that is already an envelope. */
  function EncryptValue(v: Value, key: Option<string>, setting: Option<string>, c: Fernet.Cipher, n: Fernet.Nonce): (r: Outcome<string>)
    ensures r.Raise? <==> HelperKey(key, setting).Raise?
    ensures r.Raise? ==> r.error == HelperKey(key, setting).error
  {
    match HelperKey(key, setting)
    case Raise(e) => Raise(e)
    case Ok(k) => Ok(Seal(c, k, n, StrOf(v)))
  }

  /** `decrypt_value(value, key)`: the plaintext of an envelope; any value
      that does not open (not a string, not base64, refused by Fernet, not
      UTF-8) comes back unchanged. Only resolving the key raises. */
  function DecryptValue(v: Value, key: Option<string>, setting: Option<string>, c: Fernet.Cipher): (r: Outcome<Value>)
    ensures r.Raise? <==> HelperKey(key, setting).Raise?
    ensures r.Raise? ==> r.error == HelperKey(key, setting).error
  {
    match HelperKey(key, setting)
    case Raise(e) => Raise(e)
    case Ok(k) =>
      if v.Str? && Open(c, k, v.s).Plain? then Ok(Str(Open(c, k, v.s).text)) else Ok(v)
  }

  /** What `decrypt_value` returns is either its argument or the plaintext
      that argument opens to. */
  lemma DecryptValueResult(v: Value, key: Option<string>, setting: Option<string>, c: Fernet.Cipher)
    requires HelperKey(key, setting).Ok?
    ensures DecryptValue(v, key, setting, c).Ok?
    ensures var r := DecryptValue(v, key, setting, c).value;
      r == v || (v.Str? && r.Str? && Open(c, HelperKey(key, setting).value, v.s) == Plain(r.s))
    ensures var r := DecryptValue(v, key, setting, c).value;
      r != v ==> Open(c, HelperKey(key, setting).value, v.s) == Plain(r.s)
  {
  }

  /** `decrypt_value(encrypt_value(v)) == str(v)`. */
  lemma HelperRoundTrip(v: Value, key: Option<string>, setting: Option<string>, c: Fernet.Cipher, n: Fernet.Nonce)
    requires Fernet.Sound(c)
    requires HelperKey(key, setting).Ok?
    ensures EncryptValue(v, key, setting, c, n).Ok?
    ensures DecryptValue(Str(EncryptValue(v, key, setting, c, n).value), key, setting, c) == Ok(Str(StrOf(v)))
  {
    OpenSeal(c, HelperKey(key, setting).value, n, StrOf(v));
  }

  /** Encrypting the same value twice gives two different envelopes (the
      nonces differ), and both decrypt to the same text. */
  lemma FreshEnvelopes(v: Value, key: Option<string>, setting: Option<string>, c: Fernet.Cipher, n1: Fernet.Nonce, n2: Fernet.Nonce)
    requires Fernet.Sound(c)
    requires HelperKey(key, setting).Ok?
    requires n1 != n2
    ensures EncryptValue(v, key, setting, c, n1) != EncryptValue(v, key, setting, c, n2)
    ensures DecryptValue(Str(EncryptValue(v, key, setting, c, n1).value), key, setting, c)
         == DecryptValue(Str(EncryptValue(v, key, setting, c, n2).value), key, setting, c)
  {
    var k := HelperKey(key, setting).value;
    if Seal(c, k, n1, StrOf(v)) == Seal(c, k, n2, StrOf(v)) {
      SealInjective(c, k, n1, StrOf(v), n2, StrOf(v));
    }
    HelperRoundTrip(v, key, setting, c, n1);
    HelperRoundTrip(v, key, setting, c, n2);
  }

  /** The two values the test script round-trips through the helpers. */
  lemma HelperRoundTripExamples(key: Option<string>, setting: Option<string>, c: Fernet.Cipher, n: Fernet.Nonce)
    requires Fernet.Sound(c)
    requires HelperKey(key, setting).Ok?
    ensures DecryptValue(Str(EncryptValue(Str("Test Item Name"), key, setting, c, n).value), key, setting, c) == Ok(Str("Test Item Name"))
    ensures DecryptValue(Str(EncryptValue(Int(1500), key, setting, c, n).value), key, setting, c) == Ok(Str("1500"))
  {
    HelperRoundTrip(Str("Test Item Name"), key, setting, c, n);
    HelperRoundTrip(Int(1500), key, setting, c, n);
    RenderPrice();
  }

  lemma RenderPrice()
    ensures StrOf(Int(1500)) == "1500"
  {
    assert Decimal.Digits(1) == "1";
    assert Decimal.Digits(15) == "15";
    assert Decimal.Digits(150) == "150";
  }

  // ---------------------------------------------------------------------------
  // The fields

  /** Which of the five field classes a field is. */
  datatype Kind = CharField | TextField | EmailField | IntegerField | PositiveIntegerField
  {
    predicate IsInteger()
    {
      IntegerField? || PositiveIntegerField?
    }

    function CleanMessage(): (r: string)
    {
      if PositiveIntegerField? then "Enter a valid positive integer." else "Enter a valid integer."
    }

    function ReadMessage(): (r: string)
    {
      if PositiveIntegerField? then "Invalid encrypted positive integer value." else "Invalid encrypted integer value."
    }

    function WriteMessage(): (r: string)
    {
      if PositiveIntegerField? then "Value must be a positive integer." else "Value must be an integer."
    }
  }

  class EncryptedField {
    const kind: Kind
    const cipher: Fernet.Cipher
    const key: Fernet.Key

    /** A field whose `__init__` found a usable key. */
    constructor (kind: Kind, cipher: Fernet.Cipher, key: Fernet.Key)
      ensures this.kind == kind && this.cipher == cipher && this.key == key
    {
      this.kind := kind;
      this.cipher := cipher;
      this.key := key;
    }

    /** `__init__`: a field cannot be built without a setting, or with a
        setting that is not a Fernet key. */
    static method Create(kind: Kind, setting: Option<string>, cipher: Fernet.Cipher) returns (r: Outcome<EncryptedField>)
      ensures r.Raise? <==> FieldKey(setting).Raise?
      ensures r.Raise? ==> r.error == FieldKey(setting).error
      ensures r.Ok? ==> fresh(r.value) && r.value.kind == kind && r.value.cipher == cipher && r.value.key == FieldKey(setting).value
    {
      match FieldKey(setting)
      case Raise(e) =>
        r := Raise(e);
      case Ok(k) =>
        var f := new EncryptedField(kind, cipher, k);
        r := Ok(f);
    }

    /** `_is_encrypted`: a string that Fernet decrypts (its plaintext need not
        be UTF-8). */
    predicate IsEncrypted(v: Value)
    {
      v.Str? && (Open(cipher, key, v.s).Plain? || Open(cipher, key, v.s).NotUtf8?)
    }

    /** `_is_valid_base64`: a string whose outer base64 decodes. */
    predicate IsValidBase64(v: Value)
    {
      v.Str? && Base64.IsValid(Utf8.Encode(v.s), Base64.Standard)
    }

    lemma EncryptedIsValidBase64(v: Value)
      ensures IsEncrypted(v) ==> IsValidBase64(v)
    {
    }

    /** `get_prep_value`, with the nonce the Fernet call draws: `None` stays
        `None`, an envelope is kept as it is, anything else is sealed. */
    function GetPrepValue(n: Fernet.Nonce, v: Value): (r: Value)
      ensures v.Null? <==> r.Null?
      ensures IsEncrypted(v) ==> r == v
      ensures !v.Null? ==> r.Str?
    {
      if v.Null? then Null
      else if IsEncrypted(v) then v
      else Str(Seal(cipher, key, n, StrOf(v)))
    }

    /** What `get_prep_value` stores is never plaintext: it passes
        `_is_encrypted`, and it opens to `str(v)` unless `v` was already an
        envelope. */
    lemma PrepValueEncrypts(n: Fernet.Nonce, v: Value)
      requires Fernet.Sound(cipher)
      requires !v.Null?
      ensures IsEncrypted(GetPrepValue(n, v))
      ensures !IsEncrypted(v) ==> Open(cipher, key, GetPrepValue(n, v).s) == Plain(StrOf(v))
    {
      if !IsEncrypted(v) {
        OpenSeal(cipher, key, n, StrOf(v));
      }
    }

    /** Preparing a prepared value changes nothing. */
    lemma PrepValueIdempotent(n1: Fernet.Nonce, n2: Fernet.Nonce, v: Value)
      requires Fernet.Sound(cipher)
      ensures GetPrepValue(n2, GetPrepValue(n1, v)) == GetPrepValue(n1, v)
    {
      if !v.Null? {
        PrepValueEncrypts(n1, v);
      }
    }

    /** The mixin's `to_python` on a text field: `str(value)`. */
    function TextToPython(v: Value): (r: Value)
      ensures v.Null? <==> r.Null?
      ensures !v.Null? ==> r == Str(StrOf(v))
    {
      if v.Null? then Null else Str(StrOf(v))
    }

    /** The mixin's `from_db_value` on a text field: the plaintext of a stored
        envelope; anything that does not open is returned as it is. */
    function TextFromDbValue(v: Value): (r: Value)
      ensures r == v || (v.Str? && r.Str? && Open(cipher, key, v.s) == Plain(r.s))
    {
      if v.Null? || !v.Str? then v
      else if !IsValidBase64(v) then v
      else
        match Open(cipher, key, v.s)
        case Plain(t) => Str(t)
        case _ => v
    }

    /** `to_python` of `EncryptedIntegerField` and of
        `EncryptedPositiveIntegerField`. */
    function IntegerToPython(v: Value): (r: Outcome<Value>)
    {
      if v.Null? then Ok(Null)
      else if IsEncrypted(v) then
        var o := Open(cipher, key, v.s);
        if o.Plain? && Decimal.Parse(o.text).Some? then Ok(Int(Decimal.Parse(o.text).value))
        else Raise(ValidationError(kind.ReadMessage()))
      else
        match IntOf(v)
        case None => Ok(Int(0))
        case Some(i) => Ok(Int(if kind.PositiveIntegerField? && i < 0 then 0 else i))
    }

    /** `from_db_value` of the two integer fields. Only `ValueError` and
        `TypeError` are caught, and Fernet's `InvalidToken` is neither, so a
        string that is base64 but not a token raises. */
    function IntegerFromDbValue(v: Value): (r: Outcome<Value>)
    {
      if v.Null? then Ok(Null)
      else if IsValidBase64(v) then
        var o := Open(cipher, key, v.s);
        if o.Plain? then
          match Decimal.Parse(o.text)
          case None => Ok(Int(0))
          case Some(i) => Ok(Int(i))
        else if o.NotUtf8? then Ok(Int(0))
        else Raise(InvalidToken)
      else Ok(v)
    }

    /** `get_db_prep_value` of the two integer fields: `int(value)`, refused
        when negative in a positive field, then `get_prep_value`. */
    function IntegerGetDbPrepValue(n: Fernet.Nonce, v: Value): (r: Outcome<Value>)
    {
      if v.Null? then Ok(Null)
      else
        match IntOf(v)
        case None => Raise(ValidationError(kind.WriteMessage()))
        case Some(i) =>
          if kind.PositiveIntegerField? && i < 0 then Raise(ValidationError(kind.WriteMessage()))
          else Ok(GetPrepValue(n, Int(i)))
    }

    /** `clean` of the two integer fields. */
    function Clean(v: Value): (r: Outcome<Value>)
      requires kind.IsInteger()
      ensures r.Ok? ==> (v.Null? && r.value == Null) || (IntOf(v).Some? && r.value == Int(IntOf(v).value))
    {
      if v.Null? then Ok(Null)
      else
        match IntOf(v)
        case None => Raise(ValidationError(kind.CleanMessage()))
        case Some(i) =>
          if kind.PositiveIntegerField? && i < 0 then Raise(ValidationError(kind.CleanMessage()))
          else Ok(Int(i))
    }

    /** `to_python` of the field class. */
    function ToPython(v: Value): (r: Outcome<Value>)
    {
      if kind.IsInteger() then IntegerToPython(v) else Ok(TextToPython(v))
    }

    /** `from_db_value` of the field class. */
    function FromDbValue(v: Value): (r: Outcome<Value>)
    {
      if kind.IsInteger() then IntegerFromDbValue(v) else Ok(TextFromDbValue(v))
    }

    /** `get_db_prep_value` of the field class. */
    function GetDbPrepValue(n: Fernet.Nonce, v: Value): (r: Outcome<Value>)
    {
      if kind.IsInteger() then IntegerGetDbPrepValue(n, v) else Ok(GetPrepValue(n, TextToPython(v)))
    }

    // -------------------------------------------------------------------------
    // Text fields

    /** Reading a text field never raises, and gives back the stored value
        or the text it opens to. */
    lemma TextReadNeverRaises(v: Value)
      requires !kind.IsInteger()
      ensures FromDbValue(v) == Ok(if v.Str? && Open(cipher, key, v.s).Plain? then Str(Open(cipher, key, v.s).text) else v)
    {
    }

    /** A text field reads back `str(v)` for every value it writes, unless
        `str(v)` is itself an envelope under the field's key. */
    lemma TextRoundTrip(n: Fernet.Nonce, v: Value)
      requires Fernet.Sound(cipher)
      requires !kind.IsInteger()
      requires v.Null? || !IsEncrypted(Str(StrOf(v)))
      ensures GetDbPrepValue(n, v).Ok?
      ensures FromDbValue(GetDbPrepValue(n, v).value) == Ok(TextToPython(v))
    {
      if !v.Null? {
        PrepValueEncrypts(n, Str(StrOf(v)));
      }
    }

    /** Strings of at most 130 characters always survive a write and a read. */
    lemma ShortTextRoundTrip(n: Fernet.Nonce, v: Value)
      requires Fernet.Sound(cipher)
      requires !kind.IsInteger()
      requires |StrOf(v)| <= 130
      ensures FromDbValue(GetDbPrepValue(n, v).value) == Ok(TextToPython(v))
    {
      ShortTextNeverOpens(cipher, key, StrOf(v));
      TextRoundTrip(n, v);
    }

    /** The other side of `TextRoundTrip`: a string that is an envelope under
        the field's key is stored as it is and reads back as the text it
        seals, which differs from it. */
    lemma EnvelopeTextReadsAsPlaintext(n: Fernet.Nonce, m: Fernet.Nonce, t: string)
      requires Fernet.Sound(cipher)
      requires !kind.IsInteger()
      ensures GetDbPrepValue(n, Str(Seal(cipher, key, m, t))) == Ok(Str(Seal(cipher, key, m, t)))
      ensures FromDbValue(GetDbPrepValue(n, Str(Seal(cipher, key, m, t))).value) == Ok(Str(t))
      ensures t != Seal(cipher, key, m, t)
    {
      OpenSeal(cipher, key, m, t);
      SealShape(cipher, key, m, t);
    }

    /** A read that changes the stored value yields a text sealed under the
        field's key: the raw token the value holds is that sealing. */
    lemma TextReadIsAuthentic(v: Value)
      requires Fernet.Sound(cipher)
      requires !kind.IsInteger()
      requires FromDbValue(v) != Ok(v)
      ensures v.Str? && FromDbValue(v).value.Str? && RawToken(v.s).Some?
      ensures var raw := RawToken(v.s).value;
        |raw| >= 73 && raw == cipher.seal(key, raw[1..25], Utf8.Encode(FromDbValue(v).value.s))
    {
      OpenAuthentic(cipher, key, v.s);
    }

    /** Writing a text field twice stores what writing it once stores. */
    lemma TextWriteIdempotent(n1: Fernet.Nonce, n2: Fernet.Nonce, v: Value)
      requires Fernet.Sound(cipher)
      requires !kind.IsInteger()
      ensures GetDbPrepValue(n2, GetDbPrepValue(n1, v).value) == GetDbPrepValue(n1, v)
    {
      if !v.Null? {
        PrepValueEncrypts(n1, TextToPython(v));
      }
    }

    // -------------------------------------------------------------------------
    // Integer fields

    /** An integer field accepts exactly the values `int()` turns into an
        integer (a non-negative one for the positive field), with the
        class's message otherwise, and `clean` draws the same line. */
    lemma IntegerWriteAccepts(n: Fernet.Nonce, v: Value)
      requires kind.IsInteger()
      ensures GetDbPrepValue(n, v).Ok? <==> v.Null? || (IntOf(v).Some? && (kind.PositiveIntegerField? ==> IntOf(v).value >= 0))
      ensures GetDbPrepValue(n, v).Raise? ==> GetDbPrepValue(n, v).error == ValidationError(kind.WriteMessage())
      ensures Clean(v).Ok? <==> GetDbPrepValue(n, v).Ok?
      ensures Clean(v).Raise? ==> Clean(v).error == ValidationError(kind.CleanMessage())
      ensures GetDbPrepValue(n, Null) == Ok(Null) && FromDbValue(Null) == Ok(Null) && ToPython(Null) == Ok(Null)
    {
    }

    /** An integer that an integer field accepts reads back as that integer,
        through `from_db_value` and through `to_python` alike. */
    lemma IntegerRoundTrip(n: Fernet.Nonce, v: Value)
      requires Fernet.Sound(cipher)
      requires kind.IsInteger()
      requires IntOf(v).Some?
      requires kind.PositiveIntegerField? ==> IntOf(v).value >= 0
      ensures GetDbPrepValue(n, v).Ok?
      ensures FromDbValue(GetDbPrepValue(n, v).value) == Ok(Int(IntOf(v).value))
      ensures ToPython(GetDbPrepValue(n, v).value) == Ok(Int(IntOf(v).value))
    {
      var i := IntOf(v).value;
      OpenSeal(cipher, key, n, Decimal.Render(i));
      Decimal.ParseRender(i);
    }

    /** Unlike a text field, an integer field refuses its own envelopes:
        `int()` of an envelope fails (it starts with 'Z'), so writing a
        written value raises. */
    lemma IntegerWriteRefusesEnvelope(n: Fernet.Nonce, m: Fernet.Nonce, t: string)
      requires Fernet.Sound(cipher)
      requires kind.IsInteger()
      ensures GetDbPrepValue(n, Str(Seal(cipher, key, m, t))) == Raise(ValidationError(kind.WriteMessage()))
    {
      SealShape(cipher, key, m, t);
    }

    /** Reading an integer field raises `InvalidToken` for a short string that
        is base64 (such as a legacy plaintext "1500"), and returns any other
        short string unchanged. */
    lemma IntegerReadOfShortText(s: string)
      requires Fernet.Sound(cipher)
      requires kind.IsInteger()
      requires |s| <= 130
      ensures FromDbValue(Str(s)) == if IsValidBase64(Str(s)) then Raise(InvalidToken) else Ok(Str(s))
    {
      ShortTextNeverOpens(cipher, key, s);
    }

    /** Reading an integer field: an envelope of decimal text gives its
        integer; base64 whose plaintext is not decimal text or not UTF-8 gives
        0; base64 Fernet refuses raises `InvalidToken`; anything else that is
        not `None` comes back as it is. */
    lemma IntegerReadCases(v: Value)
      requires kind.IsInteger()
      requires !v.Null?
      ensures !IsValidBase64(v) ==> FromDbValue(v) == Ok(v)
      ensures IsValidBase64(v) && Open(cipher, key, v.s).Plain? && Decimal.Parse(Open(cipher, key, v.s).text).Some? ==>
        FromDbValue(v) == Ok(Int(Decimal.Parse(Open(cipher, key, v.s).text).value))
      ensures IsValidBase64(v) && Open(cipher, key, v.s).Plain? && Decimal.Parse(Open(cipher, key, v.s).text).None? ==>
        FromDbValue(v) == Ok(Int(0))
      ensures IsValidBase64(v) && Open(cipher, key, v.s).NotUtf8? ==> FromDbValue(v) == Ok(Int(0))
      ensures IsValidBase64(v) && Open(cipher, key, v.s).Rejected? ==> FromDbValue(v) == Raise(InvalidToken)
      ensures IsValidBase64(v) ==> !Open(cipher, key, v.s).NotBase64?
    {
    }

    /** `to_python` of an envelope is the integer it seals, or a
        `ValidationError`; the positive field does not clamp it. */
    lemma IntegerToPythonOfEnvelope(v: Value)
      requires kind.IsInteger()
      requires IsEncrypted(v)
      ensures ToPython(v).Ok? <==> Open(cipher, key, v.s).Plain? && Decimal.Parse(Open(cipher, key, v.s).text).Some?
      ensures ToPython(v).Ok? ==> ToPython(v).value == Int(Decimal.Parse(Open(cipher, key, v.s).text).value)
      ensures ToPython(v).Raise? ==> ToPython(v).error == ValidationError(kind.ReadMessage())
    {
    }

    /** `to_python` of anything but an envelope never raises: it is `int()`,
        or 0 when `int()` fails, clamped at 0 in the positive field. */
    lemma IntegerToPythonOfPlain(v: Value)
      requires kind.IsInteger()
      requires !v.Null? && !IsEncrypted(v)
      ensures ToPython(v).Ok? && ToPython(v).value.Int?
      ensures IntOf(v).None? ==> ToPython(v).value == Int(0)
      ensures IntOf(v).Some? ==> ToPython(v) == Ok(Int(if kind.PositiveIntegerField? && IntOf(v).value < 0 then 0 else IntOf(v).value))
    {
    }

    /** Legacy plaintext in an integer column: "1500" is base64, so reading
        it raises `InvalidToken`; "12" is not, and comes back as the string. */
    lemma LegacyPlaintextIntegers()
      requires Fernet.Sound(cipher)
      requires kind.IsInteger()
      ensures FromDbValue(Str("1500")) == Raise(InvalidToken)
      ensures FromDbValue(Str("12")) == Ok(Str("12"))
    {
      assert Utf8.Encode("1500") == [49, 53, 48, 48];
      assert Utf8.Encode("12") == [49, 50];
      assert Base64.Decode([49, 53, 48, 48], Base64.Standard).Some?;
      assert Base64.Decode([49, 50], Base64.Standard) == None;
      IntegerReadOfShortText("1500");
      IntegerReadOfShortText("12");
    }

    /** The positive field clamps a negative plaintext to 0 but returns a
        negative number sealed in an envelope as it is. */
    lemma PositiveClampSkipsEnvelopes(n: Fernet.Nonce)
      requires Fernet.Sound(cipher)
      requires kind.PositiveIntegerField?
      ensures ToPython(Str("-5")) == Ok(Int(0))
      ensures ToPython(Str(Seal(cipher, key, n, "-5"))) == Ok(Int(-5))
    {
      assert Decimal.Parse("-5") == Some(-5) by {
        assert "-5"[1..] == "5";
      }
      ShortTextNeverOpens(cipher, key, "-5");
      OpenSeal(cipher, key, n, "-5");
    }
  }
}
