# CafeStore field encryption and the `fix_encrypted_data` command, in Dafny

CafeStore is a Django restaurant application. It stores customer and menu data
in encrypted model fields. Each stored value is an *envelope*: the standard
base64 text of a Fernet token, and the token is itself the url-safe base64 of
the sealed UTF-8 bytes of `str(value)`. This project models two parts of it:

- `Base_App/encryption.py`. This covers the five field classes (char, text,
  email, integer, positive integer), their shared mixin, and the helpers
  `encrypt_value` and `decrypt_value`.
- The `fix_encrypted_data` management command. It re-encrypts every set
  attribute of six tables and saves the records it touched, except in the
  `ItemList` pass. With `--dry-run` it only counts them.

Both layers are proved over every input.

## Layout

| file | module | what it holds |
|---|---|---|
| `wrappers.dfy` | `Wrappers` | `Option` |
| `bytes.dfy` | `Bytes` | bytes; a count of ASCII bytes |
| `base64.dfy` | `Base64` | RFC 4648 section 4 and 5 encoders; a decoder written as the state machine of CPython's non-strict `binascii.a2b_base64`, which skips non-alphabet bytes and stops at complete padding |
| `utf8.dfy` | `Utf8` | strict UTF-8, as Table 3-7 of the Unicode Standard defines well-formed sequences |
| `decimal.dfy` | `Decimal` | `str()` of an `int`, and `int()` of decimal text |
| `fernet.dfy` | `Fernet` | keys, the token layout, and the cipher as a parameter |
| `values.dfy` | `Values` | the Python values the fields see, exceptions, outcomes |
| `encryption.dfy` | `Encryption` | envelopes, key resolution, the helpers, the field class |
| `repair.dfy` | `Repair` | one attribute, one record and one table of the command; `handle` |

### The cipher

Fernet's AES-CBC and HMAC-SHA256 are not modelled. The cipher is a value
`Fernet.Cipher(seal, open)`, and `Fernet.Sound` states the four laws the
model relies on:

- `open(seal(p)) == Some(p)`.
- A sealed token has the Fernet layout. It is `73 + 16*(|p|/16)` bytes long, it
  starts with version byte `0x80`, and the next 24 bytes are the nonce
  (timestamp and IV).
- Any token `open` accepts is at least 73 bytes long and starts with `0x80`.
- A token opens only if it is exactly the sealing of its plaintext under the
  key, with the timestamp and IV it carries. Real Fernet meets this law
  exactly: the HMAC tag is a function of the rest of the token, CBC under a
  given IV is deterministic, and PKCS7 padding has one spelling. So a
  tampered token never opens.

Every lemma that needs the cipher takes `Fernet.Sound(c)` as a precondition.
`Fernet.SoundCanBeMet` exhibits a cipher that meets the laws, so that
precondition can be met. The random IV and the clock become the `Nonce`
argument of each encryption. In the command, `Env.draw` supplies a nonce per
model, record and attribute.

### The field class

`Encryption.EncryptedField` has its three fields fixed when it is built: the
kind, the cipher and the key. They are `const`, because the source never
updates them. The static method `Create` is `__init__`. The text kinds share
the mixin's `to_python` and `from_db_value`. The integer kinds override them.

### The command

In the command, each table is an `array<Row>`. A row pairs the instance in
memory with what the table stores, and only `save()` copies the one to the
other. `Repair.RunPass` is the loop over the records of one table. It calls
`Repair.RepairRecord`, which is the loop over one record's attributes. Both
are proved against the specification functions `PassRows`, `PassReport` and
`FixRecord`. The lemmas state the command's properties in terms of those
functions.

### Behaviour of the code that the model keeps

Where the code and its comments or its evident intent part ways, the model
follows the code. The lemmas below show where:

- An integer field's `from_db_value` catches only `ValueError` and `TypeError`.
  Fernet's `InvalidToken` is neither. So a stored string that is valid base64
  but not a token raises `InvalidToken` when it is read. One example is a
  legacy plaintext `"1500"`. See `IntegerReadOfShortText` and
  `LegacyPlaintextIntegers`.
- The positive integer field's `to_python` clamps negative plaintext at 0, but
  it does not clamp a negative number read from an envelope. See
  `PositiveClampSkipsEnvelopes`.
- A text field reads back what it writes unless the written string is itself
  an envelope under the field's key. Such a string is stored unchanged and
  reads back as the text it seals. This cannot happen for strings of at most
  130 characters. See `TextRoundTrip`, `ShortTextRoundTrip` and
  `EnvelopeTextReadsAsPlaintext`.
- The guard in `get_prep_value` that keeps an existing envelope is never
  reached from an integer field. `int()` refuses the envelope first, so
  writing a written integer raises `ValidationError`. See
  `IntegerWriteRefusesEnvelope`.
- The integer branches of the mixin (`encryption.py` lines 55-56 and 64-68) are
  never run, because both integer classes override those methods.
- A dry run changes nothing and completes. A real pass stops early only for
  two reasons:
  - the key does not resolve while an attribute is set;
  - in the `Items` pass, `int(price)` fails.
- The `ItemList` pass counts the records it re-encrypts but never saves them.

## Model

| member | source | states |
|---|---|---|
| `Base64.DecodeEncode` | Restaurant_Project/Base_App/encryption.py:44-53 | base64 decoding of an encoding gives back the bytes, in both alphabets |
| `Base64.EncodeInjective` | Restaurant_Project/Base_App/encryption.py:44-45 | equal encodings come from equal byte strings |
| `Base64.EncodeLength` | Restaurant_Project/Base_App/encryption.py:44-45 | an encoding has `4*ceil(n/3)` symbols |
| `Base64.EncodeIsAscii` | Restaurant_Project/Base_App/encryption.py:45 | an encoding is ASCII, so `.decode('utf-8')` cannot fail on it |
| `Base64.DecodeLength` | Restaurant_Project/Base_App/encryption.py:53 | what the non-strict decoder returns is at most 3 bytes per 4 ASCII bytes of input |
| `Utf8.DecodeEncode` | Restaurant_Project/Base_App/encryption.py:44-54 | `s.encode('utf-8').decode('utf-8') == s` for every string |
| `Utf8.DecodeEncodeOf` | Restaurant_Project/Base_App/encryption.py:54 | a byte string that decodes is the encoding of what it decodes to |
| `Utf8.AsciiRoundTrip` | Restaurant_Project/Base_App/encryption.py:45-53 | ASCII bytes decode one character per byte and re-encode to themselves |
| `Utf8.EncodeAscii` | Restaurant_Project/Base_App/encryption.py:53 | encoding `s` yields at most `len(s)` ASCII bytes |
| `Utf8.EncodeLonger` | Restaurant_Project/Base_App/encryption.py:44 | encoding `s` yields at least `len(s)` bytes |
| `Decimal.Parse` | Restaurant_Project/Base_App/encryption.py:103 | `int()` accepts only text that starts with a digit or a sign |
| `Decimal.ParseRender` | Restaurant_Project/Base_App/encryption.py:103-127 | `int(str(i)) == i` for every integer |
| `Fernet.DecryptAuthentic` | Restaurant_Project/Base_App/encryption.py:24 | a token that decrypts is the sealing, under the key, of the data it decrypts to, with the timestamp and IV it carries |
| `Fernet.DecryptEncrypt` | Restaurant_Project/Base_App/encryption.py:44-53 | a token decrypts, under the key that made it, to the data it encrypts |
| `Fernet.EncryptShape` | Restaurant_Project/Base_App/encryption.py:44 | a token is ASCII, has the length of the Fernet layout, and starts with 'g' |
| `Fernet.DecryptNeedsLength` | Restaurant_Project/Base_App/encryption.py:24 | a token that decrypts has at least 98 ASCII bytes |
| `Fernet.EncryptInjective` | Restaurant_Project/Base_App/encryption.py:44 | equal tokens have equal nonces and equal data |
| `Fernet.ParseKey` | Restaurant_Project/Base_App/encryption.py:17 | a key that parses is 32 bytes of url-safe base64 ASCII text; none parses from non-ASCII text |
| `Fernet.ParseGeneratedKey` | Restaurant_Project/Base_App/encryption.py:17 | the url-safe text of any 32-byte key parses back to that key |
| `Fernet.ShortKeyRefused` | Restaurant_Project/Base_App/encryption.py:17 | text shorter than 43 characters is not a key |
| `Fernet.SoundCanBeMet` | Restaurant_Project/Base_App/encryption.py:3 | some cipher meets the four laws the model assumes of Fernet |
| `Values.IntOfStrOfInt` | Restaurant_Project/Base_App/encryption.py:192 | `int(str(i)) == i` at the level of Python values |
| `Encryption.OpenSeal` | Restaurant_Project/Base_App/encryption.py:186-203 | an envelope opens, under the key that sealed it, to the sealed text |
| `Encryption.SealShape` | Restaurant_Project/Base_App/encryption.py:192-193 | an envelope has at least 136 characters, is longer than its text, and starts with 'Z' |
| `Encryption.SealInjective` | Restaurant_Project/Base_App/encryption.py:192-193 | equal envelopes seal equal texts with equal nonces |
| `Encryption.OpenAuthentic` | Restaurant_Project/Base_App/encryption.py:53-54 | a string opens only to a text whose UTF-8 bytes the raw token it holds seals under the key |
| `Encryption.ShortTextNeverOpens` | Restaurant_Project/Base_App/encryption.py:22-27 | no string of at most 130 characters is an envelope |
| `Encryption.FieldKey` | Restaurant_Project/Base_App/encryption.py:12-17 | a field raises `ImproperlyConfigured` exactly when the setting is missing, `None` or empty; otherwise its key is `Fernet(setting)` |
| `Encryption.HelperKey` | Restaurant_Project/Base_App/encryption.py:187-191 | the helpers raise `ImproperlyConfigured` exactly when no key is given and the setting is missing or empty; a given key is always used |
| `Encryption.HelperKeyIsFieldKey` | Restaurant_Project/Base_App/encryption.py:187-200 | without a key argument, the helpers use the key a field is built with |
| `Encryption.EncryptValue` | Restaurant_Project/Base_App/encryption.py:186-193 | `encrypt_value` raises exactly when the key does not resolve, with that exception |
| `Encryption.DecryptValue` | Restaurant_Project/Base_App/encryption.py:195-206 | `decrypt_value` raises exactly when the key does not resolve, with that exception |
| `Encryption.DecryptValueResult` | Restaurant_Project/Base_App/encryption.py:201-206 | `decrypt_value` returns its argument or the plaintext that argument opens to |
| `Encryption.HelperRoundTrip` | Restaurant_Project/Base_App/encryption.py:186-206 | `decrypt_value(encrypt_value(v)) == str(v)` |
| `Encryption.FreshEnvelopes` | Restaurant_Project/Base_App/encryption.py:191-193 | two encryptions of one value with different nonces differ, and both decrypt to the same text |
| `Encryption.HelperRoundTripExamples` | Restaurant_Project/test_encryption.py:26-43 | "Test Item Name" round-trips; 1500 round-trips to "1500" |
| `Encryption.EncryptedField.Create` | Restaurant_Project/Base_App/encryption.py:10-17 | `__init__` raises exactly when the key does not resolve; otherwise it yields a new field with that key |
| `Encryption.EncryptedField.EncryptedIsValidBase64` | Restaurant_Project/Base_App/encryption.py:19-36 | whatever `_is_encrypted` accepts, `_is_valid_base64` accepts |
| `Encryption.EncryptedField.GetPrepValue` | Restaurant_Project/Base_App/encryption.py:38-45 | `None` maps to `None`, an envelope is kept, and anything else becomes a string |
| `Encryption.EncryptedField.PrepValueEncrypts` | Restaurant_Project/Base_App/encryption.py:38-45 | what `get_prep_value` returns passes `_is_encrypted` and opens to `str(v)` unless `v` was an envelope |
| `Encryption.EncryptedField.PrepValueIdempotent` | Restaurant_Project/Base_App/encryption.py:41-42 | preparing a prepared value returns it unchanged |
| `Encryption.EncryptedField.TextFromDbValue` | Restaurant_Project/Base_App/encryption.py:47-59 | the mixin's `from_db_value` returns the stored value or the plaintext it opens to |
| `Encryption.EncryptedField.TextReadIsAuthentic` | Restaurant_Project/Base_App/encryption.py:47-59 | a text read that changes the stored value yields a text sealed under the field's key, never a corrupted one |
| `Encryption.EncryptedField.Clean` | Restaurant_Project/Base_App/encryption.py:89-95 | `clean` returns `None` for `None` and `int(value)` for anything it accepts |
| `Encryption.EncryptedField.TextReadNeverRaises` | Restaurant_Project/Base_App/encryption.py:47-59 | reading a text field never raises, and gives the plaintext exactly when the value opens |
| `Encryption.EncryptedField.TextRoundTrip` | Restaurant_Project/Base_App/encryption.py:71-81 | a text field reads back `to_python(v)` for what it writes, when `str(v)` is not an envelope |
| `Encryption.EncryptedField.ShortTextRoundTrip` | Restaurant_Project/Base_App/encryption.py:71-81 | a text field reads back `to_python(v)` whenever `str(v)` has at most 130 characters |
| `Encryption.EncryptedField.EnvelopeTextReadsAsPlaintext` | Restaurant_Project/Base_App/encryption.py:41-57 | an envelope written to a text field is stored unchanged and reads back as the different text it seals |
| `Encryption.EncryptedField.TextWriteIdempotent` | Restaurant_Project/Base_App/encryption.py:71-81 | writing a text field twice stores what writing it once stores |
| `Encryption.EncryptedField.IntegerWriteAccepts` | Restaurant_Project/Base_App/encryption.py:89-130 | an integer field accepts a write exactly when the value is `None` or `int()` succeeds (non-negative for the positive field), raises the class's `ValidationError` otherwise, and `clean` accepts the same values; `None` passes through `get_db_prep_value`, `from_db_value` and `to_python` unchanged |
| `Encryption.EncryptedField.IntegerRoundTrip` | Restaurant_Project/Base_App/encryption.py:97-130 | an accepted integer reads back as itself through both `from_db_value` and `to_python` |
| `Encryption.EncryptedField.IntegerWriteRefusesEnvelope` | Restaurant_Project/Base_App/encryption.py:122-130 | writing an envelope to an integer field raises `ValidationError` |
| `Encryption.EncryptedField.IntegerReadOfShortText` | Restaurant_Project/Base_App/encryption.py:111-120 | reading a short string raises `InvalidToken` if it is base64, and returns it otherwise |
| `Encryption.EncryptedField.IntegerReadCases` | Restaurant_Project/Base_App/encryption.py:111-120 | every case of the integer `from_db_value`: an integer, 0, `InvalidToken`, or the value unchanged |
| `Encryption.EncryptedField.IntegerToPythonOfEnvelope` | Restaurant_Project/Base_App/encryption.py:97-105 | `to_python` of an envelope gives the sealed integer, or else raises the class's `ValidationError` |
| `Encryption.EncryptedField.IntegerToPythonOfPlain` | Restaurant_Project/Base_App/encryption.py:148-161 | `to_python` of anything else gives `int()`, or 0 when `int()` fails; the positive field returns exactly `max(0, int())` |
| `Encryption.EncryptedField.LegacyPlaintextIntegers` | Restaurant_Project/Base_App/encryption.py:114-120 | a stored "1500" raises `InvalidToken` when read; a stored "12" reads back as the string |
| `Encryption.EncryptedField.PositiveClampSkipsEnvelopes` | Restaurant_Project/Base_App/encryption.py:151-159 | the positive field maps plaintext "-5" to 0 but reads an envelope of "-5" as -5 |
| `Repair.Model.TextFields` | Restaurant_Project/Base_App/management/commands/fix_encrypted_data.py:150-151 | the attributes each pass re-encrypts contain no duplicates and never include `price` |
| `Repair.FixText` | Restaurant_Project/Base_App/management/commands/fix_encrypted_data.py:48-60 | one attribute: a dry run changes nothing; a real run fails exactly when the key does not resolve, and otherwise stores `encrypt_value(decrypt_value(x))`; other attributes are unchanged |
| `Repair.FixPrice` | Restaurant_Project/Base_App/management/commands/fix_encrypted_data.py:75-86 | the price step counts the record and changes only `price`; a dry run changes nothing; a real run stores `int(decrypt_value(str(price)))`, else `int(price)`, else raises `NotAnInteger` |
| `Repair.FixFields` | Restaurant_Project/Base_App/management/commands/fix_encrypted_data.py:153-165 | the attribute loop changes only the attributes it visits, and never one that is empty or `None` |
| `Repair.FixRecord` | Restaurant_Project/Base_App/management/commands/fix_encrypted_data.py:44-86 | a record's repair changes only its text attributes and `price`, never an empty or `None` text attribute, and never a `None` price |
| `Repair.RepairRecord` | Restaurant_Project/Base_App/management/commands/fix_encrypted_data.py:153-165 | the loop over a record's attributes computes `FixRecord` |
| `Repair.RepairAttribute` | Restaurant_Project/Base_App/management/commands/fix_encrypted_data.py:154-165 | one turn of the attribute loop either ends the record's repair with the exception or continues from the instance it leaves |
| `Repair.FirstFailure` | Restaurant_Project/Base_App/management/commands/fix_encrypted_data.py:101-104 | the pass stops at the first record whose repair raises |
| `Repair.RunPass` | Restaurant_Project/Base_App/management/commands/fix_encrypted_data.py:36-104 | after the loop over a table, the table and the report are `PassRows` and `PassReport` of the old table |
| `Repair.Handle` | Restaurant_Project/Base_App/management/commands/fix_encrypted_data.py:18-34 | the six passes run in order, each over its own table, and each reports on its own |
| `Repair.DryRecord` | Restaurant_Project/Base_App/management/commands/fix_encrypted_data.py:53-60 | a dry repair changes nothing, raises nothing, and flags exactly the records with an attribute set |
| `Repair.RecordOutcome` | Restaurant_Project/Base_App/management/commands/fix_encrypted_data.py:44-92 | a real repair raises only for a key that does not resolve or, for `Items`, a bad price; otherwise it flags exactly the records with an attribute set |
| `Repair.RecordKeepsPlaintext` | Restaurant_Project/Base_App/management/commands/fix_encrypted_data.py:51-54 | a re-encrypted attribute decrypts to what the old value decrypted to |
| `Repair.PriceBecomesInteger` | Restaurant_Project/Base_App/management/commands/fix_encrypted_data.py:75-86 | a repaired `Items` price is `int(decrypt_value(str(price)))`, or `int(price)` when that raises; an integer price of at most 130 digits is kept |
| `Repair.ItemsPriceFailure` | Restaurant_Project/Base_App/management/commands/fix_encrypted_data.py:75-86 | an `Items` repair raises `NotAnInteger` exactly when the text attributes go through and neither `int()` of the decrypted price nor `int(price)` succeeds |
| `Repair.DryRunChangesNothing` | Restaurant_Project/Base_App/management/commands/fix_encrypted_data.py:88-92 | a dry run leaves the table unchanged and reports the number of records with an attribute set |
| `Repair.DryRunPredictsCount` | Restaurant_Project/Base_App/management/commands/fix_encrypted_data.py:88-92 | a real pass that completes reports the count the dry run reports |
| `Repair.PassFailure` | Restaurant_Project/Base_App/management/commands/fix_encrypted_data.py:101-104 | a real pass fails only for a key that does not resolve or, in `Items`, a bad price; with a good key every other pass completes |
| `Repair.PassStores` | Restaurant_Project/Base_App/management/commands/fix_encrypted_data.py:114-124 | a row keeps its stored attributes or stores the repaired instance; dry runs and the `ItemList` pass store nothing |
| `Repair.PassSavesCounted` | Restaurant_Project/Base_App/management/commands/fix_encrypted_data.py:88-90 | a completed saving pass stores every counted record and leaves every other row exactly as it was |
| `Repair.UntouchedRecord` | Restaurant_Project/Base_App/management/commands/fix_encrypted_data.py:48 | a record with no attribute set comes out of the repair unchanged |
| `Repair.PassKeepsPlaintext` | Restaurant_Project/Base_App/management/commands/fix_encrypted_data.py:153-169 | after a completed saving pass, every set text attribute is stored as an envelope of the text its old value decrypted to |

## Left out

- Fernet's cryptography is not modelled: AES-128-CBC, HMAC-SHA256, the `ttl` check and the token timestamp. The cipher is a parameter bound by `Fernet.Sound`. The IV from `os.urandom` and the clock become the `Nonce` argument.
- `Fernet.ParseKey` checks only the layout of a key (url-safe base64 of 32 bytes). It does not model the signing and encryption halves.
- `Decimal.Parse`: Python's `int()` also accepts surrounding whitespace, underscores between digits and non-ASCII digits. The model accepts only an optional sign followed by ASCII digits.
- `Base64.Decode`: the model follows the non-strict `a2b_base64` of CPython 3.11 and later. Older versions differ on excess data after padding.
- `Values.Value`: objects other than `None`, `str` and `int` are reduced to their `str()`, their truth value, and what `int()` makes of them: an integer, or a `ValueError`/`TypeError`. `bytes` values are not modelled.
- `Values.IntOf`: an object whose `int()` raises any other exception is not modelled, for example the `OverflowError` of `int(float('inf'))`. None of the `except (ValueError, TypeError)` clauses catches that exception (`encryption.py` lines 93, 108, 128, 144, 160 and 181, and the `int(item.price)` fallback of the `Items` pass). So `clean`, `to_python` and `get_db_prep_value` of both integer fields raise it, and the `Items` pass fails with it. In the model, `Encryption.EncryptedField.Clean`, `IntegerWriteAccepts`, `IntegerToPythonOfPlain`, `Repair.FixPrice` and `ItemsPriceFailure` describe a `ValueError`/`TypeError` failure, so they do not cover such values.
- Django's own machinery is not modelled: `CharField`/`EmailField` validation, `max_length`, `db_type`, querysets, transactions, and the `expression`, `connection` and `prepared` arguments. `save()` is modelled as storing the instance as it is.
- The command's output to `stdout` and the `print` in `decrypt_value` are left out. They change no state.
- `hasattr` is modelled as membership in the instance's attribute map.
- The mixin's integer branches in `from_db_value` and `to_python` (`encryption.py` lines 55-56 and 64-68) are left out. Both integer classes override those methods, so the branches never run.
- `Encryption.EncryptedField.TextRoundTrip`: it is stated only for a value whose `str()` is not an envelope. The round trip fails for envelopes, as `EnvelopeTextReadsAsPlaintext` shows.
- `Repair.PriceBecomesInteger`: the claim that an integer price is kept is stated for prices of at most 130 digits. Only then is `str(price)` provably not an envelope.
- `Decimal.Render` and `Decimal.Parse` have no limit on the number of digits. CPython's `int()` and `str()` raise `ValueError` on integers of more than 4300 digits, so `encrypt_value`, the integer `get_db_prep_value` and the integer `from_db_value` (which would return 0) differ from the model for such integers.
- Lone surrogates are not modelled. A Dafny `char` is a Unicode scalar value, so the `UnicodeEncodeError` that `str.encode('utf-8')` raises in `get_prep_value` and `encrypt_value` for a string holding one has no counterpart.
- A `FIELD_ENCRYPTION_KEY` given as `bytes`, which `Fernet()` also accepts, is not modelled. The key settings are text or absent.
