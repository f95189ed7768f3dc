# RsaCryptoUtil: a Dafny model of the payload-security envelope cipher

This project models `RsaCryptoUtil`, the core of a small Node.js service that
turns a plaintext string into a transport-safe hybrid-encrypted envelope
`{data, iv, key}` and back. Each deployment environment (`DEV`, `STAGE`, `PROD`,
...) has its own RSA key pair.

The class has two halves, and the model has one module for each:

- **`EnvironmentRegistry`** (`registry.dfy`) is the static half. It is a read-only
  table from environment name to `{privateKey, publicKey}` with three operations:
  `createForEnvironment`, `getAvailableEnvironments` and
  `isEnvironmentConfigured`. The table comes from a configuration file that is
  not part of this model, so it is an arbitrary `Config`: the names in
  `Object.keys` order plus a map from name to value. An instance is the value
  `RsaCryptoUtil(privateKey, publicKey, environment)`; its fields are set once by
  the constructor and never change.
- **`HybridEnvelope`** (`envelope.dfy`) is the instance half, `encrypt` and `decrypt`:
  - AES-256-CBC encrypts the UTF-8 plaintext under a fresh 32-octet key and
    16-octet IV.
  - The IV is sent in the clear.
  - The AES key is sent as RSA(UTF-8(Base64(aesKey))) under RSAES-PKCS1-v1_5. This
    double encoding is the form the Java counterpart expects, and the model keeps
    it exactly (`WrappedKeyInput`).
  - Every field is Base64 text. Decrypt undoes the steps in reverse order.

Three supporting modules:

- **`Base64`** (`base64.dfy`): Base64 from section 4 of RFC 4648, written out
  in full. A strict decoder accepts exactly the encoder's outputs.
- **`Utf8`** (`utf8.dfy`): UTF-8 over Unicode scalar values, written out in full.
  A strict decoder accepts exactly the well-formed sequences.
- **`NodeCrypto`** (`node_crypto.dfy`): the calls into Node's `crypto` module and
  `Buffer`. AES-256-CBC with PKCS#7 padding (section 6.2 of NIST SP 800-38A and
  section 6.3 of RFC 5652) and RSAES-PKCS1-v1_5 (section 7.2 of RFC 8017) are
  function-valued fields of a `Platform` value. What the envelope relies on is
  stated as laws (`AesLaws`, `KeyPairLaws`), and the theorems take those laws as
  preconditions. The checks Node makes around the ciphers are written out: the
  IV and key lengths of `createCipheriv`/`createDecipheriv`, and the
  `mLen <= k - 11` limit of `publicEncrypt`.

`Base` (`base.dfy`) holds the shared types: octets, `Option` and `Result`.

Randomness is a parameter. `crypto.randomBytes(32)`, `crypto.randomBytes(16)`
and the random padding string PS that PKCS#1 v1.5 draws are arguments of
`Encrypt`, so both operations are functions. A thrown error is the `Err` case
of a `Result`.

Facts about the code that shape the model:

- `RSA_PKCS1_PADDING` is randomized: RSAES-PKCS1-v1_5 draws a fresh padding
  string (section 7.2.1 of RFC 8017), so `Encrypt` takes that string as a
  parameter and two encryptions of one plaintext need not agree.
- `isEnvironmentConfigured` returns `config && config.privateKey &&
  config.publicKey`, which is the public-key text when truthy. The model returns
  `Some(publicKey)` or `None`.
- The constructor (src/utils/RsaCryptoUtil.js:6-10) checks nothing; only the
  factory rejects an incomplete key pair. `decrypt` keeps its own
  `!this.privateKey` guard, and the model proves that instances built by the
  factory never reach it.
- `decrypt` checks neither the Base64 form of the fields nor the length of
  `key`. Node's decoders are lenient, and the length check happens inside
  OpenSSL's RSA decryption.

## Model

| member | source | states |
|---|---|---|
| EnvironmentRegistry.CreateForEnvironment | src/utils/RsaCryptoUtil.js:13-25 | An unlisted name fails with UnknownEnvironment carrying the list of names. A key error only occurs for a listed name. A listed name whose value is falsy is unknown too (line 16). A listed entry with both keys present always resolves. Success yields an instance holding exactly that entry's two keys, both non-empty, and the name. Every error names the requested environment. |
| EnvironmentRegistry.GetAvailableEnvironments | src/utils/RsaCryptoUtil.js:28-30 | Lists every name of the table, configured or not, each exactly once. |
| EnvironmentRegistry.IsEnvironmentConfigured | src/utils/RsaCryptoUtil.js:33-36 | The lookup goes through the prototype chain like line 34's. The value returned when truthy is a non-empty public-key text. |
| EnvironmentRegistry.ConfiguredIffCreates | src/utils/RsaCryptoUtil.js:33-36 | isEnvironmentConfigured is truthy exactly when createForEnvironment succeeds, for the corrected factory and for the factory as written. Its value is then the instance's public key. An unknown name is falsy, not an error. |
| EnvironmentRegistry.Join | src/utils/RsaCryptoUtil.js:17 | `available.join(', ')`: no parts give "", one part gives that part, more parts start with the first part and the separator, and the text ends with the last part. |
| EnvironmentRegistry.Message | src/utils/RsaCryptoUtil.js:17-21 | The unknown-name text is "Unknown environment: ", the name, ". Available: " and the names joined by ", " (line 17). The key error is "Keys not configured for environment: " followed by the name (line 21). |
| EnvironmentRegistry.ConfiguredAreListed | src/utils/RsaCryptoUtil.js:28-35 | Every configured environment appears in getAvailableEnvironments. |
| EnvironmentRegistry.PartialKeyPairRejected | src/utils/RsaCryptoUtil.js:20-22 | A listed entry missing either key fails with KeysNotConfigured and never yields a partial instance. |
| EnvironmentRegistry.PropertyLookup | src/utils/RsaCryptoUtil.js:14 | `environmentConfig[name]` finds an inherited member exactly when the name is not an own property but is a member of Object.prototype. |
| EnvironmentRegistry.CreateForEnvironmentAsWritten | src/utils/RsaCryptoUtil.js:13-25 | The factory as written, with prototype lookup. It too never yields an instance with a missing key. |
| EnvironmentRegistry.PrototypeNameMisreported | src/utils/RsaCryptoUtil.js:14-21 | As written, "toString" is reported as "Keys not configured" although it is not an environment. The corrected factory reports it as unknown. |
| EnvironmentRegistry.AsWrittenAgreesOffPrototype | src/utils/RsaCryptoUtil.js:14-18 | The as-written and corrected factories agree exactly on names that are own properties or not Object.prototype members. |
| EnvironmentRegistry.AsWrittenSucceedsAsCorrected | src/utils/RsaCryptoUtil.js:14-24 | The factory as written succeeds exactly when the corrected one does, with the same instance. So every fact about factory instances holds for the code as written. |
| HybridEnvelope.Message | src/utils/RsaCryptoUtil.js:117-119 | Every decrypt error text starts with "Decryption failed: ". Every encrypt error text starts with "Encryption failed: " (lines 73-75). |
| HybridEnvelope.CauseMessage | src/utils/RsaCryptoUtil.js:86-91 | The wrapped message. OpenSSL's reason passes through unchanged; every other cause (lines 87 and 91, Node's IV and key-length checks) has a non-empty text. |
| HybridEnvelope.CauseMessagesDistinct | src/utils/RsaCryptoUtil.js:86-91 | The fixed texts of different causes differ, so the message tells them apart. |
| HybridEnvelope.UnwrapKeyText | src/utils/RsaCryptoUtil.js:105 | RSA output that is well-formed UTF-8 of canonical Base64 is exactly the wrap of the key read from it. |
| HybridEnvelope.WrappedKeyInput | src/utils/RsaCryptoUtil.js:57-65 | The RSA input UTF-8(Base64(aesKey)) is 44 octets for a 32-octet key, and every octet is ASCII. |
| HybridEnvelope.UnwrapWrappedKey | src/utils/RsaCryptoUtil.js:104-105 | Reading the RSA output as UTF-8 and then as Base64 gives back exactly the AES key that encrypt wrapped. |
| HybridEnvelope.WrappedKeyFits | src/utils/RsaCryptoUtil.js:60-66 | The 44-octet key text satisfies mLen <= k - 11 exactly when the modulus has at least 55 octets. |
| HybridEnvelope.Encrypt | src/utils/RsaCryptoUtil.js:44-76 | Every failure is an EncryptionFailed caused inside Node's crypto module. It fails with "Invalid initialization vector" exactly when the IV is not 16 octets. On success the `iv` field is 24 characters and decodes to the IV. |
| HybridEnvelope.EncryptUnfolds | src/utils/RsaCryptoUtil.js:53-71 | The wire form when both ciphers accept: `data` is Base64(AES(UTF-8(plainText))), `iv` is Base64(iv) and `key` is Base64(RSA(UTF-8(Base64(aesKey)))), the form the Java counterpart reads. |
| HybridEnvelope.Decrypt | src/utils/RsaCryptoUtil.js:83-120 | Every failure, the field-validation failure included, is a DecryptionFailed. "Invalid initialization vector" only arises when the decoded `iv` is not 16 octets, "Invalid key length" only when it is. A "data too large" error never arises. |
| HybridEnvelope.EncryptSucceedsIff | src/utils/RsaCryptoUtil.js:47-66 | With a 32-octet key and 16-octet IV, encrypt succeeds exactly when the public key parses and its modulus has at least 55 octets. |
| HybridEnvelope.FieldSizes | src/utils/RsaCryptoUtil.js:47-71 | `iv` is 24 characters and decodes to 16 octets. `key` decodes to k octets. `data` decodes to whole 16-octet blocks, longer than the UTF-8 plaintext. |
| HybridEnvelope.DecryptValidatesFieldsFirst | src/utils/RsaCryptoUtil.js:86-88 | A missing `key`, `iv` or `data` gives "Missing required fields" whatever the ciphers, decoders and keys are, so no primitive is consulted. |
| HybridEnvelope.DecryptChecksPrivateKeySecond | src/utils/RsaCryptoUtil.js:90-92 | With all fields present, an instance without a private key fails with "Private key not initialized", again independently of every primitive. |
| HybridEnvelope.FactoryInstanceSkipsGuard | src/utils/RsaCryptoUtil.js:90-92 | The private-key guard is dead code for instances built by createForEnvironment, corrected or as written. |
| HybridEnvelope.RoundTrip | src/utils/RsaCryptoUtil.js:44-116 | For every plaintext, decrypt(encrypt(p)) == p, given the AES and RSA inverse laws, a private key and a modulus of at least 55 octets. The steps are undone in reverse order: RSA, UTF-8, Base64 for the key; then AES and UTF-8 for the data. |
| HybridEnvelope.EnvironmentRoundTrip | src/utils/RsaCryptoUtil.js:24-116 | The same round trip for every environment that either factory resolves. |
| HybridEnvelope.FreshRandomnessFreshFields | src/utils/RsaCryptoUtil.js:47-71 | Different IVs give different `iv` fields, and different AES keys give different `key` fields. |
| NodeCrypto.CheckCipherParameters | src/utils/RsaCryptoUtil.js:108-112 | The cipher is set up exactly when the key has 32 octets and the IV 16. |
| NodeCrypto.Cipher | src/utils/RsaCryptoUtil.js:53-55 | createCipheriv and update/final succeed exactly for a 32-octet key and a 16-octet IV. |
| NodeCrypto.Decipher | src/utils/RsaCryptoUtil.js:108-114 | A wrong-length IV fails with InvalidIv. A right IV with a wrong-length key fails with InvalidKeyLength. With both right, any failure is OpenSSL's own (Library). |
| NodeCrypto.PublicEncrypt | src/utils/RsaCryptoUtil.js:60-66 | publicEncrypt with PKCS#1 v1.5 padding succeeds exactly when the key parses and mLen <= k - 11. A key that does not parse gives OpenSSL's reason; MessageTooLong arises only for a parsed key. |
| NodeCrypto.FromBase64 | src/utils/RsaCryptoUtil.js:95 | On canonical Base64 text, `Buffer.from(s, 'base64')` gives the octets whose encoding the text is. |
| NodeCrypto.ToUtf8String | src/utils/RsaCryptoUtil.js:105 | On well-formed UTF-8, `buf.toString('utf8')` gives the string whose encoding the octets are. |
| NodeCrypto.AesLawAt | src/utils/RsaCryptoUtil.js:53-55 | Under the AES law the ciphertext is whole blocks, longer than the input, and decrypts back to it. |
| NodeCrypto.FromBase64Encode | src/utils/RsaCryptoUtil.js:95 | `Buffer.from(s, 'base64')` recovers exactly the octets that were encoded. |
| NodeCrypto.ToUtf8StringEncode | src/utils/RsaCryptoUtil.js:113-114 | Decoding UTF-8 recovers exactly the string that was encoded. |
| Base64.Encode | src/utils/RsaCryptoUtil.js:59 | The encoding of n octets has 4 * ceil(n / 3) characters, so a 32-octet key gives 44 characters. |
| Base64.DecodeEncode | src/utils/RsaCryptoUtil.js:105 | The strict decoder inverts the encoder. |
| Base64.EncodeDecode | src/utils/RsaCryptoUtil.js:111 | The strict decoder accepts only encodings: Decode(s) == Some(b) exactly when s == Encode(b). |
| Base64.EncodeInjective | src/utils/RsaCryptoUtil.js:70 | Distinct octet strings have distinct Base64 texts. |
| Base64.EncodeIsAscii | src/utils/RsaCryptoUtil.js:59 | Every character of an encoding is ASCII. |
| Utf8.Encode | src/utils/RsaCryptoUtil.js:54 | Each character becomes at least one octet, so n characters encode to at least n octets. Its inverse is Utf8.DecodeEncode. |
| Utf8.EncodeAtMostFour | src/utils/RsaCryptoUtil.js:54 | Each character becomes at most four octets, so n characters encode to at most 4n octets. |
| Utf8.DecodeEncode | src/utils/RsaCryptoUtil.js:54 | The strict decoder inverts the encoder for every string. |
| Utf8.EncodeDecode | src/utils/RsaCryptoUtil.js:105 | The strict decoder accepts only encodings: Decode(b) == Some(s) exactly when b == Encode(s). |
| Utf8.EncodeAscii | src/utils/RsaCryptoUtil.js:65 | ASCII text encodes to one octet per character, each octet the character's code. |

## Findings

| source | as written | input that shows it | evidently intended | confidence | as-written member | corrected member |
|---|---|---|---|---|---|---|
| src/utils/RsaCryptoUtil.js:14-21 | `environmentConfig[environment]` also finds members inherited from Object.prototype. They are truthy, so `!config` is false, and the key check then reports the name as an environment without keys. | `createForEnvironment('toString')` (or 'constructor', 'valueOf', ...) when no such environment exists gives "Keys not configured for environment: toString". | "Unknown environment: toString. Available: ..." (an own-property lookup) | high if `../config/env-keys-config.js` exports a plain object, but that file is not part of this model; not executed | EnvironmentRegistry.CreateForEnvironmentAsWritten, shown by EnvironmentRegistry.PrototypeNameMisreported | EnvironmentRegistry.CreateForEnvironment |

## Left out

- HybridEnvelope.Decrypt: for envelopes that encrypt did not produce, the model states only the order of the checks and the error wrapping. What the ciphers return for such input is left to the abstract primitives.
- HybridEnvelope.Encrypt: its own contract states the error wrapping and the `iv` field. The other field facts and the success condition are in FieldSizes and EncryptSucceedsIff.
- The AES block cipher, CBC chaining, PKCS#7 padding, RSA modular arithmetic, the PKCS#1 padding bytes and the CSPRNG are foreign library code. They are abstract functions with inverse laws; randomness is a parameter.
- Node's lenient decoders on malformed input: `Buffer.from(s, 'base64')` skips invalid characters, and `toString('utf8')` substitutes U+FFFD. The model decodes well-formed input exactly and uses an unspecified fallback otherwise. It claims no rejection of malformed Base64 or UTF-8.
- Plaintexts are sequences of Unicode scalar values. JavaScript strings can hold unpaired surrogates, which Node encodes as U+FFFD, so the round trip does not cover them.
- Node's StringDecoder joins the `update` and `final` chunks at lines 54-55 and 113-114. The model converts the whole output at once, which gives the same text for well-formed data.
- The exact OpenSSL error texts are not modelled. They are carried as `reason` strings: `Library(reason)`, and `MessageTooLong(reason)` taken from the platform's `tooLongReason`. OpenSSL's implicit-rejection mode for PKCS#1 v1.5 decryption is inside the abstract `decrypt`.
- HybridEnvelope.CauseMessage: Node's own texts for a wrong IV or key length ("Invalid initialization vector", "Invalid key length") are those of current Node releases. Older releases word them differently.
- A `null` or `undefined` envelope is not modelled. Reading `encryptedMap.key` at line 86 throws a TypeError, which is wrapped as a decryption failure. Any other non-object envelope (a string, number or boolean) has no such fields. It is the model's envelope with three empty fields and gets "Missing required fields", as in the source. A missing or falsy field is the empty string.
- Field values that are not strings are not modelled. `Buffer.from` accepts an array or array-like `key` or `iv` at lines 95 and 111, so the model cannot say what those decode to. `decipher.update` at line 113 decrypts a Buffer, TypedArray or DataView `data` as raw octets and ignores the `'base64'` encoding; even an empty Buffer passes the check at line 86, because objects are truthy. Any other non-string `data` throws a TypeError there, also wrapped as a decryption failure.
- The default argument `'DEV'` of createForEnvironment is not modelled; every caller in the repository passes a name.
- The contents of the environment configuration file are not part of this model; the table is an arbitrary fixed `Config`.
- Tamper detection, cross-environment isolation and the odds that two encryptions differ are probabilistic properties of the ciphers, so they are not stated. FreshRandomnessFreshFields states the deterministic part.
- The HTTP layer (server.js: routing, middleware, status codes, the JSON re-parse of decrypted text, logging, `details: error.stack`) and the browser tool (public/script.js) are glue around the core and are not modelled.
- Concurrency: the core keeps no mutable state besides the fixed table, so there is nothing to model.
