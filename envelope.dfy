/** The instance side of `RsaCryptoUtil`: hybrid encryption of a string into the
    three-field envelope `{data, iv, key}` and back.

    encrypt: AES-256-CBC over the UTF-8 octets of the plaintext under a fresh
    32-octet key and 16-octet IV; the IV travels in the clear; the AES key is
    protected as RSA(UTF-8(Base64(aesKey))) under RSAES-PKCS1-v1_5, the form the
    Java counterpart expects; every field is Base64 text.
    decrypt: the same steps undone in reverse order.

    The random key, IV and RSA padding string are parameters, so both operations
    are functions. Every failure is reported wrapped as "Encryption failed: ..."
    or "Decryption failed: ...". */
module HybridEnvelope {
  import opened Base
  import Base64
  import Utf8
  import opened NodeCrypto
  import opened EnvironmentRegistry

  /** The object encrypt returns and decrypt takes. A field that is missing or
      otherwise falsy is the empty string. */
  datatype EncryptedMap = EncryptedMap(data: string, iv: string, key: string)

  /** What went wrong inside encrypt or decrypt. */
  datatype Cause =
    | MissingRequiredFields
    | PrivateKeyNotInitialized
    | Crypto(error: CryptoError)

  /** The error encrypt or decrypt throws: the cause wrapped with the operation. */
  datatype CipherError = EncryptionFailed(cause: Cause) | DecryptionFailed(cause: Cause)

  /** The `message` of the error inside the wrapper: the code's own texts, Node's
      texts for its parameter checks, and OpenSSL's reason passed through. */
  function CauseMessage(c: Cause): (s: string)
    ensures s != "" <==> !(c.Crypto? && (c.error.MessageTooLong? || c.error.Library?) && c.error.reason == "")
    ensures c.Crypto? && (c.error.MessageTooLong? || c.error.Library?) ==> s == c.error.reason
  {
    match c
    case MissingRequiredFields => "Missing required fields: key, iv, or data"
    case PrivateKeyNotInitialized => "Private key not initialized"
    case Crypto(InvalidIv) => "Invalid initialization vector"
    case Crypto(InvalidKeyLength) => "Invalid key length"
    case Crypto(MessageTooLong(reason)) => reason
    case Crypto(Library(reason)) => reason
  }

  /** The causes whose text the code or Node fixes, rather than OpenSSL. */
  predicate FixedText(c: Cause)
  {
    !(c.Crypto? && (c.error.MessageTooLong? || c.error.Library?))
  }

  /** Each fixed cause has its own text, so the message tells them apart. */
  lemma CauseMessagesDistinct(c1: Cause, c2: Cause)
    requires FixedText(c1) && FixedText(c2) && c1 != c2
    ensures CauseMessage(c1) != CauseMessage(c2)
  {
  }

  /** The text of the error thrown, which always names the operation first. */
  function Message(e: CipherError): (s: string)
    ensures e.EncryptionFailed? ==> |s| >= 19 && s[..19] == "Encryption failed: "
    ensures e.DecryptionFailed? ==> |s| >= 19 && s[..19] == "Decryption failed: "
  {
    match e
    case EncryptionFailed(c) => "Encryption failed: " + CauseMessage(c)
    case DecryptionFailed(c) => "Decryption failed: " + CauseMessage(c)
  }

  /** The RSA input for an AES key: the UTF-8 octets of its Base64 text. A 32-octet
      key always gives 44 ASCII octets, each the code of a Base64 character. */
  function WrappedKeyInput(aesKey: Bytes): (r: Bytes)
    ensures |aesKey| == AesKeyLength ==> |r| == 44
    ensures forall i | 0 <= i < |r| :: r[i] < 0x80
  {
    var text := Base64.Encode(aesKey);
    Base64.EncodeIsAscii(aesKey);
    Utf8.EncodeAscii(text);
    Utf8.Encode(text)
  }

  /** decrypt's reading of the RSA output: UTF-8 text, then Base64 octets. Key
      text that is well-formed in both layers is the wrap of the key it gives. */
  function UnwrapKeyText(p: Platform, keyText: Bytes): (r: Bytes)
    ensures Utf8.Decode(keyText).Some? && Base64.Decode(Utf8.Decode(keyText).value).Some? ==>
              WrappedKeyInput(r) == keyText
  {
    FromBase64(p, ToUtf8String(p, keyText))
  }

  /** Reading back the RSA input gives the AES key, for every key. */
  lemma UnwrapWrappedKey(p: Platform, aesKey: Bytes)
    ensures UnwrapKeyText(p, WrappedKeyInput(aesKey)) == aesKey
  {
    ToUtf8StringEncode(p, Base64.Encode(aesKey));
    FromBase64Encode(p, aesKey);
  }

  /** The 44-octet RSA input fits under a key exactly when the modulus has at
      least 55 octets (mLen <= k - 11). */
  lemma WrappedKeyFits(aesKey: Bytes, k: nat)
    requires |aesKey| == AesKeyLength
    ensures |WrappedKeyInput(aesKey)| + Pkcs1Overhead <= k <==> k >= 55
  {
  }

  /** `util.encrypt(plainText)`, with `aesKey`, `iv` and `ps` the values that
      `crypto.randomBytes(32)`, `crypto.randomBytes(16)` and OpenSSL's padding
      draw. */
  function Encrypt(p: Platform, u: RsaCryptoUtil, plainText: string, aesKey: Bytes, iv: Bytes, ps: Bytes)
    : (r: Result<EncryptedMap, CipherError>)
    ensures r.Err? ==> r.error.EncryptionFailed?
    ensures r.Ok? ==> |r.value.iv| == 24 && FromBase64(p, r.value.iv) == iv
    ensures r.Err? ==> r.error.cause.Crypto?
    ensures (r.Err? && r.error.cause == Crypto(InvalidIv)) <==> |iv| != IvLength
  {
    match Cipher(p.aes, aesKey, iv, Utf8.Encode(plainText))
    case Err(e) => Err(EncryptionFailed(Crypto(e)))
    case Ok(ciphertext) =>
      match PublicEncrypt(p.rsa, u.publicKey, WrappedKeyInput(aesKey), ps)
      case Err(e) => Err(EncryptionFailed(Crypto(e)))
      case Ok(wrapped) =>
        FromBase64Encode(p, iv);
        Ok(EncryptedMap(Base64.Encode(ciphertext), Base64.Encode(iv), Base64.Encode(wrapped)))
  }

  /** `util.decrypt(encryptedMap)`. */
  function Decrypt(p: Platform, u: RsaCryptoUtil, m: EncryptedMap): (r: Result<string, CipherError>)
    ensures r.Err? ==> r.error.DecryptionFailed?
    // Node's parameter errors come only from the cipher set-up at lines 108-112
    ensures r == Err(DecryptionFailed(Crypto(InvalidIv))) ==> |FromBase64(p, m.iv)| != IvLength
    ensures r == Err(DecryptionFailed(Crypto(InvalidKeyLength))) ==> |FromBase64(p, m.iv)| == IvLength
    ensures r.Err? && r.error.cause.Crypto? ==> !r.error.cause.error.MessageTooLong?
  {
    if m.key == "" || m.iv == "" || m.data == "" then Err(DecryptionFailed(MissingRequiredFields))
    else if u.privateKey == "" then Err(DecryptionFailed(PrivateKeyNotInitialized))
    else
      match p.rsa.decrypt(u.privateKey, FromBase64(p, m.key))
      case Err(reason) => Err(DecryptionFailed(Crypto(Library(reason))))
      case Ok(keyText) =>
        match Decipher(p.aes, UnwrapKeyText(p, keyText), FromBase64(p, m.iv), FromBase64(p, m.data))
        case Err(e) => Err(DecryptionFailed(Crypto(e)))
        case Ok(plain) => Ok(ToUtf8String(p, plain))
  }

  /** The value encrypt returns when both ciphers accept their inputs. */
  lemma EncryptUnfolds(p: Platform, u: RsaCryptoUtil, plainText: string, aesKey: Bytes, iv: Bytes, ps: Bytes)
    requires |aesKey| == AesKeyLength && |iv| == IvLength
    requires PublicEncrypt(p.rsa, u.publicKey, WrappedKeyInput(aesKey), ps).Ok?
    ensures Encrypt(p, u, plainText, aesKey, iv, ps)
         == Ok(EncryptedMap(Base64.Encode(p.aes.encrypt(aesKey, iv, Utf8.Encode(plainText))),
                            Base64.Encode(iv),
                            Base64.Encode(p.rsa.encrypt(u.publicKey, WrappedKeyInput(aesKey), ps))))
  {
    assert Cipher(p.aes, aesKey, iv, Utf8.Encode(plainText)) == Ok(p.aes.encrypt(aesKey, iv, Utf8.Encode(plainText)));
    assert PublicEncrypt(p.rsa, u.publicKey, WrappedKeyInput(aesKey), ps)
        == Ok(p.rsa.encrypt(u.publicKey, WrappedKeyInput(aesKey), ps));
  }

  /** With fresh randomness of the right sizes, encrypt succeeds exactly when the
      public key parses and its modulus has at least 55 octets. */
  lemma EncryptSucceedsIff(p: Platform, u: RsaCryptoUtil, plainText: string, aesKey: Bytes, iv: Bytes, ps: Bytes)
    requires |aesKey| == AesKeyLength && |iv| == IvLength
    ensures Encrypt(p, u, plainText, aesKey, iv, ps).Ok?
        <==> p.rsa.modulusLength(u.publicKey).Ok? && p.rsa.modulusLength(u.publicKey).value >= 55
  {
    WrappedKeyFits(aesKey, if p.rsa.modulusLength(u.publicKey).Ok? then p.rsa.modulusLength(u.publicKey).value else 0);
  }

  /** The sizes on the wire: the IV field is 24 characters decoding to the 16-octet
      IV; the key field decodes to k octets, k the modulus length; the data field
      decodes to the padded ciphertext, a whole number of 16-octet blocks and
      more octets than the UTF-8 plaintext. */
  lemma FieldSizes(p: Platform, u: RsaCryptoUtil, plainText: string, aesKey: Bytes, iv: Bytes, ps: Bytes)
    requires AesLaws(p.aes) && KeyPairLaws(p.rsa, u.privateKey, u.publicKey)
    requires |aesKey| == AesKeyLength && |iv| == IvLength
    requires Encrypt(p, u, plainText, aesKey, iv, ps).Ok?
    ensures var e := Encrypt(p, u, plainText, aesKey, iv, ps).value;
      && |e.iv| == 24 && |FromBase64(p, e.iv)| == IvLength
      && |FromBase64(p, e.key)| == p.rsa.modulusLength(u.publicKey).value
      && |FromBase64(p, e.data)| % IvLength == 0
      && |Utf8.Encode(plainText)| < |FromBase64(p, e.data)|
  {
    var input := Utf8.Encode(plainText);
    var ciphertext := p.aes.encrypt(aesKey, iv, input);
    var wrapped := p.rsa.encrypt(u.publicKey, WrappedKeyInput(aesKey), ps);
    EncryptSucceedsIff(p, u, plainText, aesKey, iv, ps);
    EncryptUnfolds(p, u, plainText, aesKey, iv, ps);
    AesLawAt(p.aes, aesKey, iv, input);
    RsaLawAt(p.rsa, u.privateKey, u.publicKey, WrappedKeyInput(aesKey), ps);
    FromBase64Encode(p, ciphertext);
    FromBase64Encode(p, wrapped);
    FromBase64Encode(p, iv);
  }

  /** Field validation comes before anything else: an envelope with a missing
      field is rejected the same way whatever the ciphers and decoders are, so
      none of them is consulted. */
  lemma DecryptValidatesFieldsFirst(p1: Platform, p2: Platform, u1: RsaCryptoUtil, u2: RsaCryptoUtil, m: EncryptedMap)
    requires m.key == "" || m.iv == "" || m.data == ""
    ensures Decrypt(p1, u1, m) == Decrypt(p2, u2, m) == Err(DecryptionFailed(MissingRequiredFields))
  {
  }

  /** The private-key guard comes next, also before any cipher or decoder. */
  lemma DecryptChecksPrivateKeySecond(p1: Platform, p2: Platform, u: RsaCryptoUtil, m: EncryptedMap)
    requires m.key != "" && m.iv != "" && m.data != "" && u.privateKey == ""
    ensures Decrypt(p1, u, m) == Decrypt(p2, u, m) == Err(DecryptionFailed(PrivateKeyNotInitialized))
  {
  }

  /** An instance built by the factory, corrected or as written, never reaches the
      private-key guard's error. */
  lemma FactoryInstanceSkipsGuard(config: Config, environment: string, u: RsaCryptoUtil, p: Platform, m: EncryptedMap)
    requires CreateForEnvironment(config, environment) == Ok(u) || CreateForEnvironmentAsWritten(config, environment) == Ok(u)
    ensures Decrypt(p, u, m) != Err(DecryptionFailed(PrivateKeyNotInitialized))
  {
  }

  /** Round trip: decrypt undoes encrypt for every plaintext, given the inverse
      laws of the two ciphers, an instance with a private key, and a modulus of at
      least 55 octets. Decrypt reverses the steps: RSA, then UTF-8, then Base64 for
      the key, then AES and UTF-8 for the data. */
  lemma RoundTrip(p: Platform, u: RsaCryptoUtil, plainText: string, aesKey: Bytes, iv: Bytes, ps: Bytes)
    requires AesLaws(p.aes) && KeyPairLaws(p.rsa, u.privateKey, u.publicKey)
    requires u.privateKey != ""
    requires p.rsa.modulusLength(u.publicKey).value >= 55
    requires |aesKey| == AesKeyLength && |iv| == IvLength
    ensures Encrypt(p, u, plainText, aesKey, iv, ps).Ok?
    ensures Decrypt(p, u, Encrypt(p, u, plainText, aesKey, iv, ps).value) == Ok(plainText)
  {
    var input := Utf8.Encode(plainText);
    var ciphertext := p.aes.encrypt(aesKey, iv, input);
    var keyInput := WrappedKeyInput(aesKey);
    var wrapped := p.rsa.encrypt(u.publicKey, keyInput, ps);
    var e := EncryptedMap(Base64.Encode(ciphertext), Base64.Encode(iv), Base64.Encode(wrapped));
    WrappedKeyFits(aesKey, p.rsa.modulusLength(u.publicKey).value);
    EncryptUnfolds(p, u, plainText, aesKey, iv, ps);
    AesLawAt(p.aes, aesKey, iv, input);
    RsaLawAt(p.rsa, u.privateKey, u.publicKey, keyInput, ps);
    // every field is present
    assert e.data != "" && e.iv != "" && e.key != "";
    // key: Base64, RSA, UTF-8, Base64
    FromBase64Encode(p, wrapped);
    UnwrapWrappedKey(p, aesKey);
    // data: Base64, AES, UTF-8
    FromBase64Encode(p, iv);
    FromBase64Encode(p, ciphertext);
    assert Decipher(p.aes, aesKey, iv, ciphertext) == Ok(input);
    ToUtf8StringEncode(p, plainText);
  }

  /** Round trip for any environment either factory resolves, given that the
      configured key pair obeys the RSA law with a modulus of at least 55 octets. */
  lemma EnvironmentRoundTrip(config: Config, environment: string, u: RsaCryptoUtil, p: Platform, plainText: string,
                             aesKey: Bytes, iv: Bytes, ps: Bytes)
    requires CreateForEnvironment(config, environment) == Ok(u) || CreateForEnvironmentAsWritten(config, environment) == Ok(u)
    requires KeyPairLaws(p.rsa, u.privateKey, u.publicKey) && p.rsa.modulusLength(u.publicKey).value >= 55
    requires AesLaws(p.aes)
    requires |aesKey| == AesKeyLength && |iv| == IvLength
    ensures Encrypt(p, u, plainText, aesKey, iv, ps).Ok?
    ensures Decrypt(p, u, Encrypt(p, u, plainText, aesKey, iv, ps).value) == Ok(plainText)
  {
    RoundTrip(p, u, plainText, aesKey, iv, ps);
  }

  /** Fresh randomness shows on the wire: two encryptions with different IVs have
      different `iv` fields, and with different AES keys different `key` fields. */
  lemma FreshRandomnessFreshFields(p: Platform, u: RsaCryptoUtil, t1: string, t2: string,
                                   k1: Bytes, k2: Bytes, iv1: Bytes, iv2: Bytes, ps1: Bytes, ps2: Bytes)
    requires KeyPairLaws(p.rsa, u.privateKey, u.publicKey)
    requires |k1| == AesKeyLength && |k2| == AesKeyLength
    requires Encrypt(p, u, t1, k1, iv1, ps1).Ok? && Encrypt(p, u, t2, k2, iv2, ps2).Ok?
    ensures iv1 != iv2 ==> Encrypt(p, u, t1, k1, iv1, ps1).value.iv != Encrypt(p, u, t2, k2, iv2, ps2).value.iv
    ensures k1 != k2 ==> Encrypt(p, u, t1, k1, iv1, ps1).value.key != Encrypt(p, u, t2, k2, iv2, ps2).value.key
  {
    if iv1 != iv2 {
      FromBase64Encode(p, iv1);
      FromBase64Encode(p, iv2);
    }
    if k1 != k2 {
      var c1 := p.rsa.encrypt(u.publicKey, WrappedKeyInput(k1), ps1);
      var c2 := p.rsa.encrypt(u.publicKey, WrappedKeyInput(k2), ps2);
      UnwrapWrappedKey(p, k1);
      UnwrapWrappedKey(p, k2);
      assert WrappedKeyInput(k1) != WrappedKeyInput(k2);
      assert p.rsa.decrypt(u.privateKey, c1) == Ok(WrappedKeyInput(k1));
      assert p.rsa.decrypt(u.privateKey, c2) == Ok(WrappedKeyInput(k2));
      if Base64.Encode(c1) == Base64.Encode(c2) {
        Base64.EncodeInjective(c1, c2);
      }
    }
  }
}
