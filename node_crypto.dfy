/** The parts of Node's `crypto` module and `Buffer` that the envelope code calls.
    The block cipher, the RSA arithmetic and the padding bytes belong to OpenSSL;
    they are parameters here (fields of `Platform`), and what the envelope relies
    on them for is stated as laws (`AesLaws`, `KeyPairLaws`) that callers assume.
    The length checks Node itself performs around them are written out. */
module NodeCrypto {
  import opened Base
  import Base64
  import Utf8

  /** Octets in an AES-256 key (`crypto.randomBytes(32)`). */
  const AesKeyLength := 32
  /** Octets in a CBC initialization vector, the AES block size (`crypto.randomBytes(16)`). */
  const IvLength := 16
  /** Octets of overhead of RSAES-PKCS1-v1_5 (section 7.2.1 of RFC 8017): mLen <= k - 11. */
  const Pkcs1Overhead := 11

  /** What a call into Node's crypto module can throw. */
  datatype CryptoError =
    | InvalidIv                  // createCipheriv/createDecipheriv: IV not 16 octets
    | InvalidKeyLength           // createCipheriv/createDecipheriv: key not 32 octets
    | MessageTooLong(reason: string)  // publicEncrypt: mLen > k - 11, with OpenSSL's text
    | Library(reason: string)    // any other OpenSSL failure, with OpenSSL's own reason

  /** AES-256 in CBC mode with PKCS#7 padding (section 6.2 of NIST SP 800-38A,
      section 6.3 of RFC 5652): key, IV and input to output. Decryption fails
      with OpenSSL's reason (such as "bad decrypt") when the padding does not check. */
  datatype Aes256Cbc = Aes256Cbc(
    encrypt: (Bytes, Bytes, Bytes) -> Bytes,
    decrypt: (Bytes, Bytes, Bytes) -> Result<Bytes, string>)

  /** RSAES-PKCS1-v1_5 (section 7.2 of RFC 8017) keyed by PEM text. `modulusLength`
      parses a key and gives its modulus length k in octets; `encrypt` takes the
      public key, the message and the random nonzero padding string PS that the
      scheme draws; `decrypt` takes the private key and a ciphertext.
      `tooLongReason` is OpenSSL's text for a message that does not fit
      ("data too large for key size", formatted differently by each version). */
  datatype RsaPkcs1 = RsaPkcs1(
    modulusLength: string -> Result<nat, string>,
    tooLongReason: string,
    encrypt: (string, Bytes, Bytes) -> Bytes,
    decrypt: (string, Bytes) -> Result<Bytes, string>)

  /** Everything the envelope code calls that is not its own: the two ciphers and
      what Node's lenient decoders return for text that is not well-formed
      (Buffer.from(s, 'base64') skips stray characters, buf.toString('utf8')
      substitutes U+FFFD); on well-formed input those decoders are exact. */
  datatype Platform = Platform(
    aes: Aes256Cbc,
    rsa: RsaPkcs1,
    base64Fallback: string -> Bytes,
    utf8Fallback: Bytes -> string)

  /** The inverse law of AES-256-CBC: with a 32-octet key and a 16-octet IV,
      decryption undoes encryption, and PKCS#7 padding adds 1 to 16 octets to
      reach a whole number of blocks. */
  ghost predicate AesLaws(aes: Aes256Cbc)
  {
    forall key: Bytes, iv: Bytes, p: Bytes {:trigger aes.encrypt(key, iv, p)} ::
      |key| == AesKeyLength && |iv| == IvLength ==>
        && |aes.encrypt(key, iv, p)| == IvLength * (|p| / IvLength + 1)
        && aes.decrypt(key, iv, aes.encrypt(key, iv, p)) == Ok(p)
  }

  /** The inverse law of RSAES-PKCS1-v1_5 for a matching key pair: the public key
      parses, and every message of at most k - 11 octets encrypts, under any
      padding string, to k octets that the private key decrypts back. */
  ghost predicate KeyPairLaws(rsa: RsaPkcs1, privateKey: string, publicKey: string)
  {
    && rsa.modulusLength(publicKey).Ok?
    && var k := rsa.modulusLength(publicKey).value;
       forall m: Bytes, ps: Bytes {:trigger rsa.encrypt(publicKey, m, ps)} ::
         |m| + Pkcs1Overhead <= k ==>
           && |rsa.encrypt(publicKey, m, ps)| == k
           && rsa.decrypt(privateKey, rsa.encrypt(publicKey, m, ps)) == Ok(m)
  }

  /** The AES law at one input. */
  lemma AesLawAt(aes: Aes256Cbc, key: Bytes, iv: Bytes, input: Bytes)
    requires AesLaws(aes) && |key| == AesKeyLength && |iv| == IvLength
    ensures var c := aes.encrypt(key, iv, input);
      && |c| % IvLength == 0 && |input| < |c|
      && aes.decrypt(key, iv, c) == Ok(input)
  {
    var n := |input|;
    assert |aes.encrypt(key, iv, input)| == IvLength * (n / IvLength + 1);
    assert n == IvLength * (n / IvLength) + n % IvLength;
  }

  /** The RSA law at one message. */
  lemma RsaLawAt(rsa: RsaPkcs1, privateKey: string, publicKey: string, m: Bytes, ps: Bytes)
    requires KeyPairLaws(rsa, privateKey, publicKey)
    requires |m| + Pkcs1Overhead <= rsa.modulusLength(publicKey).value
    ensures var c := rsa.encrypt(publicKey, m, ps);
      |c| == rsa.modulusLength(publicKey).value && rsa.decrypt(privateKey, c) == Ok(m)
  {
  }

  /** The parameter checks of Node's Cipheriv/Decipheriv constructors for
      'aes-256-cbc': the IV length first, then the key length. */
  function CheckCipherParameters(key: Bytes, iv: Bytes): (r: Option<CryptoError>)
    ensures r.None? <==> |key| == AesKeyLength && |iv| == IvLength
  {
    if |iv| != IvLength then Some(InvalidIv)
    else if |key| != AesKeyLength then Some(InvalidKeyLength)
    else None
  }

  /** createCipheriv('aes-256-cbc', key, iv), then update and final. */
  function Cipher(aes: Aes256Cbc, key: Bytes, iv: Bytes, input: Bytes): (r: Result<Bytes, CryptoError>)
    ensures r.Ok? <==> |key| == AesKeyLength && |iv| == IvLength
  {
    match CheckCipherParameters(key, iv)
    case Some(e) => Err(e)
    case None => Ok(aes.encrypt(key, iv, input))
  }

  /** createDecipheriv('aes-256-cbc', key, iv), then update and final. */
  function Decipher(aes: Aes256Cbc, key: Bytes, iv: Bytes, input: Bytes): (r: Result<Bytes, CryptoError>)
    ensures |iv| != IvLength ==> r == Err(InvalidIv)
    ensures |iv| == IvLength && |key| != AesKeyLength ==> r == Err(InvalidKeyLength)
    // with right-sized parameters, only OpenSSL's own failures remain
    ensures |key| == AesKeyLength && |iv| == IvLength && r.Err? ==> r.error.Library?
  {
    match CheckCipherParameters(key, iv)
    case Some(e) => Err(e)
    case None =>
      match aes.decrypt(key, iv, input)
      case Err(reason) => Err(Library(reason))
      case Ok(plain) => Ok(plain)
  }

  /** crypto.publicEncrypt with RSA_PKCS1_PADDING: the key must parse, and the
      message must leave room for the padding (step 1 of section 7.2.1 of RFC 8017). */
  function PublicEncrypt(rsa: RsaPkcs1, publicKey: string, m: Bytes, ps: Bytes): (r: Result<Bytes, CryptoError>)
    ensures r.Ok? <==> rsa.modulusLength(publicKey).Ok? && |m| + Pkcs1Overhead <= rsa.modulusLength(publicKey).value
    // a key that does not parse gives OpenSSL's reason; only a parsed key can be too short
    ensures r.Err? ==> (r.error.MessageTooLong? <==> rsa.modulusLength(publicKey).Ok?)
    ensures r.Err? ==> r.error.MessageTooLong? || r.error.Library?
  {
    match rsa.modulusLength(publicKey)
    case Err(reason) => Err(Library(reason))
    case Ok(k) => if |m| + Pkcs1Overhead > k then Err(MessageTooLong(rsa.tooLongReason)) else Ok(rsa.encrypt(publicKey, m, ps))
  }

  /** Buffer.from(s, 'base64'): on canonical Base64 text, the octets whose
      encoding the text is. */
  function FromBase64(p: Platform, s: string): (r: Bytes)
    ensures Base64.Decode(s).Some? ==> Base64.Encode(r) == s
  {
    match Base64.Decode(s)
    case Some(b) => Base64.EncodeDecode(s); b
    case None => p.base64Fallback(s)
  }

  /** buf.toString('utf8'): on well-formed UTF-8, the string whose encoding the
      octets are. */
  function ToUtf8String(p: Platform, b: Bytes): (r: string)
    ensures Utf8.Decode(b).Some? ==> Utf8.Encode(r) == b
  {
    match Utf8.Decode(b)
    case Some(s) => Utf8.EncodeDecode(b); s
    case None => p.utf8Fallback(b)
  }

  /** Node's Base64 decoder recovers exactly what Base64 encoding was applied to,
      whatever it does with other text. */
  lemma FromBase64Encode(p: Platform, b: Bytes)
    ensures FromBase64(p, Base64.Encode(b)) == b
  {
    Base64.DecodeEncode(b);
  }

  /** Node's UTF-8 decoder recovers exactly the string that was encoded. */
  lemma ToUtf8StringEncode(p: Platform, s: string)
    ensures ToUtf8String(p, Utf8.Encode(s)) == s
  {
    Utf8.DecodeEncode(s);
  }
}
