/**
 * EncryptionService: the envelope plumbing around Web Crypto. AES-GCM,
 * SHA-256, the UTF-8 text codec and the random generator belong to the
 * browser; they enter the model as the fields of a WebCrypto value and as a
 * per-call random source, and the model states what the service does around
 * them: the byte/binary-string loops, Base64, the 12-byte IV and the hex
 * rendering of digests.
 */
module Encryption {
  import opened Wrappers
  import Base64
  import Hex

  /** The 96-bit AES-GCM IV. */
  const IvLength: nat := 12

  /** The DOMException names the service's promises reject with. */
  datatype DomError = InvalidCharacterError | InvalidAccessError | OperationError

  /**
   * The rejections of crypto.subtle.encrypt and decrypt: InvalidAccessError
   * for a key of the wrong algorithm or usage, OperationError for a failed
   * operation (for decrypt, a ciphertext that does not authenticate).
   */
  type CryptoError = e: DomError | !e.InvalidCharacterError? witness OperationError

  /** The browser primitives the service calls, over an opaque key type K. */
  datatype WebCrypto<!K> = WebCrypto(
    // crypto.subtle.encrypt({name: 'AES-GCM', iv}, key, data)
    encrypt: (K, seq<Byte>, seq<Byte>) -> Result<seq<Byte>, CryptoError>,
    // crypto.subtle.decrypt({name: 'AES-GCM', iv}, key, data)
    decrypt: (K, seq<Byte>, seq<Byte>) -> Result<seq<Byte>, CryptoError>,
    // crypto.subtle.digest('SHA-256', data)
    digest: seq<Byte> -> seq<Byte>,
    // TextEncoder.encode and TextDecoder.decode
    encodeUtf8: string -> seq<Byte>,
    decodeUtf8: seq<Byte> -> string)

  /** The values crypto.getRandomValues writes on one call, position by position. */
  type RandomSource = nat -> Byte

  datatype EncryptedString = EncryptedString(ciphertextB64: string, ivB64: string)

  /** crypto.getRandomValues(new Uint8Array(12)). */
  function RandomIv(rng: RandomSource): (iv: seq<Byte>)
    ensures |iv| == IvLength
  {
    seq(IvLength, i requires 0 <= i < IvLength => rng(i))
  }

  /**
   * toBase64: the loop appends String.fromCharCode(u8[i]) for every byte, so
   * character i of the binary string has code u8[i]; btoa then encodes it.
   */
  method ToBase64(u8: seq<Byte>) returns (b64: string)
    ensures b64 == Base64.Encode(u8)
  {
    var binary := "";
    for i := 0 to |u8|
      invariant |binary| == i
      invariant forall k :: 0 <= k < i ==> binary[k] as int == u8[k]
    {
      binary := binary + [u8[i] as char];
    }
    assert binary == Base64.Latin1(u8);
    Base64.CharCodesLatin1(u8);
    var encoded := Base64.Btoa(binary);
    b64 := encoded.value;
  }

  /**
   * fromBase64: atob, then the loop writes charCodeAt(i) into byte i of a new
   * Uint8Array; atob's InvalidCharacterError propagates.
   */
  method FromBase64(b64: string) returns (r: Result<seq<Byte>, DomError>)
    ensures r.Success? <==> Base64.Decode(b64).Some?
    ensures r.Success? ==> Base64.Decode(b64) == Some(r.value)
    ensures r.Failure? ==> r.error == InvalidCharacterError
  {
    var decoded := Base64.Atob(b64);
    if decoded.None? {
      return Failure(InvalidCharacterError);
    }
    var binary := decoded.value;
    var bytes := new Byte[|binary|];
    for i := 0 to |binary|
      invariant forall k :: 0 <= k < i ==> bytes[k] == binary[k] as int
    {
      bytes[i] := binary[i] as int;
    }
    assert bytes[..] == Base64.CharCodes(binary);
    Base64.CharCodesLatin1(Base64.Decode(b64).value);
    r := Success(bytes[..]);
  }

  /** What encryptString resolves or rejects with: the Base64 envelope, or encrypt's rejection. */
  function Seal<K>(plaintext: string, key: K, crypto: WebCrypto<K>, rng: RandomSource)
    : Result<EncryptedString, DomError>
  {
    var iv := RandomIv(rng);
    match crypto.encrypt(key, iv, crypto.encodeUtf8(plaintext))
    case Failure(e) => Failure(e)
    case Success(ct) => Success(EncryptedString(Base64.Encode(ct), Base64.Encode(iv)))
  }

  /**
   * encryptString: a fresh 12-byte IV, AES-GCM over the UTF-8 bytes, and both
   * the ciphertext and the IV through toBase64; a rejected encrypt propagates.
   */
  method EncryptString<K>(plaintext: string, key: K, crypto: WebCrypto<K>, rng: RandomSource)
    returns (r: Result<EncryptedString, DomError>)
    ensures r == Seal(plaintext, key, crypto, rng)
    ensures r.Failure? <==> crypto.encrypt(key, RandomIv(rng), crypto.encodeUtf8(plaintext)).Failure?
    ensures r.Success? ==> |r.value.ivB64| == 16 && Base64.Pad !in r.value.ivB64
  {
    var iv := RandomIv(rng);
    var data := crypto.encodeUtf8(plaintext);
    var ct := crypto.encrypt(key, iv, data);
    if ct.Failure? {
      return Failure(ct.error);
    }
    var ciphertextB64 := ToBase64(ct.value);
    var ivB64 := ToBase64(iv);
    r := Success(EncryptedString(ciphertextB64, ivB64));
    TwelveBytesEncoding(iv);
  }

  /** What decryptString resolves or rejects with. */
  function Open<K>(ciphertextB64: string, ivB64: string, key: K, crypto: WebCrypto<K>): (r: Result<string, DomError>)
    ensures Base64.Decode(ivB64).None? || Base64.Decode(ciphertextB64).None? <==> r == Failure(InvalidCharacterError)
    ensures Base64.Decode(ivB64).Some? && Base64.Decode(ciphertextB64).Some? ==>
      var d := crypto.decrypt(key, Base64.Decode(ivB64).value, Base64.Decode(ciphertextB64).value);
      (r.Success? <==> d.Success?)
      && (d.Success? ==> r.value == crypto.decodeUtf8(d.value))
      && (d.Failure? ==> r.error == d.error)
  {
    match (Base64.Decode(ivB64), Base64.Decode(ciphertextB64))
    case (Some(iv), Some(ct)) =>
      (match crypto.decrypt(key, iv, ct)
       case Failure(e) => Failure(e)
       case Success(pt) => Success(crypto.decodeUtf8(pt)))
    case _ => Failure(InvalidCharacterError)
  }

  /**
   * decryptString: the IV and then the ciphertext through fromBase64, AES-GCM
   * decryption, UTF-8 decoding.
   */
  method DecryptString<K>(ciphertextB64: string, ivB64: string, key: K, crypto: WebCrypto<K>)
    returns (r: Result<string, DomError>)
    ensures r == Open(ciphertextB64, ivB64, key, crypto)
  {
    var iv := FromBase64(ivB64);
    if iv.Failure? {
      return Failure(iv.error);
    }
    var ct := FromBase64(ciphertextB64);
    if ct.Failure? {
      return Failure(ct.error);
    }
    var pt := crypto.decrypt(key, iv.value, ct.value);
    if pt.Failure? {
      return Failure(pt.error);
    }
    r := Success(crypto.decodeUtf8(pt.value));
  }

  /** sha256Hex: the SHA-256 digest of the UTF-8 bytes, two lowercase hex digits per byte. */
  function Sha256Hex<K>(data: string, crypto: WebCrypto<K>): (r: string)
    ensures |r| == 2 * |crypto.digest(crypto.encodeUtf8(data))|
    ensures Hex.AllHexDigits(r)
    ensures Hex.Decode(r) == Some(crypto.digest(crypto.encodeUtf8(data)))
  {
    var digest := crypto.digest(crypto.encodeUtf8(data));
    Hex.EncodeShape(digest);
    Hex.DecodeEncode(digest);
    Hex.Encode(digest)
  }

  // ---------------------------------------------------------------------
  // Properties
  // ---------------------------------------------------------------------

  /** Twelve bytes encode to sixteen characters without padding, and decode back. */
  lemma TwelveBytesEncoding(iv: seq<Byte>)
    requires |iv| == IvLength
    ensures |Base64.Encode(iv)| == 16
    ensures Base64.Pad !in Base64.Encode(iv)
    ensures Base64.Decode(Base64.Encode(iv)) == Some(iv)
  {
    Base64.EncodeLength(iv);
    Base64.EncodeAlphabet(iv);
    Base64.DecodeEncode(iv);
    var e := Base64.Encode(iv);
    forall i | 0 <= i < |e|
      ensures e[i] != Base64.Pad
    {
      var v := Base64.AlphabetValue(e[i]).value;
      assert Base64.AlphabetChar(v) == e[i];
    }
  }

  /** encryptString's IV field is 16 characters, no '=', and decryptString decodes it to the 12 IV bytes. */
  lemma SealIv<K>(plaintext: string, key: K, crypto: WebCrypto<K>, rng: RandomSource)
    ensures var sealed := Seal(plaintext, key, crypto, rng);
            sealed.Success? ==>
              |sealed.value.ivB64| == 16 && Base64.Pad !in sealed.value.ivB64
              && Base64.Decode(sealed.value.ivB64) == Some(RandomIv(rng))
  {
    TwelveBytesEncoding(RandomIv(rng));
  }

  /**
   * decryptString on encryptString's output hands AES-GCM decryption exactly
   * the key, IV and ciphertext that encryption used, and passes on its result.
   */
  lemma OpenSeal<K>(plaintext: string, key: K, crypto: WebCrypto<K>, rng: RandomSource)
    ensures var iv := RandomIv(rng);
            var sealed := Seal(plaintext, key, crypto, rng);
            var ct := crypto.encrypt(key, iv, crypto.encodeUtf8(plaintext));
            (sealed.Success? <==> ct.Success?)
            && (ct.Success? ==>
                  Open(sealed.value.ciphertextB64, sealed.value.ivB64, key, crypto)
                  == match crypto.decrypt(key, iv, ct.value)
                     case Failure(e) => Failure(e)
                     case Success(pt) => Success(crypto.decodeUtf8(pt)))
  {
    var ct := crypto.encrypt(key, RandomIv(rng), crypto.encodeUtf8(plaintext));
    if ct.Success? {
      Base64.DecodeEncode(ct.value);
      SealIv(plaintext, key, crypto, rng);
    }
  }

  /**
   * The round trip: when AES-GCM encryption succeeds, decryption inverts it
   * and UTF-8 decoding inverts encoding, decryptString recovers the plaintext.
   */
  lemma OpenSealRoundTrip<K>(plaintext: string, key: K, crypto: WebCrypto<K>, rng: RandomSource)
    requires var data := crypto.encodeUtf8(plaintext);
             var ct := crypto.encrypt(key, RandomIv(rng), data);
             ct.Success? && crypto.decrypt(key, RandomIv(rng), ct.value) == Success(data)
    requires crypto.decodeUtf8(crypto.encodeUtf8(plaintext)) == plaintext
    ensures var sealed := Seal(plaintext, key, crypto, rng);
            sealed.Success? && Open(sealed.value.ciphertextB64, sealed.value.ivB64, key, crypto) == Success(plaintext)
  {
    OpenSeal(plaintext, key, crypto, rng);
  }
}
