/**
 * encryptFile / decryptFile: AES-GCM over a file's bytes with the same
 * 12-byte IV and Base64 envelope as the string service, written with their
 * own inline loops and atob mappings.
 */
module FileEncryption {
  import opened Wrappers
  import Base64
  import Encryption

  datatype EncryptedFile = EncryptedFile(encryptedB64: string, ivB64: string)

  /** What encryptFile resolves or rejects with: the Base64 envelope, or encrypt's rejection. */
  function SealFile<K>(file: seq<Byte>, key: K, crypto: Encryption.WebCrypto<K>, rng: Encryption.RandomSource)
    : Result<EncryptedFile, Encryption.DomError>
  {
    var iv := Encryption.RandomIv(rng);
    match crypto.encrypt(key, iv, file)
    case Failure(e) => Failure(e)
    case Success(encrypted) => Success(EncryptedFile(Base64.Encode(encrypted), Base64.Encode(iv)))
  }

  /**
   * encryptFile: one loop turns the ciphertext into a binary string, a second
   * does the same for the IV, and btoa encodes each; the results are the ones
   * Encryption.ToBase64 computes for the same bytes. A rejected encrypt propagates.
   */
  method EncryptFile<K>(file: seq<Byte>, key: K, crypto: Encryption.WebCrypto<K>, rng: Encryption.RandomSource)
    returns (r: Result<EncryptedFile, Encryption.DomError>)
    ensures r == SealFile(file, key, crypto, rng)
    ensures r.Failure? <==> crypto.encrypt(key, Encryption.RandomIv(rng), file).Failure?
    ensures r.Success? ==> |r.value.ivB64| == 16
  {
    var iv := Encryption.RandomIv(rng);
    var encrypted := crypto.encrypt(key, iv, file);
    if encrypted.Failure? {
      return Failure(encrypted.error);
    }
    var encryptedArray := encrypted.value;

    var encryptedStr := "";
    for i := 0 to |encryptedArray|
      invariant |encryptedStr| == i
      invariant forall k :: 0 <= k < i ==> encryptedStr[k] as int == encryptedArray[k]
    {
      encryptedStr := encryptedStr + [encryptedArray[i] as char];
    }
    assert encryptedStr == Base64.Latin1(encryptedArray);
    Base64.CharCodesLatin1(encryptedArray);
    var encryptedB64 := Base64.Btoa(encryptedStr).value;

    var ivStr := "";
    for i := 0 to |iv|
      invariant |ivStr| == i
      invariant forall k :: 0 <= k < i ==> ivStr[k] as int == iv[k]
    {
      ivStr := ivStr + [iv[i] as char];
    }
    assert ivStr == Base64.Latin1(iv);
    Base64.CharCodesLatin1(iv);
    var ivB64 := Base64.Btoa(ivStr).value;

    r := Success(EncryptedFile(encryptedB64, ivB64));
    Encryption.TwelveBytesEncoding(iv);
  }

  /** Uint8Array.from(atob(s), c => c.charCodeAt(0)); atob's InvalidCharacterError propagates. */
  function AtobBytes(s: string): (r: Result<seq<Byte>, Encryption.DomError>)
    ensures r.Success? <==> Base64.Decode(s).Some?
    ensures r.Success? ==> Base64.Decode(s) == Some(r.value)
    ensures r.Failure? ==> r.error == Encryption.InvalidCharacterError
  {
    match Base64.Atob(s)
    case None => Failure(Encryption.InvalidCharacterError)
    case Some(binary) =>
      Base64.CharCodesLatin1(Base64.Decode(s).value);
      Success(Base64.CharCodes(binary))
  }

  /** decryptFile: the ciphertext and then the IV through atob, then AES-GCM decryption. */
  function DecryptFile<K>(encryptedB64: string, ivB64: string, key: K, crypto: Encryption.WebCrypto<K>)
    : (r: Result<seq<Byte>, Encryption.DomError>)
    ensures Base64.Decode(encryptedB64).None? || Base64.Decode(ivB64).None?
            <==> r == Failure(Encryption.InvalidCharacterError)
    ensures Base64.Decode(encryptedB64).Some? && Base64.Decode(ivB64).Some? ==>
      r == crypto.decrypt(key, Base64.Decode(ivB64).value, Base64.Decode(encryptedB64).value)
  {
    match (AtobBytes(encryptedB64), AtobBytes(ivB64))
    case (Success(encrypted), Success(iv)) => crypto.decrypt(key, iv, encrypted)
    case (Failure(e), _) => Failure(e)
    case (_, Failure(e)) => Failure(e)
  }

  // ---------------------------------------------------------------------
  // Properties
  // ---------------------------------------------------------------------

  /** decryptFile's atob mapping recovers exactly the bytes encryptFile encoded. */
  lemma AtobBytesOfEncode(b: seq<Byte>)
    ensures AtobBytes(Base64.Encode(b)) == Success(b)
  {
    Base64.DecodeEncode(b);
  }

  /**
   * decryptFile on encryptFile's output hands AES-GCM decryption exactly the
   * key, 12-byte IV and ciphertext that encryption used, and passes on its result.
   */
  lemma DecryptSealedFile<K>(file: seq<Byte>, key: K, crypto: Encryption.WebCrypto<K>, rng: Encryption.RandomSource)
    ensures var iv := Encryption.RandomIv(rng);
            var sealed := SealFile(file, key, crypto, rng);
            var encrypted := crypto.encrypt(key, iv, file);
            (sealed.Success? <==> encrypted.Success?)
            && (encrypted.Success? ==>
                  DecryptFile(sealed.value.encryptedB64, sealed.value.ivB64, key, crypto)
                  == crypto.decrypt(key, iv, encrypted.value))
  {
    var iv := Encryption.RandomIv(rng);
    var encrypted := crypto.encrypt(key, iv, file);
    if encrypted.Success? {
      AtobBytesOfEncode(encrypted.value);
      AtobBytesOfEncode(iv);
    }
  }

  /** When encryption succeeds and AES-GCM decryption inverts it, the file round-trips. */
  lemma FileRoundTrip<K>(file: seq<Byte>, key: K, crypto: Encryption.WebCrypto<K>, rng: Encryption.RandomSource)
    requires var iv := Encryption.RandomIv(rng);
             var encrypted := crypto.encrypt(key, iv, file);
             encrypted.Success? && crypto.decrypt(key, iv, encrypted.value) == Success(file)
    ensures var sealed := SealFile(file, key, crypto, rng);
            sealed.Success? && DecryptFile(sealed.value.encryptedB64, sealed.value.ivB64, key, crypto) == Success(file)
  {
    DecryptSealedFile(file, key, crypto, rng);
  }
}
