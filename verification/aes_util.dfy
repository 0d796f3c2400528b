/** The envelope cipher: AES/ECB/PKCS5Padding with the ciphertext carried as
    Base64 text. `Cipher.init` checks the key first, then `doFinal` pads and
    enciphers (or deciphers and unpads). */
module AesUtil {
  import opened Bytes
  import opened Wrappers
  import Utf8
  import Base64
  import Padding
  import Ecb

  /** Why `Cipher.init` or `Cipher.doFinal` throws. */
  datatype CryptoError =
    | InvalidKey        // the key's octets are not 16, 24 or 32 long
    | IllegalBlockSize  // the ciphertext is not a whole number of blocks
    | BadPadding        // the last block does not end in a valid pad

  /** `encryptKey.getBytes()`, under a UTF-8 default charset. */
  function KeyBytes(key: string): seq<byte>
  {
    Utf8.Encode(key)
  }

  /** `doFinal` in ENCRYPT_MODE: pad, then encipher block by block. */
  function Seal(c: Ecb.BlockCipher, k: seq<byte>, m: seq<byte>): (x: seq<byte>)
    ensures Ecb.IsPermutation(c) && Ecb.ValidKey(k) ==> |x| == Padding.BlockSize * (|m| / Padding.BlockSize + 1)
  {
    Padding.PadLength(m);
    Ecb.Encrypt(c, k, Padding.Pad(m))
  }

  /** `doFinal` in DECRYPT_MODE: reject a partial block, decipher, unpad. */
  function Open(c: Ecb.BlockCipher, k: seq<byte>, x: seq<byte>): (r: Result<seq<byte>, CryptoError>)
    ensures r == Failure(IllegalBlockSize) <==> |x| % Padding.BlockSize != 0
    ensures r.Failure? ==> r.error != InvalidKey
  {
    if |x| % Padding.BlockSize != 0 then Failure(IllegalBlockSize)
    else
      match Padding.Unpad(Ecb.Decrypt(c, k, x))
      case None => Failure(BadPadding)
      case Some(m) => Success(m)
  }

  /** `AESUtil.encrypt(byte[] bytes, String encryptKey)`. */
  function EncryptBytes(c: Ecb.BlockCipher, bytes: seq<byte>, key: string): (r: Result<string, CryptoError>)
    ensures r.Failure? <==> !Ecb.ValidKey(KeyBytes(key))
    ensures r.Failure? ==> r.error == InvalidKey
    ensures r.Success? ==> Utf8.IsAscii(r.value)
  {
    var k := KeyBytes(key);
    if !Ecb.ValidKey(k) then Failure(InvalidKey)
    else
      Base64.EncodeAlphabet(Seal(c, k, bytes));
      Success(Base64.Encode(Seal(c, k, bytes)))
  }

  /** `AESUtil.encrypt(String content, String encryptKey)`: the text's UTF-8
      octets, encrypted as by the byte overload. Its Base64 text decodes to
      the sealed octets, one block longer than their whole blocks. */
  function Encrypt(c: Ecb.BlockCipher, content: string, key: string): (r: Result<string, CryptoError>)
    ensures r.Failure? <==> !Ecb.ValidKey(KeyBytes(key))
    ensures r.Failure? ==> r.error == InvalidKey
    ensures r.Success? ==> Utf8.IsAscii(r.value)
    ensures r.Success? ==> Base64.DecodeString(r.value) == Seal(c, KeyBytes(key), Utf8.Encode(content))
    ensures r.Success? && Ecb.IsPermutation(c) ==>
      |Base64.DecodeString(r.value)| == Padding.BlockSize * (|Utf8.Encode(content)| / Padding.BlockSize + 1)
  {
    Base64.DecodeEncode(Seal(c, KeyBytes(key), Utf8.Encode(content)));
    EncryptBytes(c, Utf8.Encode(content), key)
  }

  /** For a genuine block cipher and a valid key, a non-empty input decrypts
      to `m` exactly when it is the encryption of `m`. */
  lemma OpenSeal(c: Ecb.BlockCipher, k: seq<byte>, x: seq<byte>, m: seq<byte>)
    requires Ecb.IsPermutation(c) && Ecb.ValidKey(k) && |x| > 0
    ensures Open(c, k, x) == Success(m) <==> Seal(c, k, m) == x
  {
    if Open(c, k, x) == Success(m) {
      Padding.PadInverse(Ecb.Decrypt(c, k, x), m);
      Ecb.EncryptDecrypt(c, k, x);
    }
    if Seal(c, k, m) == x {
      Ecb.DecryptEncrypt(c, k, Padding.Pad(m));
      Padding.UnpadPad(m);
    }
  }

  /** The outcomes of `doFinal` in DECRYPT_MODE, for a genuine block cipher
      and a valid key: the empty input gives the empty output, an encryption
      of `m` gives `m`, and every other whole-block input is bad padding. */
  lemma OpenOutcome(c: Ecb.BlockCipher, k: seq<byte>, x: seq<byte>)
    ensures Ecb.IsPermutation(c) && Ecb.ValidKey(k) ==>
      && (x == [] ==> Open(c, k, x) == Success([]))
      && (Open(c, k, x) == Failure(BadPadding) <==>
            |x| % Padding.BlockSize == 0 && x != [] && forall m :: Seal(c, k, m) != x)
      && (forall m :: Seal(c, k, m) == x ==> Open(c, k, x) == Success(m))
  {
    if Ecb.IsPermutation(c) && Ecb.ValidKey(k) {
      if x == [] {
        assert Padding.Unpad(Ecb.Decrypt(c, k, x)) == Some([]);
        forall m ensures Seal(c, k, m) != x {
          Padding.PadLength(m);
        }
      } else {
        forall m ensures Open(c, k, x) == Success(m) <==> Seal(c, k, m) == x {
          OpenSeal(c, k, x, m);
        }
        if Open(c, k, x).Success? {
          assert Seal(c, k, Open(c, k, x).value) == x;
        }
      }
    }
  }

  /** What `decrypt` yields for the Base64-decoded ciphertext `x`. `init`
      rejects a key whose octets are not 16, 24 or 32 long; `doFinal` rejects
      a partial block. For a genuine block cipher, the encryption of `m`
      decrypts to the text of `m`, and every other non-empty whole-block
      input fails on its padding. The empty input decrypts to the empty
      text, as the JDK's unpadding of nothing does. */
  ghost predicate DecryptOutcome(c: Ecb.BlockCipher, key: string, x: seq<byte>, r: Result<string, CryptoError>)
  {
    && (r == Failure(InvalidKey) <==> !Ecb.ValidKey(KeyBytes(key)))
    && (r == Failure(IllegalBlockSize) <==> Ecb.ValidKey(KeyBytes(key)) && |x| % Padding.BlockSize != 0)
    && (Ecb.ValidKey(KeyBytes(key)) && x == [] ==> r == Success([]))
    && (Ecb.IsPermutation(c) ==>
          && (r == Failure(BadPadding) <==>
                && Ecb.ValidKey(KeyBytes(key)) && |x| % Padding.BlockSize == 0 && x != []
                && forall m :: Seal(c, KeyBytes(key), m) != x)
          && (forall m :: Ecb.ValidKey(KeyBytes(key)) && Seal(c, KeyBytes(key), m) == x ==>
                r == Success(Utf8.Decode(m))))
  }

  /** The part both decrypt overloads share once the input is Base64-decoded:
      key check, `doFinal`, then `new String(bytes)`. */
  function DecryptDecoded(c: Ecb.BlockCipher, x: seq<byte>, key: string): (r: Result<string, CryptoError>)
    ensures DecryptOutcome(c, key, x, r)
  {
    var k := KeyBytes(key);
    if !Ecb.ValidKey(k) then Failure(InvalidKey)
    else
      OpenOutcome(c, k, x);
      match Open(c, k, x)
      case Failure(e) => Failure(e)
      case Success(m) => Success(Utf8.Decode(m))
  }

  /** `AESUtil.decrypt(String encryptStr, String decryptKey)`: the string's
      UTF-8 octets are Base64-decoded, then decrypted. */
  function Decrypt(c: Ecb.BlockCipher, encryptStr: string, key: string): (r: Result<string, CryptoError>)
    ensures DecryptOutcome(c, key, Base64.DecodeString(encryptStr), r)
  {
    DecryptDecoded(c, Base64.DecodeString(encryptStr), key)
  }

  /** `AESUtil.decrypt(byte[] encryptStr, String decryptKey)`: the octets are
      Base64-decoded, then decrypted. */
  function DecryptBytes(c: Ecb.BlockCipher, encrypted: seq<byte>, key: string): (r: Result<string, CryptoError>)
    ensures DecryptOutcome(c, key, Base64.Decode(encrypted), r)
  {
    DecryptDecoded(c, Base64.Decode(encrypted), key)
  }

  /** Both decrypt overloads agree: the string one decodes the string's UTF-8
      octets, which is what the byte one receives. */
  lemma DecryptOverloads(c: Ecb.BlockCipher, s: string, key: string)
    ensures Decrypt(c, s, key) == DecryptBytes(c, Utf8.Encode(s), key)
  {
  }

  /** The raw ciphertext under `encrypt` is `16 * (n / 16 + 1)` octets for an
      `n`-octet plaintext: a positive multiple of the block size. */
  lemma CiphertextLength(c: Ecb.BlockCipher, bytes: seq<byte>, key: string)
    requires Ecb.IsPermutation(c) && Ecb.ValidKey(KeyBytes(key))
    ensures EncryptBytes(c, bytes, key).Success?
    ensures |Base64.DecodeString(EncryptBytes(c, bytes, key).value)| == Padding.BlockSize * (|bytes| / Padding.BlockSize + 1)
    ensures |Base64.DecodeString(EncryptBytes(c, bytes, key).value)| % Padding.BlockSize == 0
  {
    Base64.DecodeEncode(Seal(c, KeyBytes(key), bytes));
  }

  /** Decrypting the encryption of any octets gives back their text. */
  lemma DecryptEncryptBytes(c: Ecb.BlockCipher, bytes: seq<byte>, key: string)
    requires Ecb.IsPermutation(c) && Ecb.ValidKey(KeyBytes(key))
    ensures EncryptBytes(c, bytes, key).Success?
    ensures Decrypt(c, EncryptBytes(c, bytes, key).value, key) == Success(Utf8.Decode(bytes))
  {
    var k := KeyBytes(key);
    var padded := Padding.Pad(bytes);
    var x := Seal(c, k, bytes);
    Base64.DecodeEncode(x);
    Ecb.DecryptEncrypt(c, k, padded);
    Padding.UnpadPad(bytes);
    assert Open(c, k, x) == Success(bytes);
  }

  /** `decrypt(encrypt(s, k), k) == s` for every text and every valid key. */
  lemma DecryptEncrypt(c: Ecb.BlockCipher, s: string, key: string)
    requires Ecb.IsPermutation(c) && Ecb.ValidKey(KeyBytes(key))
    ensures Encrypt(c, s, key).Success?
    ensures Decrypt(c, Encrypt(c, s, key).value, key) == Success(s)
  {
    DecryptEncryptBytes(c, Utf8.Encode(s), key);
    Utf8.DecodeEncode(s);
  }

  /** Equal aligned 16-octet plaintext blocks encrypt to equal ciphertext
      blocks: there is no IV and no chaining. */
  lemma EqualPlaintextBlocks(c: Ecb.BlockCipher, bytes: seq<byte>, key: string, i: nat, j: nat)
    requires Ecb.IsPermutation(c) && Ecb.ValidKey(KeyBytes(key))
    requires i < |bytes| / Padding.BlockSize && j < |bytes| / Padding.BlockSize
    requires bytes[16 * i .. 16 * i + 16] == bytes[16 * j .. 16 * j + 16]
    ensures EncryptBytes(c, bytes, key).Success?
    ensures var x := Base64.DecodeString(EncryptBytes(c, bytes, key).value);
      && 16 * i + 16 <= |x| && 16 * j + 16 <= |x|
      && x[16 * i .. 16 * i + 16] == x[16 * j .. 16 * j + 16]
  {
    var k := KeyBytes(key);
    var padded := Padding.Pad(bytes);
    Base64.DecodeEncode(Seal(c, k, bytes));
    assert padded[16 * i .. 16 * i + 16] == bytes[16 * i .. 16 * i + 16];
    assert padded[16 * j .. 16 * j + 16] == bytes[16 * j .. 16 * j + 16];
    Ecb.EqualBlocks(c, k, padded, i, j);
  }
}
