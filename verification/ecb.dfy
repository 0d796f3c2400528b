/** Electronic Codebook mode (NIST SP 800-38A section 6.1) over an abstract
    keyed block permutation standing for the AES cipher of FIPS 197. */
module Ecb {
  import opened Bytes
  import Padding

  const BlockSize: nat := Padding.BlockSize

  /** The forward and inverse block functions, each taking a key and a block. */
  datatype BlockCipher = BlockCipher(
    encipher: (seq<byte>, seq<byte>) -> seq<byte>,
    decipher: (seq<byte>, seq<byte>) -> seq<byte>)

  /** AES key sizes of section 5 of FIPS 197: 128, 192 or 256 bits. */
  predicate ValidKey(k: seq<byte>)
  {
    |k| == 16 || |k| == 24 || |k| == 32
  }

  /** What is assumed of the block cipher: under a valid key, both functions
      map blocks to blocks and undo each other. */
  ghost predicate IsPermutation(c: BlockCipher)
  {
    forall k, b | ValidKey(k) && |b| == BlockSize ::
      && |c.encipher(k, b)| == BlockSize
      && |c.decipher(k, b)| == BlockSize
      && c.decipher(k, c.encipher(k, b)) == b
      && c.encipher(k, c.decipher(k, b)) == b
  }

  /** ECB encryption: each block enciphered on its own, in order. */
  function Encrypt(c: BlockCipher, k: seq<byte>, m: seq<byte>): (r: seq<byte>)
    requires |m| % BlockSize == 0
    ensures IsPermutation(c) && ValidKey(k) ==> |r| == |m|
    decreases |m|
  {
    if m == [] then [] else c.encipher(k, m[..BlockSize]) + Encrypt(c, k, m[BlockSize..])
  }

  /** ECB decryption: each block deciphered on its own, in order. */
  function Decrypt(c: BlockCipher, k: seq<byte>, x: seq<byte>): (r: seq<byte>)
    requires |x| % BlockSize == 0
    ensures IsPermutation(c) && ValidKey(k) ==> |r| == |x|
    decreases |x|
  {
    if x == [] then [] else c.decipher(k, x[..BlockSize]) + Decrypt(c, k, x[BlockSize..])
  }

  /** Deciphering the enciphered blocks restores the plaintext. */
  lemma {:induction false} DecryptEncrypt(c: BlockCipher, k: seq<byte>, m: seq<byte>)
    requires IsPermutation(c) && ValidKey(k)
    requires |m| % BlockSize == 0
    ensures Decrypt(c, k, Encrypt(c, k, m)) == m
    decreases |m|
  {
    if m != [] {
      var x := Encrypt(c, k, m);
      var head := c.encipher(k, m[..BlockSize]);
      var tail := Encrypt(c, k, m[BlockSize..]);
      assert x == head + tail;
      assert x[..BlockSize] == head;
      assert x[BlockSize..] == tail;
      DecryptEncrypt(c, k, m[BlockSize..]);
      assert m == m[..BlockSize] + m[BlockSize..];
    }
  }

  /** Enciphering the deciphered blocks restores the ciphertext, so every
      block-aligned input is the encryption of something. */
  lemma {:induction false} EncryptDecrypt(c: BlockCipher, k: seq<byte>, x: seq<byte>)
    requires IsPermutation(c) && ValidKey(k)
    requires |x| % BlockSize == 0
    ensures Encrypt(c, k, Decrypt(c, k, x)) == x
    decreases |x|
  {
    if x != [] {
      var m := Decrypt(c, k, x);
      var head := c.decipher(k, x[..BlockSize]);
      var tail := Decrypt(c, k, x[BlockSize..]);
      assert m == head + tail;
      assert m[..BlockSize] == head;
      assert m[BlockSize..] == tail;
      EncryptDecrypt(c, k, x[BlockSize..]);
      assert x == x[..BlockSize] + x[BlockSize..];
    }
  }

  /** The ciphertext block at an aligned offset `j` is the encipherment of
      the plaintext block at `j`. */
  lemma {:induction false} BlockAtOffset(c: BlockCipher, k: seq<byte>, m: seq<byte>, j: nat)
    requires IsPermutation(c) && ValidKey(k)
    requires |m| % BlockSize == 0 && j % BlockSize == 0 && j + BlockSize <= |m|
    ensures |Encrypt(c, k, m)| == |m|
    ensures Encrypt(c, k, m)[j .. j + BlockSize] == c.encipher(k, m[j .. j + BlockSize])
    decreases j
  {
    var head := c.encipher(k, m[..BlockSize]);
    var rest := m[BlockSize..];
    var tail := Encrypt(c, k, rest);
    assert Encrypt(c, k, m) == head + tail;
    if j > 0 {
      BlockAtOffset(c, k, rest, j - BlockSize);
      assert (head + tail)[j .. j + BlockSize] == tail[j - BlockSize .. j];
      assert m[j .. j + BlockSize] == rest[j - BlockSize .. j];
    }
  }

  lemma BlockBounds(n: nat, i: nat)
    requires n % BlockSize == 0 && i < n / BlockSize
    ensures (BlockSize * i) % BlockSize == 0 && BlockSize * i + BlockSize <= n
  {
  }

  /** Block `i` of the ciphertext is the encipherment of block `i` of the
      plaintext alone: nothing chains blocks together and no IV is mixed in. */
  lemma BlockAt(c: BlockCipher, k: seq<byte>, m: seq<byte>, i: nat)
    requires IsPermutation(c) && ValidKey(k)
    requires |m| % BlockSize == 0 && i < |m| / BlockSize
    ensures BlockSize * i + BlockSize <= |Encrypt(c, k, m)|
    ensures Encrypt(c, k, m)[BlockSize * i .. BlockSize * i + BlockSize]
         == c.encipher(k, m[BlockSize * i .. BlockSize * i + BlockSize])
  {
    BlockBounds(|m|, i);
    BlockAtOffset(c, k, m, BlockSize * i);
  }

  /** Equal aligned plaintext blocks give equal ciphertext blocks, the known
      weakness of ECB. */
  lemma EqualBlocks(c: BlockCipher, k: seq<byte>, m: seq<byte>, i: nat, j: nat)
    requires IsPermutation(c) && ValidKey(k)
    requires |m| % BlockSize == 0 && i < |m| / BlockSize && j < |m| / BlockSize
    requires m[BlockSize * i .. BlockSize * i + BlockSize] == m[BlockSize * j .. BlockSize * j + BlockSize]
    ensures BlockSize * i + BlockSize <= |Encrypt(c, k, m)| && BlockSize * j + BlockSize <= |Encrypt(c, k, m)|
    ensures Encrypt(c, k, m)[BlockSize * i .. BlockSize * i + BlockSize]
         == Encrypt(c, k, m)[BlockSize * j .. BlockSize * j + BlockSize]
  {
    BlockAt(c, k, m, i);
    BlockAt(c, k, m, j);
  }
}
