/**
 * `aes_cbc_encrypt`, `aes_cbc_decrypt` and `aes_cbc_decrypt_no_pad` of
 * `aes/aes.c`: PKCS#7 padding at block size 16, then the CBC chaining loop
 * over `aes`, with a local copy of the IV carrying the previous ciphertext
 * block. Each is proved against the functions of `CbcSpec`. The block loops
 * are proved for any block function that agrees with `aes` (a ghost
 * parameter `e` or `d`), and instantiated with AES in the top-level methods.
 */
module Cbc {
  import AesSpec
  import CbcSpec
  import Pkcs7
  import Memory
  import Aes

  /** The inner loop `buffer[offset + j] ^= mask[j]` over one block. */
  method XorBlock(buffer: array<bv8>, offset: nat, mask: array<bv8>)
    requires offset + 16 <= buffer.Length && mask.Length == 16 && buffer != mask
    modifies buffer
    ensures buffer[offset..offset + 16] == CbcSpec.Xor(old(buffer[offset..offset + 16]), mask[..])
    ensures buffer[..offset] == old(buffer[..offset])
    ensures buffer[offset + 16..] == old(buffer[offset + 16..])
  {
    ghost var before := buffer[offset..offset + 16];
    for j := 0 to 16
      invariant buffer[..offset] == old(buffer[..offset])
      invariant buffer[offset + 16..] == old(buffer[offset + 16..])
      invariant forall k | 0 <= k < j :: buffer[offset + k] == before[k] ^ mask[k]
      invariant forall k | j <= k < 16 :: buffer[offset + k] == before[k]
    {
      buffer[offset + j] := buffer[offset + j] ^ mask[j];
    }
  }

  /**
   * The `aes` call and the `memcpy` of one pass of `aes_cbc_encrypt`: the
   * masked block `x` at `padded + i` is encrypted into `cipher + i` and
   * copied into the running IV.
   */
  method EncryptAt(padded: array<bv8>, cipher: array<bv8>, tempIv: array<bv8>, i: nat,
                   key: array<bv8>, keySize: nat, ghost e: CbcSpec.BlockFn, ghost x: seq<bv8>)
    requires padded != cipher && cipher != tempIv && key != cipher && key != tempIv
    requires AesSpec.ValidKeySize(keySize) && keySize <= key.Length
    requires CbcSpec.IsAesEncryptor(e, key[..keySize])
    requires i + 16 <= padded.Length && i + 16 <= cipher.Length && tempIv.Length == 16
    requires padded[i..i + 16] == x
    modifies cipher, tempIv
    ensures key[..keySize] == old(key[..keySize])
    ensures cipher[..i] == old(cipher[..i])
    ensures cipher[i..i + 16] == e(x)
    ensures tempIv[..] == cipher[i..i + 16]
  {
    ghost var k := key[..keySize];
    var _ := Aes.Aes(padded, i, cipher, i, key, keySize, false);
    assert key[..keySize] == k;
    Memory.Copy(tempIv, 0, cipher, i, 16);
    assert tempIv[..] == tempIv[0..16];
  }

  /**
   * The state of the block loop of `aes_cbc_encrypt` after `b` of the `n`
   * blocks (`i` bytes): the ciphertext so far is the CBC encryption of the
   * first `b` blocks of the padded plaintext `p`, the running IV holds the
   * chaining value, and the plaintext buffer is untouched from `i` on.
   */
  ghost predicate Encrypting(padded: array<bv8>, cipher: array<bv8>, tempIv: array<bv8>, i: nat, b: nat,
                             p: seq<bv8>, n: nat, iv: seq<bv8>, e: CbcSpec.BlockFn)
    reads padded, cipher, tempIv
  {
    && i == 16 * b && b <= n && |p| == 16 * n
    && padded.Length == cipher.Length == |p| && |iv| == 16 && tempIv.Length == 16 && CbcSpec.IsBlockFn(e)
    && padded[i..] == p[i..]
    && cipher[..i] == CbcSpec.EncryptBlocks(p, iv, e, b)
    && tempIv[..] == CbcSpec.Previous(cipher[..i], iv, b)
  }

  /**
   * One pass of the block loop of `aes_cbc_encrypt`: block `b` of the padded
   * plaintext is XORed with the running IV, encrypted into block `b` of the
   * ciphertext, and that ciphertext block becomes the running IV.
   */
  method EncryptStep(padded: array<bv8>, cipher: array<bv8>, tempIv: array<bv8>, i: nat, ghost b: nat,
                     key: array<bv8>, keySize: nat, ghost p: seq<bv8>, ghost n: nat, ghost iv: seq<bv8>,
                     ghost e: CbcSpec.BlockFn)
    requires padded != cipher && padded != tempIv && cipher != tempIv
    requires key != padded && key != cipher && key != tempIv
    requires AesSpec.ValidKeySize(keySize) && keySize <= key.Length
    requires CbcSpec.IsAesEncryptor(e, key[..keySize])
    requires Encrypting(padded, cipher, tempIv, i, b, p, n, iv, e) && i < |p|
    modifies padded, cipher, tempIv
    ensures key[..keySize] == old(key[..keySize])
    ensures Encrypting(padded, cipher, tempIv, i + 16, b + 1, p, n, iv, e)
  {
    ghost var x := CbcSpec.Xor(CbcSpec.Block(p, b), tempIv[..]);
    assert padded[i..i + 16] == CbcSpec.Block(p, b) by {
      assert padded[i..i + 16] == padded[i..][..16];
    }
    XorBlock(padded, i, tempIv);
    assert padded[i + 16..] == p[i + 16..] by {
      assert p[i + 16..] == p[i..][16..];
    }
    EncryptAt(padded, cipher, tempIv, i, key, keySize, e, x);
    CbcSpec.EncryptNext(p, iv, e, b, cipher[i..i + 16]);
    assert cipher[..i + 16] == cipher[..i] + cipher[i..i + 16];
  }

  /**
   * The block loop of `aes_cbc_encrypt` over the padded plaintext, with the
   * running IV starting as a copy of `iv`: afterwards `cipher` holds the CBC
   * encryption of the padded plaintext.
   */
  method EncryptChain(padded: array<bv8>, cipher: array<bv8>, iv: array<bv8>, key: array<bv8>, keySize: nat,
                      ghost e: CbcSpec.BlockFn)
    requires padded.Length == cipher.Length && padded.Length % 16 == 0 && iv.Length == 16
    requires padded != cipher && padded != iv && cipher != iv && key != padded && key != cipher
    requires AesSpec.ValidKeySize(keySize) && keySize <= key.Length
    requires CbcSpec.IsAesEncryptor(e, key[..keySize])
    modifies padded, cipher
    ensures cipher[..] == CbcSpec.Encrypt(old(padded[..]), iv[..], e)
  {
    ghost var p := padded[..];
    ghost var n := padded.Length / 16;
    var tempIv := new bv8[16];
    Memory.Copy(tempIv, 0, iv, 0, 16);
    assert tempIv[..] == iv[..] by {
      assert tempIv[..] == tempIv[0..16];
    }
    EncryptLoop(padded, cipher, tempIv, key, keySize, p, n, iv[..], e);
    CbcSpec.EncryptAll(p, iv[..], e, n);
  }

  /** The block loop itself, from the whole padded plaintext and the IV to the whole ciphertext. */
  method EncryptLoop(padded: array<bv8>, cipher: array<bv8>, tempIv: array<bv8>, key: array<bv8>, keySize: nat,
                     ghost p: seq<bv8>, ghost n: nat, ghost iv: seq<bv8>, ghost e: CbcSpec.BlockFn)
    requires padded != cipher && padded != tempIv && cipher != tempIv && key != padded && key != cipher && key != tempIv
    requires AesSpec.ValidKeySize(keySize) && keySize <= key.Length
    requires CbcSpec.IsAesEncryptor(e, key[..keySize])
    requires |p| == 16 * n && padded[..] == p
    requires Encrypting(padded, cipher, tempIv, 0, 0, p, n, iv, e)
    modifies padded, cipher, tempIv
    ensures cipher[..] == CbcSpec.EncryptBlocks(p, iv, e, n)
  {
    var i := 0;
    ghost var b := 0;
    while i < padded.Length
      invariant key[..keySize] == old(key[..keySize])
      invariant Encrypting(padded, cipher, tempIv, i, b, p, n, iv, e)
    {
      EncryptStep(padded, cipher, tempIv, i, b, key, keySize, p, n, iv, e);
      i := i + 16;
      b := b + 1;
    }
    assert b == n && cipher[..] == cipher[..i];
  }

  /**
   * `aes_cbc_encrypt`: the plaintext padded to a whole number of blocks, each
   * block XORed with the previous ciphertext block (the IV for the first) and
   * encrypted with `aes`. The IV, key and plaintext are only read.
   */
  method AesCbcEncrypt(plain: array<bv8>, plainLength: nat, iv: array<bv8>, key: array<bv8>, keySize: nat)
    returns (cipher: array<bv8>, cipherLength: nat)
    requires plainLength <= plain.Length && iv.Length == 16
    requires AesSpec.ValidKeySize(keySize) && keySize <= key.Length
    ensures fresh(cipher) && cipher.Length == cipherLength
    ensures cipherLength == |Pkcs7.Padded(plain[..plainLength], 16)| && cipherLength % 16 == 0
    ensures cipher[..] == CbcSpec.AesCbcEncrypt(Pkcs7.Padded(plain[..plainLength], 16), iv[..], key[..keySize])
  {
    ghost var k := key[..keySize];
    CbcSpec.AesCiphers(k);
    var context := Pkcs7.Context.Init(plain, plainLength, 16);
    context.Pad();
    var padded := context.paddedData;
    CbcSpec.CipherLength(plain[..plainLength]);
    cipherLength := context.paddedDataLength;
    cipher := new bv8[cipherLength];
    EncryptChain(padded, cipher, iv, key, keySize, CbcSpec.AesEncryptor(k));
  }

  /** The in-place `aes` call of one pass of `aes_cbc_decrypt`: the block `x` at `padded + i` is decrypted where it is. */
  method DecryptAt(padded: array<bv8>, i: nat, key: array<bv8>, keySize: nat, ghost d: CbcSpec.BlockFn, ghost x: seq<bv8>)
    requires key != padded
    requires AesSpec.ValidKeySize(keySize) && keySize <= key.Length
    requires CbcSpec.IsAesDecryptor(d, key[..keySize])
    requires i + 16 <= padded.Length && padded[i..i + 16] == x
    modifies padded
    ensures key[..keySize] == old(key[..keySize])
    ensures padded[..i] == old(padded[..i])
    ensures padded[i..i + 16] == d(x)
    ensures padded[i + 16..] == old(padded[i + 16..])
  {
    ghost var k := key[..keySize];
    var _ := Aes.Aes(padded, i, padded, i, key, keySize, true);
    assert key[..keySize] == k;
  }

  /**
   * The state of the block loop of `aes_cbc_decrypt` after `b` of the `n`
   * blocks (`i` bytes) of the ciphertext `c`: the buffer holds the plaintext
   * of the first `b` blocks followed by the untouched ciphertext, and the
   * running IV holds the chaining value.
   */
  ghost predicate Decrypting(padded: array<bv8>, tempIv: array<bv8>, i: nat, b: nat,
                             c: seq<bv8>, n: nat, iv: seq<bv8>, d: CbcSpec.BlockFn)
    reads padded, tempIv
  {
    && i == 16 * b && b <= n && |c| == 16 * n
    && padded.Length == |c| && |iv| == 16 && tempIv.Length == 16 && CbcSpec.IsBlockFn(d)
    && padded[..i] == CbcSpec.DecryptBlocks(c, iv, d, b)
    && padded[i..] == c[i..]
    && tempIv[..] == CbcSpec.Previous(c, iv, b)
  }

  /**
   * One pass of the block loop of `aes_cbc_decrypt`: the ciphertext block is
   * saved as the next IV, decrypted in place and XORed with the running IV.
   */
  method DecryptStep(padded: array<bv8>, tempIv: array<bv8>, tempIv2: array<bv8>, i: nat, ghost b: nat,
                     key: array<bv8>, keySize: nat, ghost c: seq<bv8>, ghost n: nat, ghost iv: seq<bv8>,
                     ghost d: CbcSpec.BlockFn)
    requires padded != tempIv && padded != tempIv2 && tempIv != tempIv2
    requires key != padded && key != tempIv && key != tempIv2
    requires AesSpec.ValidKeySize(keySize) && keySize <= key.Length
    requires CbcSpec.IsAesDecryptor(d, key[..keySize])
    requires tempIv2.Length == 16
    requires Decrypting(padded, tempIv, i, b, c, n, iv, d) && i < |c|
    modifies padded, tempIv, tempIv2
    ensures key[..keySize] == old(key[..keySize])
    ensures Decrypting(padded, tempIv, i + 16, b + 1, c, n, iv, d)
  {
    ghost var block := CbcSpec.Block(c, b);
    assert padded[i..i + 16] == block by {
      assert padded[i..i + 16] == padded[i..][..16];
    }
    Memory.Copy(tempIv2, 0, padded, i, 16);
    assert tempIv2[..] == block by {
      assert tempIv2[..] == tempIv2[0..16];
    }
    DecryptAt(padded, i, key, keySize, d, block);
    XorBlock(padded, i, tempIv);
    CbcSpec.DecryptNext(c, iv, d, b, padded[i..i + 16]);
    assert padded[..i + 16] == padded[..i] + padded[i..i + 16];
    assert padded[i + 16..] == c[i + 16..] by {
      assert c[i + 16..] == c[i..][16..];
    }
    Memory.Copy(tempIv, 0, tempIv2, 0, 16);
    assert tempIv[..] == tempIv[0..16];
  }

  /**
   * The block loop shared by `aes_cbc_decrypt` and `aes_cbc_decrypt_no_pad`,
   * run over the copy of the ciphertext: afterwards the buffer holds the
   * CBC decryption of what it held before.
   */
  method DecryptInPlace(padded: array<bv8>, iv: array<bv8>, key: array<bv8>, keySize: nat, ghost d: CbcSpec.BlockFn)
    requires padded.Length % 16 == 0 && iv.Length == 16 && padded != iv
    requires AesSpec.ValidKeySize(keySize) && keySize <= key.Length && padded != key
    requires CbcSpec.IsAesDecryptor(d, key[..keySize])
    modifies padded
    ensures padded[..] == CbcSpec.Decrypt(old(padded[..]), iv[..], d)
  {
    ghost var c := padded[..];
    ghost var n := padded.Length / 16;
    var tempIv := new bv8[16];
    var tempIv2 := new bv8[16];
    Memory.Copy(tempIv, 0, iv, 0, 16);
    assert tempIv[..] == iv[..] by {
      assert tempIv[..] == tempIv[0..16];
    }
    DecryptLoop(padded, tempIv, tempIv2, key, keySize, c, n, iv[..], d);
    CbcSpec.DecryptAll(c, iv[..], d, n);
  }

  /** The block loop itself, from the whole ciphertext and the IV to the whole plaintext. */
  method DecryptLoop(padded: array<bv8>, tempIv: array<bv8>, tempIv2: array<bv8>,
                     key: array<bv8>, keySize: nat, ghost c: seq<bv8>, ghost n: nat, ghost iv: seq<bv8>,
                     ghost d: CbcSpec.BlockFn)
    requires padded != tempIv && padded != tempIv2 && tempIv != tempIv2
    requires key != padded && key != tempIv && key != tempIv2
    requires AesSpec.ValidKeySize(keySize) && keySize <= key.Length
    requires CbcSpec.IsAesDecryptor(d, key[..keySize])
    requires tempIv2.Length == 16 && |c| == 16 * n && padded[..] == c
    requires Decrypting(padded, tempIv, 0, 0, c, n, iv, d)
    modifies padded, tempIv, tempIv2
    ensures padded[..] == CbcSpec.DecryptBlocks(c, iv, d, n)
  {
    var i := 0;
    ghost var b := 0;
    while i < padded.Length
      invariant key[..keySize] == old(key[..keySize])
      invariant Decrypting(padded, tempIv, i, b, c, n, iv, d)
    {
      DecryptStep(padded, tempIv, tempIv2, i, b, key, keySize, c, n, iv, d);
      i := i + 16;
      b := b + 1;
    }
    assert b == n && padded[..] == padded[..i];
  }

  /**
   * The first half shared by `aes_cbc_decrypt` and `aes_cbc_decrypt_no_pad`:
   * the ciphertext is copied into a new buffer, which the block loop then
   * decrypts in place.
   */
  method DecryptCopy(cipher: array<bv8>, cipherLength: nat, iv: array<bv8>, key: array<bv8>, keySize: nat)
    returns (padded: array<bv8>)
    requires cipherLength <= cipher.Length && cipherLength % 16 == 0 && iv.Length == 16
    requires AesSpec.ValidKeySize(keySize) && keySize <= key.Length
    ensures fresh(padded) && padded.Length == cipherLength
    ensures padded[..] == CbcSpec.AesCbcDecrypt(cipher[..cipherLength], iv[..], key[..keySize])
  {
    ghost var k := key[..keySize];
    CbcSpec.AesCiphers(k);
    padded := new bv8[cipherLength];
    Memory.Copy(padded, 0, cipher, 0, cipherLength);
    assert padded[..] == cipher[..cipherLength] by {
      assert padded[..] == padded[0..cipherLength];
    }
    DecryptInPlace(padded, iv, key, keySize, CbcSpec.AesDecryptor(k));
  }

  /**
   * `aes_cbc_decrypt`: the ciphertext is copied, decrypted block by block and
   * unpadded. The C checks neither the length nor the padding: the ciphertext
   * must be a non-empty whole number of blocks whose decryption ends in a
   * byte no larger than its length, or `pkcs7_unpad` reads or sizes out of
   * bounds.
   */
  method AesCbcDecrypt(cipher: array<bv8>, cipherLength: nat, iv: array<bv8>, key: array<bv8>, keySize: nat)
    returns (plain: array<bv8>, plainLength: nat)
    requires 0 < cipherLength <= cipher.Length && cipherLength % 16 == 0 && iv.Length == 16
    requires AesSpec.ValidKeySize(keySize) && keySize <= key.Length
    requires var p := CbcSpec.AesCbcDecrypt(cipher[..cipherLength], iv[..], key[..keySize]);
      p[|p| - 1] as nat <= |p|
    ensures fresh(plain) && plain.Length == plainLength
    ensures plain[..] == Pkcs7.Unpadded(CbcSpec.AesCbcDecrypt(cipher[..cipherLength], iv[..], key[..keySize]))
  {
    var padded := DecryptCopy(cipher, cipherLength, iv, key, keySize);
    assert padded[padded.Length - 1] == padded[..][padded.Length - 1];
    plain, plainLength := UnpadDecrypted(padded);
  }

  /** The `pkcs7_unpad` call at the end of `aes_cbc_decrypt`, on the whole decrypted buffer. */
  method UnpadDecrypted(padded: array<bv8>) returns (plain: array<bv8>, plainLength: nat)
    requires 1 <= padded.Length && padded[padded.Length - 1] as nat <= padded.Length
    ensures fresh(plain) && plain.Length == plainLength
    ensures plain[..] == Pkcs7.Unpadded(padded[..])
  {
    var context := Pkcs7.Context.Unpad(padded, padded.Length, 16);
    assert padded[..padded.Length] == padded[..];
    plain := context.data;
    plainLength := context.dataLength;
  }

  /**
   * `aes_cbc_decrypt_no_pad`: the same block loop, with the whole decrypted
   * buffer, padding included, copied into a new plaintext of the ciphertext's
   * length.
   */
  method AesCbcDecryptNoPad(cipher: array<bv8>, cipherLength: nat, iv: array<bv8>, key: array<bv8>, keySize: nat)
    returns (plain: array<bv8>, plainLength: nat)
    requires cipherLength <= cipher.Length && cipherLength % 16 == 0 && iv.Length == 16
    requires AesSpec.ValidKeySize(keySize) && keySize <= key.Length
    ensures fresh(plain) && plain.Length == plainLength && plainLength == cipherLength
    ensures plain[..] == CbcSpec.AesCbcDecrypt(cipher[..cipherLength], iv[..], key[..keySize])
  {
    var padded := DecryptCopy(cipher, cipherLength, iv, key, keySize);
    plainLength := cipherLength;
    plain := new bv8[plainLength];
    Memory.Copy(plain, 0, padded, 0, cipherLength);
    assert plain[..] == plain[0..cipherLength];
    assert padded[..] == padded[0..cipherLength];
  }
}
