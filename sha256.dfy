/**
 * `sha256_padding`, `sha256_compression` and `sha256` of
 * `sha256/sha256.c`, on arrays, each proved against the functions of
 * `Sha256Spec`. The word sums call the same named functions as the
 * specification (`Temp1`, `Temp2`, `ExpandWord`, `Add`).
 */
module Sha256 {
  import opened Sha256Spec
  import Memory

  /**
   * `sha256_padding`: a fresh buffer holding the message, the byte 0x80,
   * zeros and the 64-bit bit length, big-endian.
   */
  method Padding(data: array<bv8>, dataLength: nat) returns (padded: array<bv8>, paddedLength: nat)
    requires dataLength <= data.Length
    ensures fresh(padded) && padded.Length == paddedLength
    ensures padded[..] == Padded(data[..dataLength])
  {
    if (dataLength + 9) % 64 == 0 {
      paddedLength := dataLength + 9;
    } else {
      paddedLength := ((dataLength + 9 + 64) / 64) * 64;
    }
    assert paddedLength == PaddedLength(dataLength);
    padded := PaddedFront(data, dataLength, paddedLength);
    PutBitLength(padded, dataLength);
    assert padded[..] == padded[..paddedLength - 8] + padded[paddedLength - 8..];
  }

  /**
   * The first part of `sha256_padding`: a fresh buffer of the padded length
   * holding the message, the byte 0x80 and the zero bytes before the length
   * field.
   */
  method PaddedFront(data: array<bv8>, dataLength: nat, paddedLength: nat) returns (padded: array<bv8>)
    requires dataLength <= data.Length && dataLength + 9 <= paddedLength
    ensures fresh(padded) && padded.Length == paddedLength
    ensures padded[..paddedLength - 8] == data[..dataLength] + [0x80] + Zeros(paddedLength - dataLength - 9)
  {
    padded := new bv8[paddedLength];
    Memory.Copy(padded, 0, data, 0, dataLength);
    padded[dataLength] := 0x80;
    var totalZeros := paddedLength - dataLength - 9;
    Memory.Set(padded, dataLength + 1, 0, totalZeros);
    assert forall k | 0 <= k < dataLength :: padded[k] == data[..dataLength][k];
  }

  /**
   * The last loop of `sha256_padding`: the bit length of the message,
   * `(uint64_t)dataLength * 8`, into the last eight bytes, most significant
   * first.
   */
  method PutBitLength(padded: array<bv8>, dataLength: nat)
    requires 8 <= padded.Length
    modifies padded
    ensures padded[..padded.Length - 8] == old(padded[..padded.Length - 8])
    ensures padded[padded.Length - 8..] == LengthField(dataLength)
  {
    var paddedLength := padded.Length;
    var bitLength := BitLength(dataLength);
    for i := 0 to 8
      invariant padded[..paddedLength - 8] == old(padded[..paddedLength - 8])
      invariant forall k | 0 <= k < i :: padded[paddedLength - 8 + k] == ShiftedByte(bitLength, 56 - k * 8)
    {
      padded[paddedLength - 8 + i] := ShiftedByte(bitLength, 56 - i * 8);
    }
    assert forall k | 0 <= k < 8 :: padded[paddedLength - 8..][k] == LengthField(dataLength)[k];
  }

  /**
   * The first schedule loop of `sha256_compression`: sixteen words read
   * big-endian from the block at `block + offset`, four bytes each.
   */
  method ReadWords(block: array<bv8>, offset: nat, msgSchedule: array<bv32>)
    requires offset + 64 <= block.Length && msgSchedule.Length == 64
    modifies msgSchedule
    ensures msgSchedule[..16] == ScheduleUpTo(block[offset..offset + 64], 16)
  {
    ghost var blk: Block := block[offset..offset + 64];
    var j := 0;
    for i := 0 to 16
      invariant j == 4 * i
      invariant msgSchedule[..i] == ScheduleUpTo(blk, i)
    {
      assert block[offset + j] == blk[4 * i] && block[offset + j + 1] == blk[4 * i + 1];
      assert block[offset + j + 2] == blk[4 * i + 2] && block[offset + j + 3] == blk[4 * i + 3];
      msgSchedule[i] := BigEndianWord(block[offset + j], block[offset + j + 1], block[offset + j + 2], block[offset + j + 3]);
      ScheduleReadStep(blk, i);
      assert msgSchedule[..i + 1] == msgSchedule[..i] + [msgSchedule[i]];
      j := j + 4;
    }
  }

  /**
   * The message schedule of `sha256_compression`: the sixteen words of the
   * block, then 48 more by the recurrence.
   */
  method MessageSchedule(block: array<bv8>, offset: nat) returns (msgSchedule: array<bv32>)
    requires offset + 64 <= block.Length
    ensures fresh(msgSchedule) && msgSchedule.Length == 64
    ensures msgSchedule[..] == Schedule(block[offset..offset + 64])
  {
    ghost var blk: Block := block[offset..offset + 64];
    msgSchedule := new bv32[64];
    ReadWords(block, offset, msgSchedule);
    for i := 16 to 64
      invariant msgSchedule[..i] == ScheduleUpTo(blk, i)
    {
      msgSchedule[i] := ExpandWord(msgSchedule[i - 2], msgSchedule[i - 7], msgSchedule[i - 15], msgSchedule[i - 16]);
    }
    assert msgSchedule[..] == msgSchedule[..64];
  }

  /**
   * The eight `hash[i] += x` that end `sha256_compression`; they touch
   * distinct words, so they are made in one simultaneous assignment.
   */
  method AddInto(hash: array<bv32>, a: bv32, b: bv32, c: bv32, d: bv32, e: bv32, f: bv32, g: bv32, h: bv32)
    requires hash.Length == 8
    modifies hash
    ensures hash[..] == AddWorking(old(hash[..]), Working(a, b, c, d, e, f, g, h))
  {
    hash[0], hash[1], hash[2], hash[3], hash[4], hash[5], hash[6], hash[7] :=
      Add(hash[0], a), Add(hash[1], b), Add(hash[2], c), Add(hash[3], d),
      Add(hash[4], e), Add(hash[5], f), Add(hash[6], g), Add(hash[7], h);
  }

  /**
   * `sha256_compression`: the 64-byte block at `block + offset` is read,
   * and only the eight hash words change, to the compression of the old
   * ones with that block. `step` is the compression function `Compress`,
   * passed by name so that callers reason about it without expanding it.
   */
  method Compression(block: array<bv8>, offset: nat, hash: array<bv32>, ghost step: (Hash, Block) -> Hash)
    requires offset + 64 <= block.Length && hash.Length == 8 && IsCompression(step)
    modifies hash
    ensures hash[..] == step(old(hash[..]), old(block[offset..offset + 64]))
  {
    ghost var old_hash: Hash := hash[..];
    var a, b, c, d, e, f, g, h := hash[0], hash[1], hash[2], hash[3], hash[4], hash[5], hash[6], hash[7];
    var msgSchedule := MessageSchedule(block, offset);
    ghost var w := msgSchedule[..];
    ghost var start := Working(a, b, c, d, e, f, g, h);
    for i := 0 to 64
      invariant Working(a, b, c, d, e, f, g, h) == Rounds(start, w, i)
    {
      var temp1 := Temp1(h, e, f, g, RoundConstants[i], msgSchedule[i]);
      var temp2 := Temp2(a, b, c);
      h := g;
      g := f;
      f := e;
      e := Add(d, temp1);
      d := c;
      c := b;
      b := a;
      a := Add(temp1, temp2);
    }
    ghost var v := Working(a, b, c, d, e, f, g, h);
    assert v == Rounds(Working(old_hash[0], old_hash[1], old_hash[2], old_hash[3], old_hash[4], old_hash[5], old_hash[6], old_hash[7]), Schedule(block[offset..offset + 64]), 64);
    AddInto(hash, a, b, c, d, e, f, g, h);
    assert hash[..] == Compress(old_hash, block[offset..offset + 64]);
  }

  /**
   * The loop of `sha256` over the blocks: each one compressed into the
   * hash, in order, `step` being the compression function.
   */
  method CompressBlocks(padded: array<bv8>, paddedLength: nat, hash: array<bv32>, ghost step: (Hash, Block) -> Hash)
    requires paddedLength <= padded.Length && hash.Length == 8
    requires IsCompression(step)
    modifies hash
    ensures hash[..] == Chain(step, old(hash[..]), padded[..], paddedLength / 64)
  {
    ghost var start: Hash := hash[..];
    for i := 0 to paddedLength / 64
      invariant hash[..] == Chain(step, start, padded[..], i)
    {
      Compression(padded, i * 64, hash, step);
    }
  }

  /** The last loop of `sha256`: the eight hash words into the digest. */
  method CopyWords(digest: array<bv32>, hash: array<bv32>)
    requires digest.Length == 8 && hash.Length == 8 && digest != hash
    modifies digest
    ensures digest[..] == hash[..]
  {
    for i := 0 to 8
      invariant forall k | 0 <= k < i :: digest[k] == hash[k]
    {
      digest[i] := hash[i];
    }
  }

  /**
   * `sha256`: pads the message, compresses its blocks in order starting
   * from the initial hash value, and returns the eight words in a fresh
   * digest.
   */
  method Sha256(data: array<bv8>, dataLength: nat) returns (digest: array<bv32>)
    requires dataLength <= data.Length
    ensures fresh(digest) && digest.Length == 8
    ensures digest[..] == Digest(data[..dataLength])
  {
    var hash := new bv32[][0x6a09e667, 0xbb67ae85, 0x3c6ef372, 0xa54ff53a, 0x510e527f, 0x9b05688c, 0x1f83d9ab, 0x5be0cd19];
    digest := new bv32[8];
    var padded, paddedLength := Padding(data, dataLength);
    PaddedLayout(data[..dataLength]);
    assert hash[..] == InitialHash;
    CompressBlocks(padded, paddedLength, hash, Compress);
    CopyWords(digest, hash);
  }
}
