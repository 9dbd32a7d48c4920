/**
 * PKCS#7 padding (RFC 5652 section 6.3) as `utils/pkcs7.c` implements it:
 * a context records the data, its padded copy and the padding arithmetic;
 * `Pad` fills the tail of the padded copy and `Unpad` strips the number of
 * bytes named by the last byte, without checking them.
 */
module Pkcs7 {
  import Memory

  /** The block sizes `pkcs7_context_init` accepts. */
  predicate ValidBlockSize(blockSize: nat)
  {
    blockSize == 16 || blockSize == 32
  }

  /**
   * The pad byte: the distance from the data length up to the next multiple
   * of the block size, a whole block when the length is already a multiple.
   */
  function PaddingByte(dataLength: nat, blockSize: nat): (pb: nat)
    requires ValidBlockSize(blockSize)
    ensures 1 <= pb <= blockSize
  {
    blockSize - dataLength % blockSize
  }

  /**
   * Adding the pad byte to the length reaches a multiple of the block size,
   * and the pad byte is a whole block exactly when the length already is one.
   */
  lemma PaddingByteCompletesBlock(dataLength: nat, blockSize: nat)
    requires ValidBlockSize(blockSize)
    ensures (dataLength + PaddingByte(dataLength, blockSize)) % blockSize == 0
    ensures PaddingByte(dataLength, blockSize) == blockSize <==> dataLength % blockSize == 0
  {
    var q := dataLength / blockSize;
    assert dataLength + PaddingByte(dataLength, blockSize) == (q + 1) * blockSize;
  }

  /** The padded length is the least multiple of the block size strictly above the data length. */
  lemma PaddedLengthLeast(dataLength: nat, blockSize: nat, m: nat)
    requires ValidBlockSize(blockSize) && m % blockSize == 0 && dataLength < m
    ensures dataLength + PaddingByte(dataLength, blockSize) <= m
  {
    if blockSize == 16 {
      assert dataLength / 16 < m / 16;
    } else {
      assert dataLength / 32 < m / 32;
    }
  }

  /** A pad byte fits in a byte: converting it to `bv8` and back loses nothing. */
  lemma SmallByte(n: nat)
    requires n <= 32
    ensures (n as bv8) as nat == n
  {
  }

  /** A byte is the conversion of its own value. */
  lemma ByteOfValue(b: bv8)
    ensures (b as nat) as bv8 == b
  {
  }

  /** n copies of byte b. */
  function Repeat(b: bv8, n: nat): (r: seq<bv8>)
    ensures |r| == n && forall k | 0 <= k < n :: r[k] == b
  {
    seq(n, _ => b)
  }

  /** The data followed by `PaddingByte` copies of the pad byte. */
  function Padded(data: seq<bv8>, blockSize: nat): (padded: seq<bv8>)
    requires ValidBlockSize(blockSize)
    ensures |padded| == |data| + PaddingByte(|data|, blockSize)
    ensures padded[..|data|] == data
    ensures forall k | |data| <= k < |padded| :: padded[k] == PaddingByte(|data|, blockSize) as bv8
  {
    var pb := PaddingByte(|data|, blockSize);
    data + Repeat(pb as bv8, pb)
  }

  /**
   * What `pkcs7_unpad` keeps: the prefix left after removing as many bytes as
   * the last byte says, whatever the removed bytes hold.
   */
  function Unpadded(padded: seq<bv8>): (data: seq<bv8>)
    requires |padded| > 0 && padded[|padded| - 1] as nat <= |padded|
    ensures |data| + padded[|padded| - 1] as nat == |padded|
    ensures padded[..|data|] == data
  {
    padded[..|padded| - padded[|padded| - 1] as nat]
  }

  /** Unpadding a padded message gives back the message, for both block sizes. */
  lemma UnpaddedPadded(data: seq<bv8>, blockSize: nat)
    requires ValidBlockSize(blockSize)
    ensures var padded := Padded(data, blockSize);
      |padded| > 0 && padded[|padded| - 1] as nat <= |padded| && Unpadded(padded) == data
  {
    var padded := Padded(data, blockSize);
    SmallByte(PaddingByte(|data|, blockSize));
    assert padded[|padded| - 1] as nat == PaddingByte(|data|, blockSize);
  }

  /** `pkcs7_context`: the data, its padded copy and the padding arithmetic. */
  class Context {
    var blockSize: bv8
    var paddingByte: bv8
    var paddedDataLength: nat
    var dataLength: nat
    var data: array<bv8>
    var paddedData: array<bv8>

    /** The relations `pkcs7_context_init` establishes between the fields. */
    ghost predicate Valid()
      reads this
    {
      && ValidBlockSize(blockSize as nat)
      && paddingByte as nat == PaddingByte(dataLength, blockSize as nat)
      && paddedDataLength == dataLength + paddingByte as nat
      && data.Length == dataLength
      && paddedData.Length == paddedDataLength
      && data != paddedData
    }

    /** The field assignments and buffer copies of `pkcs7_context_init` once the block size is accepted. */
    constructor (input: array<bv8>, inputLength: nat, size: bv8)
      requires ValidBlockSize(size as nat) && inputLength <= input.Length
      ensures Valid()
      ensures blockSize == size && dataLength == inputLength
      ensures fresh(data) && fresh(paddedData)
      ensures data[..] == input[..inputLength]
      ensures paddedData[..] == input[..inputLength] + Repeat(0, paddingByte as nat)
    {
      var pb := PaddingByte(inputLength, size as nat);
      var copy := new bv8[inputLength];
      Memory.Copy(copy, 0, input, 0, inputLength);
      assert copy[..] == input[..inputLength];
      var padded := new bv8[inputLength + pb];
      Memory.Set(padded, 0, 0, inputLength + pb);
      ghost var zeros := padded[..];
      assert zeros == Repeat(0, inputLength + pb);
      Memory.Copy(padded, 0, input, 0, inputLength);
      assert padded[inputLength..] == zeros[inputLength..] == Repeat(0, pb);
      assert padded[..] == padded[..inputLength] + padded[inputLength..];
      blockSize := size;
      paddingByte := pb as bv8;
      paddedDataLength := inputLength + pb;
      dataLength := inputLength;
      data := copy;
      paddedData := padded;
      SmallByte(pb);
    }

    /**
     * `pkcs7_context_init`: no context unless the block size is 16 or 32;
     * otherwise `data` holds the input and `paddedData` the input followed by
     * zeros up to the padded length.
     */
    static method Init(input: array<bv8>, inputLength: nat, size: bv8) returns (context: Context?)
      requires inputLength <= input.Length
      ensures context == null <==> !ValidBlockSize(size as nat)
      ensures context != null ==> fresh(context) && fresh(context.data) && fresh(context.paddedData)
      ensures context != null ==> context.Valid() && context.blockSize == size && context.dataLength == inputLength
      ensures context != null ==> context.data[..] == input[..inputLength]
      ensures context != null ==> context.paddedData[..] == input[..inputLength] + Repeat(0, context.paddingByte as nat)
    {
      if size != 16 && size != 32 {
        return null;
      }
      context := new Context(input, inputLength, size);
    }

    /**
     * `pkcs7_pad`: the pad byte is written at positions `dataLength` up to the
     * padded length, and the bytes before them stay as they were.
     */
    method Pad()
      requires Valid()
      modifies paddedData
      ensures Valid()
      ensures paddedData[..] == old(paddedData[..dataLength]) + Repeat(paddingByte, paddingByte as nat)
      ensures old(paddedData[..dataLength]) == data[..] ==> paddedData[..] == Padded(data[..], blockSize as nat)
    {
      var pb := paddingByte as nat;
      ByteOfValue(paddingByte);
      ghost var before := paddedData[..];
      var i := 0;
      while i < paddingByte as nat
        invariant 0 <= i <= pb
        invariant forall k | 0 <= k < dataLength :: paddedData[k] == before[k]
        invariant forall k | dataLength <= k < dataLength + i :: paddedData[k] == paddingByte
      {
        paddedData[dataLength + i] := paddingByte;
        i := i + 1;
      }
      assert paddedData[..dataLength] == before[..dataLength];
      assert paddedData[dataLength..] == Repeat(paddingByte, pb);
      assert paddedData[..] == paddedData[..dataLength] + paddedData[dataLength..];
    }

    /**
     * `pkcs7_unpad`: a new context on the first `paddedDataLength` minus last
     * byte bytes. The pad bytes are not checked; the last byte must not exceed
     * the length, which the C leaves to its callers.
     */
    static method Unpad(padded: array<bv8>, paddedLength: nat, size: bv8) returns (context: Context?)
      requires 1 <= paddedLength <= padded.Length
      requires padded[paddedLength - 1] as nat <= paddedLength
      ensures context == null <==> !ValidBlockSize(size as nat)
      ensures context != null ==> fresh(context) && fresh(context.data) && fresh(context.paddedData) && context.Valid()
      ensures context != null ==> context.blockSize == size && context.data[..] == Unpadded(padded[..paddedLength])
      ensures context != null ==> context.paddedData[..] == Unpadded(padded[..paddedLength]) + Repeat(0, context.paddingByte as nat)
    {
      var pb := padded[paddedLength - 1];
      var length := paddedLength - pb as nat;
      context := Init(padded, length, size);
    }
  }
}
