/**
 * The C library's `memcpy` and `memset` on byte buffers, which the C code
 * uses for whole or partial block copies and for zero padding. A buffer is an array together with an offset,
 * standing for the C pointer `buffer + offset`.
 */
module Memory {

  /** `memcpy(dst + dstOffset, src + srcOffset, n)`: the buffers must not overlap. */
  method Copy(dst: array<bv8>, dstOffset: nat, src: array<bv8>, srcOffset: nat, n: nat)
    requires dst != src
    requires dstOffset + n <= dst.Length && srcOffset + n <= src.Length
    modifies dst
    ensures dst[dstOffset..dstOffset + n] == src[srcOffset..srcOffset + n]
    ensures dst[..dstOffset] == old(dst[..dstOffset])
    ensures dst[dstOffset + n..] == old(dst[dstOffset + n..])
  {
    var i := 0;
    while i < n
      invariant 0 <= i <= n
      invariant forall k | dstOffset <= k < dstOffset + i :: dst[k] == src[k - dstOffset + srcOffset]
      invariant forall k | 0 <= k < dst.Length && !(dstOffset <= k < dstOffset + i) :: dst[k] == old(dst[k])
    {
      dst[dstOffset + i] := src[srcOffset + i];
      i := i + 1;
    }
  }

  /** `memset(dst + dstOffset, value, n)`. */
  method Set(dst: array<bv8>, dstOffset: nat, value: bv8, n: nat)
    requires dstOffset + n <= dst.Length
    modifies dst
    ensures forall k | dstOffset <= k < dstOffset + n :: dst[k] == value
    ensures dst[..dstOffset] == old(dst[..dstOffset])
    ensures dst[dstOffset + n..] == old(dst[dstOffset + n..])
  {
    var i := 0;
    while i < n
      invariant 0 <= i <= n
      invariant forall k | dstOffset <= k < dstOffset + i :: dst[k] == value
      invariant forall k | 0 <= k < dst.Length && !(dstOffset <= k < dstOffset + i) :: dst[k] == old(dst[k])
    {
      dst[dstOffset + i] := value;
      i := i + 1;
    }
  }
}
