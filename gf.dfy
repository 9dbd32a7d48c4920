/**
 * Arithmetic in GF(2^8) modulo m(x) = x^8 + x^4 + x^3 + x + 1 (FIPS-197
 * section 4.2), the field in which the AES MixColumns step multiplies.
 * Bytes are `bv8`; addition in the field is `^`.
 */
module GaloisField {

  /** Multiplication by x (FIPS-197 section 4.2.1): shift left and reduce by 0x1B on overflow. */
  function XTime(a: bv8): bv8
  {
    if a & 0x80 != 0 then (a << 1) ^ 0x1B else a << 1
  }

  /**
   * The value the shift-and-add loop of `g_mult` ends with when it still has `n`
   * iterations to run from accumulator `p`, multiplicand `a` and multiplier `b`:
   * each iteration adds `a` when the low bit of `b` is set, then doubles `a`
   * in the field and halves `b`.
   */
  function MulAcc(p: bv8, a: bv8, b: bv8, n: nat): bv8
    decreases n
  {
    if n == 0 then p
    else MulAcc(if b & 1 == 1 then p ^ a else p, XTime(a), b >> 1, n - 1)
  }

  /** The field product a • b: eight rounds of shift-and-add from a zero accumulator. */
  function GMul(a: bv8, b: bv8): bv8
  {
    MulAcc(0, a, b, 8)
  }

  /** One iteration of the loop, unfolded. */
  lemma MulAccStep(p: bv8, a: bv8, b: bv8, n: nat)
    requires n > 0
    ensures MulAcc(p, a, b, n) == MulAcc(if b & 1 == 1 then p ^ a else p, XTime(a), b >> 1, n - 1)
  {
  }

  /**
   * `g_mult`: the loop updates `product`, `poly_A` and `poly_B` in place for
   * eight iterations; `high_bit` records the bit shifted out of `poly_A`.
   */
  method GMult(polyA: bv8, polyB: bv8) returns (product: bv8)
    ensures product == GMul(polyA, polyB)
  {
    product := 0;
    var a, b := polyA, polyB;
    var highBit: bv8 := 0;
    var i := 0;
    while i < 8
      invariant 0 <= i <= 8
      invariant MulAcc(product, a, b, 8 - i) == GMul(polyA, polyB)
    {
      MulAccStep(product, a, b, 8 - i);
      if b & 1 == 1 {
        product := product ^ a;
      }
      highBit := a & 0x80;
      a := a << 1;
      if highBit == 0x80 {
        a := a ^ 0x1B;
      }
      b := b >> 1;
      i := i + 1;
    }
  }

  /** {00} is absorbing. */
  lemma GMulZero(a: bv8)
    ensures GMul(a, 0) == 0 && GMul(0, a) == 0
  {
  }

  /** {01} is the multiplicative identity. */
  lemma GMulOne(a: bv8)
    ensures GMul(a, 1) == a && GMul(1, a) == a
  {
  }

  /** Multiplying by {02} is XTime. */
  lemma GMulTwo(a: bv8)
    ensures GMul(a, 2) == XTime(a)
  {
  }

  /** The worked examples of FIPS-197 sections 4.2 and 4.2.1. */
  lemma GMulExamples()
    ensures GMul(0x57, 0x83) == 0xC1
    ensures GMul(0x57, 0x13) == 0xFE
    ensures XTime(0x57) == 0xAE && XTime(0xAE) == 0x47 && XTime(0x47) == 0x8E && XTime(0x8E) == 0x07
  {
  }
}
