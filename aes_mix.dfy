/**
 * The MixColumns transformation and its inverse on one 4-byte column
 * (FIPS-197 sections 5.1.3 and 5.3.3), and the link between the `g_mult`
 * products the C code XORs together and these byte-level definitions.
 *
 * The byte functions spell multiplication by {02} out as
 * `(x << 1) ^ (0x1B if the top bit of x is set)`, written without a branch:
 * `(x >> 7)` is 0 or 1 and is copied to bits 0, 1, 3 and 4. Stated this way,
 * every product is a plain bit-vector expression, so the solver can cancel
 * the XOR sums in the inverse laws below by rewriting.
 */
module AesMix {
  import opened GaloisField

  /** Column byte ({02} • a) ⊕ ({03} • b) ⊕ c ⊕ d of FIPS-197 equation (5.6). */
  function MixByte(a: bv8, b: bv8, c: bv8, d: bv8): bv8
  {
    var a2 := ((a << 1) ^ ((a >> 7) | ((a >> 7) << 1) | ((a >> 7) << 3) | ((a >> 7) << 4)));
    var b2 := ((b << 1) ^ ((b >> 7) | ((b >> 7) << 1) | ((b >> 7) << 3) | ((b >> 7) << 4)));
    a2 ^ (b2 ^ b) ^ c ^ d
  }

  /** Column byte ({0e} • a) ⊕ ({0b} • b) ⊕ ({0d} • c) ⊕ ({09} • d) of FIPS-197 equation (5.10). */
  function InvMixByte(a: bv8, b: bv8, c: bv8, d: bv8): bv8
  {
    var a2 := ((a << 1) ^ ((a >> 7) | ((a >> 7) << 1) | ((a >> 7) << 3) | ((a >> 7) << 4)));
    var a4 := ((a2 << 1) ^ ((a2 >> 7) | ((a2 >> 7) << 1) | ((a2 >> 7) << 3) | ((a2 >> 7) << 4)));
    var a8 := ((a4 << 1) ^ ((a4 >> 7) | ((a4 >> 7) << 1) | ((a4 >> 7) << 3) | ((a4 >> 7) << 4)));
    var b2 := ((b << 1) ^ ((b >> 7) | ((b >> 7) << 1) | ((b >> 7) << 3) | ((b >> 7) << 4)));
    var b4 := ((b2 << 1) ^ ((b2 >> 7) | ((b2 >> 7) << 1) | ((b2 >> 7) << 3) | ((b2 >> 7) << 4)));
    var b8 := ((b4 << 1) ^ ((b4 >> 7) | ((b4 >> 7) << 1) | ((b4 >> 7) << 3) | ((b4 >> 7) << 4)));
    var c2 := ((c << 1) ^ ((c >> 7) | ((c >> 7) << 1) | ((c >> 7) << 3) | ((c >> 7) << 4)));
    var c4 := ((c2 << 1) ^ ((c2 >> 7) | ((c2 >> 7) << 1) | ((c2 >> 7) << 3) | ((c2 >> 7) << 4)));
    var c8 := ((c4 << 1) ^ ((c4 >> 7) | ((c4 >> 7) << 1) | ((c4 >> 7) << 3) | ((c4 >> 7) << 4)));
    var d2 := ((d << 1) ^ ((d >> 7) | ((d >> 7) << 1) | ((d >> 7) << 3) | ((d >> 7) << 4)));
    var d4 := ((d2 << 1) ^ ((d2 >> 7) | ((d2 >> 7) << 1) | ((d2 >> 7) << 3) | ((d2 >> 7) << 4)));
    var d8 := ((d4 << 1) ^ ((d4 >> 7) | ((d4 >> 7) << 1) | ((d4 >> 7) << 3) | ((d4 >> 7) << 4)));
    (a8 ^ a4 ^ a2) ^ (b8 ^ b2 ^ b) ^ (c8 ^ c4 ^ c) ^ (d8 ^ d)
  }

  /** The four-way XOR the C code writes, as one function so that both sides of a link share its shape. */
  function Xor4(w: bv8, x: bv8, y: bv8, z: bv8): bv8
  {
    w ^ x ^ y ^ z
  }

  lemma Xor4Flat(w: bv8, x: bv8, y: bv8, z: bv8)
    ensures Xor4(w, x, y, z) == w ^ x ^ y ^ z
  {
  }

  lemma GMulBy2(x: bv8)
    ensures var x2 := ((x << 1) ^ ((x >> 7) | ((x >> 7) << 1) | ((x >> 7) << 3) | ((x >> 7) << 4))); GMul(x, 2) == x2
  {
  }

  lemma GMulBy3(x: bv8)
    ensures var x2 := ((x << 1) ^ ((x >> 7) | ((x >> 7) << 1) | ((x >> 7) << 3) | ((x >> 7) << 4))); GMul(x, 3) == (x2 ^ x)
  {
  }

  lemma GMulBy9(x: bv8)
    ensures var x2 := ((x << 1) ^ ((x >> 7) | ((x >> 7) << 1) | ((x >> 7) << 3) | ((x >> 7) << 4))); var x4 := ((x2 << 1) ^ ((x2 >> 7) | ((x2 >> 7) << 1) | ((x2 >> 7) << 3) | ((x2 >> 7) << 4))); var x8 := ((x4 << 1) ^ ((x4 >> 7) | ((x4 >> 7) << 1) | ((x4 >> 7) << 3) | ((x4 >> 7) << 4))); GMul(x, 9) == (x8 ^ x)
  {
  }

  lemma GMulBy11(x: bv8)
    ensures var x2 := ((x << 1) ^ ((x >> 7) | ((x >> 7) << 1) | ((x >> 7) << 3) | ((x >> 7) << 4))); var x4 := ((x2 << 1) ^ ((x2 >> 7) | ((x2 >> 7) << 1) | ((x2 >> 7) << 3) | ((x2 >> 7) << 4))); var x8 := ((x4 << 1) ^ ((x4 >> 7) | ((x4 >> 7) << 1) | ((x4 >> 7) << 3) | ((x4 >> 7) << 4))); GMul(x, 11) == (x8 ^ x2 ^ x)
  {
  }

  lemma GMulBy13(x: bv8)
    ensures var x2 := ((x << 1) ^ ((x >> 7) | ((x >> 7) << 1) | ((x >> 7) << 3) | ((x >> 7) << 4))); var x4 := ((x2 << 1) ^ ((x2 >> 7) | ((x2 >> 7) << 1) | ((x2 >> 7) << 3) | ((x2 >> 7) << 4))); var x8 := ((x4 << 1) ^ ((x4 >> 7) | ((x4 >> 7) << 1) | ((x4 >> 7) << 3) | ((x4 >> 7) << 4))); GMul(x, 13) == (x8 ^ x4 ^ x)
  {
  }

  lemma GMulBy14(x: bv8)
    ensures var x2 := ((x << 1) ^ ((x >> 7) | ((x >> 7) << 1) | ((x >> 7) << 3) | ((x >> 7) << 4))); var x4 := ((x2 << 1) ^ ((x2 >> 7) | ((x2 >> 7) << 1) | ((x2 >> 7) << 3) | ((x2 >> 7) << 4))); var x8 := ((x4 << 1) ^ ((x4 >> 7) | ((x4 >> 7) << 1) | ((x4 >> 7) << 3) | ((x4 >> 7) << 4))); GMul(x, 14) == (x8 ^ x4 ^ x2)
  {
  }

  lemma GMulBy1(x: bv8)
    ensures GMul(x, 1) == x
  {
  }

  lemma MixProductsXor4(a: bv8, b: bv8, c: bv8, d: bv8)
    ensures var a2 := ((a << 1) ^ ((a >> 7) | ((a >> 7) << 1) | ((a >> 7) << 3) | ((a >> 7) << 4))); var b2 := ((b << 1) ^ ((b >> 7) | ((b >> 7) << 1) | ((b >> 7) << 3) | ((b >> 7) << 4))); Xor4(GMul(a, 2), GMul(d, 1), GMul(c, 1), GMul(b, 3)) == Xor4(a2, d, c, (b2 ^ b))
  {
    GMulBy2(a); GMulBy1(d); GMulBy1(c); GMulBy3(b);
  }

  lemma MixByteXor4(a: bv8, b: bv8, c: bv8, d: bv8)
    ensures var a2 := ((a << 1) ^ ((a >> 7) | ((a >> 7) << 1) | ((a >> 7) << 3) | ((a >> 7) << 4))); var b2 := ((b << 1) ^ ((b >> 7) | ((b >> 7) << 1) | ((b >> 7) << 3) | ((b >> 7) << 4))); Xor4(a2, d, c, (b2 ^ b)) == MixByte(a, b, c, d)
  {
  }

  /**
   * `mix_column` (encrypt) computes each output byte as
   * g_mult(t0, 2) ^ g_mult(t3, 1) ^ g_mult(t2, 1) ^ g_mult(t1, 3): that is MixByte.
   */
  lemma MixByteProducts(a: bv8, b: bv8, c: bv8, d: bv8, p0: bv8, p1: bv8, p2: bv8, p3: bv8)
    requires p0 == GMul(a, 2) && p1 == GMul(d, 1) && p2 == GMul(c, 1) && p3 == GMul(b, 3)
    ensures p0 ^ p1 ^ p2 ^ p3 == MixByte(a, b, c, d)
  {
    MixProductsXor4(a, b, c, d);
    MixByteXor4(a, b, c, d);
    Xor4Flat(p0, p1, p2, p3);
  }

  lemma InvMixProductsXor4(a: bv8, b: bv8, c: bv8, d: bv8)
    ensures var a2 := ((a << 1) ^ ((a >> 7) | ((a >> 7) << 1) | ((a >> 7) << 3) | ((a >> 7) << 4))); var a4 := ((a2 << 1) ^ ((a2 >> 7) | ((a2 >> 7) << 1) | ((a2 >> 7) << 3) | ((a2 >> 7) << 4))); var a8 := ((a4 << 1) ^ ((a4 >> 7) | ((a4 >> 7) << 1) | ((a4 >> 7) << 3) | ((a4 >> 7) << 4))); var b2 := ((b << 1) ^ ((b >> 7) | ((b >> 7) << 1) | ((b >> 7) << 3) | ((b >> 7) << 4))); var b4 := ((b2 << 1) ^ ((b2 >> 7) | ((b2 >> 7) << 1) | ((b2 >> 7) << 3) | ((b2 >> 7) << 4))); var b8 := ((b4 << 1) ^ ((b4 >> 7) | ((b4 >> 7) << 1) | ((b4 >> 7) << 3) | ((b4 >> 7) << 4))); var c2 := ((c << 1) ^ ((c >> 7) | ((c >> 7) << 1) | ((c >> 7) << 3) | ((c >> 7) << 4))); var c4 := ((c2 << 1) ^ ((c2 >> 7) | ((c2 >> 7) << 1) | ((c2 >> 7) << 3) | ((c2 >> 7) << 4))); var c8 := ((c4 << 1) ^ ((c4 >> 7) | ((c4 >> 7) << 1) | ((c4 >> 7) << 3) | ((c4 >> 7) << 4))); var d2 := ((d << 1) ^ ((d >> 7) | ((d >> 7) << 1) | ((d >> 7) << 3) | ((d >> 7) << 4))); var d4 := ((d2 << 1) ^ ((d2 >> 7) | ((d2 >> 7) << 1) | ((d2 >> 7) << 3) | ((d2 >> 7) << 4))); var d8 := ((d4 << 1) ^ ((d4 >> 7) | ((d4 >> 7) << 1) | ((d4 >> 7) << 3) | ((d4 >> 7) << 4))); Xor4(GMul(a, 14), GMul(d, 9), GMul(c, 13), GMul(b, 11)) == Xor4((a8 ^ a4 ^ a2), (d8 ^ d), (c8 ^ c4 ^ c), (b8 ^ b2 ^ b))
  {
    GMulBy14(a); GMulBy9(d); GMulBy13(c); GMulBy11(b);
  }

  lemma InvMixByteXor4(a: bv8, b: bv8, c: bv8, d: bv8)
    ensures var a2 := ((a << 1) ^ ((a >> 7) | ((a >> 7) << 1) | ((a >> 7) << 3) | ((a >> 7) << 4))); var a4 := ((a2 << 1) ^ ((a2 >> 7) | ((a2 >> 7) << 1) | ((a2 >> 7) << 3) | ((a2 >> 7) << 4))); var a8 := ((a4 << 1) ^ ((a4 >> 7) | ((a4 >> 7) << 1) | ((a4 >> 7) << 3) | ((a4 >> 7) << 4))); var b2 := ((b << 1) ^ ((b >> 7) | ((b >> 7) << 1) | ((b >> 7) << 3) | ((b >> 7) << 4))); var b4 := ((b2 << 1) ^ ((b2 >> 7) | ((b2 >> 7) << 1) | ((b2 >> 7) << 3) | ((b2 >> 7) << 4))); var b8 := ((b4 << 1) ^ ((b4 >> 7) | ((b4 >> 7) << 1) | ((b4 >> 7) << 3) | ((b4 >> 7) << 4))); var c2 := ((c << 1) ^ ((c >> 7) | ((c >> 7) << 1) | ((c >> 7) << 3) | ((c >> 7) << 4))); var c4 := ((c2 << 1) ^ ((c2 >> 7) | ((c2 >> 7) << 1) | ((c2 >> 7) << 3) | ((c2 >> 7) << 4))); var c8 := ((c4 << 1) ^ ((c4 >> 7) | ((c4 >> 7) << 1) | ((c4 >> 7) << 3) | ((c4 >> 7) << 4))); var d2 := ((d << 1) ^ ((d >> 7) | ((d >> 7) << 1) | ((d >> 7) << 3) | ((d >> 7) << 4))); var d4 := ((d2 << 1) ^ ((d2 >> 7) | ((d2 >> 7) << 1) | ((d2 >> 7) << 3) | ((d2 >> 7) << 4))); var d8 := ((d4 << 1) ^ ((d4 >> 7) | ((d4 >> 7) << 1) | ((d4 >> 7) << 3) | ((d4 >> 7) << 4))); Xor4((a8 ^ a4 ^ a2), (d8 ^ d), (c8 ^ c4 ^ c), (b8 ^ b2 ^ b)) == InvMixByte(a, b, c, d)
  {
  }

  /**
   * `mix_column` (decrypt) computes each output byte as
   * g_mult(t0, 14) ^ g_mult(t3, 9) ^ g_mult(t2, 13) ^ g_mult(t1, 11): that is InvMixByte.
   */
  lemma InvMixByteProducts(a: bv8, b: bv8, c: bv8, d: bv8, p0: bv8, p1: bv8, p2: bv8, p3: bv8)
    requires p0 == GMul(a, 14) && p1 == GMul(d, 9) && p2 == GMul(c, 13) && p3 == GMul(b, 11)
    ensures p0 ^ p1 ^ p2 ^ p3 == InvMixByte(a, b, c, d)
  {
    InvMixProductsXor4(a, b, c, d);
    InvMixByteXor4(a, b, c, d);
    Xor4Flat(p0, p1, p2, p3);
  }

  lemma MixByteUnfold(a: bv8, b: bv8, c: bv8, d: bv8)
    ensures MixByte(a, b, c, d) == (((a << 1) ^ ((a >> 7) | ((a >> 7) << 1) | ((a >> 7) << 3) | ((a >> 7) << 4))) ^ (((b << 1) ^ ((b >> 7) | ((b >> 7) << 1) | ((b >> 7) << 3) | ((b >> 7) << 4))) ^ b) ^ c ^ d)
  {
  }

  lemma InvMixOfMixExpanded(a: bv8, b: bv8, c: bv8, d: bv8)
    ensures InvMixByte((((a << 1) ^ ((a >> 7) | ((a >> 7) << 1) | ((a >> 7) << 3) | ((a >> 7) << 4))) ^ (((b << 1) ^ ((b >> 7) | ((b >> 7) << 1) | ((b >> 7) << 3) | ((b >> 7) << 4))) ^ b) ^ c ^ d), (((b << 1) ^ ((b >> 7) | ((b >> 7) << 1) | ((b >> 7) << 3) | ((b >> 7) << 4))) ^ (((c << 1) ^ ((c >> 7) | ((c >> 7) << 1) | ((c >> 7) << 3) | ((c >> 7) << 4))) ^ c) ^ d ^ a), (((c << 1) ^ ((c >> 7) | ((c >> 7) << 1) | ((c >> 7) << 3) | ((c >> 7) << 4))) ^ (((d << 1) ^ ((d >> 7) | ((d >> 7) << 1) | ((d >> 7) << 3) | ((d >> 7) << 4))) ^ d) ^ a ^ b), (((d << 1) ^ ((d >> 7) | ((d >> 7) << 1) | ((d >> 7) << 3) | ((d >> 7) << 4))) ^ (((a << 1) ^ ((a >> 7) | ((a >> 7) << 1) | ((a >> 7) << 3) | ((a >> 7) << 4))) ^ a) ^ b ^ c)) == a
  {
  }

  /** InvMixByte undoes MixByte: the first byte of a column mixed and then unmixed is the original first byte. */
  lemma MixByteInverse(a: bv8, b: bv8, c: bv8, d: bv8)
    ensures InvMixByte(MixByte(a, b, c, d), MixByte(b, c, d, a), MixByte(c, d, a, b), MixByte(d, a, b, c)) == a
  {
    MixByteUnfold(a, b, c, d);
    MixByteUnfold(b, c, d, a);
    MixByteUnfold(c, d, a, b);
    MixByteUnfold(d, a, b, c);
    InvMixOfMixExpanded(a, b, c, d);
  }

  lemma InvMixByteUnfold(a: bv8, b: bv8, c: bv8, d: bv8)
    ensures var a2 := ((a << 1) ^ ((a >> 7) | ((a >> 7) << 1) | ((a >> 7) << 3) | ((a >> 7) << 4))); var a4 := ((a2 << 1) ^ ((a2 >> 7) | ((a2 >> 7) << 1) | ((a2 >> 7) << 3) | ((a2 >> 7) << 4))); var a8 := ((a4 << 1) ^ ((a4 >> 7) | ((a4 >> 7) << 1) | ((a4 >> 7) << 3) | ((a4 >> 7) << 4))); var b2 := ((b << 1) ^ ((b >> 7) | ((b >> 7) << 1) | ((b >> 7) << 3) | ((b >> 7) << 4))); var b4 := ((b2 << 1) ^ ((b2 >> 7) | ((b2 >> 7) << 1) | ((b2 >> 7) << 3) | ((b2 >> 7) << 4))); var b8 := ((b4 << 1) ^ ((b4 >> 7) | ((b4 >> 7) << 1) | ((b4 >> 7) << 3) | ((b4 >> 7) << 4))); var c2 := ((c << 1) ^ ((c >> 7) | ((c >> 7) << 1) | ((c >> 7) << 3) | ((c >> 7) << 4))); var c4 := ((c2 << 1) ^ ((c2 >> 7) | ((c2 >> 7) << 1) | ((c2 >> 7) << 3) | ((c2 >> 7) << 4))); var c8 := ((c4 << 1) ^ ((c4 >> 7) | ((c4 >> 7) << 1) | ((c4 >> 7) << 3) | ((c4 >> 7) << 4))); var d2 := ((d << 1) ^ ((d >> 7) | ((d >> 7) << 1) | ((d >> 7) << 3) | ((d >> 7) << 4))); var d4 := ((d2 << 1) ^ ((d2 >> 7) | ((d2 >> 7) << 1) | ((d2 >> 7) << 3) | ((d2 >> 7) << 4))); var d8 := ((d4 << 1) ^ ((d4 >> 7) | ((d4 >> 7) << 1) | ((d4 >> 7) << 3) | ((d4 >> 7) << 4))); InvMixByte(a, b, c, d) == (a8 ^ a4 ^ a2) ^ (b8 ^ b2 ^ b) ^ (c8 ^ c4 ^ c) ^ (d8 ^ d)
  {
  }

  lemma MixOfInvMixExpanded(a: bv8, b: bv8, c: bv8, d: bv8)
    ensures var a2 := ((a << 1) ^ ((a >> 7) | ((a >> 7) << 1) | ((a >> 7) << 3) | ((a >> 7) << 4))); var a4 := ((a2 << 1) ^ ((a2 >> 7) | ((a2 >> 7) << 1) | ((a2 >> 7) << 3) | ((a2 >> 7) << 4))); var a8 := ((a4 << 1) ^ ((a4 >> 7) | ((a4 >> 7) << 1) | ((a4 >> 7) << 3) | ((a4 >> 7) << 4))); var b2 := ((b << 1) ^ ((b >> 7) | ((b >> 7) << 1) | ((b >> 7) << 3) | ((b >> 7) << 4))); var b4 := ((b2 << 1) ^ ((b2 >> 7) | ((b2 >> 7) << 1) | ((b2 >> 7) << 3) | ((b2 >> 7) << 4))); var b8 := ((b4 << 1) ^ ((b4 >> 7) | ((b4 >> 7) << 1) | ((b4 >> 7) << 3) | ((b4 >> 7) << 4))); var c2 := ((c << 1) ^ ((c >> 7) | ((c >> 7) << 1) | ((c >> 7) << 3) | ((c >> 7) << 4))); var c4 := ((c2 << 1) ^ ((c2 >> 7) | ((c2 >> 7) << 1) | ((c2 >> 7) << 3) | ((c2 >> 7) << 4))); var c8 := ((c4 << 1) ^ ((c4 >> 7) | ((c4 >> 7) << 1) | ((c4 >> 7) << 3) | ((c4 >> 7) << 4))); var d2 := ((d << 1) ^ ((d >> 7) | ((d >> 7) << 1) | ((d >> 7) << 3) | ((d >> 7) << 4))); var d4 := ((d2 << 1) ^ ((d2 >> 7) | ((d2 >> 7) << 1) | ((d2 >> 7) << 3) | ((d2 >> 7) << 4))); var d8 := ((d4 << 1) ^ ((d4 >> 7) | ((d4 >> 7) << 1) | ((d4 >> 7) << 3) | ((d4 >> 7) << 4))); MixByte((a8 ^ a4 ^ a2) ^ (b8 ^ b2 ^ b) ^ (c8 ^ c4 ^ c) ^ (d8 ^ d), (b8 ^ b4 ^ b2) ^ (c8 ^ c2 ^ c) ^ (d8 ^ d4 ^ d) ^ (a8 ^ a), (c8 ^ c4 ^ c2) ^ (d8 ^ d2 ^ d) ^ (a8 ^ a4 ^ a) ^ (b8 ^ b), (d8 ^ d4 ^ d2) ^ (a8 ^ a2 ^ a) ^ (b8 ^ b4 ^ b) ^ (c8 ^ c)) == a
  {
  }

  /** MixByte undoes InvMixByte. */
  lemma InvMixByteInverse(a: bv8, b: bv8, c: bv8, d: bv8)
    ensures MixByte(InvMixByte(a, b, c, d), InvMixByte(b, c, d, a), InvMixByte(c, d, a, b), InvMixByte(d, a, b, c)) == a
  {
    InvMixByteUnfold(a, b, c, d);
    InvMixByteUnfold(b, c, d, a);
    InvMixByteUnfold(c, d, a, b);
    InvMixByteUnfold(d, a, b, c);
    MixOfInvMixExpanded(a, b, c, d);
  }
}
