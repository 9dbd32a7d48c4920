/**
 * The AES functions of `aes/aes.c` as they work on byte buffers in place,
 * each proved to compute the matching reference definition of `AesSpec`.
 * A C pointer `buffer + offset` is an array with an offset.
 */
module Aes {
  import opened GaloisField
  import opened AesTables
  import opened AesMix
  import AesSpec
  import Memory

  /** `row_col_map`: transposes the 16 bytes at `src + srcOffset` into `dest + destOffset`. */
  method RowColMap(dest: array<bv8>, destOffset: nat, src: array<bv8>, srcOffset: nat)
    requires dest != src
    requires destOffset + 16 <= dest.Length && srcOffset + 16 <= src.Length
    modifies dest
    ensures dest[destOffset..destOffset + 16] == AesSpec.RowColMap(src[srcOffset..srcOffset + 16])
    ensures dest[..destOffset] == old(dest[..destOffset])
    ensures dest[destOffset + 16..] == old(dest[destOffset + 16..])
  {
    ghost var target := AesSpec.RowColMap(src[srcOffset..srcOffset + 16]);
    for i := 0 to 4
      invariant forall k | 0 <= k < dest.Length && !(destOffset <= k < destOffset + 16) :: dest[k] == old(dest[k])
      invariant forall t | 0 <= t < 16 && t % 4 < i :: dest[destOffset + t] == target[t]
    {
      for j := 0 to 4
        invariant forall k | 0 <= k < dest.Length && !(destOffset <= k < destOffset + 16) :: dest[k] == old(dest[k])
        invariant forall t | 0 <= t < 16 && (t % 4 < i || (t % 4 == i && t / 4 < j)) :: dest[destOffset + t] == target[t]
      {
        AesSpec.RowColMapEntry(src[srcOffset..srcOffset + 16], i, j);
        dest[destOffset + i + 4 * j] := src[srcOffset + 4 * i + j];
      }
    }
  }

  /** `rotate_word`: the word is rotated one byte to the left in place. */
  method RotateWord(word: array<bv8>)
    requires word.Length == 4
    modifies word
    ensures word[..] == AesSpec.RotWord(old(word[..]))
  {
    var byte := word[0];
    for i := 0 to 3
      invariant forall k | 0 <= k < i :: word[k] == old(word[k + 1])
      invariant forall k | i <= k < 4 :: word[k] == old(word[k])
    {
      word[i] := word[i + 1];
    }
    word[3] := byte;
  }

  /** `key_schedule`: rotate the word, substitute its bytes and add the round constant to its first byte. */
  method KeySchedule(word: array<bv8>, iteration: nat)
    requires word.Length == 4 && iteration < 255
    modifies word
    ensures word[..] == AesSpec.KeyScheduleCore(old(word[..]), iteration)
  {
    RotateWord(word);
    SubWord(word);
    word[0] := word[0] ^ Rcon(iteration);
  }

  /**
   * `key_expansion`: the key is copied to the front of the expanded key, then
   * one word at a time is appended, each byte the byte `keySize` places
   * earlier XOR the temp word; `rconIteration` counts the key schedules run.
   */
  method KeyExpansion(key: array<bv8>, keySize: nat, expandedKey: array<bv8>, expandedKeySize: nat)
    requires AesSpec.ValidKeySize(keySize) && keySize <= key.Length && key != expandedKey
    requires expandedKeySize == AesSpec.ExpandedKeySize(keySize) == expandedKey.Length
    modifies expandedKey
    ensures expandedKey[..] == AesSpec.ExpandKey(key[..keySize], expandedKeySize)
  {
    var currentSize := 0;
    var rconIteration := 1;
    var tempWord := new bv8[4](_ => 0);
    for i := 0 to keySize
      invariant forall m | 0 <= m < i :: expandedKey[m] == key[m]
    {
      expandedKey[i] := key[i];
    }
    currentSize := currentSize + keySize;
    ghost var k := key[..keySize];
    assert expandedKey[..currentSize] == AesSpec.ExpandKey(k, currentSize);
    while currentSize < expandedKeySize
      invariant keySize <= currentSize <= expandedKeySize && currentSize % 4 == 0
      invariant expandedKey[..currentSize] == AesSpec.ExpandKey(k, currentSize)
      invariant rconIteration == AesSpec.KeyBlock(currentSize - 1, keySize) + 1
      decreases expandedKeySize - currentSize
    {
      WordAligned(currentSize, expandedKeySize);
      currentSize, rconIteration := ExpandWord(tempWord, expandedKey, k, keySize, currentSize, rconIteration);
    }
  }

  /** Word-aligned positions below a word-aligned bound leave room for a whole word. */
  lemma WordAligned(a: nat, b: nat)
    requires a % 4 == 0 && b % 4 == 0 && a < b
    ensures a + 4 <= b && (a + 4) % 4 == 0
  {
  }

  /** The body of the `key_expansion` loop: the temp word is built and one word appended. */
  method ExpandWord(tempWord: array<bv8>, expandedKey: array<bv8>, ghost key: seq<bv8>, keySize: nat, currentSize: nat, rconIteration: nat)
    returns (nextSize: nat, rconNext: nat)
    requires keySize == |key| && AesSpec.ValidKeySize(|key|) && |key| <= currentSize && currentSize + 4 <= AesSpec.ExpandedKeySize(|key|) && currentSize % 4 == 0
    requires AesSpec.ExpandedKeySize(|key|) == expandedKey.Length && tempWord.Length == 4 && tempWord != expandedKey
    requires expandedKey[..currentSize] == AesSpec.ExpandKey(key, currentSize)
    requires rconIteration == AesSpec.KeyBlock(currentSize - 1, |key|) + 1
    modifies tempWord, expandedKey
    ensures nextSize == currentSize + 4
    ensures expandedKey[..nextSize] == AesSpec.ExpandKey(key, nextSize)
    ensures rconNext == AesSpec.KeyBlock(nextSize - 1, |key|) + 1
  {
    rconNext := TempWord(tempWord, expandedKey, currentSize, keySize, rconIteration);
    AesSpec.ExpandKeyStep(key, currentSize);
    nextSize := AppendWord(expandedKey, currentSize, keySize, tempWord);
  }

  /**
   * The start of the `key_expansion` loop body: the last word written is
   * loaded into the temp word, run through the key schedule at a multiple of
   * the key size (the counter then goes up) and, for 256-bit keys, through the
   * S-box half-way between.
   */
  method TempWord(tempWord: array<bv8>, expandedKey: array<bv8>, currentSize: nat, keySize: nat, rconIteration: nat)
    returns (rconNext: nat)
    requires AesSpec.ValidKeySize(keySize) && keySize <= currentSize < AesSpec.ExpandedKeySize(keySize) && currentSize % 4 == 0
    requires currentSize <= expandedKey.Length && tempWord.Length == 4 && tempWord != expandedKey
    requires rconIteration == AesSpec.KeyBlock(currentSize - 1, keySize) + 1
    modifies tempWord
    ensures tempWord[..] == AesSpec.TempWord(expandedKey[..currentSize], keySize)
    ensures rconNext == AesSpec.KeyBlock(currentSize + 3, keySize) + 1
  {
    ghost var prev := expandedKey[..currentSize];
    LoadWord(tempWord, expandedKey, currentSize - 4);
    ghost var loaded := tempWord[..];
    assert loaded == prev[currentSize - 4..currentSize];
    AesSpec.RconIndexInRange(keySize, currentSize);
    RconCounter(keySize, currentSize);
    rconNext := rconIteration;
    if currentSize % keySize == 0 {
      KeySchedule(tempWord, rconNext);
      rconNext := rconNext + 1;
    }
    ghost var scheduled := tempWord[..];
    if keySize == 32 && currentSize % keySize == 16 {
      SubWord(tempWord);
    }
    TempWordSteps(prev, keySize, loaded, scheduled, tempWord[..]);
  }

  /** The temp word of `key_expansion`, followed through its two optional steps. */
  lemma TempWordSteps(prev: seq<bv8>, keySize: nat, loaded: seq<bv8>, scheduled: seq<bv8>, temp: seq<bv8>)
    requires AesSpec.ValidKeySize(keySize) && keySize <= |prev| < AesSpec.ExpandedKeySize(keySize) && |prev| % 4 == 0
    requires loaded == prev[|prev| - 4..|prev|]
    requires scheduled == if AesSpec.KeyOffset(|prev|, keySize) == 0
      then AesSpec.KeyScheduleCore(loaded, AesSpec.KeyBlock(|prev|, keySize)) else loaded
    requires temp == if keySize == 32 && AesSpec.KeyOffset(|prev|, keySize) == 16 then AesSpec.SubWord(scheduled) else scheduled
    ensures temp == AesSpec.TempWord(prev, keySize)
  {
    assert prev[|prev| - 4..|prev|] == prev[|prev| - 4..];
  }

  /** The first inner loop of `key_expansion`: the last word written is copied into the temp word. */
  method LoadWord(word: array<bv8>, expandedKey: array<bv8>, offset: nat)
    requires word.Length == 4 && offset + 4 <= expandedKey.Length && word != expandedKey
    modifies word
    ensures word[..] == expandedKey[offset..offset + 4]
  {
    for i := 0 to 4
      invariant forall m | 0 <= m < i :: word[m] == expandedKey[offset + m]
    {
      word[i] := expandedKey[offset + i];
    }
  }

  /** The S-box loop `key_expansion` runs on the temp word half-way through a 256-bit key block. */
  method SubWord(word: array<bv8>)
    requires word.Length == 4
    modifies word
    ensures word[..] == AesSpec.SubWord(old(word[..]))
  {
    ghost var orig := word[..];
    for i := 0 to 4
      invariant forall m | 0 <= m < i :: word[m] == AesSpec.SubWord(orig)[m]
      invariant forall m | i <= m < 4 :: word[m] == orig[m]
    {
      word[i] := SBox(word[i]);
    }
  }

  /**
   * The last inner loop of `key_expansion`: four bytes appended at `start`,
   * each the byte `keySize` places earlier XOR the temp word; the counter
   * comes back four further on.
   */
  method AppendWord(expandedKey: array<bv8>, start: nat, keySize: nat, tempWord: array<bv8>) returns (currentSize: nat)
    requires AesSpec.ValidKeySize(keySize) && keySize <= start < AesSpec.ExpandedKeySize(keySize) && start % 4 == 0
    requires start + 4 <= expandedKey.Length && tempWord.Length == 4 && expandedKey != tempWord
    modifies expandedKey
    ensures currentSize == start + 4
    ensures expandedKey[..currentSize] == old(expandedKey[..start]) + AesSpec.XorWithTemp(old(expandedKey[..start]), keySize, tempWord[..])
  {
    ghost var prev := expandedKey[..start];
    currentSize := start;
    for i := 0 to 4
      invariant currentSize == start + i
      invariant forall m | 0 <= m < start :: expandedKey[m] == prev[m]
      invariant forall m | 0 <= m < i :: expandedKey[start + m] == prev[start + m - keySize] ^ tempWord[m]
    {
      expandedKey[currentSize] := expandedKey[currentSize - keySize] ^ tempWord[i];
      currentSize := currentSize + 1;
    }
    assert expandedKey[..currentSize] == prev + AesSpec.XorWithTemp(prev, keySize, tempWord[..]);
  }

  /**
   * `rconIteration` starts at 1 and goes up by one at each multiple of the key
   * size: before position p it is KeyBlock(p - 1) + 1, which is p / keySize
   * exactly when the key schedule runs at p.
   */
  lemma RconCounter(keySize: nat, p: nat)
    requires AesSpec.ValidKeySize(keySize) && keySize <= p && p % 4 == 0
    ensures AesSpec.KeyOffset(p, keySize) == 0 ==> AesSpec.KeyBlock(p, keySize) == AesSpec.KeyBlock(p - 1, keySize) + 1
    ensures AesSpec.KeyBlock(p + 3, keySize)
      == AesSpec.KeyBlock(p - 1, keySize) + (if AesSpec.KeyOffset(p, keySize) == 0 then 1 else 0)
  {
    if keySize == 16 {
      BlockAround(p, 16);
    } else if keySize == 24 {
      BlockAround(p, 24);
    } else {
      BlockAround(p, 32);
    }
  }

  /** Integer division by d near a multiple of 4, for the three key sizes. */
  lemma BlockAround(p: nat, d: nat)
    requires (d == 16 || d == 24 || d == 32) && d <= p && p % 4 == 0
    ensures p % d == 0 ==> p / d == (p - 1) / d + 1
    ensures (p + 3) / d == (p - 1) / d + (if p % d == 0 then 1 else 0)
  {
    var q, r := p / d, p % d;
    if r == 0 {
      DivUnique(p - 1, d, q - 1, d - 1);
      DivUnique(p + 3, d, q, 3);
    } else {
      // both p and d are multiples of 4, so the remainder is one too
      var k, m := p / 4, d / 4;
      assert p == 4 * k && d == 4 * m;
      assert r == 4 * (k - m * q);
      assert r <= d - 4;
      DivUnique(p - 1, d, q, r - 1);
      DivUnique(p + 3, d, q, r + 3);
    }
  }

  /** The quotient is determined by any decomposition with a remainder in range. */
  lemma DivUnique(a: int, d: int, q: int, r: int)
    requires 0 < d && 0 <= r < d && a == d * q + r
    ensures a / d == q
  {
    var x := q - a / d;
    assert d * x == a % d - r;
    MulAwayFromZero(d, x);
  }

  /** A nonzero multiple of d is at least d away from zero. */
  lemma MulAwayFromZero(d: int, x: int)
    requires 0 < d
    ensures x >= 1 ==> d * x >= d
    ensures x <= -1 ==> d * x <= -d
  {
    if x >= 1 {
      assert d * x == d * (x - 1) + d;
      assert d * (x - 1) >= 0;
    } else if x <= -1 {
      assert d * x == d * (x + 1) - d;
      assert d * (x + 1) <= 0;
    }
  }

  /** `sub_bytes`: every byte of the state through the S-box or, when decrypting, the inverse S-box. */
  method SubBytes(state: array<bv8>, decrypt: bool)
    requires state.Length == 16
    modifies state
    ensures state[..] == AesSpec.SubBytes(old(state[..]), decrypt)
  {
    for i := 0 to 16
      invariant forall k | 0 <= k < i :: state[k] == AesSpec.SubBytes(old(state[..]), decrypt)[k]
      invariant forall k | i <= k < 16 :: state[k] == old(state[k])
    {
      if decrypt {
        state[i] := InvSBox(state[i]);
      } else {
        state[i] := SBox(state[i]);
      }
    }
  }

  /**
   * `shift_rows`: rows 1 to 3 are rotated through a 4-byte buffer with three
   * `memcpy` calls each, left by the row number when encrypting and right
   * when decrypting.
   */
  method ShiftRows(state: array<bv8>, decrypt: bool)
    requires state.Length == 16
    modifies state
    ensures state[..] == AesSpec.ShiftRows(old(state[..]), decrypt)
  {
    ghost var orig := state[..];
    ShiftRowsUpToEnds(orig, decrypt);
    var temp := new bv8[4](_ => 0);
    for i := 1 to 4
      invariant state[..] == ShiftRowsUpTo(orig, i, decrypt)
    {
      ShiftRowsUpToStep(orig, i, decrypt);
      ShiftRow(state, temp, i, decrypt);
    }
  }

  /**
   * The body of the `shift_rows` loop for row i: two `memcpy` calls assemble
   * the rotated row in `temp`, a third writes it back over the row.
   */
  method ShiftRow(state: array<bv8>, temp: array<bv8>, i: nat, decrypt: bool)
    requires state.Length == 16 && temp.Length == 4 && state != temp && 1 <= i < 4
    modifies state, temp
    ensures state[..] == old(state[..4 * i]) + AesSpec.ShiftedRow(old(state[4 * i..4 * i + 4]), i, decrypt) + old(state[4 * i + 4..])
  {
    ghost var cur := state[..];
    if decrypt {
      Memory.Copy(temp, i, state, 4 * i, 4 - i);
      ghost var t1 := temp[..];
      Memory.Copy(temp, 0, state, 4 + 3 * i, i);
      RightRotationOfCopies(cur, t1, temp[..], i);
    } else {
      Memory.Copy(temp, 0, state, 5 * i, 4 - i);
      ghost var t1 := temp[..];
      Memory.Copy(temp, 4 - i, state, 4 * i, i);
      LeftRotationOfCopies(cur, t1, temp[..], i);
    }
    Memory.Copy(state, 4 * i, temp, 0, 4);
    Splice(state[..], cur, 4 * i, temp[..]);
  }

  /** A sequence that agrees with b outside bytes off .. off + |t| - 1 and holds t there. */
  lemma Splice(a: seq<bv8>, b: seq<bv8>, off: nat, t: seq<bv8>)
    requires |a| == |b| && off + |t| <= |a|
    requires a[..off] == b[..off] && a[off..off + |t|] == t && a[off + |t|..] == b[off + |t|..]
    ensures a == b[..off] + t + b[off + |t|..]
  {
    assert a == a[..off] + a[off..off + |t|] + a[off + |t|..];
  }

  /** The state once `shift_rows` has treated rows 0 .. n - 1: those rows rotated, the others as they were. */
  ghost function ShiftRowsUpTo(s: seq<bv8>, n: nat, decrypt: bool): (r: seq<bv8>)
    requires |s| == 16 && n <= 4
    ensures |r| == 16
  {
    (if 0 < n then AesSpec.ShiftedRow(AesSpec.Row(s, 0), 0, decrypt) else AesSpec.Row(s, 0))
      + (if 1 < n then AesSpec.ShiftedRow(AesSpec.Row(s, 1), 1, decrypt) else AesSpec.Row(s, 1))
      + (if 2 < n then AesSpec.ShiftedRow(AesSpec.Row(s, 2), 2, decrypt) else AesSpec.Row(s, 2))
      + (if 3 < n then AesSpec.ShiftedRow(AesSpec.Row(s, 3), 3, decrypt) else AesSpec.Row(s, 3))
  }

  lemma ShiftRowsUpToEnds(s: seq<bv8>, decrypt: bool)
    requires |s| == 16
    ensures ShiftRowsUpTo(s, 1, decrypt) == s
    ensures ShiftRowsUpTo(s, 4, decrypt) == AesSpec.ShiftRows(s, decrypt)
  {
    assert AesSpec.Row(s, 0)[0..] + AesSpec.Row(s, 0)[..0] == AesSpec.Row(s, 0);
    assert AesSpec.Row(s, 0)[4..] + AesSpec.Row(s, 0)[..4] == AesSpec.Row(s, 0);
    AesSpec.StateOfRows(s);
  }

  /** Treating row i replaces bytes 4 * i .. 4 * i + 3, which still hold row i of the original state. */
  lemma ShiftRowsUpToStep(s: seq<bv8>, i: nat, decrypt: bool)
    requires |s| == 16 && 1 <= i < 4
    ensures var cur := ShiftRowsUpTo(s, i, decrypt);
      && cur[4 * i..4 * i + 4] == AesSpec.Row(s, i)
      && ShiftRowsUpTo(s, i + 1, decrypt)
         == cur[..4 * i] + AesSpec.ShiftedRow(AesSpec.Row(s, i), i, decrypt) + cur[4 * i + 4..]
  {
    var r0, r1, r2, r3 := AesSpec.Row(s, 0), AesSpec.Row(s, 1), AesSpec.Row(s, 2), AesSpec.Row(s, 3);
    var h0 := AesSpec.ShiftedRow(r0, 0, decrypt);
    var head, tail;
    if i == 1 {
      head, tail := h0, r2 + r3;
    } else if i == 2 {
      head, tail := h0 + AesSpec.ShiftedRow(r1, 1, decrypt), r3;
    } else {
      head, tail := h0 + AesSpec.ShiftedRow(r1, 1, decrypt) + AesSpec.ShiftedRow(r2, 2, decrypt), [];
    }
    ConcatParts(ShiftRowsUpTo(s, i, decrypt), head, AesSpec.Row(s, i), tail);
  }

  /** The three parts of a concatenation, recovered by slicing. */
  lemma ConcatParts(a: seq<bv8>, head: seq<bv8>, mid: seq<bv8>, tail: seq<bv8>)
    requires a == head + mid + tail
    ensures a[..|head|] == head && a[|head|..|head| + |mid|] == mid && a[|head| + |mid|..] == tail
  {
  }

  /** The two `memcpy` calls of `shift_rows` when encrypting assemble row i rotated left by i. */
  lemma LeftRotationOfCopies(s: seq<bv8>, t1: seq<bv8>, t2: seq<bv8>, i: nat)
    requires |s| == 16 && |t1| == 4 && |t2| == 4 && 1 <= i < 4
    requires t1[0..0 + (4 - i)] == s[5 * i..5 * i + (4 - i)]
    requires t2[..4 - i] == t1[..4 - i]
    requires t2[4 - i..4 - i + i] == s[4 * i..4 * i + i]
    ensures t2 == AesSpec.RotateLeft(s[4 * i..4 * i + 4], i)
  {
    var row := s[4 * i..4 * i + 4];
    assert t2[..4 - i] == row[i..] by {
      assert t1[..4 - i] == t1[0..0 + (4 - i)];
    }
    assert t2[4 - i..] == row[..i] by {
      assert t2[4 - i..] == t2[4 - i..4 - i + i];
      assert row[..i] == s[4 * i..4 * i + i];
    }
    assert t2 == t2[..4 - i] + t2[4 - i..];
  }

  /** The two `memcpy` calls of `shift_rows` when decrypting assemble row i rotated right by i. */
  lemma RightRotationOfCopies(s: seq<bv8>, t1: seq<bv8>, t2: seq<bv8>, i: nat)
    requires |s| == 16 && |t1| == 4 && |t2| == 4 && 1 <= i < 4
    requires t1[i..i + (4 - i)] == s[4 * i..4 * i + (4 - i)]
    requires t2[0..0 + i] == s[4 + 3 * i..4 + 3 * i + i]
    requires t2[0 + i..] == t1[0 + i..]
    ensures t2 == AesSpec.RotateRight(s[4 * i..4 * i + 4], i)
  {
    var row := s[4 * i..4 * i + 4];
    assert t2[i..] == row[..4 - i] by {
      assert t1[i..] == t1[i..i + (4 - i)];
    }
    assert t2[..i] == row[4 - i..];
    assert t2 == t2[..i] + t2[i..];
  }

  /** `add_round_key`: the round key is XORed into the state. */
  method AddRoundKey(state: array<bv8>, roundKey: array<bv8>)
    requires state.Length == 16 && roundKey.Length == 16 && state != roundKey
    modifies state
    ensures state[..] == AesSpec.AddRoundKey(old(state[..]), roundKey[..])
  {
    for i := 0 to 16
      invariant forall k | 0 <= k < i :: state[k] == old(state[k]) ^ roundKey[k]
      invariant forall k | i <= k < 16 :: state[k] == old(state[k])
    {
      state[i] := state[i] ^ roundKey[i];
    }
  }

  /**
   * One line of `mix_column`: byte j of the mixed column as the C writes it,
   * an XOR of four `g_mult` products of the saved bytes a = temp[j],
   * b = temp[j + 1], c = temp[j + 2], d = temp[j + 3] (indices mod 4).
   */
  method MixColumnByte(a: bv8, b: bv8, c: bv8, d: bv8, decrypt: bool) returns (r: bv8)
    ensures r == if decrypt then InvMixByte(a, b, c, d) else MixByte(a, b, c, d)
  {
    if decrypt {
      var p0 := GMult(a, 14);
      var p1 := GMult(d, 9);
      var p2 := GMult(c, 13);
      var p3 := GMult(b, 11);
      r := p0 ^ p1 ^ p2 ^ p3;
      InvMixByteProducts(a, b, c, d, p0, p1, p2, p3);
    } else {
      var p0 := GMult(a, 2);
      var p1 := GMult(d, 1);
      var p2 := GMult(c, 1);
      var p3 := GMult(b, 3);
      r := p0 ^ p1 ^ p2 ^ p3;
      MixByteProducts(a, b, c, d, p0, p1, p2, p3);
    }
  }

  /** `mix_column`: the column is saved in `temp` and each byte rewritten from the saved copy. */
  method MixColumn(column: array<bv8>, decrypt: bool)
    requires column.Length == 4
    modifies column
    ensures column[..] == AesSpec.MixColumn(old(column[..]), decrypt)
  {
    var temp := new bv8[4];
    Memory.Copy(temp, 0, column, 0, 4);
    assert temp[..] == old(column[..]);
    var b0 := MixColumnByte(temp[0], temp[1], temp[2], temp[3], decrypt);
    column[0] := b0;
    var b1 := MixColumnByte(temp[1], temp[2], temp[3], temp[0], decrypt);
    column[1] := b1;
    var b2 := MixColumnByte(temp[2], temp[3], temp[0], temp[1], decrypt);
    column[2] := b2;
    var b3 := MixColumnByte(temp[3], temp[0], temp[1], temp[2], decrypt);
    column[3] := b3;
  }

  /**
   * `mix_columns`: column i is gathered from bytes i, 4 + i, 8 + i, 12 + i
   * into a buffer, mixed and scattered back.
   */
  method MixColumns(state: array<bv8>, decrypt: bool)
    requires state.Length == 16
    modifies state
    ensures state[..] == AesSpec.MixColumns(old(state[..]), decrypt)
  {
    ghost var orig := state[..];
    var column := new bv8[4];
    for i := 0 to 4
      invariant forall c | 0 <= c < i :: AesSpec.Column(state[..], c) == AesSpec.MixColumn(AesSpec.Column(orig, c), decrypt)
      invariant forall c | i <= c < 4 :: AesSpec.Column(state[..], c) == AesSpec.Column(orig, c)
    {
      GatherColumn(state, column, i);
      MixColumn(column, decrypt);
      ScatterColumn(state, column, i);
    }
    ghost var target := AesSpec.MixColumns(orig, decrypt);
    AesSpec.MixColumnsByColumn(orig, 0, decrypt);
    AesSpec.MixColumnsByColumn(orig, 1, decrypt);
    AesSpec.MixColumnsByColumn(orig, 2, decrypt);
    AesSpec.MixColumnsByColumn(orig, 3, decrypt);
    AesSpec.SameColumns(state[..], target);
  }

  /** The first inner loop of `mix_columns`: column i of the state copied into the buffer. */
  method GatherColumn(state: array<bv8>, column: array<bv8>, i: nat)
    requires state.Length == 16 && column.Length == 4 && i < 4
    modifies column
    ensures column[..] == AesSpec.Column(state[..], i)
  {
    for j := 0 to 4
      invariant forall m | 0 <= m < j :: column[m] == state[4 * m + i]
    {
      column[j] := state[j * 4 + i];
    }
  }

  /** The second inner loop of `mix_columns`: the buffer written back over column i, the other columns untouched. */
  method ScatterColumn(state: array<bv8>, column: array<bv8>, i: nat)
    requires state.Length == 16 && column.Length == 4 && i < 4 && state != column
    modifies state
    ensures AesSpec.Column(state[..], i) == column[..]
    ensures forall c | 0 <= c < 4 && c != i :: AesSpec.Column(state[..], c) == AesSpec.Column(old(state[..]), c)
  {
    for j := 0 to 4
      invariant forall m | 0 <= m < j :: state[4 * m + i] == column[m]
      invariant forall k | 0 <= k < 16 && (k % 4 != i || j <= k / 4) :: state[k] == old(state[k])
    {
      state[j * 4 + i] := column[j];
    }
    forall c | 0 <= c < 4 && c != i
      ensures AesSpec.Column(state[..], c) == AesSpec.Column(old(state[..]), c)
    {
      assert state[4 * 0 + c] == old(state[4 * 0 + c]) && state[4 * 1 + c] == old(state[4 * 1 + c]);
      assert state[4 * 2 + c] == old(state[4 * 2 + c]) && state[4 * 3 + c] == old(state[4 * 3 + c]);
    }
  }

  /** `aes_round`: one full round, in the order FIPS-197 gives for the cipher or for the inverse cipher. */
  method AesRound(state: array<bv8>, roundKey: array<bv8>, decrypt: bool)
    requires state.Length == 16 && roundKey.Length == 16 && state != roundKey
    modifies state
    ensures decrypt ==> state[..] == AesSpec.InvCipherRound(old(state[..]), roundKey[..])
    ensures !decrypt ==> state[..] == AesSpec.CipherRound(old(state[..]), roundKey[..])
  {
    if decrypt {
      ShiftRows(state, true);
      SubBytes(state, true);
      AddRoundKey(state, roundKey);
      MixColumns(state, true);
    } else {
      SubBytes(state, false);
      ShiftRows(state, false);
      MixColumns(state, false);
      AddRoundKey(state, roundKey);
    }
  }

  /** `generate_round_key`: the round key is the 16 bytes at `expandedKey + offset`, transposed. */
  method GenerateRoundKey(expandedKey: array<bv8>, offset: nat, roundKey: array<bv8>)
    requires offset + 16 <= expandedKey.Length && roundKey.Length == 16 && expandedKey != roundKey
    modifies roundKey
    ensures roundKey[..] == AesSpec.RowColMap(expandedKey[offset..offset + 16])
  {
    RowColMap(roundKey, 0, expandedKey, offset);
    assert roundKey[..] == roundKey[0..0 + 16];
  }

  /**
   * `aes_main`: encrypting takes round keys 0, 1, .., nrRounds in ascending
   * order, decrypting takes them in descending order; the last round of
   * either direction leaves out MixColumns. Each branch is a method below.
   */
  method AesMain(state: array<bv8>, expandedKey: array<bv8>, nrRounds: nat, decrypt: bool)
    requires state.Length == 16 && 1 <= nrRounds && 16 * (nrRounds + 1) <= expandedKey.Length
    requires state != expandedKey
    modifies state
    ensures decrypt ==> state[..] == AesSpec.Decrypt(old(state[..]), expandedKey[..], nrRounds)
    ensures !decrypt ==> state[..] == AesSpec.Encrypt(old(state[..]), expandedKey[..], nrRounds)
  {
    if decrypt {
      InvCipher(state, expandedKey, nrRounds);
    } else {
      Cipher(state, expandedKey, nrRounds);
    }
  }

  /** The encrypting branch of `aes_main`. */
  method Cipher(state: array<bv8>, expandedKey: array<bv8>, nrRounds: nat)
    requires state.Length == 16 && 1 <= nrRounds && 16 * (nrRounds + 1) <= expandedKey.Length
    requires state != expandedKey
    modifies state
    ensures state[..] == AesSpec.Encrypt(old(state[..]), expandedKey[..], nrRounds)
  {
    ghost var ek := expandedKey[..];
    ghost var s0 := state[..];
    var roundKey := new bv8[16](_ => 0);
    RoundKeyAt(expandedKey, 0, roundKey);
    AddRoundKey(state, roundKey);
    ghost var s1 := state[..];
    for i := 1 to nrRounds
      invariant expandedKey[..] == ek
      invariant state[..] == AesSpec.EncryptRounds(s1, ek, i)
    {
      RoundKeyAt(expandedKey, i, roundKey);
      AesRound(state, roundKey, false);
      EncryptRoundsStep(s1, ek, i);
    }
    ghost var t := state[..];
    RoundKeyAt(expandedKey, nrRounds, roundKey);
    SubBytes(state, false);
    ShiftRows(state, false);
    AddRoundKey(state, roundKey);
    EncryptOfSteps(s0, s1, t, state[..], ek, nrRounds);
  }

  /** The decrypting branch of `aes_main`. */
  method InvCipher(state: array<bv8>, expandedKey: array<bv8>, nrRounds: nat)
    requires state.Length == 16 && 1 <= nrRounds && 16 * (nrRounds + 1) <= expandedKey.Length
    requires state != expandedKey
    modifies state
    ensures state[..] == AesSpec.Decrypt(old(state[..]), expandedKey[..], nrRounds)
  {
    ghost var ek := expandedKey[..];
    ghost var s0 := state[..];
    var roundKey := new bv8[16](_ => 0);
    RoundKeyAt(expandedKey, nrRounds, roundKey);
    AddRoundKey(state, roundKey);
    ghost var s1 := state[..];
    InvMiddleRounds(state, expandedKey, roundKey, nrRounds);
    ghost var t := state[..];
    RoundKeyAt(expandedKey, 0, roundKey);
    ShiftRows(state, true);
    SubBytes(state, true);
    AddRoundKey(state, roundKey);
    DecryptOfSteps(s0, s1, t, state[..], ek, nrRounds);
  }

  /** The loop of the decrypting branch: inverse rounds with round keys nrRounds - 1 down to 1. */
  method InvMiddleRounds(state: array<bv8>, expandedKey: array<bv8>, roundKey: array<bv8>, nrRounds: nat)
    requires state.Length == 16 && roundKey.Length == 16 && 1 <= nrRounds && 16 * (nrRounds + 1) <= expandedKey.Length
    requires state != expandedKey && roundKey != expandedKey && state != roundKey
    modifies state, roundKey
    ensures state[..] == AesSpec.DecryptRounds(old(state[..]), expandedKey[..], nrRounds - 1)
  {
    ghost var target := AesSpec.DecryptRounds(state[..], expandedKey[..], nrRounds - 1);
    var i: nat := nrRounds - 1;
    while i > 0
      invariant i < nrRounds
      invariant AesSpec.DecryptRounds(state[..], expandedKey[..], i) == target
    {
      InvCipherStep(state, expandedKey, roundKey, i, target);
      i := i - 1;
    }
  }

  lemma EncryptOfSteps(s0: seq<bv8>, s1: seq<bv8>, t: seq<bv8>, out: seq<bv8>, ek: seq<bv8>, nr: nat)
    requires |s0| == 16 && 1 <= nr && 16 * (nr + 1) <= |ek|
    requires s1 == AesSpec.AddRoundKey(s0, AesSpec.RoundKey(ek, 0))
    requires t == AesSpec.EncryptRounds(s1, ek, nr)
    requires out == AesSpec.AddRoundKey(AesSpec.ShiftRows(AesSpec.SubBytes(t, false), false), AesSpec.RoundKey(ek, nr))
    ensures out == AesSpec.Encrypt(s0, ek, nr)
  {
  }

  lemma DecryptOfSteps(s0: seq<bv8>, s1: seq<bv8>, t: seq<bv8>, out: seq<bv8>, ek: seq<bv8>, nr: nat)
    requires |s0| == 16 && 1 <= nr && 16 * (nr + 1) <= |ek|
    requires s1 == AesSpec.AddRoundKey(s0, AesSpec.RoundKey(ek, nr))
    requires t == AesSpec.DecryptRounds(s1, ek, nr - 1)
    requires out == AesSpec.AddRoundKey(AesSpec.SubBytes(AesSpec.ShiftRows(t, true), true), AesSpec.RoundKey(ek, 0))
    ensures out == AesSpec.Decrypt(s0, ek, nr)
  {
  }

  /** One pass of the decrypting loop of `aes_main`: round key i, then an inverse round. */
  method InvCipherStep(state: array<bv8>, expandedKey: array<bv8>, roundKey: array<bv8>, i: nat, ghost target: seq<bv8>)
    requires state.Length == 16 && roundKey.Length == 16 && 1 <= i && 16 * (i + 1) <= expandedKey.Length
    requires state != expandedKey && roundKey != expandedKey && state != roundKey
    requires AesSpec.DecryptRounds(state[..], expandedKey[..], i) == target
    modifies state, roundKey
    ensures AesSpec.DecryptRounds(state[..], expandedKey[..], i - 1) == target
  {
    RoundKeyAt(expandedKey, i, roundKey);
    ghost var before := state[..];
    AesRound(state, roundKey, true);
    DecryptRoundsUnfold(before, state[..], expandedKey[..], i);
  }

  /** The first round of `DecryptRounds` from round i. */
  lemma DecryptRoundsUnfold(before: seq<bv8>, after: seq<bv8>, ek: seq<bv8>, i: nat)
    requires |before| == 16 && 1 <= i && 16 * (i + 1) <= |ek|
    requires after == AesSpec.InvCipherRound(before, AesSpec.RoundKey(ek, i))
    ensures AesSpec.DecryptRounds(before, ek, i) == AesSpec.DecryptRounds(after, ek, i - 1)
  {
  }

  lemma EncryptRoundsStep(s: seq<bv8>, ek: seq<bv8>, i: nat)
    requires |s| == 16 && 1 <= i && 16 * (i + 1) <= |ek|
    ensures AesSpec.EncryptRounds(s, ek, i + 1) == AesSpec.CipherRound(AesSpec.EncryptRounds(s, ek, i), AesSpec.RoundKey(ek, i))
  {
  }

  /** `generate_round_key` at offset 16 * round yields round key `round`. */
  method RoundKeyAt(expandedKey: array<bv8>, round: nat, roundKey: array<bv8>)
    requires 16 * (round + 1) <= expandedKey.Length && roundKey.Length == 16 && expandedKey != roundKey
    modifies roundKey
    ensures roundKey[..] == AesSpec.RoundKey(expandedKey[..], round)
  {
    GenerateRoundKey(expandedKey, 16 * round, roundKey);
    RoundKeyOf(expandedKey[..], round, roundKey[..]);
  }

  /** The transposed slice at offset 16 * round is round key `round`. */
  lemma RoundKeyOf(ek: seq<bv8>, round: nat, roundKey: seq<bv8>)
    requires 16 * (round + 1) <= |ek| && roundKey == AesSpec.RowColMap(ek[16 * round..16 * round + 16])
    ensures roundKey == AesSpec.RoundKey(ek, round)
  {
  }

  /**
   * `aes`: the number of rounds follows from the key size, and any other key
   * size returns 255 (the `uint8_t` value of -1) with nothing written.
   * Otherwise the 16 bytes at `dataBlock + dataOffset` are transposed into a
   * local state, ciphered with the expanded key and transposed into
   * `cipherBlock + cipherOffset`; the two may be the same buffer, since the
   * input is read before the output is written.
   */
  method Aes(dataBlock: array<bv8>, dataOffset: nat, cipherBlock: array<bv8>, cipherOffset: nat,
             key: array<bv8>, keySize: nat, decrypt: bool) returns (status: bv8)
    requires dataOffset + 16 <= dataBlock.Length && cipherOffset + 16 <= cipherBlock.Length
    requires AesSpec.ValidKeySize(keySize) ==> keySize <= key.Length
    modifies cipherBlock
    ensures !AesSpec.ValidKeySize(keySize) ==> status == 255 && cipherBlock[..] == old(cipherBlock[..])
    ensures AesSpec.ValidKeySize(keySize) ==> status == 0
    ensures AesSpec.ValidKeySize(keySize) ==>
      cipherBlock[cipherOffset..cipherOffset + 16] == AesSpec.AesBlock(old(dataBlock[dataOffset..dataOffset + 16]), old(key[..keySize]), decrypt)
    ensures AesSpec.ValidKeySize(keySize) ==> cipherBlock[..cipherOffset] == old(cipherBlock[..cipherOffset])
    ensures AesSpec.ValidKeySize(keySize) ==> cipherBlock[cipherOffset + 16..] == old(cipherBlock[cipherOffset + 16..])
  {
    var nrRounds: nat;
    if keySize == 16 {
      nrRounds := 10;
    } else if keySize == 24 {
      nrRounds := 12;
    } else if keySize == 32 {
      nrRounds := 14;
    } else {
      return 255;
    }
    ExpandAndCipher(dataBlock, dataOffset, cipherBlock, cipherOffset, key, keySize, nrRounds, decrypt);
    status := 0;
  }

  /** The body of `aes` once the round count is known: the key expanded, then the block ciphered with it. */
  method ExpandAndCipher(dataBlock: array<bv8>, dataOffset: nat, cipherBlock: array<bv8>, cipherOffset: nat,
                         key: array<bv8>, keySize: nat, nrRounds: nat, decrypt: bool)
    requires dataOffset + 16 <= dataBlock.Length && cipherOffset + 16 <= cipherBlock.Length
    requires AesSpec.ValidKeySize(keySize) && keySize <= key.Length && nrRounds == AesSpec.Rounds(keySize)
    modifies cipherBlock
    ensures cipherBlock[cipherOffset..cipherOffset + 16] == AesSpec.AesBlock(old(dataBlock[dataOffset..dataOffset + 16]), old(key[..keySize]), decrypt)
    ensures cipherBlock[..cipherOffset] == old(cipherBlock[..cipherOffset])
    ensures cipherBlock[cipherOffset + 16..] == old(cipherBlock[cipherOffset + 16..])
  {
    ghost var data := dataBlock[dataOffset..dataOffset + 16];
    ghost var k := key[..keySize];
    var expandedKeySize := 16 * (nrRounds + 1);
    var expandedKey := new bv8[expandedKeySize];
    KeyExpansion(key, keySize, expandedKey, expandedKeySize);
    ghost var ek := expandedKey[..];
    assert |k| == keySize && AesSpec.Rounds(|k|) == nrRounds;
    assert ek == AesSpec.ExpandKey(k, AesSpec.ExpandedKeySize(|k|));
    assert dataBlock[dataOffset..dataOffset + 16] == data;
    TransformBlock(dataBlock, dataOffset, cipherBlock, cipherOffset, expandedKey, nrRounds, decrypt);
    ghost var out := cipherBlock[cipherOffset..cipherOffset + 16];
    assert expandedKey[..] == ek;
    AesBlockOf(data, k, decrypt, AesSpec.RowColMap(data), ek, out);
  }

  /**
   * The part of `aes` after the key expansion: the input block transposed
   * into a local state, ciphered by `aes_main` and transposed into the output.
   */
  method TransformBlock(dataBlock: array<bv8>, dataOffset: nat, cipherBlock: array<bv8>, cipherOffset: nat,
                        expandedKey: array<bv8>, nrRounds: nat, decrypt: bool)
    requires dataOffset + 16 <= dataBlock.Length && cipherOffset + 16 <= cipherBlock.Length
    requires 1 <= nrRounds && 16 * (nrRounds + 1) <= expandedKey.Length && expandedKey != cipherBlock
    modifies cipherBlock
    ensures decrypt ==>
      cipherBlock[cipherOffset..cipherOffset + 16] == AesSpec.RowColMap(AesSpec.Decrypt(AesSpec.RowColMap(old(dataBlock[dataOffset..dataOffset + 16])), expandedKey[..], nrRounds))
    ensures !decrypt ==>
      cipherBlock[cipherOffset..cipherOffset + 16] == AesSpec.RowColMap(AesSpec.Encrypt(AesSpec.RowColMap(old(dataBlock[dataOffset..dataOffset + 16])), expandedKey[..], nrRounds))
    ensures cipherBlock[..cipherOffset] == old(cipherBlock[..cipherOffset])
    ensures cipherBlock[cipherOffset + 16..] == old(cipherBlock[cipherOffset + 16..])
  {
    ghost var data := dataBlock[dataOffset..dataOffset + 16];
    ghost var ek := expandedKey[..];
    var block := new bv8[16](_ => 0);
    RowColMap(block, 0, dataBlock, dataOffset);
    ghost var state := block[..];
    assert state == AesSpec.RowColMap(data);
    AesMain(block, expandedKey, nrRounds, decrypt);
    ghost var out := block[..];
    assert decrypt ==> out == AesSpec.Decrypt(state, ek, nrRounds);
    assert !decrypt ==> out == AesSpec.Encrypt(state, ek, nrRounds);
    RowColMap(cipherBlock, cipherOffset, block, 0);
    assert block[0..0 + 16] == out;
    assert expandedKey[..] == ek;
  }

  /** The steps of `aes` compose to `AesSpec.AesBlock`. */
  lemma AesBlockOf(data: seq<bv8>, key: seq<bv8>, decrypt: bool, state: seq<bv8>, ek: seq<bv8>, result: seq<bv8>)
    requires |data| == 16 && AesSpec.ValidKeySize(|key|)
    requires state == AesSpec.RowColMap(data)
    requires ek == AesSpec.ExpandKey(key, AesSpec.ExpandedKeySize(|key|))
    requires decrypt ==> result == AesSpec.RowColMap(AesSpec.Decrypt(state, ek, AesSpec.Rounds(|key|)))
    requires !decrypt ==> result == AesSpec.RowColMap(AesSpec.Encrypt(state, ek, AesSpec.Rounds(|key|)))
    ensures result == AesSpec.AesBlock(data, key, decrypt)
  {
  }
}
