/**
 * Reference definitions of the AES transformations on a 16-byte state, in
 * the layout the C code uses after `row_col_map`: byte 4 * r + c holds row r,
 * column c of the FIPS-197 state. The key schedule works on the expanded key
 * as a flat byte sequence, word w of it being bytes 4 * w .. 4 * w + 3.
 */
module AesSpec {
  import opened AesTables
  import opened AesMix

  /* ---------------------------------------------------------------- layout */

  /** `row_col_map`: byte i + 4 * j of the result is byte 4 * i + j of the source. */
  function RowColMap(src: seq<bv8>): (dest: seq<bv8>)
    requires |src| == 16
    ensures |dest| == 16
  {
    seq(16, k requires 0 <= k < 16 => src[4 * (k % 4) + k / 4])
  }

  lemma RowColMapEntry(src: seq<bv8>, i: nat, j: nat)
    requires |src| == 16 && i < 4 && j < 4
    ensures RowColMap(src)[i + 4 * j] == src[4 * i + j]
  {
  }

  /** Transposing twice gives back the original block. */
  lemma RowColMapInvolution(src: seq<bv8>)
    requires |src| == 16
    ensures RowColMap(RowColMap(src)) == src
  {
    var t := RowColMap(RowColMap(src));
    forall k | 0 <= k < 16
      ensures t[k] == src[k]
    {
      RowColMapEntry(RowColMap(src), k % 4, k / 4);
      RowColMapEntry(src, k / 4, k % 4);
    }
  }

  /** Row r of a state. */
  function Row(s: seq<bv8>, r: nat): (row: seq<bv8>)
    requires |s| == 16 && r < 4
    ensures |row| == 4
  {
    s[4 * r .. 4 * r + 4]
  }

  /** Column c of a state: the bytes at c, 4 + c, 8 + c and 12 + c. */
  function Column(s: seq<bv8>, c: nat): (col: seq<bv8>)
    requires |s| == 16 && c < 4
    ensures |col| == 4
  {
    [s[c], s[4 + c], s[8 + c], s[12 + c]]
  }

  /* ------------------------------------------------------------- SubBytes */

  /** `sub_bytes`: every byte through the S-box, or through the inverse S-box when decrypting. */
  function SubBytes(s: seq<bv8>, decrypt: bool): (r: seq<bv8>)
    ensures |r| == |s|
  {
    seq(|s|, i requires 0 <= i < |s| => if decrypt then InvSBox(s[i]) else SBox(s[i]))
  }

  lemma SubBytesInverse(s: seq<bv8>)
    ensures SubBytes(SubBytes(s, false), true) == s
    ensures SubBytes(SubBytes(s, true), false) == s
  {
    forall i | 0 <= i < |s|
      ensures SubBytes(SubBytes(s, false), true)[i] == s[i]
      ensures SubBytes(SubBytes(s, true), false)[i] == s[i]
    {
      SBoxInverse(s[i]);
      InvSBoxInverse(s[i]);
    }
  }

  /* ------------------------------------------------------------ ShiftRows */

  function RotateLeft(row: seq<bv8>, n: nat): (r: seq<bv8>)
    requires n <= |row|
    ensures |r| == |row|
  {
    row[n..] + row[..n]
  }

  function RotateRight(row: seq<bv8>, n: nat): (r: seq<bv8>)
    requires n <= |row|
    ensures |r| == |row|
  {
    row[|row| - n..] + row[..|row| - n]
  }

  lemma RotateInverse(row: seq<bv8>, n: nat)
    requires n <= |row|
    ensures RotateRight(RotateLeft(row, n), n) == row
    ensures RotateLeft(RotateRight(row, n), n) == row
  {
    assert RotateLeft(row, n)[|row| - n..] == row[..n];
    assert RotateLeft(row, n)[..|row| - n] == row[n..];
    assert RotateRight(row, n)[n..] == row[..|row| - n];
    assert RotateRight(row, n)[..n] == row[|row| - n..];
  }

  /** Row r as `shift_rows` leaves it: rotated left by r, or right by r when decrypting. */
  function ShiftedRow(row: seq<bv8>, r: nat, decrypt: bool): (shifted: seq<bv8>)
    requires |row| == 4 && r < 4
    ensures |shifted| == 4
  {
    if decrypt then RotateRight(row, r) else RotateLeft(row, r)
  }

  /** `shift_rows`: every row r of the state is rotated by r places. */
  function ShiftRows(s: seq<bv8>, decrypt: bool): (r: seq<bv8>)
    requires |s| == 16
    ensures |r| == 16
  {
    ShiftedRow(Row(s, 0), 0, decrypt) + ShiftedRow(Row(s, 1), 1, decrypt)
      + ShiftedRow(Row(s, 2), 2, decrypt) + ShiftedRow(Row(s, 3), 3, decrypt)
  }

  lemma RowsOfConcat(r0: seq<bv8>, r1: seq<bv8>, r2: seq<bv8>, r3: seq<bv8>)
    requires |r0| == |r1| == |r2| == |r3| == 4
    ensures Row(r0 + r1 + r2 + r3, 0) == r0 && Row(r0 + r1 + r2 + r3, 1) == r1
    ensures Row(r0 + r1 + r2 + r3, 2) == r2 && Row(r0 + r1 + r2 + r3, 3) == r3
  {
    var s := r0 + r1 + r2 + r3;
    assert s[0..4] == r0;
    assert s[4..8] == r1;
    assert s[8..12] == r2;
    assert s[12..16] == r3;
  }

  lemma StateOfRows(s: seq<bv8>)
    requires |s| == 16
    ensures Row(s, 0) + Row(s, 1) + Row(s, 2) + Row(s, 3) == s
  {
    assert s == s[0..4] + s[4..8] + s[8..12] + s[12..16];
  }

  /** Byte c of a row rotated by n places, as an index into the row. */
  lemma RotateIndex(row: seq<bv8>, n: nat, c: nat)
    requires |row| == 4 && n < 4 && c < 4
    ensures RotateLeft(row, n)[c] == row[(c + n) % 4]
    ensures RotateRight(row, n)[c] == row[(c + 4 - n) % 4]
  {
  }

  /** Row r of the shifted state is row r of the old state rotated by r; row 0 is left as it was. */
  lemma ShiftRowsRow(s: seq<bv8>, r: nat, decrypt: bool)
    requires |s| == 16 && r < 4
    ensures Row(ShiftRows(s, decrypt), r) == ShiftedRow(Row(s, r), r, decrypt)
    ensures r == 0 ==> Row(ShiftRows(s, decrypt), r) == Row(s, r)
  {
    RowsOfConcat(ShiftedRow(Row(s, 0), 0, decrypt), ShiftedRow(Row(s, 1), 1, decrypt),
                 ShiftedRow(Row(s, 2), 2, decrypt), ShiftedRow(Row(s, 3), 3, decrypt));
    assert Row(s, 0)[0..] + Row(s, 0)[..0] == Row(s, 0);
    assert Row(s, 0)[4..] + Row(s, 0)[..4] == Row(s, 0);
  }

  /**
   * The index form of FIPS-197 equations (5.3) and (5.9): byte (r, c) of the
   * shifted state is byte (r, (c + r) mod 4) of the old state when encrypting
   * and byte (r, (c - r) mod 4) when decrypting.
   */
  lemma ShiftRowsIndex(s: seq<bv8>, r: nat, c: nat)
    requires |s| == 16 && r < 4 && c < 4
    ensures ShiftRows(s, false)[4 * r + c] == s[4 * r + (c + r) % 4]
    ensures ShiftRows(s, true)[4 * r + c] == s[4 * r + (c + 4 - r) % 4]
  {
    var e, d := ShiftRows(s, false), ShiftRows(s, true);
    ShiftRowsRow(s, r, false);
    ShiftRowsRow(s, r, true);
    RotateIndex(Row(s, r), r, c);
    assert e[4 * r + c] == Row(e, r)[c];
    assert d[4 * r + c] == Row(d, r)[c];
    assert Row(s, r)[(c + r) % 4] == s[4 * r + (c + r) % 4];
    assert Row(s, r)[(c + 4 - r) % 4] == s[4 * r + (c + 4 - r) % 4];
  }

  /** Shifting right undoes shifting left, and the other way round. */
  lemma ShiftRowsInverse(s: seq<bv8>)
    requires |s| == 16
    ensures ShiftRows(ShiftRows(s, false), true) == s
    ensures ShiftRows(ShiftRows(s, true), false) == s
  {
    RowsOfConcat(ShiftedRow(Row(s, 0), 0, false), ShiftedRow(Row(s, 1), 1, false),
                 ShiftedRow(Row(s, 2), 2, false), ShiftedRow(Row(s, 3), 3, false));
    RowsOfConcat(ShiftedRow(Row(s, 0), 0, true), ShiftedRow(Row(s, 1), 1, true),
                 ShiftedRow(Row(s, 2), 2, true), ShiftedRow(Row(s, 3), 3, true));
    RotateInverse(Row(s, 1), 1);
    RotateInverse(Row(s, 2), 2);
    RotateInverse(Row(s, 3), 3);
    assert Row(s, 0)[0..] + Row(s, 0)[..0] == Row(s, 0);
    assert Row(s, 0)[4..] + Row(s, 0)[..4] == Row(s, 0);
    StateOfRows(s);
  }

  /* ---------------------------------------------------------- AddRoundKey */

  /** `add_round_key`: XOR with the round key, byte by byte. */
  function AddRoundKey(s: seq<bv8>, roundKey: seq<bv8>): (r: seq<bv8>)
    requires |s| == 16 && |roundKey| == 16
    ensures |r| == 16
  {
    seq(16, i requires 0 <= i < 16 => s[i] ^ roundKey[i])
  }

  lemma AddRoundKeyInverse(s: seq<bv8>, roundKey: seq<bv8>)
    requires |s| == 16 && |roundKey| == 16
    ensures AddRoundKey(AddRoundKey(s, roundKey), roundKey) == s
  {
    var t := AddRoundKey(AddRoundKey(s, roundKey), roundKey);
    forall i | 0 <= i < 16
      ensures t[i] == s[i]
    {
    }
  }

  /* ----------------------------------------------------------- MixColumns */

  /** `mix_column` on one column t: byte j combines t[j], t[j + 1], t[j + 2], t[j + 3] (indices mod 4). */
  function MixColumn(t: seq<bv8>, decrypt: bool): (r: seq<bv8>)
    requires |t| == 4
    ensures |r| == 4
  {
    if decrypt then
      [InvMixByte(t[0], t[1], t[2], t[3]), InvMixByte(t[1], t[2], t[3], t[0]),
       InvMixByte(t[2], t[3], t[0], t[1]), InvMixByte(t[3], t[0], t[1], t[2])]
    else
      [MixByte(t[0], t[1], t[2], t[3]), MixByte(t[1], t[2], t[3], t[0]),
       MixByte(t[2], t[3], t[0], t[1]), MixByte(t[3], t[0], t[1], t[2])]
  }

  /** The decrypting column mix undoes the encrypting one, and the other way round. */
  lemma MixColumnInverse(t: seq<bv8>)
    requires |t| == 4
    ensures MixColumn(MixColumn(t, false), true) == t
    ensures MixColumn(MixColumn(t, true), false) == t
  {
    MixByteInverse(t[0], t[1], t[2], t[3]);
    MixByteInverse(t[1], t[2], t[3], t[0]);
    MixByteInverse(t[2], t[3], t[0], t[1]);
    MixByteInverse(t[3], t[0], t[1], t[2]);
    InvMixByteInverse(t[0], t[1], t[2], t[3]);
    InvMixByteInverse(t[1], t[2], t[3], t[0]);
    InvMixByteInverse(t[2], t[3], t[0], t[1]);
    InvMixByteInverse(t[3], t[0], t[1], t[2]);
  }

  /** The state whose column c is `cols[c]`. */
  function FromColumns(cols: seq<seq<bv8>>): (s: seq<bv8>)
    requires |cols| == 4 && forall c | 0 <= c < 4 :: |cols[c]| == 4
    ensures |s| == 16
  {
    seq(16, k requires 0 <= k < 16 => cols[k % 4][k / 4])
  }

  /** Column c of `FromColumns(cols)` is `cols[c]`. */
  lemma ColumnOfColumns(cols: seq<seq<bv8>>, c: nat)
    requires |cols| == 4 && (forall c | 0 <= c < 4 :: |cols[c]| == 4) && c < 4
    ensures Column(FromColumns(cols), c) == cols[c]
  {
    var s := FromColumns(cols);
    assert (4 + c) % 4 == c && (8 + c) % 4 == c && (12 + c) % 4 == c && c % 4 == c;
    assert (4 + c) / 4 == 1 && (8 + c) / 4 == 2 && (12 + c) / 4 == 3 && c / 4 == 0;
    assert Column(s, c) == [s[c], s[4 + c], s[8 + c], s[12 + c]];
  }

  /** The four columns of `s`, each mixed. */
  function MixedColumns(s: seq<bv8>, decrypt: bool): (cols: seq<seq<bv8>>)
    requires |s| == 16
    ensures |cols| == 4 && forall c | 0 <= c < 4 :: |cols[c]| == 4
  {
    seq(4, c requires 0 <= c < 4 => MixColumn(Column(s, c), decrypt))
  }

  /** `mix_columns`: column c of the state is replaced by its mix. */
  function MixColumns(s: seq<bv8>, decrypt: bool): (r: seq<bv8>)
    requires |s| == 16
    ensures |r| == 16
  {
    FromColumns(MixedColumns(s, decrypt))
  }

  /** Column c of the result depends on column c of the input only. */
  lemma MixColumnsByColumn(s: seq<bv8>, c: nat, decrypt: bool)
    requires |s| == 16 && c < 4
    ensures Column(MixColumns(s, decrypt), c) == MixColumn(Column(s, c), decrypt)
  {
    ColumnOfColumns(MixedColumns(s, decrypt), c);
  }

  /** Two states with the same four columns are equal. */
  lemma SameColumns(a: seq<bv8>, b: seq<bv8>)
    requires |a| == 16 && |b| == 16
    requires Column(a, 0) == Column(b, 0) && Column(a, 1) == Column(b, 1)
    requires Column(a, 2) == Column(b, 2) && Column(a, 3) == Column(b, 3)
    ensures a == b
  {
    forall k | 0 <= k < 16
      ensures a[k] == b[k]
    {
      assert Column(a, k % 4)[k / 4] == Column(b, k % 4)[k / 4];
    }
  }

  lemma MixColumnsUndoColumn(s: seq<bv8>, c: nat, decrypt: bool)
    requires |s| == 16 && c < 4
    ensures Column(MixColumns(MixColumns(s, decrypt), !decrypt), c) == Column(s, c)
  {
    MixColumnsByColumn(s, c, decrypt);
    MixColumnsByColumn(MixColumns(s, decrypt), c, !decrypt);
    MixColumnInverse(Column(s, c));
  }

  /** The decrypting mix undoes the encrypting one on the whole state, and the other way round. */
  lemma MixColumnsInverse(s: seq<bv8>)
    requires |s| == 16
    ensures MixColumns(MixColumns(s, false), true) == s
    ensures MixColumns(MixColumns(s, true), false) == s
  {
    var ed, de := MixColumns(MixColumns(s, false), true), MixColumns(MixColumns(s, true), false);
    MixColumnsUndoColumn(s, 0, false);
    MixColumnsUndoColumn(s, 1, false);
    MixColumnsUndoColumn(s, 2, false);
    MixColumnsUndoColumn(s, 3, false);
    SameColumns(ed, s);
    MixColumnsUndoColumn(s, 0, true);
    MixColumnsUndoColumn(s, 1, true);
    MixColumnsUndoColumn(s, 2, true);
    MixColumnsUndoColumn(s, 3, true);
    SameColumns(de, s);
  }

  /* -------------------------------------------------------- key expansion */

  /** Key sizes in bytes that `aes` accepts: 128, 192 and 256 bits. */
  predicate ValidKeySize(keySize: nat)
  {
    keySize == 16 || keySize == 24 || keySize == 32
  }

  /** The number of rounds `aes` selects: Nr = Nk + 6 for a key of Nk words (FIPS-197 section 5). */
  function Rounds(keySize: nat): (nr: nat)
    requires ValidKeySize(keySize)
    ensures nr == keySize / 4 + 6
    ensures nr == 10 || nr == 12 || nr == 14
  {
    if keySize == 16 then 10 else if keySize == 24 then 12 else 14
  }

  /** `expanded_key_size`: one 16-byte round key for the initial step and one per round. */
  function ExpandedKeySize(keySize: nat): (size: nat)
    requires ValidKeySize(keySize)
    ensures keySize < size <= 240 && size % 4 == 0 && size % 16 == 0
  {
    16 * (Rounds(keySize) + 1)
  }

  /** `rotate_word`: the cyclic left shift of a 4-byte word. */
  function RotWord(w: seq<bv8>): (r: seq<bv8>)
    requires |w| == 4
    ensures |r| == 4
  {
    w[1..] + w[..1]
  }

  /** Every byte of a word through the S-box. */
  function SubWord(w: seq<bv8>): (r: seq<bv8>)
    requires |w| == 4
    ensures |r| == 4
  {
    seq(4, i requires 0 <= i < 4 => SBox(w[i]))
  }

  /** `key_schedule`: rotate, substitute, and add the round constant to the first byte. */
  function KeyScheduleCore(w: seq<bv8>, iteration: nat): (r: seq<bv8>)
    requires |w| == 4 && iteration < 255
    ensures |r| == 4
  {
    var t := SubWord(RotWord(w));
    t[0 := t[0] ^ Rcon(iteration)]
  }

  /** Position p within its key-sized block of the expansion, `p % keySize` spelled out per key size. */
  function KeyOffset(p: nat, keySize: nat): (r: nat)
    requires ValidKeySize(keySize)
    ensures r < keySize
  {
    if keySize == 16 then p % 16 else if keySize == 24 then p % 24 else p % 32
  }

  /** The number of key-sized blocks before position p, `p / keySize` spelled out per key size. */
  function KeyBlock(p: nat, keySize: nat): (r: nat)
    requires ValidKeySize(keySize)
    ensures r <= p
  {
    if keySize == 16 then p / 16 else if keySize == 24 then p / 24 else p / 32
  }

  /**
   * The word `temp_word` holds when `key_expansion` is about to fill bytes
   * |prev| .. |prev| + 3: the last word written, run through the key schedule
   * with round constant |prev| / keySize at each multiple of the key size and,
   * for 256-bit keys only, through the S-box half-way between.
   */
  function TempWord(prev: seq<bv8>, keySize: nat): (t: seq<bv8>)
    requires ValidKeySize(keySize) && keySize <= |prev| < ExpandedKeySize(keySize) && |prev| % 4 == 0
    ensures |t| == 4
  {
    var p := |prev|;
    var w := prev[p - 4..];
    var scheduled := if KeyOffset(p, keySize) == 0 then KeyScheduleCore(w, KeyBlock(p, keySize)) else w;
    if keySize == 32 && KeyOffset(p, keySize) == 16 then SubWord(scheduled) else scheduled
  }

  /** The four bytes appended after `prev` with temp word `temp`: each the byte `keySize` places earlier XOR a byte of `temp`. */
  function XorWithTemp(prev: seq<bv8>, keySize: nat, temp: seq<bv8>): (w: seq<bv8>)
    requires 4 <= keySize <= |prev| && |temp| == 4
    ensures |w| == 4
  {
    seq(4, i requires 0 <= i < 4 => prev[|prev| - keySize + i] ^ temp[i])
  }

  /** The four bytes `key_expansion` appends after `prev`, with the temp word built from `prev`. */
  function NextWord(prev: seq<bv8>, keySize: nat): (w: seq<bv8>)
    requires ValidKeySize(keySize) && keySize <= |prev| < ExpandedKeySize(keySize) && |prev| % 4 == 0
    ensures |w| == 4
  {
    XorWithTemp(prev, keySize, TempWord(prev, keySize))
  }

  /**
   * The first `size` bytes of the expanded key (FIPS-197 section 5.2): the key
   * itself, then one `NextWord` at a time.
   */
  function ExpandKey(key: seq<bv8>, size: nat): (ek: seq<bv8>)
    requires ValidKeySize(|key|) && |key| <= size <= ExpandedKeySize(|key|) && size % 4 == 0
    ensures |ek| == size
    decreases size
  {
    if size == |key| then key
    else
      var prev := ExpandKey(key, size - 4);
      prev + NextWord(prev, |key|)
  }

  /** A shorter expansion is a prefix of a longer one. */
  lemma {:induction false} ExpandKeyPrefix(key: seq<bv8>, m: nat, n: nat)
    requires ValidKeySize(|key|) && |key| <= m <= n <= ExpandedKeySize(|key|)
    requires m % 4 == 0 && n % 4 == 0
    ensures ExpandKey(key, n)[..m] == ExpandKey(key, m)
    decreases n
  {
    if m < n {
      assert m <= n - 4 && (n - 4) % 4 == 0;
      ExpandKeyGrows(key, n - 4);
      ExpandKeyPrefix(key, m, n - 4);
      PrefixOfPrefix(ExpandKey(key, n), n - 4, m);
    }
  }

  /** One step of the expansion keeps what was there. */
  lemma ExpandKeyGrows(key: seq<bv8>, size: nat)
    requires ValidKeySize(|key|) && |key| <= size && size + 4 <= ExpandedKeySize(|key|) && size % 4 == 0
    ensures ExpandKey(key, size + 4)[..size] == ExpandKey(key, size)
  {
    var prev := ExpandKey(key, size);
    PrefixOfAppend(prev, NextWord(prev, |key|));
  }

  lemma PrefixOfAppend(a: seq<bv8>, b: seq<bv8>)
    ensures (a + b)[..|a|] == a
  {
  }

  lemma PrefixOfPrefix(a: seq<bv8>, n: nat, m: nat)
    requires m <= n <= |a|
    ensures a[..n][..m] == a[..m]
  {
  }

  /** The expansion starts with the key itself. */
  lemma ExpandKeyStartsWithKey(key: seq<bv8>, size: nat)
    requires ValidKeySize(|key|) && |key| <= size <= ExpandedKeySize(|key|) && size % 4 == 0
    ensures ExpandKey(key, size)[..|key|] == key
  {
    ExpandKeyPrefix(key, |key|, size);
  }

  /**
   * Every byte after the key is the byte `|key|` places earlier XOR the
   * matching byte of the temp word built from everything before its word.
   */
  lemma ExpandKeyRecurrence(key: seq<bv8>, n: nat, i: nat, prev: seq<bv8>, ek: seq<bv8>)
    requires ValidKeySize(|key|) && |key| <= n && n + 4 <= ExpandedKeySize(|key|) && n % 4 == 0 && i < 4
    requires prev == ExpandKey(key, n) && ek == ExpandKey(key, n + 4)
    ensures ek[n + i] == ek[n + i - |key|] ^ TempWord(prev, |key|)[i]
  {
    ExpandKeyStep(key, n);
    NextWordRecurrence(prev, |key|, i, ek, n);
  }

  /** The recurrence for one appended word, with the temp word built from what came before. */
  lemma NextWordRecurrence(prev: seq<bv8>, keySize: nat, i: nat, ek: seq<bv8>, p: nat)
    requires ValidKeySize(keySize) && keySize <= |prev| < ExpandedKeySize(keySize) && |prev| % 4 == 0 && i < 4
    requires ek == prev + NextWord(prev, keySize) && p == |prev|
    ensures ek[p + i] == ek[p + i - keySize] ^ TempWord(prev, keySize)[i]
  {
    var temp := TempWord(prev, keySize);
    assert NextWord(prev, keySize) == XorWithTemp(prev, keySize, temp);
    NextWordEntry(prev, keySize, temp, i, ek, p);
  }

  /** One more word of the expansion. */
  lemma ExpandKeyStep(key: seq<bv8>, n: nat)
    requires ValidKeySize(|key|) && |key| <= n && n + 4 <= ExpandedKeySize(|key|) && n % 4 == 0
    ensures ExpandKey(key, n + 4) == ExpandKey(key, n) + NextWord(ExpandKey(key, n), |key|)
  {
  }

  /** Byte i of the appended word, read back from the extended sequence. */
  lemma NextWordEntry(prev: seq<bv8>, keySize: nat, temp: seq<bv8>, i: nat, ek: seq<bv8>, p: nat)
    requires 4 <= keySize <= |prev| && |temp| == 4 && i < 4
    requires ek == prev + XorWithTemp(prev, keySize, temp) && p == |prev|
    ensures ek[p + i] == ek[p + i - keySize] ^ temp[i]
  {
    assert ek[p + i] == XorWithTemp(prev, keySize, temp)[i];
    assert ek[p + i - keySize] == prev[p + i - keySize];
  }

  /**
   * The key schedule runs at each multiple p of the key size, with round
   * constant index p / keySize, which lies in 1 .. 10: within the 255-entry table.
   */
  lemma RconIndexInRange(keySize: nat, p: nat)
    requires ValidKeySize(keySize) && keySize <= p < ExpandedKeySize(keySize)
    ensures KeyOffset(p, keySize) == p % keySize && KeyBlock(p, keySize) == p / keySize
    ensures KeyOffset(p, keySize) == 0 ==> 1 <= KeyBlock(p, keySize) <= 10
  {
  }

  /* ---------------------------------------------------------------- cipher */

  /** `generate_round_key`: round key i is bytes 16 * i .. 16 * i + 15 of the expanded key, transposed. */
  function RoundKey(ek: seq<bv8>, round: nat): (rk: seq<bv8>)
    requires 16 * (round + 1) <= |ek|
    ensures |rk| == 16
  {
    RowColMap(ek[16 * round .. 16 * round + 16])
  }

  /** `aes_round` when encrypting. */
  function CipherRound(s: seq<bv8>, roundKey: seq<bv8>): (r: seq<bv8>)
    requires |s| == 16 && |roundKey| == 16
    ensures |r| == 16
  {
    AddRoundKey(MixColumns(ShiftRows(SubBytes(s, false), false), false), roundKey)
  }

  /** `aes_round` when decrypting. */
  function InvCipherRound(s: seq<bv8>, roundKey: seq<bv8>): (r: seq<bv8>)
    requires |s| == 16 && |roundKey| == 16
    ensures |r| == 16
  {
    MixColumns(AddRoundKey(SubBytes(ShiftRows(s, true), true), roundKey), true)
  }

  /** The state after the encrypting rounds 1 .. n - 1, round i using round key i. */
  function EncryptRounds(s: seq<bv8>, ek: seq<bv8>, n: nat): (r: seq<bv8>)
    requires |s| == 16 && 16 * n <= |ek|
    ensures |r| == 16
    decreases n
  {
    if n <= 1 then s else CipherRound(EncryptRounds(s, ek, n - 1), RoundKey(ek, n - 1))
  }

  /** The state after the decrypting rounds i, i - 1, .. 1, round j using round key j. */
  function DecryptRounds(s: seq<bv8>, ek: seq<bv8>, i: nat): (r: seq<bv8>)
    requires |s| == 16 && 16 * (i + 1) <= |ek|
    ensures |r| == 16
    decreases i
  {
    if i == 0 then s else DecryptRounds(InvCipherRound(s, RoundKey(ek, i)), ek, i - 1)
  }

  /** `aes_main` when encrypting: round keys 0, 1, .., nr in ascending order. */
  function Encrypt(s: seq<bv8>, ek: seq<bv8>, nr: nat): (r: seq<bv8>)
    requires |s| == 16 && 1 <= nr && 16 * (nr + 1) <= |ek|
    ensures |r| == 16
  {
    var t := EncryptRounds(AddRoundKey(s, RoundKey(ek, 0)), ek, nr);
    AddRoundKey(ShiftRows(SubBytes(t, false), false), RoundKey(ek, nr))
  }

  /** `aes_main` when decrypting: round keys nr, nr - 1, .., 0 in descending order. */
  function Decrypt(s: seq<bv8>, ek: seq<bv8>, nr: nat): (r: seq<bv8>)
    requires |s| == 16 && 1 <= nr && 16 * (nr + 1) <= |ek|
    ensures |r| == 16
  {
    var t := DecryptRounds(AddRoundKey(s, RoundKey(ek, nr)), ek, nr - 1);
    AddRoundKey(SubBytes(ShiftRows(t, true), true), RoundKey(ek, 0))
  }

  /** SubBytes then ShiftRows, the part of a round before MixColumns. */
  function SubShift(s: seq<bv8>): (r: seq<bv8>)
    requires |s| == 16
    ensures |r| == 16
  {
    ShiftRows(SubBytes(s, false), false)
  }

  lemma SubShiftInverse(s: seq<bv8>)
    requires |s| == 16
    ensures SubBytes(ShiftRows(SubShift(s), true), true) == s
  {
    ShiftRowsInverse(SubBytes(s, false));
    SubBytesInverse(s);
  }

  /** A decrypting round undoes an encrypting round with the same key, up to SubShift. */
  lemma RoundInverse(s: seq<bv8>, roundKey: seq<bv8>)
    requires |s| == 16 && |roundKey| == 16
    ensures InvCipherRound(SubShift(CipherRound(s, roundKey)), roundKey) == SubShift(s)
  {
    var m := MixColumns(SubShift(s), false);
    SubShiftInverse(CipherRound(s, roundKey));
    AddRoundKeyInverse(m, roundKey);
    MixColumnsInverse(SubShift(s));
  }

  lemma {:induction false} RoundsInverse(s: seq<bv8>, ek: seq<bv8>, n: nat)
    requires |s| == 16 && 1 <= n && 16 * n <= |ek|
    ensures DecryptRounds(SubShift(EncryptRounds(s, ek, n)), ek, n - 1) == SubShift(s)
    decreases n
  {
    if n > 1 {
      var u := EncryptRounds(s, ek, n - 1);
      RoundInverse(u, RoundKey(ek, n - 1));
      RoundsInverse(s, ek, n - 1);
    }
  }

  /** Decrypting with the same expanded key gives back the state that was encrypted. */
  lemma CipherRoundTrip(s: seq<bv8>, ek: seq<bv8>, nr: nat)
    requires |s| == 16 && 1 <= nr && 16 * (nr + 1) <= |ek|
    ensures Decrypt(Encrypt(s, ek, nr), ek, nr) == s
  {
    var s1 := AddRoundKey(s, RoundKey(ek, 0));
    var t := EncryptRounds(s1, ek, nr);
    AddRoundKeyInverse(SubShift(t), RoundKey(ek, nr));
    RoundsInverse(s1, ek, nr);
    SubShiftInverse(s1);
    AddRoundKeyInverse(s, RoundKey(ek, 0));
  }

  /* ----------------------------------------------------------------- block */

  /**
   * `aes` with a valid key size: the 16 input bytes are transposed into the
   * state, the key is expanded to 16 * (Nr + 1) bytes, the state is ciphered
   * and transposed back into the output.
   */
  function AesBlock(data: seq<bv8>, key: seq<bv8>, decrypt: bool): (out: seq<bv8>)
    requires |data| == 16 && ValidKeySize(|key|)
    ensures |out| == 16
  {
    var nr := Rounds(|key|);
    var ek := ExpandKey(key, ExpandedKeySize(|key|));
    var state := RowColMap(data);
    RowColMap(if decrypt then Decrypt(state, ek, nr) else Encrypt(state, ek, nr))
  }

  /** aes(aes(b, encrypt), decrypt) == b for the same key. */
  lemma AesBlockRoundTrip(data: seq<bv8>, key: seq<bv8>)
    requires |data| == 16 && ValidKeySize(|key|)
    ensures AesBlock(AesBlock(data, key, false), key, true) == data
  {
    var nr := Rounds(|key|);
    var ek := ExpandKey(key, ExpandedKeySize(|key|));
    var e := Encrypt(RowColMap(data), ek, nr);
    RowColMapInvolution(e);
    CipherRoundTrip(RowColMap(data), ek, nr);
    RowColMapInvolution(data);
  }
}
