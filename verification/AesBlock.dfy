/**
 The block cipher of FIPS 197 on 16-byte values: byte 4*c + r of a block is row r of column c.
 Every transformation has its inverse proved, and InvCipher undoes Cipher under any key schedule.
 */
module AesBlock {
  import opened AesTables
  import opened Gf256

  type Block = s: seq<bv8> | |s| == 16 witness seq(16, _ => 0)
  type Schedule = s: seq<bv8> | |s| == 176 witness seq(176, _ => 0)

  const ROUNDS: nat := 10

  function XorBlocks(s: Block, t: Block): Block {
    seq(16, k requires 0 <= k < 16 => Xor(s[k], t[k]))
  }

  function RoundKey(w: Schedule, round: nat): Block
    requires round <= ROUNDS
  {
    w[16 * round..16 * round + 16]
  }

  function AddRoundKey(s: Block, w: Schedule, round: nat): Block
    requires round <= ROUNDS
  {
    XorBlocks(s, RoundKey(w, round))
  }

  function SubBytes(s: Block): Block {
    seq(16, k requires 0 <= k < 16 => SBox(s[k]))
  }

  function InvSubBytes(s: Block): Block {
    seq(16, k requires 0 <= k < 16 => RSBox(s[k]))
  }

  /** The entry a number of columns to the right of position k, in the same row. */
  function Right(k: nat, columns: nat): nat
    requires k < 16
  {
    (k + 4 * columns) % 16
  }

  /** Row r moves left by r columns. */
  function ShiftRows(s: Block): Block {
    seq(16, k requires 0 <= k < 16 =>
      if k % 4 == 0 then s[k] else if k % 4 == 1 then s[Right(k, 1)] else if k % 4 == 2 then s[Right(k, 2)] else s[Right(k, 3)])
  }

  /** Row r moves right by r columns. */
  function InvShiftRows(s: Block): Block {
    seq(16, k requires 0 <= k < 16 =>
      if k % 4 == 0 then s[k] else if k % 4 == 1 then s[Right(k, 3)] else if k % 4 == 2 then s[Right(k, 2)] else s[Right(k, 1)])
  }

  /** A row rotated one place by moving its four entries along, in either direction. */
  function RowMoved(s: Block, k0: nat, k1: nat, k2: nat, k3: nat): Block
    requires k0 < 16 && k1 < 16 && k2 < 16 && k3 < 16
  {
    s[k0 := s[k1]][k1 := s[k2]][k2 := s[k3]][k3 := s[k0]]
  }

  /** A row rotated two places by exchanging its entries pairwise. */
  function RowExchanged(s: Block): Block {
    s[2 := s[10]][10 := s[2]][6 := s[14]][14 := s[6]]
  }

  lemma ShiftRowsList(s: Block)
    ensures ShiftRows(s)
         == [s[0], s[5], s[10], s[15], s[4], s[9], s[14], s[3],
            s[8], s[13], s[2], s[7], s[12], s[1], s[6], s[11]]
  {
  }

  lemma InvShiftRowsList(s: Block)
    ensures InvShiftRows(s)
         == [s[0], s[13], s[10], s[7], s[4], s[1], s[14], s[11],
            s[8], s[5], s[2], s[15], s[12], s[9], s[6], s[3]]
  {
  }

  lemma ShiftRowsByMoves(s: Block)
    ensures RowMoved(RowExchanged(RowMoved(s, 1, 5, 9, 13)), 3, 15, 11, 7) == ShiftRows(s)
  {
    hide ShiftRows;
    ShiftRowsList(s);
  }

  lemma InvShiftRowsByMoves(s: Block)
    ensures RowMoved(RowExchanged(RowMoved(s, 13, 9, 5, 1)), 3, 7, 11, 15) == InvShiftRows(s)
  {
    hide InvShiftRows;
    InvShiftRowsList(s);
  }

  /** Row r of the product of the fixed matrix and the column a, b, c, d. */
  function MixRow(a: bv8, b: bv8, c: bv8, d: bv8, r: nat): bv8 {
    if r == 0 then MixByte(a, b, c, d) else if r == 1 then MixByte(b, c, d, a)
    else if r == 2 then MixByte(c, d, a, b) else MixByte(d, a, b, c)
  }

  function InvMixRow(a: bv8, b: bv8, c: bv8, d: bv8, r: nat): bv8 {
    if r == 0 then InvMixByte(a, b, c, d) else if r == 1 then InvMixByte(b, c, d, a)
    else if r == 2 then InvMixByte(c, d, a, b) else InvMixByte(d, a, b, c)
  }

  function MixColumns(s: Block): Block {
    seq(16, k requires 0 <= k < 16 =>
      var c := k / 4 * 4; MixRow(s[c], s[c + 1], s[c + 2], s[c + 3], k % 4))
  }

  function InvMixColumns(s: Block): Block {
    seq(16, k requires 0 <= k < 16 =>
      var c := k / 4 * 4; InvMixRow(s[c], s[c + 1], s[c + 2], s[c + 3], k % 4))
  }

  /** The first rows (and the first entries of the next row) taken from t, everything else from s. */
  function RowWise(s: Block, t: Block, rows: nat, columns: nat): Block {
    seq(16, k requires 0 <= k < 16 => if k % 4 < rows || (k % 4 == rows && k / 4 < columns) then t[k] else s[k])
  }

  lemma RowWiseStep(s: Block, t: Block, row: nat, column: nat)
    requires row < 4 && column < 4
    ensures RowWise(s, t, row, column)[4 * column + row] == s[4 * column + row]
    ensures RowWise(s, t, row, column)[4 * column + row := t[4 * column + row]] == RowWise(s, t, row, column + 1)
  {
  }

  lemma RowWiseEnds(s: Block, t: Block, rows: nat)
    ensures RowWise(s, t, 0, 0) == s
    ensures RowWise(s, t, rows, 4) == RowWise(s, t, rows + 1, 0)
    ensures RowWise(s, t, 4, 0) == t
  {
  }

  /** The first n entries taken from t, the others from s. */
  function FirstFrom(s: Block, t: Block, n: nat): Block {
    seq(16, k requires 0 <= k < 16 => if k < n then t[k] else s[k])
  }

  lemma FirstFromStep(s: Block, t: Block, n: nat)
    requires n < 16
    ensures FirstFrom(s, t, n)[n] == s[n]
    ensures FirstFrom(s, t, n)[n := t[n]] == FirstFrom(s, t, n + 1)
    ensures FirstFrom(s, t, 0) == s && FirstFrom(s, t, 16) == t
  {
  }

  lemma FirstFromColumn(s: Block, t: Block, n: nat)
    requires n < 13
    ensures FirstFrom(s, t, n)[n := t[n]][n + 1 := t[n + 1]][n + 2 := t[n + 2]][n + 3 := t[n + 3]] == FirstFrom(s, t, n + 4)
    ensures FirstFrom(s, t, n)[n] == s[n] && FirstFrom(s, t, n)[n + 1] == s[n + 1]
    ensures FirstFrom(s, t, n)[n + 2] == s[n + 2] && FirstFrom(s, t, n)[n + 3] == s[n + 3]
  {
    FirstFromStep(s, t, n);
    FirstFromStep(s, t, n + 1);
    FirstFromStep(s, t, n + 2);
    FirstFromStep(s, t, n + 3);
  }

  // ---- the two ciphers (section 5.1 and section 5.3) ----

  function Round(s: Block, w: Schedule, round: nat): Block
    requires round <= ROUNDS
  {
    AddRoundKey(MixColumns(ShiftRows(SubBytes(s))), w, round)
  }

  /** The state after the initial key addition and the given number of full rounds. */
  function AfterRounds(s: Block, w: Schedule, round: nat): Block
    requires round < ROUNDS
  {
    if round == 0 then AddRoundKey(s, w, 0) else Round(AfterRounds(s, w, round - 1), w, round)
  }

  function Cipher(s: Block, w: Schedule): Block {
    AddRoundKey(ShiftRows(SubBytes(AfterRounds(s, w, ROUNDS - 1))), w, ROUNDS)
  }

  function InvRound(s: Block, w: Schedule, round: nat): Block
    requires round <= ROUNDS
  {
    InvMixColumns(AddRoundKey(InvSubBytes(InvShiftRows(s)), w, round))
  }

  /** The state of the inverse cipher once the rounds above the given one are undone. */
  function DownToRound(s: Block, w: Schedule, round: nat): Block
    requires round < ROUNDS
    decreases ROUNDS - round
  {
    if round == ROUNDS - 1 then AddRoundKey(s, w, ROUNDS) else InvRound(DownToRound(s, w, round + 1), w, round + 1)
  }

  function InvCipher(s: Block, w: Schedule): Block {
    AddRoundKey(InvSubBytes(InvShiftRows(DownToRound(s, w, 0))), w, 0)
  }

  // ---- each step undone ----

  lemma AddRoundKeyTwice(s: Block, w: Schedule, round: nat)
    requires round <= ROUNDS
    ensures AddRoundKey(AddRoundKey(s, w, round), w, round) == s
  {
    XorBlocksTwice(s, RoundKey(w, round));
  }

  lemma XorBlocksTwice(s: Block, t: Block)
    ensures XorBlocks(XorBlocks(s, t), t) == s
  {
    hide Xor;
    forall k | 0 <= k < 16
      ensures XorBlocks(XorBlocks(s, t), t)[k] == s[k]
    {
      XorCancels(s[k], t[k]);
    }
  }

  lemma SubBytesUndone(s: Block)
    ensures InvSubBytes(SubBytes(s)) == s
    ensures SubBytes(InvSubBytes(s)) == s
  {
    hide SBox, RSBox;
    forall k | 0 <= k < 16
      ensures InvSubBytes(SubBytes(s))[k] == s[k]
      ensures SubBytes(InvSubBytes(s))[k] == s[k]
    {
      RSBoxUndoesSBox(s[k]);
      SBoxUndoesRSBox(s[k]);
    }
  }

  lemma ShiftRowsUndone(s: Block)
    ensures InvShiftRows(ShiftRows(s)) == s
    ensures ShiftRows(InvShiftRows(s)) == s
  {
    forall k | 0 <= k < 16
      ensures InvShiftRows(ShiftRows(s))[k] == s[k]
      ensures ShiftRows(InvShiftRows(s))[k] == s[k]
    {
      RightAndBack(k, 1);
      RightAndBack(k, 2);
      RightAndBack(k, 3);
    }
  }

  lemma RightAndBack(k: nat, columns: nat)
    requires k < 16 && 1 <= columns <= 3
    ensures Right(k, columns) % 4 == k % 4
    ensures Right(Right(k, columns), 4 - columns) == k
  {
    assert Right(k, columns) == k + 4 * columns || Right(k, columns) == k + 4 * columns - 16;
  }

  /** The firmware's in-place form: one xor of the whole column, and one doubling for each row. */
  lemma MixRowShortcut(a: bv8, b: bv8, c: bv8, d: bv8)
    ensures var all := Xor(Xor(Xor(a, b), c), d);
      && Xor(a, Xor(XTime(Xor(a, b)), all)) == MixRow(a, b, c, d, 0)
      && Xor(b, Xor(XTime(Xor(b, c)), all)) == MixRow(a, b, c, d, 1)
      && Xor(c, Xor(XTime(Xor(c, d)), all)) == MixRow(a, b, c, d, 2)
      && Xor(d, Xor(XTime(Xor(d, a)), all)) == MixRow(a, b, c, d, 3)
  {
    hide Xor, XTime, MixByte;
    XorRotate(a, b, c, d);
    XorRotate(b, c, d, a);
    XorRotate(c, d, a, b);
    MixByteShortcut(a, b, c, d);
    MixByteShortcut(b, c, d, a);
    MixByteShortcut(c, d, a, b);
    MixByteShortcut(d, a, b, c);
  }

  lemma XorRotate(a: bv8, b: bv8, c: bv8, d: bv8)
    ensures Xor(Xor(Xor(a, b), c), d) == Xor(Xor(Xor(b, c), d), a)
  {
    hide Xor;
    XorAssoc(a, b, c);
    XorAssoc(a, Xor(b, c), d);
    XorComm(a, Xor(Xor(b, c), d));
  }

  /** The firmware's inverse form, with its shift-and-add multiplication. */
  lemma InvMixRowMultiplied(a: bv8, b: bv8, c: bv8, d: bv8)
    ensures Xor(Xor(Xor(Multiply(a, 0x0e), Multiply(b, 0x0b)), Multiply(c, 0x0d)), Multiply(d, 0x09)) == InvMixRow(a, b, c, d, 0)
    ensures Xor(Xor(Xor(Multiply(a, 0x09), Multiply(b, 0x0e)), Multiply(c, 0x0b)), Multiply(d, 0x0d)) == InvMixRow(a, b, c, d, 1)
    ensures Xor(Xor(Xor(Multiply(a, 0x0d), Multiply(b, 0x09)), Multiply(c, 0x0e)), Multiply(d, 0x0b)) == InvMixRow(a, b, c, d, 2)
    ensures Xor(Xor(Xor(Multiply(a, 0x0b), Multiply(b, 0x0d)), Multiply(c, 0x09)), Multiply(d, 0x0e)) == InvMixRow(a, b, c, d, 3)
  {
    hide Xor, Multiply, InvMixByte;
    InvMixByteMultiplied(a, b, c, d);
    InvMixByteMultiplied(b, c, d, a);
    XorRotate(Multiply(a, 0x09), Multiply(b, 0x0e), Multiply(c, 0x0b), Multiply(d, 0x0d));
    InvMixByteMultiplied(c, d, a, b);
    XorRotate(Multiply(a, 0x0d), Multiply(b, 0x09), Multiply(c, 0x0e), Multiply(d, 0x0b));
    XorRotate(Multiply(b, 0x09), Multiply(c, 0x0e), Multiply(d, 0x0b), Multiply(a, 0x0d));
    InvMixByteMultiplied(d, a, b, c);
    XorRotate(Multiply(d, 0x0e), Multiply(a, 0x0b), Multiply(b, 0x0d), Multiply(c, 0x09));
  }

  lemma InvMixByteMultiplied(a: bv8, b: bv8, c: bv8, d: bv8)
    ensures Xor(Xor(Xor(Multiply(a, 0x0e), Multiply(b, 0x0b)), Multiply(c, 0x0d)), Multiply(d, 0x09))
         == InvMixByte(a, b, c, d)
  {
    hide Xor, XTime, Multiply, GfMul;
    TimesFourteen(a);
    TimesEleven(b);
    TimesThirteen(c);
    TimesNine(d);
    XorAssoc(Xor(GfMul(a, 0x0e), GfMul(b, 0x0b)), GfMul(c, 0x0d), GfMul(d, 0x09));
  }

  lemma MixRowUndone(a: bv8, b: bv8, c: bv8, d: bv8, r: nat)
    requires r < 4
    ensures InvMixRow(MixRow(a, b, c, d, 0), MixRow(a, b, c, d, 1), MixRow(a, b, c, d, 2), MixRow(a, b, c, d, 3), r)
         == [a, b, c, d][r]
    ensures MixRow(InvMixRow(a, b, c, d, 0), InvMixRow(a, b, c, d, 1), InvMixRow(a, b, c, d, 2), InvMixRow(a, b, c, d, 3), r)
         == [a, b, c, d][r]
  {
    hide MixByte, InvMixByte;
    if r == 0 {
      InvMixUndoesMix(a, b, c, d);
      MixUndoesInvMix(a, b, c, d);
    } else if r == 1 {
      InvMixUndoesMix(b, c, d, a);
      MixUndoesInvMix(b, c, d, a);
    } else if r == 2 {
      InvMixUndoesMix(c, d, a, b);
      MixUndoesInvMix(c, d, a, b);
    } else {
      InvMixUndoesMix(d, a, b, c);
      MixUndoesInvMix(d, a, b, c);
    }
  }

  lemma ColumnEntry(s: Block, c: nat, r: nat)
    requires c < 4 && r < 4
    ensures MixColumns(s)[4 * c + r] == MixRow(s[4 * c], s[4 * c + 1], s[4 * c + 2], s[4 * c + 3], r)
    ensures InvMixColumns(s)[4 * c + r] == InvMixRow(s[4 * c], s[4 * c + 1], s[4 * c + 2], s[4 * c + 3], r)
  {
    hide MixRow, InvMixRow;
    assert (4 * c + r) / 4 * 4 == 4 * c;
  }

  lemma ColumnUndone(s: Block, c: nat, r: nat)
    requires c < 4 && r < 4
    ensures InvMixColumns(MixColumns(s))[4 * c + r] == s[4 * c + r]
    ensures MixColumns(InvMixColumns(s))[4 * c + r] == s[4 * c + r]
  {
    hide MixRow, InvMixRow, MixColumns, InvMixColumns;
    ColumnEntry(s, c, 0);
    ColumnEntry(s, c, 1);
    ColumnEntry(s, c, 2);
    ColumnEntry(s, c, 3);
    ColumnEntry(MixColumns(s), c, r);
    ColumnEntry(InvMixColumns(s), c, r);
    MixRowUndone(s[4 * c], s[4 * c + 1], s[4 * c + 2], s[4 * c + 3], r);
  }

  lemma MixColumnsUndone(s: Block)
    ensures InvMixColumns(MixColumns(s)) == s
    ensures MixColumns(InvMixColumns(s)) == s
  {
    hide MixColumns, InvMixColumns;
    forall k | 0 <= k < 16
      ensures InvMixColumns(MixColumns(s))[k] == s[k]
      ensures MixColumns(InvMixColumns(s))[k] == s[k]
    {
      ColumnUndone(s, k / 4, k % 4);
    }
  }

  /** Mixing columns one after the other: what the next column adds to the state. */
  lemma MixColumnStep(s: Block, c: nat)
    requires c < 4
    ensures var t := MixColumns(s); var cur := FirstFrom(s, t, 4 * c);
      var w, x, y, z := cur[4 * c], cur[4 * c + 1], cur[4 * c + 2], cur[4 * c + 3];
      cur[4 * c := MixRow(w, x, y, z, 0)][4 * c + 1 := MixRow(w, x, y, z, 1)]
         [4 * c + 2 := MixRow(w, x, y, z, 2)][4 * c + 3 := MixRow(w, x, y, z, 3)]
      == FirstFrom(s, t, 4 * c + 4)
  {
    hide MixRow, InvMixRow, MixColumns, InvMixColumns;
    FirstFromColumn(s, MixColumns(s), 4 * c);
    ColumnEntry(s, c, 0);
    ColumnEntry(s, c, 1);
    ColumnEntry(s, c, 2);
    ColumnEntry(s, c, 3);
  }

  lemma InvMixColumnStep(s: Block, c: nat)
    requires c < 4
    ensures var t := InvMixColumns(s); var cur := FirstFrom(s, t, 4 * c);
      var w, x, y, z := cur[4 * c], cur[4 * c + 1], cur[4 * c + 2], cur[4 * c + 3];
      cur[4 * c := InvMixRow(w, x, y, z, 0)][4 * c + 1 := InvMixRow(w, x, y, z, 1)]
         [4 * c + 2 := InvMixRow(w, x, y, z, 2)][4 * c + 3 := InvMixRow(w, x, y, z, 3)]
      == FirstFrom(s, t, 4 * c + 4)
  {
    hide MixRow, InvMixRow, MixColumns, InvMixColumns;
    FirstFromColumn(s, InvMixColumns(s), 4 * c);
    ColumnEntry(s, c, 0);
    ColumnEntry(s, c, 1);
    ColumnEntry(s, c, 2);
    ColumnEntry(s, c, 3);
  }

  // ---- the whole ciphers undone ----

  /** Coming down, the inverse cipher meets the shifted and substituted states of the way up. */
  lemma {:induction false} StatesMeet(s: Block, w: Schedule, round: nat)
    requires round < ROUNDS
    ensures DownToRound(Cipher(s, w), w, round) == ShiftRows(SubBytes(AfterRounds(s, w, round)))
    decreases ROUNDS - round
  {
    hide AddRoundKey, SubBytes, InvSubBytes, ShiftRows, InvShiftRows, MixColumns, InvMixColumns;
    if round == ROUNDS - 1 {
      AddRoundKeyTwice(ShiftRows(SubBytes(AfterRounds(s, w, round))), w, ROUNDS);
    } else {
      StatesMeet(s, w, round + 1);
      var above := AfterRounds(s, w, round + 1);
      ShiftRowsUndone(SubBytes(above));
      SubBytesUndone(above);
      var mixed := ShiftRows(SubBytes(AfterRounds(s, w, round)));
      AddRoundKeyTwice(MixColumns(mixed), w, round + 1);
      MixColumnsUndone(mixed);
    }
  }

  lemma InvCipherUndoesCipher(s: Block, w: Schedule)
    ensures InvCipher(Cipher(s, w), w) == s
  {
    hide AddRoundKey, SubBytes, InvSubBytes, ShiftRows, InvShiftRows, Cipher;
    StatesMeet(s, w, 0);
    var first := AfterRounds(s, w, 0);
    ShiftRowsUndone(SubBytes(first));
    SubBytesUndone(first);
    AddRoundKeyTwice(s, w, 0);
  }

  lemma {:induction false} StatesMeetGoingUp(s: Block, w: Schedule, round: nat)
    requires round < ROUNDS
    ensures AfterRounds(InvCipher(s, w), w, round) == InvSubBytes(InvShiftRows(DownToRound(s, w, round)))
  {
    hide AddRoundKey, SubBytes, InvSubBytes, ShiftRows, InvShiftRows, MixColumns, InvMixColumns;
    if round == 0 {
      AddRoundKeyTwice(InvSubBytes(InvShiftRows(DownToRound(s, w, 0))), w, 0);
    } else {
      StatesMeetGoingUp(s, w, round - 1);
      var below := DownToRound(s, w, round - 1);
      SubBytesUndone(InvShiftRows(below));
      ShiftRowsUndone(below);
      var keyed := InvSubBytes(InvShiftRows(DownToRound(s, w, round)));
      MixColumnsUndone(AddRoundKey(keyed, w, round));
      AddRoundKeyTwice(keyed, w, round);
    }
  }

  lemma CipherUndoesInvCipher(s: Block, w: Schedule)
    ensures Cipher(InvCipher(s, w), w) == s
  {
    hide AddRoundKey, SubBytes, InvSubBytes, ShiftRows, InvShiftRows, InvCipher;
    StatesMeetGoingUp(s, w, ROUNDS - 1);
    var last := DownToRound(s, w, ROUNDS - 1);
    SubBytesUndone(InvShiftRows(last));
    ShiftRowsUndone(last);
    AddRoundKeyTwice(s, w, ROUNDS);
  }

  // ---- where the keys enter ----

  /** The state after a round depends on the schedule up to the key of that round alone. */
  lemma {:induction false} KeysSoFar(s: Block, w: Schedule, v: Schedule, round: nat)
    requires round < ROUNDS && w[..16 * round + 16] == v[..16 * round + 16]
    ensures AfterRounds(s, w, round) == AfterRounds(s, v, round)
  {
    hide SubBytes, ShiftRows, MixColumns, XorBlocks;
    SameKey(w, v, round, 16 * round + 16);
    if round > 0 {
      assert w[..16 * round] == w[..16 * round + 16][..16 * round] == v[..16 * round];
      KeysSoFar(s, w, v, round - 1);
    }
  }

  lemma SameKey(w: Schedule, v: Schedule, round: nat, n: nat)
    requires round <= ROUNDS && 16 * round + 16 <= n <= 176 && w[..n] == v[..n]
    ensures RoundKey(w, round) == RoundKey(v, round)
  {
    assert w[16 * round..16 * round + 16] == w[..n][16 * round..16 * round + 16] == v[16 * round..16 * round + 16];
  }

  /** The key of a round is the last thing to enter its state: without it two schedules that agreed before agree again. */
  lemma KeyEnters(s: Block, w: Schedule, v: Schedule, round: nat)
    requires round < ROUNDS && w[..16 * round] == v[..16 * round]
    ensures XorBlocks(AfterRounds(s, w, round), w[16 * round..16 * round + 16])
         == XorBlocks(AfterRounds(s, v, round), v[16 * round..16 * round + 16])
  {
    hide SubBytes, ShiftRows, MixColumns, XorBlocks;
    var x := if round == 0 then s else MixColumns(ShiftRows(SubBytes(AfterRounds(s, w, round - 1))));
    if round > 0 {
      KeysSoFar(s, w, v, round - 1);
    }
    XorBlocksTwice(x, w[16 * round..16 * round + 16]);
    XorBlocksTwice(x, v[16 * round..16 * round + 16]);
  }

  /** The last sixteen bytes of the schedule enter after the last round. */
  lemma LastKeyEnters(s: Block, w: Schedule, v: Schedule)
    requires w[..160] == v[..160]
    ensures XorBlocks(Cipher(s, w), w[160..176]) == XorBlocks(Cipher(s, v), v[160..176])
  {
    hide SubBytes, ShiftRows, MixColumns, XorBlocks;
    KeysSoFar(s, w, v, ROUNDS - 1);
    var x := ShiftRows(SubBytes(AfterRounds(s, w, ROUNDS - 1)));
    XorBlocksTwice(x, w[160..176]);
    XorBlocksTwice(x, v[160..176]);
  }
}
