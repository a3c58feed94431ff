/**
 The cipher as the firmware runs it: one schedule array, and a state pointer into the caller's
 buffer whose sixteen bytes every step rewrites in place.
 */
module AesEngine {
  import opened AesTables
  import opened Gf256
  import opened AesBlock
  import opened AesKeySchedule

  class Engine {
    const roundKey: array<bv8>
    // the state pointer: sixteen bytes of this buffer from this position
    var state: array<bv8>
    var stateAt: nat

    constructor ()
      ensures Valid() && fresh(roundKey) && fresh(state)
    {
      roundKey := new bv8[176];
      state := new bv8[16];
      stateAt := 0;
    }

    ghost predicate Valid()
      reads this
    {
      roundKey.Length == 176 && state != roundKey && stateAt + 16 <= state.Length
    }

    ghost function Keys(): Schedule
      requires Valid()
      reads this, roundKey
    {
      roundKey[..]
    }

    ghost function State(): Block
      requires Valid()
      reads this, state
    {
      state[stateAt..stateAt + 16]
    }

    /** Everything in the state's buffer but the state itself is as it was. */
    twostate predicate OnlyState()
      requires Valid() && old(Valid())
      reads this, state
    {
      && state[..stateAt] == old(state[..stateAt])
      && state[stateAt + 16..] == old(state[stateAt + 16..])
    }

    function Get(c: nat, r: nat): (v: bv8)
      requires Valid() && c < 4 && r < 4
      reads this, state
      ensures v == State()[4 * c + r]
    {
      state[stateAt + 4 * c + r]
    }

    /** Assigns row r of column c of the state. */
    method Put(c: nat, r: nat, v: bv8)
      requires Valid() && c < 4 && r < 4
      modifies state
      ensures State() == old(State())[4 * c + r := v]
      ensures OnlyState()
    {
      state[stateAt + 4 * c + r] := v;
    }

    method AddRoundKey(round: nat)
      requires Valid() && round <= ROUNDS
      modifies state
      ensures State() == AesBlock.AddRoundKey(old(State()), Keys(), round)
      ensures OnlyState()
    {
      hide SBox, RSBox, Xor;
      ghost var before := State();
      ghost var after := AesBlock.AddRoundKey(before, Keys(), round);
      FirstFromStep(before, after, 0);
      for i := 0 to 4
        invariant State() == FirstFrom(before, after, 4 * i)
        invariant OnlyState()
      {
        for j := 0 to 4
          invariant State() == FirstFrom(before, after, 4 * i + j)
          invariant OnlyState()
        {
          FirstFromStep(before, after, 4 * i + j);
          Put(i, j, Xor(Get(i, j), roundKey[16 * round + 4 * i + j]));
        }
      }
    }

    method SubBytes()
      requires Valid()
      modifies state
      ensures State() == AesBlock.SubBytes(old(State()))
      ensures OnlyState()
    {
      hide SBox, RSBox, Xor;
      ghost var before := State();
      ghost var after := AesBlock.SubBytes(before);
      RowWiseEnds(before, after, 0);
      for i := 0 to 4
        invariant State() == RowWise(before, after, i, 0)
        invariant OnlyState()
      {
        for j := 0 to 4
          invariant State() == RowWise(before, after, i, j)
          invariant OnlyState()
        {
          RowWiseStep(before, after, i, j);
          Put(j, i, SBox(Get(j, i)));
        }
        RowWiseEnds(before, after, i);
      }
    }

    method InvSubBytes()
      requires Valid()
      modifies state
      ensures State() == AesBlock.InvSubBytes(old(State()))
      ensures OnlyState()
    {
      hide SBox, RSBox, Xor;
      ghost var before := State();
      ghost var after := AesBlock.InvSubBytes(before);
      RowWiseEnds(before, after, 0);
      for i := 0 to 4
        invariant State() == RowWise(before, after, i, 0)
        invariant OnlyState()
      {
        for j := 0 to 4
          invariant State() == RowWise(before, after, i, j)
          invariant OnlyState()
        {
          RowWiseStep(before, after, i, j);
          Put(j, i, RSBox(Get(j, i)));
        }
        RowWiseEnds(before, after, i);
      }
    }

    /** Moves four entries of row r one place along: c0 takes from c1, and so on round to c3. */
    method MoveRow(r: nat, c0: nat, c1: nat, c2: nat, c3: nat)
      requires Valid() && r < 4 && c0 < 4 && c1 < 4 && c2 < 4 && c3 < 4
      requires c0 != c1 && c0 != c2 && c0 != c3 && c1 != c2 && c1 != c3 && c2 != c3
      modifies state
      ensures State() == RowMoved(old(State()), 4 * c0 + r, 4 * c1 + r, 4 * c2 + r, 4 * c3 + r)
      ensures OnlyState()
    {
      var temp := Get(c0, r);
      Put(c0, r, Get(c1, r));
      Put(c1, r, Get(c2, r));
      Put(c2, r, Get(c3, r));
      Put(c3, r, temp);
    }

    /** Exchanges row 2 pairwise, which is a move of two places. */
    method ExchangeRow()
      requires Valid()
      modifies state
      ensures State() == RowExchanged(old(State()))
      ensures OnlyState()
    {
      var temp := Get(0, 2);
      Put(0, 2, Get(2, 2));
      Put(2, 2, temp);
      temp := Get(1, 2);
      Put(1, 2, Get(3, 2));
      Put(3, 2, temp);
    }

    method ShiftRows()
      requires Valid()
      modifies state
      ensures State() == AesBlock.ShiftRows(old(State()))
      ensures OnlyState()
    {
      hide AesBlock.ShiftRows, AesBlock.InvShiftRows, RowMoved, RowExchanged;
      ShiftRowsByMoves(State());
      MoveRow(1, 0, 1, 2, 3);
      ExchangeRow();
      MoveRow(3, 0, 3, 2, 1);
    }

    method InvShiftRows()
      requires Valid()
      modifies state
      ensures State() == AesBlock.InvShiftRows(old(State()))
      ensures OnlyState()
    {
      hide AesBlock.ShiftRows, AesBlock.InvShiftRows, RowMoved, RowExchanged;
      InvShiftRowsByMoves(State());
      MoveRow(1, 3, 2, 1, 0);
      ExchangeRow();
      MoveRow(3, 0, 1, 2, 3);
    }

    method MixColumn(i: nat)
      requires Valid() && i < 4
      modifies state
      ensures var a, b, c, d := old(Get(i, 0)), old(Get(i, 1)), old(Get(i, 2)), old(Get(i, 3));
        State() == old(State())[4 * i := MixRow(a, b, c, d, 0)][4 * i + 1 := MixRow(a, b, c, d, 1)]
                               [4 * i + 2 := MixRow(a, b, c, d, 2)][4 * i + 3 := MixRow(a, b, c, d, 3)]
      ensures OnlyState()
    {
      hide Xor, XTime, MixRow, Get, State;
      ghost var s, a, b, c, d := State(), Get(i, 0), Get(i, 1), Get(i, 2), Get(i, 3);
      MixRowShortcut(a, b, c, d);
      // the first entry is saved: it is overwritten before the last row wraps round to it
      var t := Get(i, 0);
      var all := Xor(Xor(Xor(Get(i, 0), Get(i, 1)), Get(i, 2)), Get(i, 3));
      Put(i, 0, Xor(Get(i, 0), Xor(XTime(Xor(Get(i, 0), Get(i, 1))), all)));
      ghost var s1 := s[4 * i := MixRow(a, b, c, d, 0)];
      assert State() == s1 && Get(i, 1) == b && Get(i, 2) == c && Get(i, 3) == d;
      Put(i, 1, Xor(Get(i, 1), Xor(XTime(Xor(Get(i, 1), Get(i, 2))), all)));
      ghost var s2 := s1[4 * i + 1 := MixRow(a, b, c, d, 1)];
      assert State() == s2 && Get(i, 2) == c && Get(i, 3) == d;
      Put(i, 2, Xor(Get(i, 2), Xor(XTime(Xor(Get(i, 2), Get(i, 3))), all)));
      ghost var s3 := s2[4 * i + 2 := MixRow(a, b, c, d, 2)];
      assert State() == s3 && Get(i, 3) == d;
      Put(i, 3, Xor(Get(i, 3), Xor(XTime(Xor(Get(i, 3), t)), all)));
    }

    method MixColumns()
      requires Valid()
      modifies state
      ensures State() == AesBlock.MixColumns(old(State()))
      ensures OnlyState()
    {
      hide MixRow, AesBlock.MixColumns, FirstFrom;
      ghost var before := State();
      ghost var after := AesBlock.MixColumns(before);
      FirstFromStep(before, after, 0);
      for i := 0 to 4
        invariant State() == FirstFrom(before, after, 4 * i)
        invariant OnlyState()
      {
        MixColumnStep(before, i);
        MixColumn(i);
      }
    }

    method InvMixColumn(i: nat)
      requires Valid() && i < 4
      modifies state
      ensures var a, b, c, d := old(Get(i, 0)), old(Get(i, 1)), old(Get(i, 2)), old(Get(i, 3));
        State() == old(State())[4 * i := InvMixRow(a, b, c, d, 0)][4 * i + 1 := InvMixRow(a, b, c, d, 1)]
                               [4 * i + 2 := InvMixRow(a, b, c, d, 2)][4 * i + 3 := InvMixRow(a, b, c, d, 3)]
      ensures OnlyState()
    {
      hide Xor, Multiply, InvMixRow, Get, State;
      var a, b, c, d := Get(i, 0), Get(i, 1), Get(i, 2), Get(i, 3);
      InvMixRowMultiplied(a, b, c, d);
      Put(i, 0, Xor(Xor(Xor(Multiply(a, 0x0e), Multiply(b, 0x0b)), Multiply(c, 0x0d)), Multiply(d, 0x09)));
      Put(i, 1, Xor(Xor(Xor(Multiply(a, 0x09), Multiply(b, 0x0e)), Multiply(c, 0x0b)), Multiply(d, 0x0d)));
      Put(i, 2, Xor(Xor(Xor(Multiply(a, 0x0d), Multiply(b, 0x09)), Multiply(c, 0x0e)), Multiply(d, 0x0b)));
      Put(i, 3, Xor(Xor(Xor(Multiply(a, 0x0b), Multiply(b, 0x0d)), Multiply(c, 0x09)), Multiply(d, 0x0e)));
    }

    method InvMixColumns()
      requires Valid()
      modifies state
      ensures State() == AesBlock.InvMixColumns(old(State()))
      ensures OnlyState()
    {
      hide InvMixRow, AesBlock.InvMixColumns, FirstFrom;
      ghost var before := State();
      ghost var after := AesBlock.InvMixColumns(before);
      FirstFromStep(before, after, 0);
      for i := 0 to 4
        invariant State() == FirstFrom(before, after, 4 * i)
        invariant OnlyState()
      {
        InvMixColumnStep(before, i);
        InvMixColumn(i);
      }
    }

    method Cipher()
      requires Valid()
      modifies state
      ensures State() == AesBlock.Cipher(old(State()), Keys())
      ensures OnlyState()
    {
      hide AesBlock.AddRoundKey, AesBlock.SubBytes, AesBlock.ShiftRows, AesBlock.MixColumns;
      ghost var before := State();
      ghost var w := Keys();
      AddRoundKey(0);
      var round := 1;
      while round < ROUNDS
        invariant 1 <= round <= ROUNDS
        invariant State() == AfterRounds(before, w, round - 1) && Keys() == w
        invariant OnlyState()
      {
        SubBytes();
        ShiftRows();
        MixColumns();
        AddRoundKey(round);
        round := round + 1;
      }
      SubBytes();
      ShiftRows();
      AddRoundKey(ROUNDS);
    }

    method InvCipher()
      requires Valid()
      modifies state
      ensures State() == AesBlock.InvCipher(old(State()), Keys())
      ensures OnlyState()
    {
      hide AesBlock.AddRoundKey, AesBlock.InvSubBytes, AesBlock.InvShiftRows, AesBlock.InvMixColumns;
      ghost var before := State();
      ghost var w := Keys();
      AddRoundKey(ROUNDS);
      var round := ROUNDS - 1;
      while round > 0
        invariant 0 <= round < ROUNDS
        invariant State() == DownToRound(before, w, round) && Keys() == w
        invariant OnlyState()
      {
        InvShiftRows();
        InvSubBytes();
        AddRoundKey(round);
        InvMixColumns();
        round := round - 1;
      }
      InvShiftRows();
      InvSubBytes();
      AddRoundKey(0);
    }

    ghost predicate WordsDone(key: Block, i: nat)
      requires Valid() && i <= 44
      reads this, roundKey
    {
      forall n | 0 <= n < i :: WordHeld(key, n)
    }

    ghost predicate WordHeld(key: Block, n: nat)
      requires Valid() && n < 44
      reads this, roundKey
    {
      && roundKey[4 * n] == ScheduleWord(key, n)[0]
      && roundKey[4 * n + 1] == ScheduleWord(key, n)[1]
      && roundKey[4 * n + 2] == ScheduleWord(key, n)[2]
      && roundKey[4 * n + 3] == ScheduleWord(key, n)[3]
    }

    /** Appends one word to the words already held. */
    method PutWord(ghost key: Block, i: nat, a0: bv8, a1: bv8, a2: bv8, a3: bv8)
      requires Valid() && i < 44 && WordsDone(key, i)
      requires ScheduleWord(key, i) == [a0, a1, a2, a3]
      modifies roundKey
      ensures WordsDone(key, i + 1)
    {
      hide ScheduleWord;
      roundKey[4 * i] := a0;
      roundKey[4 * i + 1] := a1;
      roundKey[4 * i + 2] := a2;
      roundKey[4 * i + 3] := a3;
      assert WordHeld(key, i);
      forall n | 0 <= n < i
        ensures WordHeld(key, n)
      {
        assert old(WordHeld(key, n));
      }
    }

    /** The word after the words already held. */
    method NextWord(ghost key: Block, i: nat) returns (a0: bv8, a1: bv8, a2: bv8, a3: bv8)
      requires Valid() && 4 <= i < 44 && WordsDone(key, i)
      ensures ScheduleWord(key, i) == [a0, a1, a2, a3]
    {
      hide SBox, Xor, Rcon, ScheduleWord, Engine.WordsDone;
      HeldWord(key, i, i - 1);
      HeldWord(key, i, i - 4);
      ScheduleStep(key, i);
      a0, a1, a2, a3 := roundKey[4 * i - 4], roundKey[4 * i - 3], roundKey[4 * i - 2], roundKey[4 * i - 1];
      if i % 4 == 0 {
        a0, a1, a2, a3 := a1, a2, a3, a0;
        a0, a1, a2, a3 := SBox(a0), SBox(a1), SBox(a2), SBox(a3);
        a0 := Xor(a0, Rcon(i / 4));
      }
      a0, a1, a2, a3 := Xor(roundKey[4 * i - 16], a0), Xor(roundKey[4 * i - 15], a1),
                        Xor(roundKey[4 * i - 14], a2), Xor(roundKey[4 * i - 13], a3);
    }

    /** Fills the schedule array from a 16-byte key. */
    method KeyExpansion(key: array<bv8>)
      requires Valid() && key.Length >= 16 && key != roundKey
      modifies roundKey
      ensures Keys() == KeySchedule(key[..16])
    {
      hide SBox, Xor, Rcon, KeySchedule, Engine.WordsDone;
      ghost var k0: Block := key[..16];
      assert WordsDone(k0, 0) by { NoWords(k0); }
      var i := 0;
      while i < 4
        invariant 0 <= i <= 4
        invariant WordsDone(k0, i)
        invariant key[..16] == k0
      {
        assert k0[4 * i..4 * i + 4] == [key[4 * i], key[4 * i + 1], key[4 * i + 2], key[4 * i + 3]];
        PutWord(k0, i, key[4 * i], key[4 * i + 1], key[4 * i + 2], key[4 * i + 3]);
        i := i + 1;
      }
      while i < 44
        invariant 4 <= i <= 44
        invariant WordsDone(k0, i)
        invariant key[..16] == k0
      {
        var a0, a1, a2, a3 := NextWord(k0, i);
        PutWord(k0, i, a0, a1, a2, a3);
        i := i + 1;
      }
      FromWords(k0);
    }

    lemma NoWords(key: Block)
      requires Valid()
      ensures WordsDone(key, 0)
    {
    }

    lemma HeldWord(key: Block, i: nat, n: nat)
      requires Valid() && n < i <= 44 && WordsDone(key, i)
      ensures ScheduleWord(key, n) == [roundKey[4 * n], roundKey[4 * n + 1], roundKey[4 * n + 2], roundKey[4 * n + 3]]
    {
      hide ScheduleWord;
      assert WordHeld(key, n);
    }

    lemma FromWords(key: Block)
      requires Valid() && WordsDone(key, 44)
      ensures Keys() == KeySchedule(key)
    {
      hide ScheduleWord;
      forall k | 0 <= k < 176
        ensures roundKey[k] == KeySchedule(key)[k]
      {
        assert WordHeld(key, k / 4);
      }
    }
  }
}
