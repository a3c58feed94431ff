/**
 Key expansion (section 5.2 of FIPS 197): the 44 words that the schedule array must hold.
 */
module AesKeySchedule {
  import opened AesTables
  import opened Gf256
  import opened AesBlock

  type Word = s: seq<bv8> | |s| == 4 witness [0, 0, 0, 0]

  /** The entries of the firmware's round-constant table that a 128-bit key reaches. */
  function Rcon(i: nat): bv8
    requires 1 <= i <= ROUNDS
  {
    [0x01, 0x02, 0x04, 0x08, 0x10, 0x20, 0x40, 0x80, 0x1b, 0x36][i - 1]
  }

  function XorWords(u: Word, v: Word): Word {
    [Xor(u[0], v[0]), Xor(u[1], v[1]), Xor(u[2], v[2]), Xor(u[3], v[3])]
  }

  function RotWord(u: Word): Word {
    [u[1], u[2], u[3], u[0]]
  }

  function SubWord(u: Word): Word {
    [SBox(u[0]), SBox(u[1]), SBox(u[2]), SBox(u[3])]
  }

  function ScheduleWord(key: Block, i: nat): Word
    requires i < 44
  {
    if i < 4 then
      key[4 * i..4 * i + 4]
    else
      var temp := ScheduleWord(key, i - 1);
      var temp := if i % 4 == 0 then XorWords(SubWord(RotWord(temp)), [Rcon(i / 4), 0, 0, 0]) else temp;
      XorWords(ScheduleWord(key, i - 4), temp)
  }

  function KeySchedule(key: Block): Schedule {
    seq(176, k requires 0 <= k < 176 => ScheduleWord(key, k / 4)[k % 4])
  }

  /** The step from the word before and the word four back, entry by entry. */
  lemma ScheduleStep(key: Block, i: nat)
    requires 4 <= i < 44
    ensures var u, v := ScheduleWord(key, i - 1), ScheduleWord(key, i - 4);
      ScheduleWord(key, i) ==
        if i % 4 == 0 then
          [Xor(v[0], Xor(SBox(u[1]), Rcon(i / 4))), Xor(v[1], SBox(u[2])), Xor(v[2], SBox(u[3])), Xor(v[3], SBox(u[0]))]
        else
          [Xor(v[0], u[0]), Xor(v[1], u[1]), Xor(v[2], u[2]), Xor(v[3], u[3])]
  {
    hide SBox, Xor, Rcon;
    var u := ScheduleWord(key, i - 1);
    XorCancels(SBox(u[2]), 0);
    XorCancels(SBox(u[3]), 0);
    XorCancels(SBox(u[0]), 0);
  }

  /** x to the power i - 1 in the field, as the standard defines the round constants. */
  function PowerOfTwo(i: nat): bv8 {
    if i == 0 then 1 else GfMul(PowerOfTwo(i - 1), 2)
  }

  lemma {:induction false} RconIsPower(i: nat)
    requires 1 <= i <= ROUNDS
    ensures Rcon(i) == PowerOfTwo(i - 1)
  {
    if i > 1 {
      RconIsPower(i - 1);
      TimesTwo(Rcon(i - 1));
    }
  }
}
