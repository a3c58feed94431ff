/**
 The 32-bit cyclic redundancy check over a firmware image, one bit at a time from the low end.
 */
module FirmwareCrc {

  function Xor(a: bv32, b: bv32): bv32 {
    a ^ b
  }

  function Complement(a: bv32): bv32 {
    !a
  }

  predicate Odd(s: bv32) {
    s & 1 == 1
  }

  function Half(s: bv32): bv32 {
    s >> 1
  }

  /** Adds the polynomial the firmware divides by. */
  function Divisor(s: bv32): bv32 {
    s ^ 0xEDB8_8340
  }

  /** One step of the register: shift out the low bit, and subtract the polynomial if it was set. */
  function BitStep(s: bv32): bv32 {
    if Odd(s) then Divisor(Half(s)) else Half(s)
  }

  function Steps(s: bv32, n: nat): bv32
    decreases n
  {
    if n == 0 then s else Steps(BitStep(s), n - 1)
  }

  function ByteStep(s: bv32, b: bv8): bv32 {
    Steps(Xor(s, b as bv32), 8)
  }

  /** The register after a message. */
  function Register(s: bv32, m: seq<bv8>): bv32
    decreases |m|
  {
    if m == [] then s else Register(ByteStep(s, m[0]), m[1..])
  }

  function Crc(m: seq<bv8>): bv32 {
    Complement(Register(0xFFFF_FFFF, m))
  }

  // ---- the step is a bijection ----

  function Double(t: bv32): bv32 {
    t << 1
  }

  predicate High(t: bv32) {
    t & 0x8000_0000 != 0
  }

  function WithOne(t: bv32): bv32 {
    t | 1
  }

  function BitBack(t: bv32): bv32 {
    if High(t) then WithOne(Double(Divisor(t))) else Double(t)
  }

  lemma HalfNotHigh(s: bv32)
    ensures !High(Half(s)) && High(Divisor(Half(s)))
  {
  }

  lemma DivisorTwice(s: bv32)
    ensures Divisor(Divisor(s)) == s
  {
  }

  lemma OddBack(s: bv32)
    requires Odd(s)
    ensures WithOne(Double(Half(s))) == s
  {
  }

  lemma EvenBack(s: bv32)
    requires !Odd(s)
    ensures Double(Half(s)) == s
  {
  }

  lemma BackUndoesStep(s: bv32)
    ensures BitBack(BitStep(s)) == s
  {
    hide Odd, Half, Divisor, Double, High, WithOne;
    HalfNotHigh(s);
    if Odd(s) {
      DivisorTwice(Half(s));
      OddBack(s);
    } else {
      EvenBack(s);
    }
  }

  lemma DoubleForward(t: bv32)
    ensures !Odd(Double(t)) && Odd(WithOne(Double(t)))
  {
  }

  lemma HalfOfDouble(t: bv32)
    requires !High(t)
    ensures Half(Double(t)) == t && Half(WithOne(Double(t))) == t
  {
  }

  lemma DivisorLowers(t: bv32)
    requires High(t)
    ensures !High(Divisor(t))
  {
  }

  lemma StepUndoesBack(t: bv32)
    ensures BitStep(BitBack(t)) == t
  {
    hide Odd, Half, Divisor, Double, High, WithOne;
    if High(t) {
      DivisorLowers(t);
      DoubleForward(Divisor(t));
      HalfOfDouble(Divisor(t));
      DivisorTwice(t);
    } else {
      DoubleForward(t);
      HalfOfDouble(t);
    }
  }

  /** Every register value is reached by exactly one step. */
  lemma BitStepBijective(s: bv32)
    ensures BitBack(BitStep(s)) == s
    ensures BitStep(BitBack(s)) == s
  {
    hide BitStep, BitBack;
    BackUndoesStep(s);
    StepUndoesBack(s);
  }

  lemma {:induction false} StepsInjective(s: bv32, t: bv32, n: nat)
    requires Steps(s, n) == Steps(t, n)
    ensures s == t
    decreases n
  {
    hide BitStep, BitBack;
    if n > 0 {
      StepsInjective(BitStep(s), BitStep(t), n - 1);
      BitStepBijective(s);
      BitStepBijective(t);
    }
  }

  lemma XorComm(a: bv32, b: bv32)
    ensures Xor(a, b) == Xor(b, a)
  {
  }

  lemma XorCancels(a: bv32, b: bv32)
    ensures Xor(Xor(a, b), b) == a
  {
  }

  lemma {:induction false} RegisterInjective(s: bv32, t: bv32, m: seq<bv8>)
    requires Register(s, m) == Register(t, m)
    ensures s == t
    decreases |m|
  {
    hide Xor, Steps;
    if m != [] {
      RegisterInjective(ByteStep(s, m[0]), ByteStep(t, m[0]), m[1..]);
      StepsInjective(Xor(s, m[0] as bv32), Xor(t, m[0] as bv32), 8);
      XorCancels(s, m[0] as bv32);
      XorCancels(t, m[0] as bv32);
    }
  }

  // ---- the step is linear ----

  lemma OddOfXor(a: bv32, b: bv32)
    ensures Odd(Xor(a, b)) <==> Odd(a) != Odd(b)
  {
  }

  lemma HalfOfXor(a: bv32, b: bv32)
    ensures Half(Xor(a, b)) == Xor(Half(a), Half(b))
  {
  }

  lemma DivisorOfXor(a: bv32, b: bv32)
    ensures Divisor(Xor(a, b)) == Xor(Divisor(a), b)
  {
  }

  lemma BitStepLinear(a: bv32, b: bv32)
    ensures BitStep(Xor(a, b)) == Xor(BitStep(a), BitStep(b))
  {
    hide Odd, Half, Divisor, Xor;
    OddOfXor(a, b);
    HalfOfXor(a, b);
    DivisorOfXor(Half(a), Half(b));
    DivisorOfXor(Half(b), Half(a));
    DivisorOfXor(Half(b), Divisor(Half(a)));
    XorComm(Half(a), Half(b));
    XorComm(Half(a), Divisor(Half(b)));
    XorComm(Divisor(Half(a)), Divisor(Half(b)));
    XorComm(Half(b), Divisor(Half(a)));
    DivisorTwice(Xor(Half(a), Half(b)));
  }

  lemma {:induction false} StepsLinear(a: bv32, b: bv32, n: nat)
    ensures Steps(Xor(a, b), n) == Xor(Steps(a, n), Steps(b, n))
    decreases n
  {
    hide BitStep, Xor;
    if n > 0 {
      BitStepLinear(a, b);
      StepsLinear(BitStep(a), BitStep(b), n - 1);
    }
  }

  /** The top `n` bits are clear, for `n` up to 8. */
  predicate TopClear(y: bv32, n: nat) {
    if n == 0 then true else if n == 1 then y & 0x8000_0000 == 0 else if n == 2 then y & 0xC000_0000 == 0
    else if n == 3 then y & 0xE000_0000 == 0 else if n == 4 then y & 0xF000_0000 == 0 else if n == 5 then y & 0xF800_0000 == 0
    else if n == 6 then y & 0xFC00_0000 == 0 else if n == 7 then y & 0xFE00_0000 == 0 else y & 0xFF00_0000 == 0
  }

  lemma MaskShifts(y: bv32)
    ensures y & 0xC000_0000 == 0 ==> (y << 1) & 0x8000_0000 == 0 && y & 0x8000_0000 == 0
    ensures y & 0xE000_0000 == 0 ==> (y << 1) & 0xC000_0000 == 0 && y & 0x8000_0000 == 0
    ensures y & 0xF000_0000 == 0 ==> (y << 1) & 0xE000_0000 == 0 && y & 0x8000_0000 == 0
    ensures y & 0xF800_0000 == 0 ==> (y << 1) & 0xF000_0000 == 0 && y & 0x8000_0000 == 0
    ensures y & 0xFC00_0000 == 0 ==> (y << 1) & 0xF800_0000 == 0 && y & 0x8000_0000 == 0
    ensures y & 0xFE00_0000 == 0 ==> (y << 1) & 0xFC00_0000 == 0 && y & 0x8000_0000 == 0
    ensures y & 0xFF00_0000 == 0 ==> (y << 1) & 0xFE00_0000 == 0 && y & 0x8000_0000 == 0
  {
  }

  lemma DoubleClear(y: bv32, n: nat)
    requires 0 < n <= 8 && TopClear(y, n)
    ensures !High(y) && TopClear(Double(y), n - 1)
  {
    MaskShifts(y);
  }

  function Doubles(y: bv32, n: nat): bv32
    decreases n
  {
    if n == 0 then y else Doubles(Double(y), n - 1)
  }

  lemma {:induction false} DoublesDown(y: bv32, n: nat)
    requires n <= 8 && TopClear(y, n)
    ensures Steps(Doubles(y, n), n) == y
    decreases n
  {
    hide Odd, Half, Divisor, Double, High, TopClear;
    if n > 0 {
      DoubleClear(y, n);
      DoublesDown(Double(y), n - 1);
      StepsAdd(Doubles(y, n), n - 1, 1);
      DoubleForward(y);
      HalfOfDouble(y);
      assert Steps(Double(y), 1) == BitStep(Double(y));
    }
  }

  /** A register whose top byte is clear, as it is after three bytes or fewer. */
  predicate Low(y: bv32) {
    TopClear(y, 8)
  }

  function Up(y: bv32): bv32 {
    y << 8
  }

  lemma UpIsDoubles(y: bv32)
    ensures y << 8 == (((((((y << 1) << 1) << 1) << 1) << 1) << 1) << 1) << 1
  {
  }

  lemma EightDoubles(y: bv32)
    ensures Doubles(y, 8) == Double(Double(Double(Double(Double(Double(Double(Double(y))))))))
  {
    hide Double;
    assert Doubles(y, 8) == Doubles(Double(Double(Double(y))), 5);
    assert Doubles(Double(Double(Double(y))), 5) == Doubles(Double(Double(Double(Double(Double(Double(y)))))), 2);
  }

  /** Bits above the low byte take eight steps to come down to it. */
  lemma ShiftedDown(y: bv32)
    requires Low(y)
    ensures Steps(Up(y), 8) == y
  {
    hide BitStep, TopClear, Up, Double;
    DoublesDown(y, 8);
    UpIs(y);
  }

  lemma UpIs(y: bv32)
    ensures Up(y) == Doubles(y, 8)
  {
    hide Doubles;
    UpIsDoubles(y);
    EightDoubles(y);
  }

  // ---- messages of up to four bytes as one word ----

  function Word(m: seq<bv8>): bv32 {
    if m == [] then 0 else Joined(m[0], Word(m[1..]))
  }

  function Joined(b: bv8, rest: bv32): bv32 {
    (b as bv32) ^ (rest << 8)
  }

  /** A message of `n` bytes, at most three, cannot reach the bits above them. */
  predicate Fits(w: bv32, n: nat) {
    if n == 0 then w == 0 else if n == 1 then BelowOne(w) else if n == 2 then BelowTwo(w) else BelowThree(w)
  }

  predicate BelowOne(w: bv32) {
    w & 0xFFFF_FF00 == 0
  }

  predicate BelowTwo(w: bv32) {
    w & 0xFFFF_0000 == 0
  }

  predicate BelowThree(w: bv32) {
    w & 0xFF00_0000 == 0
  }

  lemma FitsIsLow(w: bv32, n: nat)
    requires Fits(w, n)
    ensures Low(w)
  {
    MaskedLow(w);
  }

  lemma MaskedLow(w: bv32)
    ensures w == 0 || w & 0xFFFF_FF00 == 0 || w & 0xFFFF_0000 == 0 ==> w & 0xFF00_0000 == 0
  {
  }

  lemma JoinedZero(b: bv8)
    ensures BelowOne(Joined(b, 0))
  {
  }

  lemma JoinedOne(b: bv8, w: bv32)
    requires BelowOne(w)
    ensures BelowTwo(Joined(b, w))
  {
  }

  lemma JoinedTwo(b: bv8, w: bv32)
    requires BelowTwo(w)
    ensures BelowThree(Joined(b, w))
  {
  }

  lemma JoinedFits(b: bv8, w: bv32, n: nat)
    requires n < 3 && Fits(w, n)
    ensures Fits(Joined(b, w), n + 1)
  {
    hide Joined, BelowOne, BelowTwo, BelowThree;
    if n == 0 { JoinedZero(b); } else if n == 1 { JoinedOne(b, w); } else { JoinedTwo(b, w); }
  }

  lemma {:induction false} WordFits(m: seq<bv8>)
    requires |m| <= 3
    ensures Fits(Word(m), |m|)
    decreases |m|
  {
    hide Joined, Fits;
    if m == [] {
      NothingFits();
    } else {
      WordFits(m[1..]);
      JoinedFits(m[0], Word(m[1..]), |m| - 1);
    }
  }

  lemma NothingFits()
    ensures Fits(0, 0)
  {
  }

  function LowByte(w: bv32): bv8 {
    (w & 0xFF) as bv8
  }

  function Rest(w: bv32): bv32 {
    w >> 8
  }

  lemma LowByteOfJoined(b: bv8, rest: bv32)
    ensures LowByte(Joined(b, rest)) == b
  {
  }

  lemma RestOfJoined(b: bv8, rest: bv32)
    requires BelowThree(rest)
    ensures Rest(Joined(b, rest)) == rest
  {
  }

  lemma JoinedInjective(b: bv8, rest: bv32, c: bv8, tail: bv32)
    requires Low(rest) && Low(tail) && Joined(b, rest) == Joined(c, tail)
    ensures b == c && rest == tail
  {
    assert BelowThree(rest) && BelowThree(tail);
    hide Joined, LowByte, Rest, TopClear, BelowThree;
    LowByteOfJoined(b, rest);
    LowByteOfJoined(c, tail);
    RestOfJoined(b, rest);
    RestOfJoined(c, tail);
  }

  lemma {:induction false} WordInjective(m: seq<bv8>, k: seq<bv8>)
    requires |m| == |k| <= 4 && Word(m) == Word(k)
    ensures m == k
    decreases |m|
  {
    hide Joined, Fits, Low;
    if m != [] {
      WordFits(m[1..]);
      WordFits(k[1..]);
      FitsIsLow(Word(m[1..]), |m| - 1);
      FitsIsLow(Word(k[1..]), |m| - 1);
      JoinedInjective(m[0], Word(m[1..]), k[0], Word(k[1..]));
      WordInjective(m[1..], k[1..]);
      assert m == [m[0]] + m[1..] && k == [k[0]] + k[1..];
    }
  }

  lemma {:induction false} StepsAdd(s: bv32, n: nat, k: nat)
    ensures Steps(Steps(s, n), k) == Steps(s, n + k)
    decreases n
  {
    hide BitStep;
    if n > 0 {
      StepsAdd(BitStep(s), n - 1, k);
    }
  }

  /** A message of up to four bytes acts on the register as one word taken in at once. */
  lemma {:induction false} RegisterOfWord(s: bv32, m: seq<bv8>)
    requires |m| <= 4
    ensures Register(s, m) == Steps(Xor(s, Word(m)), 8 * |m|)
    decreases |m|
  {
    hide Xor, Joined, ByteStep, BitStep, Fits, Low;
    if m == [] {
      XorNothing(s);
    } else {
      var b, r := m[0], m[1..];
      RegisterOfWord(ByteStep(s, b), r);
      WordFits(r);
      FitsIsLow(Word(r), |r|);
      TakenIn(s, b, Word(r));
      StepsAdd(Xor(s, Joined(b, Word(r))), 8, 8 * |r|);
      assert 8 + 8 * |r| == 8 * |m|;
    }
  }

  lemma XorNothing(s: bv32)
    ensures Xor(s, 0) == s
  {
  }

  lemma TakenIn(s: bv32, b: bv8, w: bv32)
    requires Low(w)
    ensures Xor(ByteStep(s, b), w) == Steps(Xor(s, Joined(b, w)), 8)
  {
    hide Steps, Xor, Joined, Low, Up;
    ShiftedDown(w);
    StepsLinear(Xor(s, b as bv32), Up(w), 8);
    JoinedIn(s, b, w);
  }

  lemma JoinedIn(s: bv32, b: bv8, w: bv32)
    ensures Xor(Xor(s, b as bv32), Up(w)) == Xor(s, Joined(b, w))
  {
    hide Xor, Joined, Up;
    JoinedIsXor(b, w);
    XorAssoc(s, b as bv32, Up(w));
  }

  lemma JoinedIsXor(b: bv8, w: bv32)
    ensures Joined(b, w) == Xor(b as bv32, Up(w))
  {
  }

  lemma XorAssoc(a: bv32, b: bv32, c: bv32)
    ensures Xor(Xor(a, b), c) == Xor(a, Xor(b, c))
  {
  }

  // ---- what the check detects ----

  lemma {:induction false} RegisterOfSum(s: bv32, m: seq<bv8>, k: seq<bv8>)
    ensures Register(s, m + k) == Register(Register(s, m), k)
    decreases |m|
  {
    hide ByteStep;
    if m == [] {
      assert m + k == k;
    } else {
      assert (m + k)[1..] == m[1..] + k;
      RegisterOfSum(ByteStep(s, m[0]), m[1..], k);
    }
  }

  lemma WindowMoves(s: bv32, m: seq<bv8>, k: seq<bv8>)
    requires |m| == |k| <= 4 && Register(s, m) == Register(s, k)
    ensures m == k
  {
    hide Xor, Steps, Register, Word;
    RegisterOfWord(s, m);
    RegisterOfWord(s, k);
    StepsInjective(Xor(s, Word(m)), Xor(s, Word(k)), 8 * |m|);
    XorComm(s, Word(m));
    XorComm(s, Word(k));
    XorCancels(Word(m), s);
    XorCancels(Word(k), s);
    WordInjective(m, k);
  }

  lemma RegisterOfThree(s: bv32, a: seq<bv8>, b: seq<bv8>, c: seq<bv8>)
    ensures Register(s, a + b + c) == Register(Register(Register(s, a), b), c)
  {
    hide Register;
    RegisterOfSum(s, a + b, c);
    RegisterOfSum(s, a, b);
  }

  /**
   Two images of equal length that differ only inside one window of at most four consecutive bytes never share a check
   value, whatever precedes and follows the window.
   */
  lemma WindowDetected(before: seq<bv8>, m: seq<bv8>, k: seq<bv8>, after: seq<bv8>)
    requires |m| == |k| <= 4 && m != k
    ensures Crc(before + m + after) != Crc(before + k + after)
  {
    hide Register, Crc;
    if Crc(before + m + after) == Crc(before + k + after) {
      CrcIsRegister(before + m + after, before + k + after);
      var start: bv32 := 0xFFFF_FFFF;
      var s := Register(start, before);
      RegisterOfThree(start, before, m, after);
      RegisterOfThree(start, before, k, after);
      RegisterInjective(Register(s, m), Register(s, k), after);
      WindowMoves(s, m, k);
    }
  }

  lemma CrcIsRegister(m: seq<bv8>, k: seq<bv8>)
    requires Crc(m) == Crc(k)
    ensures Register(0xFFFF_FFFF, m) == Register(0xFFFF_FFFF, k)
  {
    hide Register, Complement;
    ComplementTwice(Register(0xFFFF_FFFF, m));
    ComplementTwice(Register(0xFFFF_FFFF, k));
  }

  lemma ComplementTwice(a: bv32)
    ensures Complement(Complement(a)) == a
  {
  }

  // ---- the polynomial ----

  /**
   The bit that leaves the register last brings the polynomial in unshifted. As the step is linear, this fixes it for
   every register.
   */
  lemma PolynomialShows()
    ensures Register(0, [0x80]) == 0xEDB8_8340
  {
    ByteAlone();
    assert Register(0, [0x80]) == Register(ByteStep(0, 0x80), []);
  }

  lemma ByteAlone()
    ensures ByteStep(0, 0x80) == 0xEDB8_8340
  {
    var s: bv32 := 0x80;
    assert Xor(0, 0x80) == s;
    SevenHalves();
    StepsAdd(s, 7, 1);
    assert Steps(1, 1) == BitStep(1) == 0xEDB8_8340;
  }

  lemma SevenHalves()
    ensures Steps(0x80, 7) == 1
  {
    assert Steps(0x80, 7) == Steps(0x40, 6) == Steps(0x20, 5) == Steps(0x10, 4);
    assert Steps(0x10, 4) == Steps(0x08, 3) == Steps(0x04, 2) == Steps(0x02, 1) == Steps(1, 0);
  }

  // ---- the check value carried behind the message ----

  /** A word as four bytes, low byte first. */
  function Little(v: bv32): (b: seq<bv8>)
    ensures |b| == 4
  {
    [LowByte(v), LowByte(Rest(v)), LowByte(Rest(Rest(v))), LowByte(Rest(Rest(Rest(v))))]
  }

  lemma WordOfFour(b: seq<bv8>)
    requires |b| == 4
    ensures Word(b) == Joined(b[0], Joined(b[1], Joined(b[2], Joined(b[3], 0))))
  {
    hide Joined;
    assert b == [b[0]] + [b[1]] + [b[2]] + [b[3]];
    assert Word(b) == Joined(b[0], Word(b[1..])) && b[1..] == [b[1], b[2], b[3]];
    assert Word(b[1..]) == Joined(b[1], Word([b[2], b[3]]));
    assert Word([b[2], b[3]]) == Joined(b[2], Word([b[3]]));
    assert Word([b[3]]) == Joined(b[3], Word([]));
  }

  lemma JoinedAgain(v: bv32)
    ensures v == Joined(LowByte(v), Rest(v))
    ensures Rest(Rest(Rest(Rest(v)))) == 0
  {
  }

  lemma WordOfLittle(v: bv32)
    ensures Word(Little(v)) == v
  {
    hide Joined, LowByte, Rest;
    WordOfFour(Little(v));
    JoinedAgain(v);
    JoinedAgain(Rest(v));
    JoinedAgain(Rest(Rest(v)));
    JoinedAgain(Rest(Rest(Rest(v))));
  }

  lemma XorComplement(r: bv32)
    ensures Xor(r, Complement(r)) == 0xFFFF_FFFF
  {
  }

  lemma XorZero()
    ensures Xor(0xFFFF_FFFF, Word([0, 0, 0, 0])) == 0xFFFF_FFFF
  {
    WordOfFour([0, 0, 0, 0]);
  }

  /** Behind its check value, low byte first, every message leaves the same register: that of four zero bytes. */
  lemma Residue(m: seq<bv8>)
    ensures Register(0xFFFF_FFFF, m + Little(Crc(m))) == Register(0xFFFF_FFFF, [0, 0, 0, 0])
  {
    hide Register, Steps, Xor, Complement, Word, Little;
    var r := Register(0xFFFF_FFFF, m);
    RegisterOfSum(0xFFFF_FFFF, m, Little(Crc(m)));
    RegisterOfWord(r, Little(Crc(m)));
    WordOfLittle(Crc(m));
    XorComplement(r);
    RegisterOfWord(0xFFFF_FFFF, [0, 0, 0, 0]);
    XorZero();
  }

  /** Four bytes behind a message leave that register exactly if they are its check value. */
  lemma ResidueExactly(m: seq<bv8>, c: seq<bv8>)
    requires |c| == 4
    ensures Register(0xFFFF_FFFF, m + c) == Register(0xFFFF_FFFF, [0, 0, 0, 0]) <==> c == Little(Crc(m))
  {
    hide Register, Crc, Little;
    Residue(m);
    if Register(0xFFFF_FFFF, m + c) == Register(0xFFFF_FFFF, [0, 0, 0, 0]) {
      RegisterOfSum(0xFFFF_FFFF, m, c);
      RegisterOfSum(0xFFFF_FFFF, m, Little(Crc(m)));
      WindowMoves(Register(0xFFFF_FFFF, m), c, Little(Crc(m)));
    }
  }
}
