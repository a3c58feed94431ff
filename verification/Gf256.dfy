/**
 Arithmetic in GF(2^8), the field of section 4 of FIPS 197, next to the
 shortcuts the firmware uses for it, and what the substitution tables mean
 in that field.
 */
module Gf256 {
  import opened AesTables

  function Xor(x: bv8, y: bv8): bv8 {
    x ^ y
  }

  // ---- the firmware's form ----

  function XTime(x: bv8): bv8 {
    (x << 1) ^ (((x >> 7) & 1) * 0x1b)
  }

  function Multiply(x: bv8, y: bv8): bv8 {
    ((y & 1) * x)
    ^ (((y >> 1) & 1) * XTime(x))
    ^ (((y >> 2) & 1) * XTime(XTime(x)))
    ^ (((y >> 3) & 1) * XTime(XTime(XTime(x))))
    ^ (((y >> 4) & 1) * XTime(XTime(XTime(XTime(x)))))
  }

  // ---- the field itself: polynomial product, then remainder by x^8 + x^4 + x^3 + x + 1 ----

  function When(bit: bv8, v: bv16): bv16 {
    if bit == 0 then 0 else v
  }

  function Carryless(a: bv8, b: bv8): bv16 {
    var w := a as bv16;
    When(b & 0x01, w) ^ When(b & 0x02, w << 1) ^ When(b & 0x04, w << 2) ^ When(b & 0x08, w << 3)
    ^ When(b & 0x10, w << 4) ^ When(b & 0x20, w << 5) ^ When(b & 0x40, w << 6) ^ When(b & 0x80, w << 7)
  }

  function Fold(p: bv16, top: bv16, m: bv16): bv16 {
    if p & top == 0 then p else p ^ m
  }

  function Remainder(p: bv16): bv16 {
    var p := Fold(p, 0x4000, 0x46c0);
    var p := Fold(p, 0x2000, 0x2360);
    var p := Fold(p, 0x1000, 0x11b0);
    var p := Fold(p, 0x0800, 0x08d8);
    var p := Fold(p, 0x0400, 0x046c);
    var p := Fold(p, 0x0200, 0x0236);
    Fold(p, 0x0100, 0x011b)
  }

  function GfMul(a: bv8, b: bv8): bv8 {
    (Remainder(Carryless(a, b)) & 0xff) as bv8
  }

  // ---- the shortcuts are the field's product ----

  lemma TimesTwo(x: bv8)
    ensures GfMul(x, 2) == XTime(x)
  {
  }

  lemma TimesThree(x: bv8)
    ensures GfMul(x, 3) == Xor(XTime(x), x)
  {
  }

  lemma TimesNine(x: bv8)
    ensures Multiply(x, 0x09) == GfMul(x, 0x09) == Xor(XTime(XTime(XTime(x))), x)
  {
  }

  lemma TimesEleven(x: bv8)
    ensures Multiply(x, 0x0b) == GfMul(x, 0x0b) == Xor(Xor(XTime(XTime(XTime(x))), XTime(x)), x)
  {
  }

  lemma TimesThirteen(x: bv8)
    ensures Multiply(x, 0x0d) == GfMul(x, 0x0d) == Xor(Xor(XTime(XTime(XTime(x))), XTime(XTime(x))), x)
  {
  }

  lemma TimesFourteen(x: bv8)
    ensures Multiply(x, 0x0e) == GfMul(x, 0x0e)
         == Xor(Xor(XTime(XTime(XTime(x))), XTime(XTime(x))), XTime(x))
  {
  }

  // ---- addition in the field is xor; doubling and the four products are additive ----

  lemma XorComm(x: bv8, y: bv8)
    ensures Xor(x, y) == Xor(y, x)
  {
  }

  lemma XorAssoc(x: bv8, y: bv8, z: bv8)
    ensures Xor(Xor(x, y), z) == Xor(x, Xor(y, z))
  {
  }

  lemma XorCancels(x: bv8, y: bv8)
    ensures Xor(Xor(x, y), y) == x
    ensures Xor(x, 0) == x
  {
  }

  lemma XorSwap(w: bv8, x: bv8, y: bv8, z: bv8)
    ensures Xor(Xor(w, x), Xor(y, z)) == Xor(Xor(w, y), Xor(x, z))
  {
    hide Xor;
    XorAssoc(w, x, Xor(y, z));
    XorAssoc(x, y, z);
    XorComm(x, y);
    XorAssoc(y, x, z);
    XorAssoc(w, y, Xor(x, z));
  }

  lemma XTimeAdditive(x: bv8, y: bv8)
    ensures XTime(Xor(x, y)) == Xor(XTime(x), XTime(y))
  {
  }

  lemma CubeAdditive(x: bv8, y: bv8)
    ensures XTime(XTime(Xor(x, y))) == Xor(XTime(XTime(x)), XTime(XTime(y)))
    ensures XTime(XTime(XTime(Xor(x, y)))) == Xor(XTime(XTime(XTime(x))), XTime(XTime(XTime(y))))
  {
    hide Xor, XTime;
    XTimeAdditive(x, y);
    XTimeAdditive(XTime(x), XTime(y));
    XTimeAdditive(XTime(XTime(x)), XTime(XTime(y)));
  }

  lemma NineAdditive(x: bv8, y: bv8)
    ensures GfMul(Xor(x, y), 0x09) == Xor(GfMul(x, 0x09), GfMul(y, 0x09))
  {
    hide Xor, XTime, GfMul, Multiply;
    TimesNine(x);
    TimesNine(y);
    TimesNine(Xor(x, y));
    CubeAdditive(x, y);
    XorSwap(XTime(XTime(XTime(x))), XTime(XTime(XTime(y))), x, y);
  }

  lemma ElevenAdditive(x: bv8, y: bv8)
    ensures GfMul(Xor(x, y), 0x0b) == Xor(GfMul(x, 0x0b), GfMul(y, 0x0b))
  {
    hide Xor, XTime, GfMul, Multiply;
    TimesEleven(x);
    TimesEleven(y);
    TimesEleven(Xor(x, y));
    XTimeAdditive(x, y);
    CubeAdditive(x, y);
    XorSwap(XTime(XTime(XTime(x))), XTime(XTime(XTime(y))), XTime(x), XTime(y));
    XorSwap(Xor(XTime(XTime(XTime(x))), XTime(x)), Xor(XTime(XTime(XTime(y))), XTime(y)), x, y);
  }

  lemma ThirteenAdditive(x: bv8, y: bv8)
    ensures GfMul(Xor(x, y), 0x0d) == Xor(GfMul(x, 0x0d), GfMul(y, 0x0d))
  {
    hide Xor, XTime, GfMul, Multiply;
    TimesThirteen(x);
    TimesThirteen(y);
    TimesThirteen(Xor(x, y));
    CubeAdditive(x, y);
    XorSwap(XTime(XTime(XTime(x))), XTime(XTime(XTime(y))), XTime(XTime(x)), XTime(XTime(y)));
    XorSwap(Xor(XTime(XTime(XTime(x))), XTime(XTime(x))), Xor(XTime(XTime(XTime(y))), XTime(XTime(y))), x, y);
  }

  lemma FourteenAdditive(x: bv8, y: bv8)
    ensures GfMul(Xor(x, y), 0x0e) == Xor(GfMul(x, 0x0e), GfMul(y, 0x0e))
  {
    hide Xor, XTime, GfMul, Multiply;
    TimesFourteen(x);
    TimesFourteen(y);
    TimesFourteen(Xor(x, y));
    XTimeAdditive(x, y);
    CubeAdditive(x, y);
    XorSwap(XTime(XTime(XTime(x))), XTime(XTime(XTime(y))), XTime(XTime(x)), XTime(XTime(y)));
    XorSwap(Xor(XTime(XTime(XTime(x))), XTime(XTime(x))), Xor(XTime(XTime(XTime(y))), XTime(XTime(y))),
            XTime(x), XTime(y));
  }

  // ---- the S-box is the affine map of the multiplicative inverse (section 5.1.1) ----

  function Affine(b: bv8): bv8 {
    b ^ ((b << 1) | (b >> 7)) ^ ((b << 2) | (b >> 6)) ^ ((b << 3) | (b >> 5)) ^ ((b << 4) | (b >> 4)) ^ 0x63
  }

  function InvAffine(s: bv8): bv8 {
    ((s << 1) | (s >> 7)) ^ ((s << 3) | (s >> 5)) ^ ((s << 6) | (s >> 2)) ^ 0x05
  }

  lemma SBoxIsAffineOfInverse(x: bv8)
    ensures SBox(x) == Affine(InvAffine(SBox(x)))
    ensures if x == 0 then InvAffine(SBox(x)) == 0 else GfMul(x, InvAffine(SBox(x))) == 1
  {
    InvAffineUndone(SBox(x));
    hide *;
    if x < 0x40 {
      SBoxInverse0(x);
    } else if x < 0x80 {
      SBoxInverse1(x);
    } else if x < 0xc0 {
      SBoxInverse2(x);
    } else {
      SBoxInverse3(x);
    }
  }

  lemma InvAffineUndone(s: bv8)
    ensures Affine(InvAffine(s)) == s
  {
  }

  lemma SBoxInverse0(x: bv8)
    requires x < 0x40
    ensures if x == 0 then InvAffine(SBox(x)) == 0 else GfMul(x, InvAffine(SBox(x))) == 1
  {
  }

  lemma SBoxInverse1(x: bv8)
    requires 0x40 <= x && x < 0x80
    ensures if x == 0 then InvAffine(SBox(x)) == 0 else GfMul(x, InvAffine(SBox(x))) == 1
  {
  }

  lemma SBoxInverse2(x: bv8)
    requires 0x80 <= x && x < 0xc0
    ensures if x == 0 then InvAffine(SBox(x)) == 0 else GfMul(x, InvAffine(SBox(x))) == 1
  {
  }

  lemma SBoxInverse3(x: bv8)
    requires 0xc0 <= x
    ensures if x == 0 then InvAffine(SBox(x)) == 0 else GfMul(x, InvAffine(SBox(x))) == 1
  {
  }

  lemma RSBoxUndoesSBox(x: bv8)
    ensures RSBox(SBox(x)) == x
  {
  }

  lemma SBoxUndoesRSBox(x: bv8)
    ensures SBox(RSBox(x)) == x
  {
  }

  // ---- MixColumns (section 5.1.3) and InvMixColumns (section 5.3.3), one output byte at a time ----

  function Sum4(w: bv8, x: bv8, y: bv8, z: bv8): bv8 {
    Xor(Xor(w, x), Xor(y, z))
  }

  /** The output byte whose column entries, read downwards from its own row, are a, b, c, d. */
  function MixByte(a: bv8, b: bv8, c: bv8, d: bv8): bv8 {
    Sum4(GfMul(a, 0x02), GfMul(b, 0x03), c, d)
  }

  function InvMixByte(a: bv8, b: bv8, c: bv8, d: bv8): bv8 {
    Sum4(GfMul(a, 0x0e), GfMul(b, 0x0b), GfMul(c, 0x0d), GfMul(d, 0x09))
  }

  /** The firmware's form of one mixed byte: the xor of the column and a single doubling. */
  lemma MixByteShortcut(a: bv8, b: bv8, c: bv8, d: bv8)
    ensures Xor(a, Xor(XTime(Xor(a, b)), Xor(Xor(Xor(a, b), c), d))) == MixByte(a, b, c, d)
  {
    hide Xor, XTime, GfMul;
    TimesTwo(a);
    TimesThree(b);
    XTimeAdditive(a, b);
    XorRegroup(a, b, c, d, XTime(a), XTime(b));
  }

  lemma XorRegroup(a: bv8, b: bv8, c: bv8, d: bv8, ta: bv8, tb: bv8)
    ensures Xor(a, Xor(Xor(ta, tb), Xor(Xor(Xor(a, b), c), d))) == Sum4(ta, Xor(tb, b), c, d)
  {
    hide Xor;
    var t, u, v := Xor(ta, tb), Xor(a, b), Xor(c, d);
    XorAssoc(u, c, d);
    XorAssoc(a, t, Xor(u, v));
    XorComm(a, t);
    XorSwap(t, a, u, v);
    XorAssoc(a, u, v);
    XorAssoc(t, a, Xor(u, v));
    XorAssoc(a, a, b);
    XorComm(a, u);
    XorComm(a, b);
    XorCancels(b, a);
    XorAssoc(t, b, v);
    XorAssoc(ta, tb, b);
  }

  lemma Sum4Swap(w: bv8, x: bv8, y: bv8, z: bv8, w': bv8, x': bv8, y': bv8, z': bv8)
    ensures Xor(Sum4(w, x, y, z), Sum4(w', x', y', z')) == Sum4(Xor(w, w'), Xor(x, x'), Xor(y, y'), Xor(z, z'))
  {
    hide Xor;
    XorSwap(Xor(w, x), Xor(y, z), Xor(w', x'), Xor(y', z'));
    XorSwap(w, x, w', x');
    XorSwap(y, z, y', z');
  }

  /** Adding four rows of four gives what adding the four columns gives. */
  lemma Sum4Transpose(a1: bv8, b1: bv8, c1: bv8, d1: bv8, a2: bv8, b2: bv8, c2: bv8, d2: bv8,
                      a3: bv8, b3: bv8, c3: bv8, d3: bv8, a4: bv8, b4: bv8, c4: bv8, d4: bv8)
    ensures Sum4(Sum4(a1, b1, c1, d1), Sum4(a2, b2, c2, d2), Sum4(a3, b3, c3, d3), Sum4(a4, b4, c4, d4))
         == Sum4(Sum4(a1, a2, a3, a4), Sum4(b1, b2, b3, b4), Sum4(c1, c2, c3, c4), Sum4(d1, d2, d3, d4))
  {
    Sum4Swap(a1, b1, c1, d1, a2, b2, c2, d2);
    Sum4Swap(a3, b3, c3, d3, a4, b4, c4, d4);
    Sum4Swap(Xor(a1, a2), Xor(b1, b2), Xor(c1, c2), Xor(d1, d2), Xor(a3, a4), Xor(b3, b4), Xor(c3, c4), Xor(d3, d4));
    hide Xor;
  }

  lemma NineOfSum4(w: bv8, x: bv8, y: bv8, z: bv8)
    ensures GfMul(Sum4(w, x, y, z), 0x09) == Sum4(GfMul(w, 0x09), GfMul(x, 0x09), GfMul(y, 0x09), GfMul(z, 0x09))
  {
    hide Xor, GfMul;
    NineAdditive(Xor(w, x), Xor(y, z));
    NineAdditive(w, x);
    NineAdditive(y, z);
  }

  lemma ElevenOfSum4(w: bv8, x: bv8, y: bv8, z: bv8)
    ensures GfMul(Sum4(w, x, y, z), 0x0b) == Sum4(GfMul(w, 0x0b), GfMul(x, 0x0b), GfMul(y, 0x0b), GfMul(z, 0x0b))
  {
    hide Xor, GfMul;
    ElevenAdditive(Xor(w, x), Xor(y, z));
    ElevenAdditive(w, x);
    ElevenAdditive(y, z);
  }

  lemma ThirteenOfSum4(w: bv8, x: bv8, y: bv8, z: bv8)
    ensures GfMul(Sum4(w, x, y, z), 0x0d) == Sum4(GfMul(w, 0x0d), GfMul(x, 0x0d), GfMul(y, 0x0d), GfMul(z, 0x0d))
  {
    hide Xor, GfMul;
    ThirteenAdditive(Xor(w, x), Xor(y, z));
    ThirteenAdditive(w, x);
    ThirteenAdditive(y, z);
  }

  lemma FourteenOfSum4(w: bv8, x: bv8, y: bv8, z: bv8)
    ensures GfMul(Sum4(w, x, y, z), 0x0e) == Sum4(GfMul(w, 0x0e), GfMul(x, 0x0e), GfMul(y, 0x0e), GfMul(z, 0x0e))
  {
    hide Xor, GfMul;
    FourteenAdditive(Xor(w, x), Xor(y, z));
    FourteenAdditive(w, x);
    FourteenAdditive(y, z);
  }

  // The product of the two matrices, entry by entry: one on the diagonal, zero elsewhere. Every factor is a sum of
  // powers of two times the byte, and equal powers cancel.

  function Part(on: bool, p: bv8): bv8 {
    if on then p else 0
  }

  /** A sum of the first five doublings of a byte, from the fourth down to the byte itself. */
  function Powers(x: bv8, e4: bool, e3: bool, e2: bool, e1: bool, e0: bool): bv8 {
    var x2 := XTime(XTime(x));
    Xor(Sum4(Part(e4, XTime(XTime(x2))), Part(e3, XTime(x2)), Part(e2, x2), Part(e1, XTime(x))), Part(e0, x))
  }

  lemma PartsAdd(a: bool, b: bool, p: bv8)
    ensures Xor(Part(a, p), Part(b, p)) == Part(a != b, p)
  {
    hide Xor;
    XorCancels(0, p);
    XorCancels(p, 0);
    XorComm(0, p);
  }

  /** Sums of powers add up power by power. */
  lemma PowersAdd(x: bv8, a4: bool, a3: bool, a2: bool, a1: bool, a0: bool, b4: bool, b3: bool, b2: bool, b1: bool, b0: bool)
    ensures Xor(Powers(x, a4, a3, a2, a1, a0), Powers(x, b4, b3, b2, b1, b0))
         == Powers(x, a4 != b4, a3 != b3, a2 != b2, a1 != b1, a0 != b0)
  {
    hide Xor, XTime, Sum4, Part;
    var x1, x2, x3, x4 := XTime(x), XTime(XTime(x)), XTime(XTime(XTime(x))), XTime(XTime(XTime(XTime(x))));
    XorSwap(Sum4(Part(a4, x4), Part(a3, x3), Part(a2, x2), Part(a1, x1)), Part(a0, x),
            Sum4(Part(b4, x4), Part(b3, x3), Part(b2, x2), Part(b1, x1)), Part(b0, x));
    Sum4Swap(Part(a4, x4), Part(a3, x3), Part(a2, x2), Part(a1, x1), Part(b4, x4), Part(b3, x3), Part(b2, x2), Part(b1, x1));
    PartsAdd(a4, b4, x4);
    PartsAdd(a3, b3, x3);
    PartsAdd(a2, b2, x2);
    PartsAdd(a1, b1, x1);
    PartsAdd(a0, b0, x);
  }

  /** One power alone. */
  lemma PowerAlone(x: bv8)
    ensures Powers(x, true, false, false, false, false) == XTime(XTime(XTime(XTime(x))))
    ensures Powers(x, false, true, false, false, false) == XTime(XTime(XTime(x)))
    ensures Powers(x, false, false, true, false, false) == XTime(XTime(x))
    ensures Powers(x, false, false, false, true, false) == XTime(x)
    ensures Powers(x, false, false, false, false, true) == x
    ensures Powers(x, false, false, false, false, false) == 0
  {
    hide Xor, XTime;
    ZeroAdds(0);
    ZeroAdds(x);
    ZeroAdds(XTime(x));
    ZeroAdds(XTime(XTime(x)));
    ZeroAdds(XTime(XTime(XTime(x))));
    ZeroAdds(XTime(XTime(XTime(XTime(x)))));
  }

  lemma ZeroAdds(x: bv8)
    ensures Xor(x, 0) == x && Xor(0, x) == x
  {
    hide Xor;
    XorCancels(x, 0);
    XorComm(x, 0);
  }

  lemma NinePowers(x: bv8)
    ensures GfMul(x, 0x09) == Powers(x, false, true, false, false, true)
    ensures GfMul(GfMul(x, 0x02), 0x09) == Powers(x, true, false, false, true, false)
    ensures GfMul(GfMul(x, 0x03), 0x09) == Powers(x, true, true, false, true, true)
  {
    hide Xor, XTime, GfMul, Multiply, Powers;
    TimesTwo(x); TimesThree(x); TimesNine(x); TimesNine(XTime(x));
    NineAdditive(XTime(x), x);
    PowerAlone(x);
    PowersAdd(x, false, true, false, false, false, false, false, false, false, true);
    PowersAdd(x, true, false, false, false, false, false, false, false, true, false);
    PowersAdd(x, true, false, false, true, false, false, true, false, false, true);
  }

  lemma ElevenPowers(x: bv8)
    ensures GfMul(x, 0x0b) == Powers(x, false, true, false, true, true)
    ensures GfMul(GfMul(x, 0x02), 0x0b) == Powers(x, true, false, true, true, false)
    ensures GfMul(GfMul(x, 0x03), 0x0b) == Powers(x, true, true, true, false, true)
  {
    hide Xor, XTime, GfMul, Multiply, Powers;
    TimesTwo(x); TimesThree(x); TimesEleven(x); TimesEleven(XTime(x));
    ElevenAdditive(XTime(x), x);
    PowerAlone(x);
    PowersAdd(x, false, true, false, false, false, false, false, false, true, false);
    PowersAdd(x, false, true, false, true, false, false, false, false, false, true);
    PowersAdd(x, true, false, false, false, false, false, false, true, false, false);
    PowersAdd(x, true, false, true, false, false, false, false, false, true, false);
    PowersAdd(x, true, false, true, true, false, false, true, false, true, true);
  }

  lemma ThirteenPowers(x: bv8)
    ensures GfMul(x, 0x0d) == Powers(x, false, true, true, false, true)
    ensures GfMul(GfMul(x, 0x02), 0x0d) == Powers(x, true, true, false, true, false)
    ensures GfMul(GfMul(x, 0x03), 0x0d) == Powers(x, true, false, true, true, true)
  {
    hide Xor, XTime, GfMul, Multiply, Powers;
    TimesTwo(x); TimesThree(x); TimesThirteen(x); TimesThirteen(XTime(x));
    ThirteenAdditive(XTime(x), x);
    PowerAlone(x);
    PowersAdd(x, false, true, false, false, false, false, false, true, false, false);
    PowersAdd(x, false, true, true, false, false, false, false, false, false, true);
    PowersAdd(x, true, false, false, false, false, false, true, false, false, false);
    PowersAdd(x, true, true, false, false, false, false, false, false, true, false);
    PowersAdd(x, true, true, false, true, false, false, true, true, false, true);
  }

  lemma FourteenPowers(x: bv8)
    ensures GfMul(x, 0x0e) == Powers(x, false, true, true, true, false)
    ensures GfMul(GfMul(x, 0x02), 0x0e) == Powers(x, true, true, true, false, false)
    ensures GfMul(GfMul(x, 0x03), 0x0e) == Powers(x, true, false, false, true, false)
  {
    hide Xor, XTime, GfMul, Multiply, Powers;
    TimesTwo(x); TimesThree(x); TimesFourteen(x); TimesFourteen(XTime(x));
    FourteenAdditive(XTime(x), x);
    PowerAlone(x);
    PowersAdd(x, false, true, false, false, false, false, false, true, false, false);
    PowersAdd(x, false, true, true, false, false, false, false, false, true, false);
    PowersAdd(x, true, false, false, false, false, false, true, false, false, false);
    PowersAdd(x, true, true, false, false, false, false, false, true, false, false);
    PowersAdd(x, true, true, true, false, false, false, true, true, true, false);
  }

  lemma Diagonal(a: bv8)
    ensures Sum4(GfMul(GfMul(a, 0x02), 0x0e), GfMul(a, 0x0b), GfMul(a, 0x0d), GfMul(GfMul(a, 0x03), 0x09)) == a
  {
    hide Xor, GfMul, Powers;
    FourteenPowers(a); ElevenPowers(a); ThirteenPowers(a); NinePowers(a);
    PowersAdd(a, true, true, true, false, false, false, true, false, true, true);
    PowersAdd(a, false, true, true, false, true, true, true, false, true, true);
    PowersAdd(a, true, false, true, true, true, true, false, true, true, false);
    PowerAlone(a);
  }

  lemma OffDiagonal1(b: bv8)
    ensures Sum4(GfMul(GfMul(b, 0x03), 0x0e), GfMul(GfMul(b, 0x02), 0x0b), GfMul(b, 0x0d), GfMul(b, 0x09)) == 0
  {
    hide Xor, GfMul, Powers;
    FourteenPowers(b); ElevenPowers(b); ThirteenPowers(b); NinePowers(b);
    PowersAdd(b, true, false, false, true, false, true, false, true, true, false);
    PowersAdd(b, false, true, true, false, true, false, true, false, false, true);
    PowersAdd(b, false, false, true, false, false, false, false, true, false, false);
    PowerAlone(b);
  }

  lemma OffDiagonal2(c: bv8)
    ensures Sum4(GfMul(c, 0x0e), GfMul(GfMul(c, 0x03), 0x0b), GfMul(GfMul(c, 0x02), 0x0d), GfMul(c, 0x09)) == 0
  {
    hide Xor, GfMul, Powers;
    FourteenPowers(c); ElevenPowers(c); ThirteenPowers(c); NinePowers(c);
    PowersAdd(c, false, true, true, true, false, true, true, true, false, true);
    PowersAdd(c, true, true, false, true, false, false, true, false, false, true);
    PowersAdd(c, true, false, false, true, true, true, false, false, true, true);
    PowerAlone(c);
  }

  lemma OffDiagonal3(d: bv8)
    ensures Sum4(GfMul(d, 0x0e), GfMul(d, 0x0b), GfMul(GfMul(d, 0x03), 0x0d), GfMul(GfMul(d, 0x02), 0x09)) == 0
  {
    hide Xor, GfMul, Powers;
    FourteenPowers(d); ElevenPowers(d); ThirteenPowers(d); NinePowers(d);
    PowersAdd(d, false, true, true, true, false, false, true, false, true, true);
    PowersAdd(d, true, false, true, true, true, true, false, false, true, false);
    PowersAdd(d, false, false, true, false, true, false, false, true, false, true);
    PowerAlone(d);
  }

  // Multiplying by two or three commutes with each of the four inverse coefficients.

  lemma NineCommutes(x: bv8)
    ensures GfMul(GfMul(x, 0x09), 0x02) == GfMul(GfMul(x, 0x02), 0x09)
    ensures GfMul(GfMul(x, 0x09), 0x03) == GfMul(GfMul(x, 0x03), 0x09)
  {
    hide Xor, XTime, GfMul, Multiply;
    TimesTwo(x); TimesTwo(GfMul(x, 0x09));
    TimesThree(x); TimesThree(GfMul(x, 0x09));
    TimesNine(x); TimesNine(XTime(x));
    XTimeAdditive(XTime(XTime(XTime(x))), x);
    NineAdditive(XTime(x), x);
  }

  lemma ElevenCommutes(x: bv8)
    ensures GfMul(GfMul(x, 0x0b), 0x02) == GfMul(GfMul(x, 0x02), 0x0b)
    ensures GfMul(GfMul(x, 0x0b), 0x03) == GfMul(GfMul(x, 0x03), 0x0b)
  {
    hide Xor, XTime, GfMul, Multiply;
    TimesTwo(x); TimesTwo(GfMul(x, 0x0b));
    TimesThree(x); TimesThree(GfMul(x, 0x0b));
    TimesEleven(x); TimesEleven(XTime(x));
    XTimeAdditive(XTime(XTime(XTime(x))), XTime(x));
    XTimeAdditive(Xor(XTime(XTime(XTime(x))), XTime(x)), x);
    ElevenAdditive(XTime(x), x);
  }

  lemma ThirteenCommutes(x: bv8)
    ensures GfMul(GfMul(x, 0x0d), 0x02) == GfMul(GfMul(x, 0x02), 0x0d)
    ensures GfMul(GfMul(x, 0x0d), 0x03) == GfMul(GfMul(x, 0x03), 0x0d)
  {
    hide Xor, XTime, GfMul, Multiply;
    TimesTwo(x); TimesTwo(GfMul(x, 0x0d));
    TimesThree(x); TimesThree(GfMul(x, 0x0d));
    TimesThirteen(x); TimesThirteen(XTime(x));
    XTimeAdditive(XTime(XTime(XTime(x))), XTime(XTime(x)));
    XTimeAdditive(Xor(XTime(XTime(XTime(x))), XTime(XTime(x))), x);
    ThirteenAdditive(XTime(x), x);
  }

  lemma FourteenCommutes(x: bv8)
    ensures GfMul(GfMul(x, 0x0e), 0x02) == GfMul(GfMul(x, 0x02), 0x0e)
    ensures GfMul(GfMul(x, 0x0e), 0x03) == GfMul(GfMul(x, 0x03), 0x0e)
  {
    hide Xor, XTime, GfMul, Multiply;
    TimesTwo(x); TimesTwo(GfMul(x, 0x0e));
    TimesThree(x); TimesThree(GfMul(x, 0x0e));
    TimesFourteen(x); TimesFourteen(XTime(x));
    XTimeAdditive(XTime(XTime(XTime(x))), XTime(XTime(x)));
    XTimeAdditive(Xor(XTime(XTime(XTime(x))), XTime(XTime(x))), XTime(x));
    FourteenAdditive(XTime(x), x);
  }

  lemma Sum4Rotate(w: bv8, x: bv8, y: bv8, z: bv8)
    ensures Sum4(w, x, y, z) == Sum4(z, w, x, y) == Sum4(y, z, w, x) == Sum4(x, y, z, w)
    ensures Sum4(w, 0, 0, 0) == w
  {
    Sum4RotateOnce(z, w, x, y);
    Sum4RotateOnce(y, z, w, x);
    Sum4RotateOnce(x, y, z, w);
    XorCancels(w, 0);
    XorCancels(0, 0);
    hide Xor;
  }

  lemma Sum4RotateOnce(w: bv8, x: bv8, y: bv8, z: bv8)
    ensures Sum4(w, x, y, z) == Sum4(x, y, z, w)
  {
    hide Xor;
    XorComm(w, x);
    XorSwap(x, w, y, z);
    XorComm(w, z);
  }

  lemma Sum4Reflect(w: bv8, x: bv8, y: bv8, z: bv8)
    ensures Sum4(w, x, y, z) == Sum4(w, z, y, x) == Sum4(z, y, x, w) == Sum4(y, x, w, z) == Sum4(x, w, z, y)
  {
    assert Sum4(w, x, y, z) == Sum4(w, z, y, x) by {
      hide Xor;
      XorComm(y, z);
      XorSwap(w, x, z, y);
      XorComm(x, y);
    }
    hide Sum4, Xor;
    Sum4Rotate(w, z, y, x);
  }

  /** Each byte of the inverse product of a mixed column is the byte it was mixed from. */
  lemma InvMixUndoesMix(a: bv8, b: bv8, c: bv8, d: bv8)
    ensures InvMixByte(MixByte(a, b, c, d), MixByte(b, c, d, a), MixByte(c, d, a, b), MixByte(d, a, b, c)) == a
  {
    hide Xor, GfMul, Sum4;
    var a2, b2, c2, d2 := GfMul(a, 0x02), GfMul(b, 0x02), GfMul(c, 0x02), GfMul(d, 0x02);
    var a3, b3, c3, d3 := GfMul(a, 0x03), GfMul(b, 0x03), GfMul(c, 0x03), GfMul(d, 0x03);
    FourteenOfSum4(a2, b3, c, d);
    ElevenOfSum4(b2, c3, d, a);
    Sum4Rotate(GfMul(b2, 0x0b), GfMul(c3, 0x0b), GfMul(d, 0x0b), GfMul(a, 0x0b));
    ThirteenOfSum4(c2, d3, a, b);
    Sum4Rotate(GfMul(c2, 0x0d), GfMul(d3, 0x0d), GfMul(a, 0x0d), GfMul(b, 0x0d));
    NineOfSum4(d2, a3, b, c);
    Sum4Rotate(GfMul(d2, 0x09), GfMul(a3, 0x09), GfMul(b, 0x09), GfMul(c, 0x09));
    Sum4Transpose(GfMul(a2, 0x0e), GfMul(b3, 0x0e), GfMul(c, 0x0e), GfMul(d, 0x0e),
                  GfMul(a, 0x0b), GfMul(b2, 0x0b), GfMul(c3, 0x0b), GfMul(d, 0x0b),
                  GfMul(a, 0x0d), GfMul(b, 0x0d), GfMul(c2, 0x0d), GfMul(d3, 0x0d),
                  GfMul(a3, 0x09), GfMul(b, 0x09), GfMul(c, 0x09), GfMul(d2, 0x09));
    MatrixProduct(a, b, c, d);
    Sum4Rotate(a, 0, 0, 0);
  }

  lemma MatrixProduct(a: bv8, b: bv8, c: bv8, d: bv8)
    ensures Sum4(GfMul(GfMul(a, 0x02), 0x0e), GfMul(a, 0x0b), GfMul(a, 0x0d), GfMul(GfMul(a, 0x03), 0x09)) == a
    ensures Sum4(GfMul(GfMul(b, 0x03), 0x0e), GfMul(GfMul(b, 0x02), 0x0b), GfMul(b, 0x0d), GfMul(b, 0x09)) == 0
    ensures Sum4(GfMul(c, 0x0e), GfMul(GfMul(c, 0x03), 0x0b), GfMul(GfMul(c, 0x02), 0x0d), GfMul(c, 0x09)) == 0
    ensures Sum4(GfMul(d, 0x0e), GfMul(d, 0x0b), GfMul(GfMul(d, 0x03), 0x0d), GfMul(GfMul(d, 0x02), 0x09)) == 0
  {
    hide Xor, GfMul, Sum4;
    Diagonal(a);
    OffDiagonal1(b);
    OffDiagonal2(c);
    OffDiagonal3(d);
  }

  lemma TwoOfSum4(w: bv8, x: bv8, y: bv8, z: bv8)
    ensures GfMul(Sum4(w, x, y, z), 0x02) == Sum4(GfMul(w, 0x02), GfMul(x, 0x02), GfMul(y, 0x02), GfMul(z, 0x02))
  {
    hide Xor, XTime, GfMul;
    TimesTwo(w); TimesTwo(x); TimesTwo(y); TimesTwo(z); TimesTwo(Sum4(w, x, y, z));
    XTimeAdditive(Xor(w, x), Xor(y, z));
    XTimeAdditive(w, x);
    XTimeAdditive(y, z);
  }

  lemma ThreeOfSum4(w: bv8, x: bv8, y: bv8, z: bv8)
    ensures GfMul(Sum4(w, x, y, z), 0x03) == Sum4(GfMul(w, 0x03), GfMul(x, 0x03), GfMul(y, 0x03), GfMul(z, 0x03))
  {
    hide Xor, XTime, GfMul;
    TimesTwo(w); TimesTwo(x); TimesTwo(y); TimesTwo(z); TimesTwo(Sum4(w, x, y, z));
    TimesThree(w); TimesThree(x); TimesThree(y); TimesThree(z); TimesThree(Sum4(w, x, y, z));
    TwoOfSum4(w, x, y, z);
    Sum4Swap(XTime(w), XTime(x), XTime(y), XTime(z), w, x, y, z);
  }

  /** And the other way round: mixing the inverse product gives the column back. */
  lemma MixUndoesInvMix(a: bv8, b: bv8, c: bv8, d: bv8)
    ensures MixByte(InvMixByte(a, b, c, d), InvMixByte(b, c, d, a), InvMixByte(c, d, a, b), InvMixByte(d, a, b, c)) == a
  {
    hide Xor, GfMul, Sum4;
    var ae, be, ce, de := GfMul(a, 0x0e), GfMul(b, 0x0e), GfMul(c, 0x0e), GfMul(d, 0x0e);
    var ab, bb, cb, db := GfMul(a, 0x0b), GfMul(b, 0x0b), GfMul(c, 0x0b), GfMul(d, 0x0b);
    var ad, bd, cd, dd := GfMul(a, 0x0d), GfMul(b, 0x0d), GfMul(c, 0x0d), GfMul(d, 0x0d);
    var a9, b9, c9, d9 := GfMul(a, 0x09), GfMul(b, 0x09), GfMul(c, 0x09), GfMul(d, 0x09);
    TwoOfSum4(ae, bb, cd, d9);
    ThreeOfSum4(be, cb, dd, a9);
    Sum4Rotate(GfMul(be, 0x03), GfMul(cb, 0x03), GfMul(dd, 0x03), GfMul(a9, 0x03));
    Sum4Rotate(ce, db, ad, b9);
    Sum4Rotate(de, ab, bd, c9);
    Sum4Transpose(GfMul(ae, 0x02), GfMul(bb, 0x02), GfMul(cd, 0x02), GfMul(d9, 0x02),
                  GfMul(a9, 0x03), GfMul(be, 0x03), GfMul(cb, 0x03), GfMul(dd, 0x03),
                  ad, b9, ce, db,
                  ab, bd, c9, de);
    MatrixProduct'(a, b, c, d);
    Sum4Rotate(a, 0, 0, 0);
  }

  lemma MatrixProduct'(a: bv8, b: bv8, c: bv8, d: bv8)
    ensures Sum4(GfMul(GfMul(a, 0x0e), 0x02), GfMul(GfMul(a, 0x09), 0x03), GfMul(a, 0x0d), GfMul(a, 0x0b)) == a
    ensures Sum4(GfMul(GfMul(b, 0x0b), 0x02), GfMul(GfMul(b, 0x0e), 0x03), GfMul(b, 0x09), GfMul(b, 0x0d)) == 0
    ensures Sum4(GfMul(GfMul(c, 0x0d), 0x02), GfMul(GfMul(c, 0x0b), 0x03), GfMul(c, 0x0e), GfMul(c, 0x09)) == 0
    ensures Sum4(GfMul(GfMul(d, 0x09), 0x02), GfMul(GfMul(d, 0x0d), 0x03), GfMul(d, 0x0b), GfMul(d, 0x0e)) == 0
  {
    hide Xor, GfMul, Sum4;
    NineCommutes(a); FourteenCommutes(a);
    ElevenCommutes(b); FourteenCommutes(b);
    ThirteenCommutes(c); ElevenCommutes(c);
    NineCommutes(d); ThirteenCommutes(d);
    MatrixProduct(a, b, c, d);
    Sum4Reflect(GfMul(GfMul(a, 0x02), 0x0e), GfMul(a, 0x0b), GfMul(a, 0x0d), GfMul(GfMul(a, 0x03), 0x09));
    Sum4Reflect(GfMul(GfMul(b, 0x03), 0x0e), GfMul(GfMul(b, 0x02), 0x0b), GfMul(b, 0x0d), GfMul(b, 0x09));
    Sum4Reflect(GfMul(c, 0x0e), GfMul(GfMul(c, 0x03), 0x0b), GfMul(GfMul(c, 0x02), 0x0d), GfMul(c, 0x09));
    Sum4Reflect(GfMul(d, 0x0e), GfMul(d, 0x0b), GfMul(GfMul(d, 0x03), 0x0d), GfMul(GfMul(d, 0x02), 0x09));
  }
}
