/**
 The two checksum bytes of the server protocol: the table entry selected by the xor of all bytes.
 */
module Checksum {
  import opened CcittTable
  import opened Gf256

  /** One step of the CCITT polynomial division, x^16 + x^12 + x^5 + 1, high bit first. */
  function Divide(r: bv16): bv16 {
    if r & 0x8000 == 0 then r << 1 else (r << 1) ^ 0x1021
  }

  function DivideByte(r: bv16): bv16 {
    Divide(Divide(Divide(Divide(Divide(Divide(Divide(Divide(r))))))))
  }

  lemma EntryIsRemainder(x: bv8)
    ensures CcittEntry(x) == DivideByte((x as bv16) << 8)
  {
  }

  function Undivide(t: bv16): bv16 {
    if t & 1 == 0 then t >> 1 else ((t ^ 0x1021) >> 1) | 0x8000
  }

  lemma UndivideUndoes(r: bv16)
    ensures Undivide(Divide(r)) == r
  {
    if r & 0x8000 == 0 {
      ShiftBack(r);
    } else {
      FoldBack(r);
    }
  }

  lemma ShiftBack(r: bv16)
    requires r & 0x8000 == 0
    ensures (r << 1) & 1 == 0 && (r << 1) >> 1 == r
  {
  }

  lemma FoldBack(r: bv16)
    requires r & 0x8000 != 0
    ensures ((r << 1) ^ 0x1021) & 1 == 1
    ensures ((((r << 1) ^ 0x1021) ^ 0x1021) >> 1) | 0x8000 == r
  {
  }

  lemma DivideInjective(r: bv16, s: bv16)
    requires Divide(r) == Divide(s)
    ensures r == s
  {
    hide Divide, Undivide;
    UndivideUndoes(r);
    UndivideUndoes(s);
  }

  lemma DivideByteInjective(r: bv16, s: bv16)
    requires DivideByte(r) == DivideByte(s)
    ensures r == s
  {
    hide Divide;
    DivideInjective(Divide(Divide(Divide(Divide(Divide(Divide(Divide(r))))))), Divide(Divide(Divide(Divide(Divide(Divide(Divide(s))))))));
    DivideInjective(Divide(Divide(Divide(Divide(Divide(Divide(r)))))), Divide(Divide(Divide(Divide(Divide(Divide(s)))))));
    DivideInjective(Divide(Divide(Divide(Divide(Divide(r))))), Divide(Divide(Divide(Divide(Divide(s))))));
    DivideInjective(Divide(Divide(Divide(Divide(r)))), Divide(Divide(Divide(Divide(s)))));
    DivideInjective(Divide(Divide(Divide(r))), Divide(Divide(Divide(s))));
    DivideInjective(Divide(Divide(r)), Divide(Divide(s)));
    DivideInjective(Divide(r), Divide(s));
    DivideInjective(r, s);
  }

  /** No two bytes share a table entry. */
  lemma EntriesDistinct(x: bv8, y: bv8)
    requires CcittEntry(x) == CcittEntry(y)
    ensures x == y
  {
    hide CcittEntry, DivideByte;
    EntryIsRemainder(x);
    EntryIsRemainder(y);
    DivideByteInjective((x as bv16) << 8, (y as bv16) << 8);
    assert ((x as bv16) << 8) >> 8 == x as bv16;
    assert ((y as bv16) << 8) >> 8 == y as bv16;
  }

  // ---- messages ----

  function XorAll(m: seq<bv8>): bv8 {
    if m == [] then 0 else Xor(XorAll(m[..|m| - 1]), m[|m| - 1])
  }

  function HighByte(v: bv16): bv8 {
    (v >> 8) as bv8
  }

  function LowByte(v: bv16): bv8 {
    (v & 0xff) as bv8
  }

  /** The message with its two checksum bytes. */
  function Checked(m: seq<bv8>): seq<bv8> {
    m + [HighByte(CcittEntry(XorAll(m))), LowByte(CcittEntry(XorAll(m)))]
  }

  /** What the receiver tests: the last two bytes, read high first, are the entry of all bytes before them. */
  predicate Accepts(f: seq<bv8>)
    requires |f| >= 2
  {
    CcittEntry(XorAll(f[..|f| - 2])) == Joined(f[|f| - 2], f[|f| - 1])
  }

  function Joined(high: bv8, low: bv8): bv16 {
    ((high as bv16) << 8) | (low as bv16)
  }

  lemma JoinedSplit(v: bv16, high: bv8, low: bv8)
    ensures Joined(HighByte(v), LowByte(v)) == v
    ensures Joined(high, low) == v <==> high == HighByte(v) && low == LowByte(v)
  {
  }

  /** The receiver accepts exactly the messages that carry their own checksum. */
  lemma AcceptsExactly(f: seq<bv8>)
    requires |f| >= 2
    ensures Accepts(f) <==> f == Checked(f[..|f| - 2])
  {
    hide CcittEntry, HighByte, LowByte, Joined, XorAll;
    JoinedSplit(CcittEntry(XorAll(f[..|f| - 2])), f[|f| - 2], f[|f| - 1]);
    assert f == f[..|f| - 2] + [f[|f| - 2], f[|f| - 1]];
  }

  lemma {:induction false} XorAllOfChange(m: seq<bv8>, i: nat, b: bv8)
    requires i < |m|
    ensures Xor(XorAll(m[i := b]), b) == Xor(XorAll(m), m[i])
  {
    hide Xor;
    var last := |m| - 1;
    var front := XorAll(m[..last]);
    if i == last {
      assert m[i := b][..last] == m[..last];
      XorCancels(front, b);
      XorCancels(front, m[i]);
    } else {
      XorAllOfChange(m[..last], i, b);
      assert m[i := b][..last] == m[..last][i := b];
      var front' := XorAll(m[..last][i := b]);
      XorAssoc(front', m[last], b);
      XorComm(m[last], b);
      XorAssoc(front', b, m[last]);
      XorAssoc(front, m[last], m[i]);
      XorComm(m[last], m[i]);
      XorAssoc(front, m[i], m[last]);
    }
  }

  /** Changing one byte before the checksum of an accepted message always makes it rejected. */
  lemma SingleChangeRejected(f: seq<bv8>, i: nat, b: bv8)
    requires |f| >= 2 && i < |f| - 2 && b != f[i] && Accepts(f)
    ensures !Accepts(f[i := b])
  {
    hide CcittEntry, HighByte, LowByte, Joined, XorAll, Xor;
    var m := f[..|f| - 2];
    assert f[i := b][..|f| - 2] == m[i := b];
    if Accepts(f[i := b]) {
      EntriesDistinct(XorAll(m[i := b]), XorAll(m));
      XorAllOfChange(m, i, b);
      XorComm(XorAll(m), b);
      XorComm(XorAll(m), m[i]);
      XorCancels(b, XorAll(m));
      XorCancels(m[i], XorAll(m));
    }
  }

  /** The two checksum bytes, read as a number high byte first, are the table entry. */
  lemma ChecksumIsNumber(m: seq<bv8>)
    ensures var c := Checked(m);
            |c| == |m| + 2 && c[..|m|] == m && (c[|m|] as bv16) * 0x100 + (c[|m| + 1] as bv16) == CcittEntry(XorAll(m))
  {
    hide CcittEntry, XorAll, HighByte, LowByte;
    NumberOfBytes(CcittEntry(XorAll(m)));
  }

  lemma NumberOfBytes(v: bv16)
    ensures (HighByte(v) as bv16) * 0x100 + (LowByte(v) as bv16) == v
  {
  }

  /** The entry is looked up under the sum of all bytes, wherever they stand. */
  lemma {:induction false} XorAllOfSum(m: seq<bv8>, k: seq<bv8>)
    ensures XorAll(m + k) == Xor(XorAll(m), XorAll(k))
  {
    hide Xor;
    if k == [] {
      assert m + k == m;
      XorCancels(XorAll(m), 0);
    } else {
      var p, b := k[..|k| - 1], k[|k| - 1];
      assert (m + k)[..|m + k| - 1] == m + p;
      XorAllOfSum(m, p);
      XorAssoc(XorAll(m), XorAll(p), b);
    }
  }

  lemma XorAllOfByte(b: bv8)
    ensures XorAll([b]) == b
  {
    assert XorAll([]) == 0;
  }

  /** Changing any one byte of an accepted message, its checksum included, makes it rejected. */
  lemma DamagedRejected(f: seq<bv8>, i: nat, b: bv8)
    requires i < |f| && |f| >= 2 && b != f[i] && Accepts(f)
    ensures !Accepts(f[i := b])
  {
    hide CcittEntry, HighByte, LowByte, Joined, XorAll;
    if i < |f| - 2 {
      SingleChangeRejected(f, i, b);
    } else {
      var g, n := f[i := b], |f| - 2;
      assert g[..n] == f[..n];
      var v := CcittEntry(XorAll(f[..n]));
      JoinedSplit(v, f[n], f[n + 1]);
      JoinedSplit(v, g[n], g[n + 1]);
    }
  }
}
