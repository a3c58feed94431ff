/**
 When compaction works whatever the backup region held before, for all tables, full ones too.
 */
module CompactionLimits {
  import opened NorFlash
  import opened RecordTable
  import opened Compaction
  import S = SlotTable

  // ---- the number of bits set ----

  predicate Has(x: bv8, m: bv8) {
    x & m != 0
  }

  function Bit(x: bv8, m: bv8): (n: nat)
    ensures n <= 1
  {
    if Has(x, m) then 1 else 0
  }

  function Bits(x: bv8): (n: nat)
    ensures n <= 8
  {
    Bit(x, 1) + Bit(x, 2) + Bit(x, 4) + Bit(x, 8) + Bit(x, 16) + Bit(x, 32) + Bit(x, 64) + Bit(x, 128)
  }

  lemma PartHas(x: bv8, y: bv8, m: bv8)
    requires And(x, y) == x
    ensures Has(x, m) ==> Has(y, m)
  {
    MaskOfPart(x, y, m);
  }

  lemma MaskOfPart(x: bv8, y: bv8, m: bv8)
    ensures x & y == x && x & m != 0 ==> y & m != 0
  {
  }

  lemma SameMasks(x: bv8, y: bv8)
    requires x & 1 != 0 <==> y & 1 != 0
    requires x & 2 != 0 <==> y & 2 != 0
    requires x & 4 != 0 <==> y & 4 != 0
    requires x & 8 != 0 <==> y & 8 != 0
    requires x & 16 != 0 <==> y & 16 != 0
    requires x & 32 != 0 <==> y & 32 != 0
    requires x & 64 != 0 <==> y & 64 != 0
    requires x & 128 != 0 <==> y & 128 != 0
    ensures x == y
  {
  }

  lemma BitGrows(x: bv8, y: bv8, m: bv8)
    requires And(x, y) == x
    ensures Bit(x, m) <= Bit(y, m)
    ensures Bit(x, m) == Bit(y, m) ==> (Has(x, m) <==> Has(y, m))
  {
    hide Has, And;
    PartHas(x, y, m);
  }

  /** A byte that is a proper part of another has fewer bits set. */
  lemma FewerBits(x: bv8, y: bv8)
    requires And(x, y) == x
    ensures Bits(x) <= Bits(y) && (Bits(x) == Bits(y) ==> x == y)
  {
    hide Has, And, Bit;
    BitGrows(x, y, 1);
    BitGrows(x, y, 2);
    BitGrows(x, y, 4);
    BitGrows(x, y, 8);
    BitGrows(x, y, 16);
    BitGrows(x, y, 32);
    BitGrows(x, y, 64);
    BitGrows(x, y, 128);
    if Bits(x) == Bits(y) {
      EightSame(x, y);
    }
  }

  lemma EightSame(x: bv8, y: bv8)
    requires Has(x, 1) <==> Has(y, 1)
    requires Has(x, 2) <==> Has(y, 2)
    requires Has(x, 4) <==> Has(y, 4)
    requires Has(x, 8) <==> Has(y, 8)
    requires Has(x, 16) <==> Has(y, 16)
    requires Has(x, 32) <==> Has(y, 32)
    requires Has(x, 64) <==> Has(y, 64)
    requires Has(x, 128) <==> Has(y, 128)
    ensures x == y
  {
    SameMasks(x, y);
  }

  /** The number of bits set in a sequence of bytes. */
  function Weight(s: Bytes): (n: nat)
    ensures n <= 8 * |s|
  {
    if s == [] then 0 else Weight(s[1..]) + Bits(s[0])
  }

  lemma {:induction false} LighterPart(a: Bytes, b: Bytes)
    requires |a| == |b| && forall k :: 0 <= k < |a| ==> And(a[k], b[k]) == a[k]
    ensures Weight(a) <= Weight(b) && (Weight(a) == Weight(b) ==> a == b)
    decreases |a|
  {
    hide And, Bits;
    if a != [] {
      FewerBits(a[0], b[0]);
      LighterPart(a[1..], b[1..]);
      assert a == [a[0]] + a[1..] && b == [b[0]] + b[1..];
    }
  }

  // ---- a full table of users ----

  function Zeros(): Record {
    seq(RECORD, _ => 0)
  }

  /** A backup region that is erased but for one slot of zeros. */
  function Gap(l: Layout, k: nat): (b: Table)
    requires k < l.slots
    ensures |b| == l.slots
  {
    Blanks(l.slots)[k := Zeros()]
  }

  lemma ZerosStay(r: Record)
    ensures Cleared(Zeros(), r) == Zeros()
  {
    forall k | 0 <= k < RECORD ensures And(0, r[k]) == 0 {
      ZeroAnd(r[k]);
    }
    hide And;
    assert forall k :: 0 <= k < RECORD ==> Cleared(Zeros(), r)[k] == And(0, r[k]);
  }

  lemma ZeroAnd(x: bv8)
    ensures And(0, x) == 0
  {
  }

  lemma ZerosAreDead(l: Layout)
    requires l.Valid()
    ensures l.Id(Zeros()) == l.Zero() != l.Ones()
  {
    ZeroIsNotOnes(l);
    assert l.Id(Zeros()) == l.Zero();
  }

  lemma {:induction false} KeptOfSum(l: Layout, a: Table, b: Table)
    requires l.Valid()
    ensures Kept(l, a + b) == Kept(l, a) + Kept(l, b)
    decreases |b|
  {
    hide Kept, Layout.Id, Layout.Zero;
    if b == [] {
      assert a + b == a;
      KeptOfNothing(l);
      assert Kept(l, a) + [] == Kept(l, a);
    } else {
      var p, r := b[..|b| - 1], b[|b| - 1];
      assert b == p + [r] && a + b == (a + p) + [r];
      KeptOfSum(l, a, p);
      KeptSnoc(l, p, r);
      KeptSnoc(l, a + p, r);
    }
  }

  /** What is copied when one slot of the backup is zero: the table with that slot dead. */
  lemma CopiedOverGap(l: Layout, t: Table, k: nat)
    requires l.Valid() && |t| == l.slots && FIRST_SECTOR <= k < l.slots
    ensures Overlay(FirstSectorErased(Gap(l, k)), t) == t[k := Zeros()]
  {
    ZerosStay(t[k]);
    hide Cleared, Zeros;
    forall i | 0 <= i < l.slots ensures Overlay(FirstSectorErased(Gap(l, k)), t)[i] == t[k := Zeros()][i] {
      ClearedBlank(t[i]);
    }
  }

  lemma EndOfFull(l: Layout, e: Extent, k: nat)
    requires l.Valid() && WellFormed(l, e) && e.used == l.slots && k < l.slots
    ensures EndOf(l, e.table) == l.slots && EndOf(l, e.table[k := Zeros()]) == l.slots
    ensures e.table[..l.slots] == e.table && e.table[k := Zeros()][..l.slots] == e.table[k := Zeros()]
  {
    UsedIds(l, e);
    ZerosAreDead(l);
    hide Layout.Id, Layout.Zero, Layout.Ones, Zeros;
    EndAt(l, e.table, l.slots);
    EndAt(l, e.table[k := Zeros()], l.slots);
  }

  lemma WrittenWhole(l: Layout, b: Table)
    requires l.Valid() && EndOf(l, b) == |b|
    ensures Written(l, b) == Kept(l, b)
  {
    hide Kept, EndOf;
    assert b[..|b|] == b;
    assert Kept(l, b) + [] == Kept(l, b);
  }

  lemma WrittenOverGap(l: Layout, e: Extent, k: nat)
    requires l.Valid() && WellFormed(l, e) && e.used == l.slots && k < l.slots
    ensures Written(l, e.table[k := Zeros()]) == Kept(l, e.table[..k]) + Kept(l, e.table[k + 1..])
  {
    hide Layout.Valid, Layout.Id, Layout.Zero, Layout.Ones, Zeros, Kept, Written, EndOf, WellFormed;
    var t := e.table;
    EndOfFull(l, e, k);
    WellSized(l, e);
    ZerosAreDead(l);
    WrittenWhole(l, t[k := Zeros()]);
    KeptWithGap(l, t, k, Zeros());
  }

  lemma KeptWithGap(l: Layout, t: Table, k: nat, z: Record)
    requires l.Valid() && k < |t| && l.Id(z) == l.Zero()
    ensures Kept(l, t[k := z]) == Kept(l, t[..k]) + Kept(l, t[k + 1..])
  {
    hide Layout.Valid, Layout.Id, Layout.Zero, Kept;
    assert t[k := z] == (t[..k] + [z]) + t[k + 1..];
    KeptOfSum(l, t[..k] + [z], t[k + 1..]);
    KeptSnoc(l, t[..k], z);
  }

  lemma IdsDiffer(l: Layout, e: Extent, i: nat, j: nat)
    requires l.Valid() && WellFormed(l, e) && i < j < e.used
    requires l.Id(e.table[i]) != l.Zero() && l.Id(e.table[j]) != l.Zero()
    ensures l.Id(e.table[i]) != l.Id(e.table[j])
  {
    UsedIds(l, e);
    hide Layout.Id, Layout.Zero, Layout.Ones;
    assert Slots(l, e.table)[i] == SlotOf(l, e.table[i]) && Slots(l, e.table)[j] == SlotOf(l, e.table[j]);
  }

  lemma PartOfNext(l: Layout, r: Record, q: Record)
    requires l.Valid() && Cleared(r, q) == r
    ensures Weight(l.Id(r)) <= Weight(l.Id(q)) && (Weight(l.Id(r)) == Weight(l.Id(q)) ==> l.Id(r) == l.Id(q))
  {
    hide And, Weight;
    var a, b := l.Id(r), l.Id(q);
    forall k | 0 <= k < l.idLen ensures And(a[k], b[k]) == a[k] {
      assert a[k] == r[l.idAt + k] && b[k] == q[l.idAt + k];
      assert Cleared(r, q)[l.idAt + k] == And(r[l.idAt + k], q[l.idAt + k]);
    }
    LighterPart(a, b);
  }

  /** Each record beyond the first sector is, bit for bit, part of the one after it. */
  predicate Chain(t: Table) {
    forall i :: FIRST_SECTOR <= i < |t| - 1 ==> Cleared(t[i], t[i + 1]) == t[i]
  }

  lemma {:induction false} Heavier(l: Layout, e: Extent, j: nat)
    requires l.Valid() && WellFormed(l, e) && e.used == l.slots && AllKept(l, e.table) && Chain(e.table)
    requires FIRST_SECTOR + j < l.slots
    ensures Weight(l.Id(e.table[FIRST_SECTOR + j])) >= j
    decreases j
  {
    hide Layout.Id, Layout.Zero, Layout.Ones, Weight, Cleared;
    if j > 0 {
      var k := FIRST_SECTOR + j - 1;
      Heavier(l, e, j - 1);
      PartOfNext(l, e.table[k], e.table[k + 1]);
      IdsDiffer(l, e, k, k + 1);
    }
  }

  /** No table is long enough for such a chain: the ids in it would need more bits than an id has. */
  lemma NoChain(l: Layout, e: Extent)
    requires l.Valid() && WellFormed(l, e) && e.used == l.slots && AllKept(l, e.table)
    requires l.slots > FIRST_SECTOR + 1 + 8 * l.idLen
    ensures !Chain(e.table)
  {
    if Chain(e.table) {
      Heavier(l, e, l.slots - FIRST_SECTOR - 1);
    }
  }

  lemma GapAligned(l: Layout, e: Extent, bio: bool)
    requires l.Valid() && WellFormed(l, e) && e.used == l.slots > FIRST_SECTOR && AllKept(l, e.table)
    ensures var w := e.table[..FIRST_SECTOR] + e.table[FIRST_SECTOR + 1..];
            UsersAligned(l, e.table, Gap(l, FIRST_SECTOR), bio) == Overlay(FirstSectorErased(e.table), MarkAll(bio, w))
  {
    hide Layout.Valid, Layout.Id, Layout.Zero, Layout.Ones, Zeros, Kept, Written, EndOf, WellFormed, Gap, AllKept;
    hide Mark, MarkAll, Cleared, Overlay, FirstSectorErased;
    WellSized(l, e);
    EndOfFull(l, e, FIRST_SECTOR);
    CopiedOverGap(l, e.table, FIRST_SECTOR);
    WrittenOverGap(l, e, FIRST_SECTOR);
    KeptWhole(l, e.table, FIRST_SECTOR);
  }

  lemma CompactedFull(l: Layout, e: Extent, bio: bool)
    requires l.Valid() && WellFormed(l, e) && e.used == l.slots && AllKept(l, e.table)
    ensures Compacted(l, e, bio) == MarkAll(bio, e.table)
  {
    hide Layout.Id, Layout.Zero, Layout.Ones, Kept, AllKept, Mark;
    assert e.table[..e.used] == e.table;
    NoTombstones(l, e.table);
  }

  lemma SomeSlotChanges(t: Table, bio: bool)
    requires |t| > FIRST_SECTOR && (forall i :: FIRST_SECTOR <= i < |t| ==> Mark(bio, t[i]) == t[i])
    requires Overlay(FirstSectorErased(t), MarkAll(bio, t[..FIRST_SECTOR] + t[FIRST_SECTOR + 1..])) == MarkAll(bio, t)
    ensures Chain(t)
  {
    hide Mark, Cleared;
    var w := t[..FIRST_SECTOR] + t[FIRST_SECTOR + 1..];
    forall i | FIRST_SECTOR <= i < |t| - 1 ensures Cleared(t[i], t[i + 1]) == t[i] {
      assert w[i] == t[i + 1];
      assert Overlay(FirstSectorErased(t), MarkAll(bio, w))[i] == Cleared(t[i], Mark(bio, t[i + 1]));
      assert MarkAll(bio, t)[i] == t[i];
    }
  }

  lemma GapUsers(l: Layout, e: Extent, bio: bool)
    requires l.Valid() && WellFormed(l, e) && e.used == l.slots && NothingToDo(l, e, bio)
    requires l.slots > FIRST_SECTOR + 1 + 8 * l.idLen
    ensures UsersAligned(l, e.table, Gap(l, FIRST_SECTOR), bio) != Compacted(l, e, bio)
  {
    hide Layout.Valid, Layout.Id, Layout.Zero, Layout.Ones, WellFormed, Gap, AllKept, Mark, MarkAll, Chain;
    hide Compacted, UsersAligned, Overlay;
    WellSized(l, e);
    assert e.table[..e.used] == e.table;
    GapAligned(l, e, bio);
    CompactedFull(l, e, bio);
    NoChain(l, e);
    if UsersAligned(l, e.table, Gap(l, FIRST_SECTOR), bio) == Compacted(l, e, bio) {
      SomeSlotChanges(e.table, bio);
    }
  }

  lemma KeptWhole(l: Layout, t: Table, k: nat)
    requires l.Valid() && k < |t| && AllKept(l, t)
    ensures Kept(l, t) == t && Kept(l, t[..k]) == t[..k] && Kept(l, t[k + 1..]) == t[k + 1..]
  {
    hide Kept, Layout.Id, Layout.Zero;
    NoTombstones(l, t);
    NoTombstones(l, t[..k]);
    NoTombstones(l, t[k + 1..]);
  }

  /** The user table is compacted whatever the backup region held before if and only if fewer than 512 of its slots are used. */
  lemma UsersCompactedAlways(l: Layout, e: Extent, bio: bool)
    requires l.Valid() && WellFormed(l, e) && (bio ==> l.idAt + l.idLen <= FINGER)
    requires l.slots > FIRST_SECTOR + 1 + 8 * l.idLen
    ensures (forall b: Table :: |b| == l.slots ==> UsersAligned(l, e.table, b, bio) == Compacted(l, e, bio))
       <==> e.used < FIRST_SECTOR
  {
    hide *;
    WellSized(l, e);
    if e.used < l.slots {
      UsersCompactedNotFull(l, e, bio);
    } else if NothingToDo(l, e, bio) {
      GapUsers(l, e, bio);
    } else {
      BlanksErased(l);
      UsersCompactedExactly(l, e, Blanks(l.slots), bio);
    }
  }

  lemma BlanksErased(l: Layout)
    ensures ErasedFrom(Blanks(l.slots), FIRST_SECTOR)
  {
  }

  // ---- a full table of tasks ----

  /** No record is left beyond the first sector of a full table. */
  predicate OnlyFirstSector(l: Layout, e: Extent)
    requires l.Valid()
  {
    e.used == |e.table| && forall i :: FIRST_SECTOR <= i < |e.table| ==> l.Id(e.table[i]) == l.Zero()
  }

  lemma {:induction false} AllDead(l: Layout, t: Table)
    requires l.Valid() && forall i :: 0 <= i < |t| ==> l.Id(t[i]) == l.Zero()
    ensures Kept(l, t) == []
  {
    hide Layout.Id, Layout.Zero, Kept;
    if t == [] {
      KeptOfNothing(l);
    } else {
      AllDead(l, t[..|t| - 1]);
      assert t == t[..|t| - 1] + [t[|t| - 1]];
      KeptSnoc(l, t[..|t| - 1], t[|t| - 1]);
    }
  }

  lemma DeadStays(l: Layout, x: Record, r: Record)
    requires l.Valid() && l.Id(r) == l.Zero()
    ensures l.Id(Cleared(x, r)) == l.Zero()
  {
    hide And;
    forall k | 0 <= k < l.idLen ensures l.Id(Cleared(x, r))[k] == 0 {
      assert l.Id(r)[k] == r[l.idAt + k];
      assert Cleared(x, r)[l.idAt + k] == r[l.idAt + k];
    }
  }

  /** Tombstones beyond the first sector stay tombstones in the backup, whatever it held. */
  lemma DeadTasks(l: Layout, e: Extent, b: Table)
    requires l.Valid() && WellFormed(l, e) && |b| == l.slots > FIRST_SECTOR && OnlyFirstSector(l, e)
    ensures TasksAligned(l, e.table, b) == Compacted(l, e, false)
  {
    var c := Overlay(FirstSectorErased(b), e.table);
    CopiedDead(l, e, b);
    hide Layout.Valid, Layout.Id, Layout.Zero, Layout.Ones, Kept, Written, EndOf, Overlay, FirstSectorErased;
    hide OnlyFirstSector, MarkAll, Blanks;
    WellSized(l, e);
    WrittenWhole(l, c);
    assert e.table[..e.used] == e.table;
    OverlayOnBlanks(l, e);
    Unmarked(Kept(l, e.table));
  }

  lemma OverlayOnBlanks(l: Layout, e: Extent)
    requires l.Valid() && WellFormed(l, e) && e.used == l.slots
    ensures Overlay(Blanks(l.slots), Kept(l, e.table)) == Compacted(l, e, false)
  {
    hide Layout.Id, Layout.Zero, Layout.Ones, Kept;
    assert e.table[..e.used] == e.table;
    OverlayOnBlank(l, e, Blanks(l.slots), false);
    assert Kept(l, e.table) + [] == Kept(l, e.table);
    Unmarked(Kept(l, e.table));
  }

  lemma CopiedDead(l: Layout, e: Extent, b: Table)
    requires l.Valid() && WellFormed(l, e) && |b| == l.slots > FIRST_SECTOR && OnlyFirstSector(l, e)
    ensures var c := Overlay(FirstSectorErased(b), e.table); EndOf(l, c) == |c| && Kept(l, c) == Kept(l, e.table)
  {
    var t, c := e.table, Overlay(FirstSectorErased(b), e.table);
    UsedIds(l, e);
    ZeroIsNotOnes(l);
    hide Layout.Id, Layout.Zero, Layout.Ones, Kept, Cleared;
    forall i | 0 <= i < |t| ensures if i < FIRST_SECTOR then c[i] == t[i] else l.Id(c[i]) == l.Zero() {
      if i < FIRST_SECTOR {
        ClearedBlank(t[i]);
      } else {
        DeadStays(l, b[i], t[i]);
      }
    }
    EndAt(l, c, |c|);
    SameKept(l, t, c);
  }

  lemma SameKept(l: Layout, t: Table, c: Table)
    requires l.Valid() && |t| == |c| > FIRST_SECTOR
    requires forall i :: 0 <= i < FIRST_SECTOR ==> c[i] == t[i]
    requires forall i :: FIRST_SECTOR <= i < |t| ==> l.Id(t[i]) == l.Zero() && l.Id(c[i]) == l.Zero()
    ensures Kept(l, c) == Kept(l, t)
  {
    hide Layout.Id, Layout.Zero, Kept;
    assert t == t[..FIRST_SECTOR] + t[FIRST_SECTOR..] && c == c[..FIRST_SECTOR] + c[FIRST_SECTOR..];
    KeptOfSum(l, t[..FIRST_SECTOR], t[FIRST_SECTOR..]);
    KeptOfSum(l, c[..FIRST_SECTOR], c[FIRST_SECTOR..]);
    AllDead(l, t[FIRST_SECTOR..]);
    AllDead(l, c[FIRST_SECTOR..]);
    assert t[..FIRST_SECTOR] == c[..FIRST_SECTOR];
  }

  /** A stale slot of zeros takes out a record beyond the first sector. */
  lemma GapTasks(l: Layout, e: Extent, k: nat)
    requires l.Valid() && WellFormed(l, e) && e.used == l.slots && FIRST_SECTOR <= k < l.slots && l.Id(e.table[k]) != l.Zero()
    ensures TasksAligned(l, e.table, Gap(l, k)) != Compacted(l, e, false)
  {
    hide Layout.Valid, Layout.Id, Layout.Zero, Layout.Ones, Kept, Written, EndOf, WellFormed, Gap, Zeros, Overlay, Compacted, Cleared;
    var t := e.table;
    WellSized(l, e);
    CopiedOverGap(l, t, k);
    WrittenOverGap(l, e, k);
    KeptAround(l, t, k);
    OverlayOnBlanks(l, e);
    var w := Kept(l, t[..k]) + Kept(l, t[k + 1..]);
    LastBlank(l, e, w);
  }

  lemma KeptAround(l: Layout, t: Table, k: nat)
    requires l.Valid() && k < |t| && l.Id(t[k]) != l.Zero()
    ensures |Kept(l, t)| == |Kept(l, t[..k])| + 1 + |Kept(l, t[k + 1..])|
  {
    hide Layout.Id, Layout.Zero, Kept;
    assert t == (t[..k] + [t[k]]) + t[k + 1..];
    KeptOfSum(l, t[..k] + [t[k]], t[k + 1..]);
    KeptSnoc(l, t[..k], t[k]);
  }

  lemma LastBlank(l: Layout, e: Extent, w: Table)
    requires l.Valid() && WellFormed(l, e) && e.used == l.slots && |w| == |Kept(l, e.table)| - 1
    ensures |w| <= l.slots && Overlay(Blanks(l.slots), w) != Overlay(Blanks(l.slots), Kept(l, e.table))
  {
    var k := Kept(l, e.table);
    var n := |k| - 1;
    UsedIds(l, e);
    KeptFrom(l, e.table, n);
    BlankId(l);
    hide Layout.Id, Layout.Zero, Layout.Ones, Kept, Cleared;
    ClearedBlank(k[n]);
    assert Overlay(Blanks(l.slots), w)[n] == Blank(RECORD);
    assert Overlay(Blanks(l.slots), k)[n] == k[n];
  }

  lemma {:induction false} KeptFrom(l: Layout, t: Table, n: nat)
    requires l.Valid() && n < |Kept(l, t)|
    ensures Kept(l, t)[n] in t
  {
    hide Layout.Id, Layout.Zero;
    var p := t[..|t| - 1];
    if n < |Kept(l, p)| {
      KeptFrom(l, p, n);
    }
  }

  /**
   The task table is compacted whatever the backup region held before if and only if fewer than 512 of its slots are used,
   or it is full with nothing but tombstones beyond its first sector.
   */
  lemma TasksCompactedAlways(l: Layout, e: Extent)
    requires l.Valid() && WellFormed(l, e) && l.slots > FIRST_SECTOR
    ensures (forall b: Table :: |b| == l.slots ==> TasksAligned(l, e.table, b) == Compacted(l, e, false))
       <==> e.used < FIRST_SECTOR || OnlyFirstSector(l, e)
  {
    assert e.used < l.slots ==> !OnlyFirstSector(l, e);
    hide WellFormed, TasksAligned, Compacted, Layout.Valid, Layout.Id, Layout.Zero;
    WellSized(l, e);
    if e.used < l.slots {
      TasksCompactedNotFull(l, e);
    } else if OnlyFirstSector(l, e) {
      forall b: Table | |b| == l.slots ensures TasksAligned(l, e.table, b) == Compacted(l, e, false) {
        DeadTasks(l, e, b);
      }
    } else {
      var k :| FIRST_SECTOR <= k < l.slots && l.Id(e.table[k]) != l.Zero();
      GapTasks(l, e, k);
    }
  }
}
