/**
 Compaction of a record table through the backup region: the table is copied to the backup, erased, and its records
 that are not tombstones are written back one after another. The erase helpers step by 1000 bytes and so reach only the
 first sector of a region, that is its first 512 slots.
 */
module Compaction {
  import opened NorFlash
  import S = SlotTable
  import opened RecordTable

  const FIRST_SECTOR := 512
  const FINGER := 88

  // ---- what compaction is for ----

  /** The records that are not tombstones, in order. */
  function Kept(l: Layout, t: Table): (k: Table)
    requires l.Valid()
    ensures |k| <= |t|
  {
    if t == [] then [] else Kept(l, t[..|t| - 1]) + if l.Id(t[|t| - 1]) != l.Zero() then [t[|t| - 1]] else []
  }

  function Blanks(n: nat): (t: Table)
    ensures |t| == n
  {
    seq(n, _ => Blank(RECORD))
  }

  /** The fingerprint variant also turns a finger flag of 0 into 0xFF. */
  function Mark(bio: bool, r: Record): Record {
    if bio && r[FINGER] == 0 then r[FINGER := 0xFF] else r
  }

  function MarkAll(bio: bool, t: Table): (m: Table)
    ensures |m| == |t|
  {
    seq(|t|, i requires 0 <= i < |t| => Mark(bio, t[i]))
  }

  function Compacted(l: Layout, e: Extent, bio: bool): (t: Table)
    requires l.Valid() && e.used <= |e.table|
    ensures |t| == |e.table|
  {
    var k := Kept(l, e.table[..e.used]);
    MarkAll(bio, k) + Blanks(|e.table| - |k|)
  }

  // ---- what the code does ----

  function ErasedOr(erased: bool, r: Record): Record {
    if erased then Blank(RECORD) else r
  }

  function FirstSectorErased(t: Table): (e: Table)
    ensures |e| == |t|
  {
    seq(|t|, i requires 0 <= i < |t| => ErasedOr(i < FIRST_SECTOR, t[i]))
  }

  /** Records written over the first slots of a table. */
  function Overlay(t: Table, w: Table): (o: Table)
    requires |w| <= |t|
    ensures |o| == |t|
  {
    seq(|t|, i requires 0 <= i < |t| => if i < |w| then Cleared(t[i], w[i]) else t[i])
  }

  /** The records the second loop writes: it stops at the first terminator, after having written it too. */
  function Written(l: Layout, b: Table): (w: Table)
    requires l.Valid()
    ensures |w| <= |b|
  {
    var n := EndOf(l, b);
    Kept(l, b[..n]) + if n < |b| then [b[n]] else []
  }

  function UsersAligned(l: Layout, t: Table, b: Table, bio: bool): (a: Table)
    requires l.Valid() && |t| == |b| == l.slots
    ensures |a| == l.slots
  {
    Overlay(FirstSectorErased(t), MarkAll(bio, Written(l, Overlay(FirstSectorErased(b), t[..EndOf(l, t)]))))
  }

  /** The task variant copies every slot and erases both of its own sectors. */
  function TasksAligned(l: Layout, t: Table, b: Table): (a: Table)
    requires l.Valid() && |t| == |b| == l.slots
    ensures |a| == l.slots
  {
    Overlay(Blanks(l.slots), Written(l, Overlay(FirstSectorErased(b), t)))
  }

  // ---- compaction keeps the meaning ----

  /** The mark takes a finger flag that is 0 back to 0xFF, and nothing else. */
  lemma MarkedByte(bio: bool, r: Record, k: nat)
    requires k < RECORD
    ensures Mark(bio, r)[k] == if bio && k == 88 && r[k] == 0 then 0xFF else r[k]
  {
  }

  lemma MarkKeepsId(l: Layout, bio: bool, r: Record)
    requires l.Valid() && (bio ==> l.idAt + l.idLen <= FINGER)
    ensures l.Id(Mark(bio, r)) == l.Id(r)
    ensures Mark(bio, Mark(bio, r)) == Mark(bio, r)
    ensures Mark(bio, Blank(RECORD)) == Blank(RECORD)
    ensures Mark(false, r) == r
  {
  }

  lemma KeptSnoc(l: Layout, t: Table, r: Record)
    requires l.Valid()
    ensures Kept(l, t + [r]) == if l.Id(r) != l.Zero() then Kept(l, t) + [r] else Kept(l, t)
  {
    assert (t + [r])[..|t|] == t;
  }

  lemma SlotsSnoc(l: Layout, t: Table, r: Record, bio: bool)
    requires l.Valid() && (bio ==> l.idAt + l.idLen <= FINGER)
    ensures Slots(l, MarkAll(bio, t + [r])) == Slots(l, MarkAll(bio, t)) + [SlotOf(l, Mark(bio, r))]
    ensures SlotOf(l, Mark(bio, r)).Live? <==> l.Id(r) != l.Zero() && l.Id(r) != l.Ones()
  {
    MarkKeepsId(l, bio, r);
    hide Mark, Layout.Id, Layout.Zero, Layout.Ones;
  }

  lemma {:induction false} KeptSlots(l: Layout, t: Table, bio: bool)
    requires l.Valid() && (bio ==> l.idAt + l.idLen <= FINGER)
    requires forall i :: 0 <= i < |t| ==> l.Id(t[i]) != l.Ones()
    ensures Slots(l, MarkAll(bio, Kept(l, t))) == S.LiveOnly(Slots(l, MarkAll(bio, t)))
  {
    hide Layout.Valid, Layout.Id, Layout.Zero, Layout.Ones, Mark, MarkAll, SlotOf, Slots, S.LiveOnly, Kept;
    if t == [] {
      NothingKept(l, bio);
    } else {
      var p, r := t[..|t| - 1], t[|t| - 1];
      assert t == p + [r];
      KeptSlots(l, p, bio);
      KeptSnoc(l, p, r);
      SlotsSnoc(l, p, r, bio);
      SlotsSnoc(l, Kept(l, p), r, bio);
      S.LiveOnlySnoc(Slots(l, MarkAll(bio, p)), SlotOf(l, Mark(bio, r)));
    }
  }

  lemma NothingKept(l: Layout, bio: bool)
    requires l.Valid()
    ensures Slots(l, MarkAll(bio, Kept(l, []))) == S.LiveOnly(Slots(l, MarkAll(bio, [])))
  {
  }

  lemma WellSized(l: Layout, e: Extent)
    requires l.Valid() && WellFormed(l, e)
    ensures e.used <= |e.table| == l.slots
  {
  }

  lemma EndIsBlank(l: Layout, e: Extent)
    requires l.Valid() && WellFormed(l, e) && e.used < l.slots
    ensures e.table[e.used] == Blank(RECORD)
  {
  }

  lemma MarkedMeans(l: Layout, e: Extent, bio: bool)
    requires l.Valid() && WellFormed(l, e) && (bio ==> l.idAt + l.idLen <= FINGER)
    ensures WellFormed(l, Extent(MarkAll(bio, e.table), e.used))
    ensures Meaning(l, Extent(MarkAll(bio, e.table), e.used)).records
         == map k | k in Meaning(l, e).records :: Mark(bio, Meaning(l, e).records[k])
  {
    var t := MarkAll(bio, e.table);
    var s, s' := Slots(l, e.table), Slots(l, t);
    forall i | 0 <= i < |t| ensures s'[i] == if s[i].Live? then S.Live(s[i].id, Mark(bio, s[i].record)) else s[i] {
      MarkKeepsId(l, bio, e.table[i]);
    }
    MarkKeepsId(l, bio, Blank(RECORD));
    hide SlotOf, Slots, Mark, Layout.Id, Layout.Zero, Layout.Ones;
    assert WellFormed(l, Extent(t, e.used));
    MappedMeans(s, s', r => Mark(bio, r));
  }

  lemma MappedMeans<K(!new), R>(s: seq<S.Slot<K, R>>, s': seq<S.Slot<K, R>>, f: R -> R)
    requires S.DistinctIds(s) && S.DistinctIds(s') && |s| == |s'|
    requires forall i :: 0 <= i < |s| ==> s'[i] == if s[i].Live? then S.Live(s[i].id, f(s[i].record)) else s[i]
    ensures S.Contents(s') == map k | k in S.Contents(s) :: f(S.Contents(s)[k])
  {
    hide S.Contents, S.DistinctIds;
    var m := map k | k in S.Contents(s) :: f(S.Contents(s)[k]);
    forall k | k in S.Contents(s') ensures k in m && m[k] == S.Contents(s')[k] {
      var i := S.InIsLive(s', k);
      S.LiveIsIn(s, i);
    }
    forall k | k in m ensures k in S.Contents(s') {
      var i := S.InIsLive(s, k);
      S.LiveIsIn(s', i);
    }
  }

  lemma CompactedSlots(l: Layout, e: Extent, bio: bool)
    requires l.Valid() && WellFormed(l, e) && (bio ==> l.idAt + l.idLen <= FINGER)
    ensures var f := S.LiveOnly(Slots(l, MarkAll(bio, e.table))[..e.used]);
            && |f| == |Kept(l, e.table[..e.used])|
            && Slots(l, Compacted(l, e, bio)) == f + seq(l.slots - |f|, _ => S.Free)
  {
    hide Layout.Valid, Layout.Id, Layout.Zero, Layout.Ones, Mark, MarkAll, Kept, Slots, S.LiveOnly, S.WellFormed, WellFormed;
    WellSized(l, e);
    var t := e.table[..e.used];
    var k := Kept(l, t);
    UsedIds(l, e);
    KeptSlots(l, t, bio);
    SlotsOfPrefix(l, e.table, e.used, bio);
    SlotsOfBlanks(l, l.slots - |k|);
    SlotsOfSum(l, MarkAll(bio, k), Blanks(l.slots - |k|));
  }

  lemma UsedIds(l: Layout, e: Extent)
    requires l.Valid() && WellFormed(l, e)
    ensures forall i :: 0 <= i < e.used ==> l.Id(e.table[i]) != l.Ones()
  {
    hide Layout.Id, Layout.Zero, Layout.Ones;
    forall i | 0 <= i < e.used ensures l.Id(e.table[i]) != l.Ones() {
      assert Slots(l, e.table)[i] == SlotOf(l, e.table[i]);
    }
  }

  lemma SlotsOfPrefix(l: Layout, t: Table, n: nat, bio: bool)
    requires l.Valid() && n <= |t|
    ensures Slots(l, MarkAll(bio, t[..n])) == Slots(l, MarkAll(bio, t))[..n]
  {
    hide SlotOf, Mark;
  }

  lemma SlotsOfBlanks(l: Layout, n: nat)
    requires l.Valid()
    ensures Slots(l, Blanks(n)) == seq(n, _ => S.Free)
  {
    BlankIsFree(l);
    hide SlotOf;
  }

  lemma SlotsOfSum(l: Layout, a: Table, b: Table)
    requires l.Valid()
    ensures Slots(l, a + b) == Slots(l, a) + Slots(l, b)
  {
    hide SlotOf;
  }

  lemma BlankIsFree(l: Layout)
    requires l.Valid()
    ensures SlotOf(l, Blank(RECORD)) == S.Free
  {
    BlankId(l);
  }

  /** A compacted table is well formed, has one slot used for each live record, and finds the same records. */
  lemma CompactedMeans(l: Layout, e: Extent, bio: bool)
    requires l.Valid() && WellFormed(l, e) && (bio ==> l.idAt + l.idLen <= FINGER)
    ensures var c := Extent(Compacted(l, e, bio), |Kept(l, e.table[..e.used])|);
            && WellFormed(l, c)
            && Meaning(l, c).records == map k | k in Meaning(l, e).records :: Mark(bio, Meaning(l, e).records[k])
  {
    hide Layout.Valid, Layout.Id, Layout.Zero, Layout.Ones, Mark, MarkAll, Kept, Compacted, S.LiveOnly, Slots, S.WellFormed, S.Contents;
    WellSized(l, e);
    MarkedMeans(l, e, bio);
    CompactedSlots(l, e, bio);
    CompactedTail(l, e, bio);
    S.LiveOnlyMeans(Slots(l, MarkAll(bio, e.table)), e.used);
  }

  lemma CompactedTail(l: Layout, e: Extent, bio: bool)
    requires l.Valid() && e.used <= |e.table|
    ensures ErasedFrom(Compacted(l, e, bio), |Kept(l, e.table[..e.used])|)
    ensures var k := Kept(l, e.table[..e.used]); Compacted(l, e, bio)[..|k|] == MarkAll(bio, k)
  {
  }

  // ---- what the code achieves ----

  lemma {:induction false} KeptOfKept(l: Layout, t: Table)
    requires l.Valid()
    ensures Kept(l, Kept(l, t)) == Kept(l, t)
    ensures |Kept(l, t)| == |t| ==> Kept(l, t) == t
  {
    hide Layout.Id, Layout.Zero, Kept;
    if t == [] {
      KeptOfNothing(l);
    } else {
      var p, r := t[..|t| - 1], t[|t| - 1];
      assert t == p + [r];
      KeptOfKept(l, p);
      KeptSnoc(l, p, r);
      KeptSnoc(l, Kept(l, p), r);
    }
  }

  lemma KeptOfNothing(l: Layout)
    requires l.Valid()
    ensures Kept(l, []) == [] && AllKept(l, [])
  {
  }

  /** The backup holds the used slots, and the end of the table after them. */
  predicate BackupHolds(l: Layout, e: Extent, b: Table)
    requires l.Valid() && e.used <= |e.table| == l.slots
  {
    && |b| == l.slots && b[..e.used] == e.table[..e.used]
    && (e.used < l.slots ==> b[e.used] == Blank(RECORD))
  }

  lemma WrittenFromBackup(l: Layout, e: Extent, b: Table)
    requires l.Valid() && WellFormed(l, e) && BackupHolds(l, e, b)
    ensures Written(l, b) == Kept(l, e.table[..e.used]) + (if e.used < l.slots then [Blank(RECORD)] else [])
  {
    UsedIds(l, e);
    hide Layout.Id, Layout.Zero, Layout.Ones, Kept;
    forall i | 0 <= i < e.used ensures b[i] == e.table[i] {
      assert b[i] == b[..e.used][i] == e.table[..e.used][i];
    }
    BlankId(l);
    EndAt(l, b, e.used);
  }

  lemma EndAt(l: Layout, b: Table, n: nat)
    requires l.Valid() && n <= |b|
    requires forall i :: 0 <= i < n ==> l.Id(b[i]) != l.Ones()
    requires n < |b| ==> l.Id(b[n]) == l.Ones()
    ensures EndOf(l, b) == n
  {
  }

  /** Writing the kept records over slots that are blank gives the compacted table. */
  lemma OverlayOnBlank(l: Layout, e: Extent, d: Table, bio: bool)
    requires l.Valid() && WellFormed(l, e) && |d| == l.slots && (bio ==> l.idAt + l.idLen <= FINGER)
    requires forall i :: 0 <= i < l.slots ==> d[i] == Blank(RECORD)
    ensures var w := Kept(l, e.table[..e.used]) + (if e.used < l.slots then [Blank(RECORD)] else []);
            |w| <= l.slots && Overlay(d, MarkAll(bio, w)) == Compacted(l, e, bio)
  {
    var k := Kept(l, e.table[..e.used]);
    var w := k + (if e.used < l.slots then [Blank(RECORD)] else []);
    MarkKeepsId(l, bio, Blank(RECORD));
    hide Layout.Id, Layout.Zero, Layout.Ones, Kept, Mark, Cleared;
    forall i | 0 <= i < l.slots ensures Overlay(d, MarkAll(bio, w))[i] == Compacted(l, e, bio)[i] {
      if i < |w| {
        ClearedBlank(MarkAll(bio, w)[i]);
      }
    }
  }

  lemma ClearedBlank(r: Record)
    ensures Cleared(Blank(RECORD), r) == r && Cleared(r, Blank(RECORD)) == r && Cleared(r, r) == r
  {
    hide And;
  }

  /** A second compaction changes nothing. */
  lemma CompactedTwice(l: Layout, e: Extent, bio: bool)
    requires l.Valid() && WellFormed(l, e) && (bio ==> l.idAt + l.idLen <= FINGER)
    ensures var c := Extent(Compacted(l, e, bio), |Kept(l, e.table[..e.used])|); Compacted(l, c, bio) == c.table
  {
    hide Layout.Valid, Layout.Id, Layout.Zero, Layout.Ones, Kept, WellFormed, Mark, MarkAll;
    WellSized(l, e);
    var k := Kept(l, e.table[..e.used]);
    KeptOfKept(l, e.table[..e.used]);
    KeptOfMarked(l, k, bio);
    CompactedTail(l, e, bio);
    MarkedTwice(l, k, bio);
  }

  lemma MarkedTwice(l: Layout, t: Table, bio: bool)
    requires l.Valid() && (bio ==> l.idAt + l.idLen <= FINGER)
    ensures MarkAll(bio, MarkAll(bio, t)) == MarkAll(bio, t)
  {
  }

  lemma {:induction false} KeptOfMarked(l: Layout, t: Table, bio: bool)
    requires l.Valid() && (bio ==> l.idAt + l.idLen <= FINGER)
    ensures Kept(l, MarkAll(bio, t)) == MarkAll(bio, Kept(l, t))
  {
    hide Layout.Id, Layout.Zero, Kept, Mark;
    if t == [] {
      KeptOfNothing(l);
    } else {
      var p, r := t[..|t| - 1], t[|t| - 1];
      assert t == p + [r] && MarkAll(bio, t) == MarkAll(bio, p) + [Mark(bio, r)];
      KeptOfMarked(l, p, bio);
      MarkKeepsId(l, bio, r);
      KeptSnoc(l, p, r);
      KeptSnoc(l, MarkAll(bio, p), Mark(bio, r));
      assert MarkAll(bio, Kept(l, p) + [r]) == MarkAll(bio, Kept(l, p)) + [Mark(bio, r)];
    }
  }

  predicate ErasedFrom(t: Table, n: nat) {
    forall i :: n <= i < |t| ==> t[i] == Blank(RECORD)
  }

  lemma UsersBackedUp(l: Layout, e: Extent, b: Table)
    requires l.Valid() && WellFormed(l, e) && |b| == l.slots && (e.used < FIRST_SECTOR || ErasedFrom(b, FIRST_SECTOR))
    ensures BackupHolds(l, e, Overlay(FirstSectorErased(b), e.table[..e.used]))
  {
    hide Cleared;
    forall i | 0 <= i < e.used ensures Cleared(Blank(RECORD), e.table[i]) == e.table[i] {
      ClearedBlank(e.table[i]);
    }
  }

  /** Fewer than 512 used slots: the user table is compacted whatever the backup region held before. */
  lemma UsersCompacted(l: Layout, e: Extent, b: Table, bio: bool)
    requires l.Valid() && WellFormed(l, e) && |b| == l.slots && (bio ==> l.idAt + l.idLen <= FINGER)
    requires e.used < FIRST_SECTOR
    ensures UsersAligned(l, e.table, b, bio) == Compacted(l, e, bio)
  {
    UsersRewritten(l, e, b, bio);
    OverlayOnErased(l, e, bio);
  }

  /** Below 512 used slots a second compaction of the user table changes nothing, whatever the backup holds by then. */
  lemma UsersAlignedTwice(l: Layout, e: Extent, b: Table, b': Table, bio: bool)
    requires l.Valid() && WellFormed(l, e) && |b| == |b'| == l.slots && (bio ==> l.idAt + l.idLen <= FINGER)
    requires e.used < FIRST_SECTOR
    ensures var once := UsersAligned(l, e.table, b, bio); UsersAligned(l, once, b', bio) == once
  {
    hide *;
    WellSized(l, e);
    var c := Extent(Compacted(l, e, bio), |Kept(l, e.table[..e.used])|);
    UsersCompacted(l, e, b, bio);
    CompactedMeans(l, e, bio);
    UsersCompacted(l, c, b', bio);
    CompactedTwice(l, e, bio);
  }

  /** No tombstone, and no finger flag left to set beyond the first sector. */
  predicate NothingToDo(l: Layout, e: Extent, bio: bool)
    requires l.Valid() && e.used <= |e.table|
  {
    && AllKept(l, e.table[..e.used])
    && Marked(e, bio)
  }

  predicate Marked(e: Extent, bio: bool)
    requires e.used <= |e.table|
  {
    forall i :: FIRST_SECTOR <= i < e.used ==> Mark(bio, e.table[i]) == e.table[i]
  }

  predicate AllKept(l: Layout, t: Table)
    requires l.Valid()
  {
    forall i :: 0 <= i < |t| ==> l.Id(t[i]) != l.Zero()
  }

  lemma AllKeptSnoc(l: Layout, t: Table, r: Record)
    requires l.Valid()
    ensures AllKept(l, t + [r]) <==> AllKept(l, t) && l.Id(r) != l.Zero()
  {
    hide Layout.Id, Layout.Zero;
    assert forall i :: 0 <= i < |t| ==> (t + [r])[i] == t[i];
    assert (t + [r])[|t|] == r;
  }

  lemma {:induction false} NoTombstones(l: Layout, t: Table)
    requires l.Valid()
    ensures |Kept(l, t)| == |t| <==> AllKept(l, t)
    ensures |Kept(l, t)| == |t| ==> Kept(l, t) == t
  {
    hide Kept, AllKept, Layout.Id, Layout.Zero;
    if t == [] {
      KeptOfNothing(l);
    } else {
      var p, r := t[..|t| - 1], t[|t| - 1];
      assert t == p + [r];
      NoTombstones(l, p);
      KeptSnoc(l, p, r);
      AllKeptSnoc(l, p, r);
    }
  }

  /** What the second loop writes when the backup is good: the kept records and the end of the table. */
  function Rewritten(l: Layout, e: Extent): (w: Table)
    requires l.Valid() && e.used <= |e.table|
    ensures |w| <= |e.table|
  {
    Kept(l, e.table[..e.used]) + if e.used < |e.table| then [Blank(RECORD)] else []
  }

  lemma UsersRewritten(l: Layout, e: Extent, b: Table, bio: bool)
    requires l.Valid() && WellFormed(l, e) && |b| == l.slots && (e.used < FIRST_SECTOR || ErasedFrom(b, FIRST_SECTOR))
    ensures UsersAligned(l, e.table, b, bio) == Overlay(FirstSectorErased(e.table), MarkAll(bio, Rewritten(l, e)))
  {
    EndIsUsed(l, e);
    UsersBackedUp(l, e, b);
    WrittenFromBackup(l, e, Overlay(FirstSectorErased(b), e.table[..e.used]));
  }

  /**
   With a backup region that is erased beyond its first sector, the user table ends up compacted exactly when it uses
   no more than 512 slots, or has nothing to compact.
   */
  lemma UsersCompactedExactly(l: Layout, e: Extent, b: Table, bio: bool)
    requires l.Valid() && WellFormed(l, e) && |b| == l.slots && (bio ==> l.idAt + l.idLen <= FINGER)
    requires ErasedFrom(b, FIRST_SECTOR)
    ensures UsersAligned(l, e.table, b, bio) == Compacted(l, e, bio) <==> e.used <= FIRST_SECTOR || NothingToDo(l, e, bio)
  {
    assert e.used <= |e.table| == l.slots;
    hide *;
    UsersRewritten(l, e, b, bio);
    NothingToDoMeans(l, e, bio);
    if e.used <= FIRST_SECTOR {
      OverlayOnErased(l, e, bio);
    } else if |Kept(l, e.table[..e.used])| < e.used {
      LastSlotStays(l, e, bio);
      LastSlotFree(l, e, bio);
    } else {
      NothingMoves(l, e, bio);
    }
  }

  lemma NothingToDoMeans(l: Layout, e: Extent, bio: bool)
    requires l.Valid() && e.used <= |e.table|
    ensures NothingToDo(l, e, bio) <==> |Kept(l, e.table[..e.used])| == e.used && Marked(e, bio)
    ensures |Kept(l, e.table[..e.used])| == e.used ==> Kept(l, e.table[..e.used]) == e.table[..e.used]
  {
    NoTombstones(l, e.table[..e.used]);
  }

  lemma OverlayOnErased(l: Layout, e: Extent, bio: bool)
    requires l.Valid() && WellFormed(l, e) && (bio ==> l.idAt + l.idLen <= FINGER) && e.used <= FIRST_SECTOR
    ensures Overlay(FirstSectorErased(e.table), MarkAll(bio, Rewritten(l, e))) == Compacted(l, e, bio)
  {
    OverlayOnBlank(l, e, FirstSectorErased(e.table), bio);
  }

  lemma LastSlotFree(l: Layout, e: Extent, bio: bool)
    requires l.Valid() && e.used <= |e.table| && |Kept(l, e.table[..e.used])| < e.used
    ensures Compacted(l, e, bio)[e.used - 1] == Blank(RECORD)
  {
  }

  /** The last used slot lies beyond what was erased and beyond what is written. */
  lemma LastSlotStays(l: Layout, e: Extent, bio: bool)
    requires l.Valid() && WellFormed(l, e) && e.used > FIRST_SECTOR
    requires |Kept(l, e.table[..e.used])| < e.used
    ensures Overlay(FirstSectorErased(e.table), MarkAll(bio, Rewritten(l, e)))[e.used - 1] != Blank(RECORD)
  {
    hide Kept;
    ClearedBlank(e.table[e.used - 1]);
    hide Cleared;
    UsedIds(l, e);
    BlankId(l);
  }

  lemma NothingMoves(l: Layout, e: Extent, bio: bool)
    requires l.Valid() && WellFormed(l, e) && (bio ==> l.idAt + l.idLen <= FINGER)
    requires Kept(l, e.table[..e.used]) == e.table[..e.used]
    ensures Overlay(FirstSectorErased(e.table), MarkAll(bio, Rewritten(l, e))) == Compacted(l, e, bio)
       <==> Marked(e, bio)
  {
    hide Kept, Overlay, FirstSectorErased, Compacted, Rewritten, Mark, MarkAll, WellFormed, Layout.Valid, Layout.Id, Layout.Ones;
    WellSized(l, e);
    var a, c := Overlay(FirstSectorErased(e.table), MarkAll(bio, Rewritten(l, e))), Compacted(l, e, bio);
    forall i | 0 <= i < l.slots
      ensures a[i] == c[i] <==> FIRST_SECTOR <= i < e.used ==> Mark(bio, e.table[i]) == e.table[i]
    {
      SlotMoves(l, e, bio, i);
    }
    assert a == c <==> forall i :: 0 <= i < l.slots ==> a[i] == c[i];
  }

  lemma SlotMoves(l: Layout, e: Extent, bio: bool, i: nat)
    requires l.Valid() && WellFormed(l, e) && (bio ==> l.idAt + l.idLen <= FINGER) && i < l.slots
    requires Kept(l, e.table[..e.used]) == e.table[..e.used]
    ensures Overlay(FirstSectorErased(e.table), MarkAll(bio, Rewritten(l, e)))[i] == Compacted(l, e, bio)[i]
       <==> FIRST_SECTOR <= i < e.used ==> Mark(bio, e.table[i]) == e.table[i]
  {
    hide Kept, Cleared, Layout.Id, Layout.Zero, Layout.Ones;
    MarkKeepsId(l, bio, Blank(RECORD));
    OneSlotMoves(e.table[i], bio);
    ClearedBlank(Blank(RECORD));
  }

  /** Marking in place works on an erased slot, and does nothing to a record whose finger flag is already 0. */
  lemma OneSlotMoves(r: Record, bio: bool)
    ensures Cleared(Blank(RECORD), Mark(bio, r)) == Mark(bio, r)
    ensures Cleared(r, Mark(bio, r)) == Mark(bio, r) <==> Mark(bio, r) == r
    ensures Cleared(r, r) == r && Cleared(r, Blank(RECORD)) == r
  {
    ClearedBlank(r);
    ClearedBlank(Mark(bio, r));
    if Mark(bio, r) != r {
      assert Cleared(r, Mark(bio, r))[FINGER] == 0;
    }
  }

  // ---- what stale backup slots do ----

  function Junk(): Record {
    seq(RECORD, _ => 1)
  }

  /** A backup region that is erased but for one slot. */
  function Stale(l: Layout, n: nat): (b: Table)
    requires n < l.slots
    ensures |b| == l.slots
  {
    Blanks(l.slots)[n := Junk()]
  }

  lemma JunkIsLive(l: Layout, bio: bool)
    requires l.Valid()
    ensures l.Id(Junk()) != l.Zero() && l.Id(Junk()) != l.Ones()
    ensures Mark(bio, Junk()) == Junk() && Junk() != Blank(RECORD)
    ensures Cleared(Blank(RECORD), Junk()) == Junk() && Cleared(Junk(), Blank(RECORD)) == Junk()
  {
    ClearedBlank(Junk());
    assert l.Id(Junk())[0] == 1 && l.Zero()[0] == 0 && l.Ones()[0] == 0xFF;
    assert Junk()[0] == 1;
  }

  lemma JunkIsWritten(l: Layout, e: Extent, b: Table)
    requires l.Valid() && WellFormed(l, e) && e.used < |b| == l.slots
    requires b[..e.used] == e.table[..e.used] && b[e.used] == Junk() && ErasedFrom(b, e.used + 1)
    ensures var n := |Kept(l, e.table[..e.used])|; n < |Written(l, b)| && Written(l, b)[n] == Junk()
  {
    hide Layout.Valid, Layout.Id, Layout.Zero, Layout.Ones, Kept, Junk, WellFormed, ErasedFrom, EndOf;
    WellSized(l, e);
    var n := if e.used + 1 < l.slots then e.used + 1 else l.slots;
    EndAfterJunk(l, e, b, n);
    JunkIsLive(l, false);
    KeptSnoc(l, e.table[..e.used], Junk());
    assert b[..n] == e.table[..e.used] + [Junk()];
  }

  lemma EndAfterJunk(l: Layout, e: Extent, b: Table, n: nat)
    requires l.Valid() && WellFormed(l, e) && e.used < |b| == l.slots
    requires b[..e.used] == e.table[..e.used] && b[e.used] == Junk() && ErasedFrom(b, e.used + 1)
    requires n == if e.used + 1 < l.slots then e.used + 1 else l.slots
    ensures EndOf(l, b) == n
  {
    UsedIds(l, e);
    JunkIsLive(l, false);
    hide Layout.Id, Layout.Zero, Layout.Ones, Junk, EndOf;
    forall i | 0 <= i < n ensures l.Id(b[i]) != l.Ones() {
      assert i < e.used ==> b[i] == b[..e.used][i] == e.table[..e.used][i];
    }
    BlankId(l);
    EndAt(l, b, n);
  }

  /** A stale record past the end of the copied table is taken for a record of the table. */
  lemma JunkShows(l: Layout, e: Extent, b: Table, d: Table, bio: bool)
    requires l.Valid() && WellFormed(l, e) && e.used < |b| == l.slots == |d|
    requires b[..e.used] == e.table[..e.used] && b[e.used] == Junk() && ErasedFrom(b, e.used + 1)
    requires d[|Kept(l, e.table[..e.used])|] == Blank(RECORD)
    ensures Overlay(d, MarkAll(bio, Written(l, b))) != Compacted(l, e, bio)
  {
    var n := |Kept(l, e.table[..e.used])|;
    JunkIsWritten(l, e, b);
    JunkIsLive(l, bio);
    hide Kept, Written, Junk, Mark, Cleared, WellFormed, Layout.Id, Layout.Zero, Layout.Ones;
    assert Overlay(d, MarkAll(bio, Written(l, b)))[n] == Junk();
    assert Compacted(l, e, bio)[n] == Blank(RECORD);
  }

  lemma StaleUsers(l: Layout, e: Extent, bio: bool)
    requires l.Valid() && WellFormed(l, e) && FIRST_SECTOR <= e.used < l.slots
    requires e.used == FIRST_SECTOR || |Kept(l, e.table[..e.used])| == e.used
    ensures UsersAligned(l, e.table, Stale(l, e.used), bio) != Compacted(l, e, bio)
  {
    hide Cleared, Kept, WellFormed, Layout.Valid, Layout.Id, Layout.Zero, Layout.Ones;
    WellSized(l, e);
    EndIsBlank(l, e);
    var b := Overlay(FirstSectorErased(Stale(l, e.used)), e.table[..e.used]);
    EndIsUsed(l, e);
    forall i | 0 <= i < e.used ensures b[i] == e.table[i] {
      ClearedBlank(e.table[i]);
    }
    JunkShows(l, e, b, FirstSectorErased(e.table), bio);
  }

  /**
   Unless the user table is full, it is compacted whatever the backup region held before exactly when fewer than 512 of
   its slots are used.
   */
  lemma UsersCompactedNotFull(l: Layout, e: Extent, bio: bool)
    requires l.Valid() && WellFormed(l, e) && e.used < l.slots && (bio ==> l.idAt + l.idLen <= FINGER)
    ensures (forall b: Table :: |b| == l.slots ==> UsersAligned(l, e.table, b, bio) == Compacted(l, e, bio))
       <==> e.used < FIRST_SECTOR
  {
    if e.used < FIRST_SECTOR {
      forall b: Table | |b| == l.slots ensures UsersAligned(l, e.table, b, bio) == Compacted(l, e, bio) {
        UsersCompacted(l, e, b, bio);
      }
    } else if e.used == FIRST_SECTOR || |Kept(l, e.table[..e.used])| == e.used {
      StaleUsers(l, e, bio);
    } else {
      UsersCompactedExactly(l, e, Blanks(l.slots), bio);
      NothingToDoMeans(l, e, bio);
    }
  }

  // ---- tasks ----

  lemma TasksBackedUp(l: Layout, e: Extent, b: Table)
    requires l.Valid() && WellFormed(l, e) && |b| == l.slots && (e.used < FIRST_SECTOR || ErasedFrom(b, FIRST_SECTOR))
    ensures BackupHolds(l, e, Overlay(FirstSectorErased(b), e.table))
  {
    hide Cleared;
    forall i | 0 <= i < l.slots ensures Cleared(Blank(RECORD), e.table[i]) == e.table[i] {
      ClearedBlank(e.table[i]);
    }
  }

  /** The task table is compacted if it uses fewer than 512 slots or the backup region is erased beyond its first sector. */
  lemma TasksCompacted(l: Layout, e: Extent, b: Table)
    requires l.Valid() && WellFormed(l, e) && |b| == l.slots && (e.used < FIRST_SECTOR || ErasedFrom(b, FIRST_SECTOR))
    ensures TasksAligned(l, e.table, b) == Compacted(l, e, false)
  {
    TasksBackedUp(l, e, b);
    WrittenFromBackup(l, e, Overlay(FirstSectorErased(b), e.table));
    OverlayOnBlank(l, e, Blanks(l.slots), false);
    Unmarked(Rewritten(l, e));
  }

  /** A second compaction of the task table changes nothing, where each run has few enough slots or an erased backup. */
  lemma TasksAlignedTwice(l: Layout, e: Extent, b: Table, b': Table)
    requires l.Valid() && WellFormed(l, e) && |b| == |b'| == l.slots && (e.used < FIRST_SECTOR || ErasedFrom(b, FIRST_SECTOR))
    requires |Kept(l, e.table[..e.used])| < FIRST_SECTOR || ErasedFrom(b', FIRST_SECTOR)
    ensures var once := TasksAligned(l, e.table, b); TasksAligned(l, once, b') == once
  {
    hide *;
    WellSized(l, e);
    var c := Extent(Compacted(l, e, false), |Kept(l, e.table[..e.used])|);
    TasksCompacted(l, e, b);
    CompactedMeans(l, e, false);
    TasksCompacted(l, c, b');
    CompactedTwice(l, e, false);
  }

  lemma Unmarked(t: Table)
    ensures MarkAll(false, t) == t
  {
  }

  lemma StaleTasks(l: Layout, e: Extent)
    requires l.Valid() && WellFormed(l, e) && FIRST_SECTOR <= e.used < l.slots
    ensures TasksAligned(l, e.table, Stale(l, e.used)) != Compacted(l, e, false)
  {
    var b := Overlay(FirstSectorErased(Stale(l, e.used)), e.table);
    JunkIsLive(l, false);
    hide Cleared, Kept, Junk;
    forall i | 0 <= i < e.used ensures b[i] == e.table[i] {
      ClearedBlank(e.table[i]);
    }
    ClearedBlank(Blank(RECORD));
    JunkShows(l, e, b, Blanks(l.slots), false);
    Unmarked(Written(l, b));
  }

  /** The same limit of 512 slots holds for the task table when nothing is known of the backup region. */
  lemma TasksCompactedNotFull(l: Layout, e: Extent)
    requires l.Valid() && WellFormed(l, e) && e.used < l.slots
    ensures (forall b: Table :: |b| == l.slots ==> TasksAligned(l, e.table, b) == Compacted(l, e, false))
       <==> e.used < FIRST_SECTOR
  {
    if e.used < FIRST_SECTOR {
      forall b: Table | |b| == l.slots ensures TasksAligned(l, e.table, b) == Compacted(l, e, false) {
        TasksCompacted(l, e, b);
      }
    } else {
      StaleTasks(l, e);
    }
  }
}
