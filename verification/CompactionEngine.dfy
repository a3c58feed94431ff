/**
 The compaction loops over flash: the table and its backup region share one chip, and every record passes through one
 record in memory.
 */
module CompactionEngine {
  import opened NorFlash
  import opened RecordTable
  import opened RecordStore
  import opened Compaction

  const BACKUP := 0x1C_0000
  const ERASE_STEPS := 3
  const ERASE_STEP := 1000

  function Sectors(l: Layout): nat {
    (RECORD * l.slots + SECTOR - 1) / SECTOR
  }

  /** The sectors of a table's region. */
  predicate InRegion(l: Layout, k: int) {
    l.base <= k < l.base + SECTOR * Sectors(l)
  }

  predicate Apart(l: Layout, m: Layout) {
    l.base + SECTOR * Sectors(l) <= m.base || m.base + SECTOR * Sectors(m) <= l.base
  }

  /** Nothing outside the sectors of the two regions has changed. */
  predicate OnlyRegions(l: Layout, m: Layout, before: Bytes, after: Bytes)
    requires |before| == |after|
  {
    forall k :: 0 <= k < |before| && !InRegion(l, k) && !InRegion(m, k) ==> after[k] == before[k]
  }

  lemma RegionCovers(l: Layout)
    requires l.Valid()
    ensures RECORD * l.slots <= SECTOR * Sectors(l)
    ensures l.base + SECTOR * Sectors(l) <= CHIP_SIZE
  {
    assert l.base == SECTOR * (l.base / SECTOR);
  }

  /** A change confined to one region does not show in the table of another. */
  lemma OtherTable(l: Layout, m: Layout, before: Bytes, after: Bytes)
    requires l.Valid() && m.Valid() && Apart(l, m) && |before| == |after| == CHIP_SIZE
    requires forall k :: 0 <= k < CHIP_SIZE && !InRegion(m, k) ==> after[k] == before[k]
    ensures TableIn(l, after) == TableIn(l, before)
  {
    RegionCovers(l);
    RegionCovers(m);
    forall i | 0 <= i < l.slots ensures TableIn(l, after)[i] == TableIn(l, before)[i] {
      var at := SlotAt(l, i);
      assert forall k :: at <= k < at + RECORD ==> after[k] == before[k];
    }
  }

  lemma TableWithinRegion(m: Layout, before: Bytes, after: Bytes)
    requires m.Valid() && |before| == |after| == CHIP_SIZE && OnlyTable(m, before, after)
    ensures forall k :: 0 <= k < CHIP_SIZE && !InRegion(m, k) ==> after[k] == before[k]
  {
    RegionCovers(m);
    var top := SlotAt(m, m.slots);
    forall k | 0 <= k < CHIP_SIZE && !InRegion(m, k) ensures after[k] == before[k] {
      if k < m.base {
        assert after[..m.base][k] == before[..m.base][k];
      } else {
        assert after[top..][k - top] == before[top..][k - top];
      }
    }
  }

  /** Erasing one sector of a region blanks the slots in it and keeps the others. */
  lemma EraseSector(l: Layout, cells: Bytes, s: nat)
    requires l.Valid() && |cells| == CHIP_SIZE && s < Sectors(l)
    ensures l.base + SECTOR * s < CHIP_SIZE
    ensures var after := SectorErased(cells, l.base + SECTOR * s);
            && |after| == CHIP_SIZE
            && (forall k :: 0 <= k < CHIP_SIZE && !InRegion(l, k) ==> after[k] == cells[k])
            && forall i :: 0 <= i < l.slots ==>
                 TableIn(l, after)[i] == ErasedOr(FIRST_SECTOR * s <= i < FIRST_SECTOR * (s + 1), TableIn(l, cells)[i])
  {
    hide SectorErased, ErasedOr, Layout.Valid;
    SectorStart(l, s);
    var after := SectorErased(cells, l.base + SECTOR * s);
    forall k | 0 <= k < CHIP_SIZE && !InRegion(l, k) ensures |after| == CHIP_SIZE && after[k] == cells[k] {
      ErasedRange(cells, l.base + SECTOR * s, k, 1);
      assert after[k..k + 1][0] == cells[k..k + 1][0];
    }
    ErasedRange(cells, l.base + SECTOR * s, 0, 0);
    forall i | 0 <= i < l.slots ensures TableIn(l, after)[i]
      == ErasedOr(FIRST_SECTOR * s <= i < FIRST_SECTOR * (s + 1), TableIn(l, cells)[i])
    {
      EraseOneSlot(l, cells, s, i);
    }
  }

  lemma SectorStart(l: Layout, s: nat)
    requires l.Valid() && s < Sectors(l)
    ensures (l.base + SECTOR * s) % SECTOR == 0 && l.base + SECTOR * (s + 1) <= CHIP_SIZE
    ensures forall k :: l.base + SECTOR * s <= k < l.base + SECTOR * (s + 1) ==> InRegion(l, k)
    ensures SlotAt(l, l.slots) <= CHIP_SIZE
  {
    RegionCovers(l);
    assert l.base + SECTOR * s == SECTOR * (l.base / SECTOR + s);
  }

  lemma EraseOneSlot(l: Layout, cells: Bytes, s: nat, i: nat)
    requires l.Valid() && |cells| == CHIP_SIZE && s < Sectors(l) && i < l.slots
    ensures l.base + SECTOR * s < CHIP_SIZE && SlotAt(l, i) + RECORD <= CHIP_SIZE
    ensures var after, at := SectorErased(cells, l.base + SECTOR * s), SlotAt(l, i);
            && |after| == CHIP_SIZE
            && after[at..at + RECORD] == ErasedOr(FIRST_SECTOR * s <= i < FIRST_SECTOR * (s + 1), cells[at..at + RECORD])
  {
    hide SectorErased, Layout.Valid;
    SectorStart(l, s);
    ErasedRange(cells, l.base + SECTOR * s, SlotAt(l, i), RECORD);
  }

  /** Every step of the erase loop lands in the first sector again. */
  lemma EraseAgain(cells: Bytes, base: nat, i: nat)
    requires |cells| == CHIP_SIZE && base % SECTOR == 0 && base < CHIP_SIZE && i < ERASE_STEPS
    ensures base + i * ERASE_STEP < CHIP_SIZE
    ensures SectorErased(cells, base + i * ERASE_STEP) == SectorErased(cells, base)
    ensures SectorErased(SectorErased(cells, base), base) == SectorErased(cells, base)
  {
    assert base == SECTOR * (base / SECTOR);
    assert (base + i * ERASE_STEP) / SECTOR == base / SECTOR;
    assert base / SECTOR * SECTOR == base;
  }

  lemma OverlayNext(d: Table, w: Table, r: Record)
    requires |w| < |d|
    ensures Overlay(d, w)[|w|] == d[|w|]
    ensures Overlay(d, w + [r]) == Overlay(d, w)[|w| := Cleared(d[|w|], r)]
  {
    hide Cleared;
  }

  lemma OnlyNothing(l: Layout, m: Layout, cells: Bytes)
    ensures OnlyRegions(l, m, cells, cells)
  {
  }

  lemma OnlyTrans(l: Layout, m: Layout, a: Bytes, b: Bytes, c: Bytes)
    requires |a| == |b| == |c|
    requires OnlyRegions(l, m, a, b) && OnlyRegions(l, m, b, c)
    ensures OnlyRegions(l, m, a, c)
  {
  }

  lemma EndFound(l: Layout, t: Table)
    requires l.Valid()
    ensures var n := EndOf(l, t);
            && n <= |t| && (n < |t| ==> l.Id(t[n]) == l.Ones())
            && forall i :: 0 <= i < n ==> l.Id(t[i]) != l.Ones()
  {
  }

  /** How many backup slots the second loop goes through, the end of the table included. */
  function Gone(l: Layout, b: Table): (n: nat)
    requires l.Valid()
    ensures n <= |b| && (|b| > 0 ==> n > 0)
  {
    if EndOf(l, b) < |b| then EndOf(l, b) + 1 else |b|
  }

  lemma EndReached(l: Layout, b: Table, i: nat)
    requires l.Valid() && i < Gone(l, b)
    ensures l.Id(b[i]) == l.Ones() ==> i + 1 == Gone(l, b)
    ensures l.Id(b[i]) != l.Ones() && i + 1 < |b| ==> i + 1 < Gone(l, b)
  {
  }

  /** How many slots the first loop copies. */
  function Copied(l: Layout, t: Table, stopAtEnd: bool): (n: nat)
    requires l.Valid()
    ensures n <= |t|
  {
    if stopAtEnd then EndOf(l, t) else |t|
  }

  lemma CopyEnds(l: Layout, t: Table, i: nat, stopAtEnd: bool)
    requires l.Valid() && i < |t| && i <= Copied(l, t, stopAtEnd)
    ensures i == Copied(l, t, stopAtEnd) <==> stopAtEnd && l.Id(t[i]) == l.Ones()
  {
  }

  lemma OverlayNothing(b: Table, t: Table)
    ensures Overlay(b, t[..0]) == b
  {
  }

  lemma MarkSteps(bio: bool, r: Record)
    ensures Mark(bio, r) == if bio && r[FINGER] == 0 then r[FINGER := 0xFF] else r
  {
  }

  /** The table after the first `i` slots of the backup have been gone through. */
  function Progress(l: Layout, d: Table, b: Table, i: nat, bio: bool): (t: Table)
    requires l.Valid() && i <= |b| == |d|
    ensures |t| == |d|
  {
    Overlay(d, MarkAll(bio, Kept(l, b[..i])))
  }

  function Count(l: Layout, b: Table, i: nat): (n: nat)
    requires l.Valid() && i <= |b|
    ensures n <= i
  {
    |Kept(l, b[..i])|
  }

  lemma Advance(l: Layout, d: Table, b: Table, i: nat, bio: bool)
    requires l.Valid() && i < |b| == |d|
    ensures var p, n := Progress(l, d, b, i, bio), Count(l, b, i);
            if l.Id(b[i]) == l.Zero() then Progress(l, d, b, i + 1, bio) == p && Count(l, b, i + 1) == n
            else Progress(l, d, b, i + 1, bio) == p[n := Cleared(p[n], Mark(bio, b[i]))] && Count(l, b, i + 1) == n + 1
  {
    hide Kept, Mark, Cleared, Layout.Id, Layout.Zero;
    var k := Kept(l, b[..i]);
    assert b[..i] + [b[i]] == b[..i + 1];
    KeptSnoc(l, b[..i], b[i]);
    assert MarkAll(bio, k + [b[i]]) == MarkAll(bio, k) + [Mark(bio, b[i])];
    OverlayNext(d, MarkAll(bio, k), Mark(bio, b[i]));
  }

  lemma ProgressEnds(l: Layout, d: Table, b: Table, bio: bool)
    requires l.Valid() && |b| == |d|
    ensures Progress(l, d, b, 0, bio) == d && Count(l, b, 0) == 0
    ensures Overlay(d, MarkAll(bio, Written(l, b))) == Progress(l, d, b, Gone(l, b), bio)
  {
    KeptOfNothing(l);
    EndFound(l, b);
    ZeroIsNotOnes(l);
    var n := EndOf(l, b);
    hide Kept, Mark, Cleared, Layout.Id, Layout.Zero, Layout.Ones, EndOf;
    assert b[..0] == [] && MarkAll(bio, []) == [] && Overlay(d, []) == d;
    if n < |b| {
      assert b[..n] + [b[n]] == b[..n + 1];
      KeptSnoc(l, b[..n], b[n]);
    }
  }

  lemma BothErased(l: Layout, m: Layout, cells: Bytes)
    requires l.Valid() && m.Valid() && Apart(l, m) && |cells| == CHIP_SIZE && FIRST_SECTOR < l.slots <= 2 * FIRST_SECTOR
    ensures l.base + SECTOR < CHIP_SIZE
    ensures var after := SectorErased(SectorErased(cells, l.base), l.base + SECTOR);
            && |after| == CHIP_SIZE && TableIn(l, after) == Blanks(l.slots)
            && TableIn(m, after) == TableIn(m, cells) && OnlyRegions(l, m, cells, after)
  {
    assert Sectors(l) == 2;
    EraseSector(l, cells, 0);
    var once := SectorErased(cells, l.base);
    EraseSector(l, once, 1);
    OtherTable(m, l, cells, SectorErased(once, l.base + SECTOR));
  }

  lemma FirstErased(l: Layout, m: Layout, cells: Bytes)
    requires l.Valid() && m.Valid() && Apart(m, l) && |cells| == CHIP_SIZE
    ensures l.base < CHIP_SIZE
    ensures var after := SectorErased(cells, l.base);
            && |after| == CHIP_SIZE && TableIn(l, after) == FirstSectorErased(TableIn(l, cells))
            && TableIn(m, after) == TableIn(m, cells) && OnlyRegions(l, m, cells, after) && OnlyRegions(m, l, cells, after)
  {
    EraseSector(l, cells, 0);
    OtherTable(m, l, cells, SectorErased(cells, l.base));
  }

  class Compactor {
    const flash: Flash
    const main: Layout
    const spare: Layout
    var record: Record

    constructor (flash: Flash, main: Layout, spare: Layout)
      ensures this.flash == flash && this.main == main && this.spare == spare
    {
      this.flash, this.main, this.spare, record := flash, main, spare, Blank(RECORD);
    }

    /** The two regions lie apart, hold tables of the same form, and neither starts at address 0. */
    predicate Valid()
      reads flash
    {
      && flash.Valid() && main.Valid() && spare.Valid() && Apart(main, spare)
      && main.base > 0 && spare.base > 0 && main.(base := spare.base) == spare
    }

    function Main(): (t: Table)
      requires Valid()
      reads flash
      ensures |t| == main.slots
    {
      TableIn(main, flash.cells)
    }

    function Spare(): (t: Table)
      requires Valid()
      reads flash
      ensures |t| == main.slots
    {
      TableIn(spare, flash.cells)
    }

    method Read(l: Layout, i: nat)
      requires Valid() && l.Valid() && i < l.slots
      modifies this`record
      ensures record == TableIn(l, flash.cells)[i]
    {
      record := flash.ReadBytes(l.base + RECORD * i, RECORD);
    }

    method Write(l: Layout, other: Layout, i: nat)
      requires Valid() && l.Valid() && other.Valid() && Apart(other, l) && i < l.slots
      modifies flash`cells
      ensures Valid()
      ensures TableIn(l, flash.cells) == old(TableIn(l, flash.cells))[i := Cleared(old(TableIn(l, flash.cells))[i], record)]
      ensures TableIn(other, flash.cells) == old(TableIn(other, flash.cells))
      ensures OnlyRegions(l, other, old(flash.cells), flash.cells) && OnlyRegions(other, l, old(flash.cells), flash.cells)
    {
      hide TableIn, Programmed, OnlyTable, Cleared;
      ProgramSlot(l, flash.cells, i, record);
      var ok := flash.WrBytes(l.base + RECORD * i, record);
      TableWithinRegion(l, old(flash.cells), flash.cells);
      OtherTable(other, l, old(flash.cells), flash.cells);
    }

    /** The erase helper: three erases, all of the first sector. */
    method EraseRegion(l: Layout, other: Layout)
      requires Valid() && l.Valid() && other.Valid() && Apart(other, l) && l.base > 0
      modifies flash
      ensures Valid()
      ensures TableIn(l, flash.cells) == FirstSectorErased(old(TableIn(l, flash.cells)))
      ensures TableIn(other, flash.cells) == old(TableIn(other, flash.cells))
      ensures OnlyRegions(l, other, old(flash.cells), flash.cells) && OnlyRegions(other, l, old(flash.cells), flash.cells)
    {
      hide TableIn, SectorErased, FirstSectorErased, InRegion, OnlyRegions, Layout.Id, Apart;
      assert l.base % SECTOR == 0 && l.base < CHIP_SIZE;
      FirstErased(l, other, flash.cells);
      var i := 0;
      while i < ERASE_STEPS
        invariant 0 <= i <= ERASE_STEPS && Valid()
        invariant flash.cells == if i == 0 then old(flash.cells) else SectorErased(old(flash.cells), l.base)
      {
        EraseAgain(old(flash.cells), l.base, i);
        EraseAgain(SectorErased(old(flash.cells), l.base), l.base, i);
        flash.SectorErase(l.base + i * ERASE_STEP);
        i := i + 1;
      }
    }

    method BackUpSlot(i: nat, ghost t: Table, ghost b: Table)
      requires Valid() && i < main.slots && |b| == main.slots
      requires Main() == t && record == t[i] && Spare() == Overlay(b, t[..i])
      modifies flash`cells
      ensures Valid() && Main() == t && Spare() == Overlay(b, t[..i + 1])
      ensures OnlyRegions(main, spare, old(flash.cells), flash.cells)
    {
      OverlayNext(b, t[..i], t[i]);
      assert t[..i] + [t[i]] == t[..i + 1];
      hide TableIn, Overlay, OnlyRegions, Cleared;
      Write(spare, main, i);
    }

    /** Copies slots to the backup, up to the end of the table or, for tasks, through all of it. */
    method BackUp(stopAtEnd: bool)
      requires Valid()
      modifies this`record, flash`cells
      ensures Valid() && Main() == old(Main())
      ensures Spare() == Overlay(old(Spare()), old(Main())[..Copied(main, old(Main()), stopAtEnd)])
      ensures OnlyRegions(main, spare, old(flash.cells), flash.cells)
    {
      hide TableIn, Overlay, Copied, OnlyRegions, Layout.Id, Layout.Ones, Layout.Valid, Apart;
      ghost var t, b := Main(), Spare();
      var i := 0;
      OverlayNothing(b, t);
      OnlyNothing(main, spare, flash.cells);
      while i < main.slots
        invariant 0 <= i <= Copied(main, t, stopAtEnd) && |t| == main.slots && Valid() && Main() == t
        invariant Spare() == Overlay(b, t[..i])
        invariant OnlyRegions(main, spare, old(flash.cells), flash.cells)
      {
        CopyEnds(main, t, i, stopAtEnd);
        Read(main, i);
        if stopAtEnd && main.Id(record) == main.Ones() {
          break;
        }
        ghost var before := flash.cells;
        BackUpSlot(i, t, b);
        OnlyTrans(main, spare, old(flash.cells), before, flash.cells);
        i := i + 1;
      }
    }

    /** Writes the record in memory to a slot of the table unless it is a tombstone, setting its finger flag if asked to. */
    method WriteKept(bio: bool, slot: nat) returns (next: nat)
      requires Valid() && (bio ==> main.idAt + main.idLen <= FINGER) && slot < main.slots
      modifies this`record, flash`cells
      ensures Valid() && Spare() == old(Spare())
      ensures main.Id(record) == main.Id(old(record))
      ensures next == if main.Id(old(record)) == main.Zero() then slot else slot + 1
      ensures Main() == if main.Id(old(record)) == main.Zero() then old(Main())
                        else old(Main())[slot := Cleared(old(Main())[slot], Mark(bio, old(record)))]
      ensures OnlyRegions(main, spare, old(flash.cells), flash.cells)
    {
      MarkKeepsId(main, bio, record);
      MarkSteps(bio, record);
      OnlyNothing(main, spare, flash.cells);
      hide TableIn, Mark, OnlyRegions, Layout.Id, Layout.Zero, Cleared;
      if main.Id(record) != main.Zero() {
        if bio && record[FINGER] == 0 {
          record := record[FINGER := 0xFF];
        }
        Write(main, spare, slot);
        return slot + 1;
      }
      return slot;
    }

    method WriteBackSlot(bio: bool, i: nat, count: nat, ghost d: Table, ghost b: Table) returns (next: nat)
      requires Valid() && (bio ==> main.idAt + main.idLen <= FINGER) && i < main.slots
      requires |d| == main.slots && Spare() == b && Main() == Progress(main, d, b, i, bio) && count == Count(main, b, i)
      modifies this`record, flash`cells
      ensures Valid() && Spare() == b && Main() == Progress(main, d, b, i + 1, bio) && next == Count(main, b, i + 1)
      ensures main.Id(record) == main.Id(b[i])
      ensures OnlyRegions(main, spare, old(flash.cells), flash.cells)
    {
      Advance(main, d, b, i, bio);
      hide TableIn, Progress, Count, Mark, OnlyRegions, Layout.Id, Layout.Zero, Cleared;
      Read(spare, i);
      next := WriteKept(bio, count);
    }

    method WriteBackLoop(bio: bool, ghost d: Table, ghost b: Table)
      requires Valid() && (bio ==> main.idAt + main.idLen <= FINGER)
      requires |d| == main.slots && Spare() == b && Main() == Progress(main, d, b, 0, bio) && Count(main, b, 0) == 0
      modifies this`record, flash`cells
      ensures Valid() && Spare() == b
      ensures Main() == Progress(main, d, b, Gone(main, b), bio)
      ensures OnlyRegions(main, spare, old(flash.cells), flash.cells)
    {
      hide TableIn, Progress, Count, Gone, OnlyRegions, EndOf, Layout.Id, Layout.Ones, Layout.Valid, Apart;
      var i, count := 0, 0;
      OnlyNothing(main, spare, flash.cells);
      while i < main.slots
        invariant 0 <= i <= Gone(main, b) <= main.slots == |d| == |b| && Valid() && Spare() == b
        invariant i < main.slots ==> i < Gone(main, b)
        invariant count == Count(main, b, i)
        invariant Main() == Progress(main, d, b, i, bio)
        invariant OnlyRegions(main, spare, old(flash.cells), flash.cells)
      {
        ghost var before := flash.cells;
        EndReached(main, b, i);
        count := WriteBackSlot(bio, i, count, d, b);
        OnlyTrans(main, spare, old(flash.cells), before, flash.cells);
        i := i + 1;
        if main.Id(record) == main.Ones() {
          break;
        }
      }
    }

    /** Writes the records of the backup that are not tombstones to the table, one after another, with the end of the table. */
    method WriteBack(bio: bool)
      requires Valid() && (bio ==> main.idAt + main.idLen <= FINGER)
      modifies this`record, flash`cells
      ensures Valid() && Spare() == old(Spare())
      ensures Main() == Overlay(old(Main()), MarkAll(bio, Written(main, old(Spare()))))
      ensures OnlyRegions(main, spare, old(flash.cells), flash.cells)
    {
      ghost var d, b := Main(), Spare();
      ProgressEnds(main, d, b, bio);
      WriteBackLoop(bio, d, b);
    }

    /** The compaction of the user table, with or without the fingerprint flags. */
    method AlignUsers(bio: bool)
      requires Valid() && (bio ==> main.idAt + main.idLen <= FINGER)
      modifies this`record, flash
      ensures Valid()
      ensures Main() == UsersAligned(main, old(Main()), old(Spare()), bio)
      ensures OnlyRegions(main, spare, old(flash.cells), flash.cells)
    {
      hide TableIn, Overlay, MarkAll, Written, EndOf, OnlyRegions, FirstSectorErased;
      EraseRegion(spare, main);
      ghost var erased := flash.cells;
      BackUp(true);
      OnlyTrans(main, spare, old(flash.cells), erased, flash.cells);
      ghost var copied := flash.cells;
      EraseRegion(main, spare);
      OnlyTrans(main, spare, old(flash.cells), copied, flash.cells);
      ghost var ready := flash.cells;
      WriteBack(bio);
      OnlyTrans(main, spare, old(flash.cells), ready, flash.cells);
    }

    /** The compaction of the task table, which erases both of its sectors. */
    method AlignTasks()
      requires Valid() && FIRST_SECTOR < main.slots <= 2 * FIRST_SECTOR
      modifies this`record, flash
      ensures Valid()
      ensures Main() == TasksAligned(main, old(Main()), old(Spare()))
      ensures OnlyRegions(main, spare, old(flash.cells), flash.cells)
    {
      hide TableIn, Overlay, MarkAll, Written, EndOf, OnlyRegions, FirstSectorErased, Layout.Id, Layout.Ones, Apart;
      EraseRegion(spare, main);
      ghost var erased := flash.cells;
      BackUp(false);
      OnlyTrans(main, spare, old(flash.cells), erased, flash.cells);
      ghost var copied := flash.cells;
      EraseBoth();
      OnlyTrans(main, spare, old(flash.cells), copied, flash.cells);
      ghost var ready := flash.cells;
      WriteBack(false);
      Unmarked(Written(main, Spare()));
      OnlyTrans(main, spare, old(flash.cells), ready, flash.cells);
      assert old(Main())[..main.slots] == old(Main());
    }

    method EraseBoth()
      requires Valid() && FIRST_SECTOR < main.slots <= 2 * FIRST_SECTOR
      modifies flash
      ensures Valid() && Main() == Blanks(main.slots) && Spare() == old(Spare())
      ensures OnlyRegions(main, spare, old(flash.cells), flash.cells)
    {
      hide TableIn, Blanks, OnlyRegions, SectorErased, Apart, Layout.Valid;
      BothErased(main, spare, flash.cells);
      flash.SectorErase(main.base);
      flash.SectorErase(main.base + SECTOR);
    }
  }

  /** The user and task tables of the firmware meet what the compactor asks of its regions. */
  lemma RegionsFit()
    ensures USERS.Valid() && USERS.(base := BACKUP).Valid() && Apart(USERS, USERS.(base := BACKUP))
    ensures TASKS.Valid() && TASKS.(base := BACKUP).Valid() && Apart(TASKS, TASKS.(base := BACKUP))
    ensures FIRST_SECTOR < TASKS.slots <= 2 * FIRST_SECTOR
    ensures FIRST_SECTOR + 1 + 8 * USERS.idLen < USERS.slots
    ensures Apart(USERS, TASKS)
  {
  }
}
