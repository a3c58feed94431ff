/**
 The user and task tables in flash, and the loops of the firmware over them. A record is read into a record in memory,
 changed there and written back.
 */
module RecordStore {
  import opened NorFlash
  import opened RecordTable

  function SlotAt(l: Layout, i: nat): nat {
    l.base + RECORD * i
  }

  function TableIn(l: Layout, cells: Bytes): (t: Table)
    requires l.Valid() && |cells| == CHIP_SIZE
    ensures |t| == l.slots
  {
    seq(l.slots, i requires 0 <= i < l.slots => cells[SlotAt(l, i)..SlotAt(l, i) + RECORD])
  }

  /** Nothing outside the table's region has changed. */
  predicate OnlyTable(l: Layout, before: Bytes, after: Bytes)
    requires l.Valid() && |before| == |after| == CHIP_SIZE
  {
    after[..l.base] == before[..l.base] && after[SlotAt(l, l.slots)..] == before[SlotAt(l, l.slots)..]
  }

  lemma SlotInPage(l: Layout, i: nat)
    requires l.Valid() && i < l.slots
    ensures SlotAt(l, i) + RECORD <= CHIP_SIZE && WithinPage(SlotAt(l, i), RECORD)
    ensures l.base <= SlotAt(l, i) && SlotAt(l, i) + RECORD <= SlotAt(l, l.slots) <= CHIP_SIZE
  {
    var k := l.base / SECTOR;
    InPage(SlotAt(l, i), SECTOR / PAGE * k + i / 2, i % 2);
  }

  /** A page holds two slots. */
  lemma InPage(at: nat, page: nat, half: nat)
    requires at == PAGE * page + RECORD * half && half < 2
    ensures WithinPage(at, RECORD)
  {
  }

  lemma ProgrammedSlot(l: Layout, cells: Bytes, i: nat, r: Record, j: nat)
    requires l.Valid() && |cells| == CHIP_SIZE && i < l.slots && j < l.slots
    ensures SlotAt(l, i) + RECORD <= CHIP_SIZE && SlotAt(l, j) + RECORD <= CHIP_SIZE
    ensures var at, b := SlotAt(l, i), SlotAt(l, j);
            Programmed(cells, at, r)[b..b + RECORD] == if j == i then Cleared(cells[at..at + RECORD], r) else cells[b..b + RECORD]
  {
    hide And, Cleared;
    var at, b := SlotAt(l, i), SlotAt(l, j);
    if j != i {
      assert b + RECORD <= at || at + RECORD <= b;
    }
  }

  lemma ProgramSlot(l: Layout, cells: Bytes, i: nat, r: Record)
    requires l.Valid() && |cells| == CHIP_SIZE && i < l.slots
    ensures SlotAt(l, i) + RECORD <= CHIP_SIZE && WithinPage(SlotAt(l, i), RECORD)
    ensures var after := Programmed(cells, SlotAt(l, i), r);
            && |after| == CHIP_SIZE && OnlyTable(l, cells, after)
            && TableIn(l, after) == TableIn(l, cells)[i := Cleared(TableIn(l, cells)[i], r)]
  {
    hide And, Cleared, WithinPage;
    SlotInPage(l, i);
    var after := Programmed(cells, SlotAt(l, i), r);
    var c := Cleared(TableIn(l, cells)[i], r);
    forall j | 0 <= j < l.slots ensures TableIn(l, after)[j] == if j == i then c else TableIn(l, cells)[j] {
      ProgrammedSlot(l, cells, i, r, j);
    }
    OnlyOneSlot(l, cells, i, r);
  }

  lemma OnlyOneSlot(l: Layout, cells: Bytes, i: nat, r: Record)
    requires l.Valid() && |cells| == CHIP_SIZE && i < l.slots
    ensures SlotAt(l, i) + RECORD <= CHIP_SIZE && |Programmed(cells, SlotAt(l, i), r)| == CHIP_SIZE
    ensures OnlyTable(l, cells, Programmed(cells, SlotAt(l, i), r))
  {
    hide Cleared, WithinPage;
    SlotInPage(l, i);
  }

  lemma OnlyTableTrans(l: Layout, a: Bytes, b: Bytes, c: Bytes)
    requires l.Valid() && |a| == |b| == |c| == CHIP_SIZE && OnlyTable(l, a, b) && OnlyTable(l, b, c)
    ensures OnlyTable(l, a, c)
  {
  }

  lemma DropNext(l: Layout, t: Table, i: nat, id: Bytes)
    requires l.Valid() && i < |t|
    ensures Dropped(l, t, i, id)[i] == t[i]
    ensures Dropped(l, t, i + 1, id)
         == if l.Id(t[i]) == id then Dropped(l, t, i, id)[i := l.Tombstone(t[i])] else Dropped(l, t, i, id)
    ensures Cleared(t[i], l.Tombstone(t[i])) == l.Tombstone(t[i])
  {
  }

  /** The scan stops at slot `i` exactly when that slot ends the table and is not what it looks for. */
  lemma ScanEnds(l: Layout, e: Extent, i: nat, id: Bytes)
    requires l.Valid() && |e.table| == l.slots && e.used == EndOf(l, e.table)
    requires i < l.slots && i <= Scanned(l, e, id)
    ensures i == Scanned(l, e, id) <==> l.Id(e.table[i]) == l.Ones() && id != l.Ones()
    ensures Scanned(l, e, id) <= l.slots
  {
  }

  lemma FirstIsFirst(l: Layout, t: Table, n: nat, id: Bytes)
    requires l.Valid() && n <= |t|
    ensures var f := FirstOf(l, t, n, id);
            && f <= n && (f < n ==> l.Id(t[f]) == id)
            && forall i :: 0 <= i < n && l.Id(t[i]) == id ==> f <= i
  {
  }

  lemma EndIsFirst(l: Layout, t: Table)
    requires l.Valid()
    ensures EndOf(l, t) == FirstOf(l, t, |t|, l.Ones())
  {
  }

  /** Writing the record to the free slot found is the store of the table. */
  lemma StoredHere(l: Layout, e: Extent, r: Record, d: Table, t: Table)
    requires l.Valid() && WellFormed(l, e) && e.used == EndOf(l, e.table)
    requires var n := Scanned(l, e, l.Id(r));
             && d == Dropped(l, e.table, n, l.Id(r))
             && t == if n < l.slots then d[n := Cleared(d[n], r)] else d
    ensures Extent(t, EndOf(l, t)) == Step(l, e, Op.Store(r)) && StepRefines(l, e, Op.Store(r))
  {
    var n := Scanned(l, e, l.Id(r));
    if n < l.slots {
      assert d[n] == Blank(RECORD);
      assert Cleared(d[n], r) == r;
    }
    StepKeeps(l, e, Op.Store(r));
    EndIsUsed(l, Step(l, e, Op.Store(r)));
  }

  /** Deleting a slot is the delete of the table, with its new end. */
  lemma DeletedHere(l: Layout, e: Extent, id: Bytes)
    requires l.Valid() && WellFormed(l, e)
    ensures var t := Step(l, e, Op.Delete(id)).table;
            |t| == l.slots && Extent(t, EndOf(l, t)) == Step(l, e, Op.Delete(id)) && StepRefines(l, e, Op.Delete(id))
  {
    StepKeeps(l, e, Op.Delete(id));
    EndIsUsed(l, Step(l, e, Op.Delete(id)));
  }

  /** What is left of an id that is passed as a 16-bit number. */
  function LowHalf(id: Bytes): (c: Bytes)
    ensures |c| == |id|
  {
    seq(|id|, i requires 0 <= i < |id| => if i < 2 then id[i] else 0)
  }

  function Digit(b: bv8): (d: nat)
    ensures d < 0x100
  {
    b as nat
  }

  /** The number that bytes stand for, low byte first. */
  function NumberOf(b: Bytes): nat {
    if b == [] then 0 else Digit(b[0]) + 0x100 * NumberOf(b[1..])
  }

  lemma {:induction false} Nothing(b: Bytes)
    requires forall k :: 0 <= k < |b| ==> b[k] == 0
    ensures NumberOf(b) == 0
  {
    if b != [] {
      Nothing(b[1..]);
    }
  }

  lemma NumberOfTwo(b: Bytes)
    requires |b| >= 2
    ensures NumberOf(b) == Digit(b[0]) + 0x100 * (Digit(b[1]) + 0x100 * NumberOf(b[2..]))
  {
    hide Digit;
    assert b[1..][1..] == b[2..];
    assert NumberOf(b[1..]) == Digit(b[1]) + 0x100 * NumberOf(b[1..][1..]);
  }

  lemma LowDigits(n: nat, c: nat, a: nat, b: nat, high: nat)
    requires a < 0x100 && b < 0x100 && n == a + 0x100 * (b + 0x100 * high) && c == a + 0x100 * b
    ensures c == n % 0x1_0000
  {
    assert n == c + 0x1_0000 * high;
  }

  lemma LowHalfBytes(id: Bytes)
    requires |id| == 4
    ensures var c := LowHalf(id); c[0] == id[0] && c[1] == id[1] && forall k :: 0 <= k < 2 ==> c[2..][k] == 0
  {
  }

  /** What is left is the number modulo 65536. */
  lemma LowHalfIsRemainder(id: Bytes)
    requires |id| == 4
    ensures NumberOf(LowHalf(id)) == NumberOf(id) % 0x1_0000
  {
    hide NumberOf, LowHalf, Digit;
    LowHalfBytes(id);
    NumberOfTwo(id);
    NumberOfTwo(LowHalf(id));
    Nothing(LowHalf(id)[2..]);
    LowDigits(NumberOf(id), NumberOf(LowHalf(id)), Digit(id[0]), Digit(id[1]), NumberOf(id[2..]));
  }

  lemma LowHalfNotOnes(l: Layout, id: Bytes)
    requires l.Valid() && |id| == l.idLen > 2
    ensures LowHalf(id) != l.Ones()
  {
    assert LowHalf(id)[2] != l.Ones()[2];
  }

  lemma FoundByCard(e: Extent, i: nat, card: Bytes)
    requires |e.table| == USERS.slots && i < |e.table| && e.used == EndOf(USERS, e.table)
    ensures WellFormed(USERS, e) && AllCleared(USERS, e.table) && card != NO_CARD && CardOf(e.table[i]) == card && i < e.used ==>
              var m := Meaning(USERS, e).records;
              USERS.Id(e.table[i]) in m && m[USERS.Id(e.table[i])] == e.table[i]
  {
    hide WellFormed, AllCleared, CardOf, EndOf, Meaning;
    if WellFormed(USERS, e) && AllCleared(USERS, e.table) && card != NO_CARD && CardOf(e.table[i]) == card && i < e.used {
      CardIsLive(e, i);
    }
  }

  class RecordStore {
    const flash: Flash
    const layout: Layout
    var record: Record

    constructor (flash: Flash, layout: Layout)
      ensures this.flash == flash && this.layout == layout
    {
      this.flash, this.layout, record := flash, layout, Blank(RECORD);
    }

    predicate Valid()
      reads flash
    {
      layout.Valid() && flash.Valid()
    }

    function Table(): (t: Table)
      requires Valid()
      reads flash
      ensures |t| == layout.slots
    {
      TableIn(layout, flash.cells)
    }

    method Read(i: nat)
      requires Valid() && i < layout.slots
      modifies this
      ensures record == Table()[i]
    {
      record := flash.ReadBytes(layout.base + RECORD * i, RECORD);
    }

    method Write(i: nat)
      requires Valid() && i < layout.slots
      modifies flash`cells
      ensures Valid() && OnlyTable(layout, old(flash.cells), flash.cells)
      ensures Table() == old(Table())[i := Cleared(old(Table()[i]), record)]
    {
      ProgramSlot(layout, flash.cells, i, record);
      var ok := flash.WrBytes(layout.base + RECORD * i, record);
    }

    function Here(): Extent
      requires Valid()
      reads flash
    {
      Extent(Table(), EndOf(layout, Table()))
    }

    /** The loop of an add or modify: every record of the id before the end goes, and the answer is the first free slot. */
    method Place(id: Bytes) returns (slot: int)
      requires Valid()
      modifies this, flash`cells
      ensures Valid() && OnlyTable(layout, old(flash.cells), flash.cells)
      ensures var n := Scanned(layout, old(Here()), id);
              Table() == Dropped(layout, old(Table()), n, id) && slot == if n < layout.slots then n else layout.full
    {
      ghost var n := Scanned(layout, Here(), id);
      ghost var t := Table();
      assert Dropped(layout, t, 0, id) == t;
      ZeroIsNotOnes(layout);
      hide Dropped, TableIn, FirstOf, EndOf, Scanned, OnlyTable, Cleared, Layout.Id, Layout.Tombstone, Layout.Ones, Layout.Zero;
      var i := 0;
      while i < layout.slots
        invariant 0 <= i <= n && Valid()
        invariant OnlyTable(layout, old(flash.cells), flash.cells)
        invariant Table() == Dropped(layout, t, i, id)
      {
        DropNext(layout, t, i, id);
        ScanEnds(layout, Extent(t, EndOf(layout, t)), i, id);
        Read(i);
        if layout.Id(record) == id {
          record := layout.Tombstone(record);
          label L:
          Write(i);
          OnlyTableTrans(layout, old(flash.cells), old@L(flash.cells), flash.cells);
        }
        if layout.Id(record) == layout.Ones() {
          return i;
        }
        i := i + 1;
      }
      return layout.full;
    }

    /**
     An add or modify command: place the id, and write the new record to the slot found. The record is lost, and so is
     the old one, when no slot is free.
     */
    method Store(r: Record) returns (ok: bool)
      requires Valid()
      modifies this, flash`cells
      ensures Valid() && OnlyTable(layout, old(flash.cells), flash.cells)
      ensures var n := Scanned(layout, old(Here()), layout.Id(r)); var d := Dropped(layout, old(Table()), n, layout.Id(r));
              && ok == (n < layout.slots)
              && Table() == if n < layout.slots then d[n := Cleared(d[n], r)] else d
      ensures WellFormed(layout, old(Here())) ==>
                && WellFormed(layout, Here()) && Here() == Step(layout, old(Here()), Op.Store(r))
                && Meaning(layout, Here()) == AbstractStep(layout, Meaning(layout, old(Here())), Op.Store(r))
    {
      ghost var e := Here();
      var slot := Place(layout.Id(r));
      ok := slot >= 0;
      ghost var middle := flash.cells;
      ghost var d := Table();
      if ok {
        Read(slot);
        record := r;
        Write(slot);
        OnlyTableTrans(layout, old(flash.cells), middle, flash.cells);
      }
      if WellFormed(layout, e) {
        StoredHere(layout, e, r, d, Table());
      }
    }

    /** The first record of the id becomes a tombstone. The whole table is searched. */
    method Delete(id: Bytes) returns (found: bool)
      requires Valid()
      modifies this, flash`cells
      ensures Valid() && OnlyTable(layout, old(flash.cells), flash.cells)
      ensures Table() == Step(layout, old(Here()), Op.Delete(id)).table
      ensures found == exists i :: 0 <= i < layout.slots && layout.Id(old(Table())[i]) == id
      ensures WellFormed(layout, old(Here())) ==>
                && WellFormed(layout, Here()) && Here() == Step(layout, old(Here()), Op.Delete(id))
                && Meaning(layout, Here()) == AbstractStep(layout, Meaning(layout, old(Here())), Op.Delete(id))
    {
      hide TableIn, FirstOf, EndOf, Cleared, WellFormed, Layout.Id, Layout.Tombstone;
      ghost var t := Table();
      if WellFormed(layout, Here()) {
        DeletedHere(layout, Here(), id);
      }
      FirstIsFirst(layout, t, layout.slots, id);
      var i := 0;
      while i < layout.slots
        invariant 0 <= i <= layout.slots && Valid()
        invariant flash.cells == old(flash.cells)
        invariant forall j :: 0 <= j < i ==> layout.Id(t[j]) != id
      {
        Read(i);
        if layout.Id(record) == id {
          record := layout.Tombstone(record);
          Write(i);
          return true;
        }
        i := i + 1;
      }
      return false;
    }

    /** The lookup by id stops at the end of the table. */
    method Find(id: Bytes) returns (slot: int)
      requires Valid()
      modifies this
      ensures var i := FirstOf(layout, Table(), layout.slots, id);
              slot == if i <= EndOf(layout, Table()) && i < layout.slots then i else -1
      ensures slot >= 0 ==> record == Table()[slot]
      ensures WellFormed(layout, Here()) && id != layout.Zero() && id != layout.Ones() ==>
                var m := Meaning(layout, Here()).records; (slot >= 0 <==> id in m) && (slot >= 0 ==> record == m[id])
    {
      hide TableIn, FirstOf, EndOf, WellFormed, Meaning, Layout.Id, Layout.Zero, Layout.Ones;
      EndIsFirst(layout, Table());
      if WellFormed(layout, Here()) && id != layout.Zero() && id != layout.Ones() {
        FoundIsMap(layout, Here(), id);
      }
      FirstIsFirst(layout, Table(), layout.slots, id);
      FirstIsFirst(layout, Table(), layout.slots, layout.Ones());
      var i := 0;
      while i < layout.slots
        invariant 0 <= i <= layout.slots
        invariant forall j :: 0 <= j < i ==> layout.Id(Table()[j]) != id && layout.Id(Table()[j]) != layout.Ones()
      {
        Read(i);
        if layout.Id(record) == id {
          return i;
        }
        if layout.Id(record) == layout.Ones() {
          return -1;
        }
        i := i + 1;
      }
      return -1;
    }

    /**
     The lookup by card number stops at the end of the table. A number other than zero is found in a live record, if the
     table holds it in a used slot, and no deleted user is found by it.
     */
    method FindCard(card: Bytes) returns (slot: int)
      requires Valid() && layout == USERS && |card| == 4
      modifies this
      ensures var i := FirstCard(Table(), layout.slots, card);
              slot == if i <= EndOf(layout, Table()) && i < layout.slots then i else -1
      ensures slot >= 0 ==> record == Table()[slot]
      ensures WellFormed(USERS, Here()) && AllCleared(USERS, Table()) && card != NO_CARD && 0 <= slot < EndOf(USERS, Table()) ==>
                var m := Meaning(USERS, Here()).records;
                USERS.Id(record) in m && m[USERS.Id(record)] == record && CardOf(record) == card
      ensures slot == -1 ==> forall j :: 0 <= j < EndOf(layout, Table()) ==> CardOf(Table()[j]) != card
    {
      hide TableIn, FirstCard, FirstOf, EndOf, WellFormed, Meaning, AllCleared, CardOf, Layout.Id, Layout.Zero, Layout.Ones;
      EndIsFirst(layout, Table());
      FirstIsFirst(layout, Table(), layout.slots, layout.Ones());
      var i := 0;
      while i < layout.slots
        invariant 0 <= i <= layout.slots
        invariant forall j :: 0 <= j < i ==> CardOf(Table()[j]) != card && layout.Id(Table()[j]) != layout.Ones()
      {
        Read(i);
        if CardOf(record) == card {
          FoundByCard(Here(), i, card);
          return i;
        }
        if layout.Id(record) == layout.Ones() {
          return -1;
        }
        i := i + 1;
      }
      return -1;
    }

    /** The lookup that searches every slot, for an id that has been cut to 16 bits. */
    method ReadStatus(given: Bytes) returns (slot: int)
      requires Valid() && |given| == layout.idLen > 2
      modifies this
      ensures var id := LowHalf(given);
              slot == if FirstOf(layout, Table(), layout.slots, id) < layout.slots
                      then FirstOf(layout, Table(), layout.slots, id) else -1
      ensures slot >= 0 ==> record == Table()[slot]
      ensures WellFormed(layout, Here()) && LowHalf(given) != layout.Zero() ==>
                var m := Meaning(layout, Here()).records;
                && (slot >= 0 <==> LowHalf(given) in m) && (slot >= 0 ==> record == m[LowHalf(given)])
    {
      hide TableIn, FirstOf, EndOf, WellFormed, Meaning, LowHalf, Layout.Id, Layout.Zero, Layout.Ones;
      var id := LowHalf(given);
      LowHalfNotOnes(layout, given);
      if WellFormed(layout, Here()) && id != layout.Zero() {
        FoundIsMap(layout, Here(), id);
      }
      FirstIsFirst(layout, Table(), layout.slots, id);
      var i := 0;
      while i < layout.slots
        invariant 0 <= i <= layout.slots
        invariant forall j :: 0 <= j < i ==> layout.Id(Table()[j]) != id
      {
        Read(i);
        if layout.Id(record) == id {
          return i;
        }
        i := i + 1;
      }
      return -1;
    }
  }
}
