/**
 The serial flash chip: programming a byte can only clear bits, and erasing sets a whole 64 KiB sector to 0xFF.
 The driver refuses to program across a 256-byte page.
 */
module NorFlash {

  const CHIP_SIZE := 0x20_0000
  const SECTOR := 0x1_0000
  const PAGE := 0x100

  type Bytes = seq<bv8>

  function And(x: bv8, y: bv8): (z: bv8)
    ensures x == 0xFF ==> z == y
    ensures x == y ==> z == y
    ensures y == 0 ==> z == y
    ensures y == 0xFF ==> z == x
  {
    x & y
  }

  /** What the chip holds at cells programmed with new data. */
  function Cleared(before: Bytes, data: Bytes): (after: Bytes)
    requires |before| == |data|
    ensures |after| == |data|
    ensures forall k {:trigger after[k]} :: 0 <= k < |data| && before[k] == 0xFF ==> after[k] == data[k]
    ensures forall k {:trigger after[k]} :: 0 <= k < |data| && data[k] == before[k] ==> after[k] == data[k]
    ensures forall k {:trigger after[k]} :: 0 <= k < |data| && data[k] == 0 ==> after[k] == data[k]
    ensures forall k {:trigger after[k]} :: 0 <= k < |data| && data[k] == 0xFF ==> after[k] == before[k]
  {
    seq(|data|, k requires 0 <= k < |data| => And(before[k], data[k]))
  }

  function Programmed(cells: Bytes, at: nat, data: Bytes): Bytes
    requires at + |data| <= |cells|
  {
    cells[..at] + Cleared(cells[at..at + |data|], data) + cells[at + |data|..]
  }

  lemma ByteAfter(c: bv8)
    requires c != 0xFF
    ensures (c + 1) as nat == c as nat + 1
  {
  }

  /** A number below 256 as a byte. */
  function ByteOf(x: nat): (b: bv8)
    requires x < 256
    ensures b as nat == x
  {
    if x == 0 then 0
    else
      ByteAfter(ByteOf(x - 1));
      ByteOf(x - 1) + 1
  }

  function Blank(n: nat): (s: Bytes)
    ensures |s| == n && forall k :: 0 <= k < n ==> s[k] == 0xFF
  {
    seq(n, _ => 0xFF)
  }

  function SectorErased(cells: Bytes, address: nat): Bytes
    requires address < |cells| == CHIP_SIZE
  {
    var start := address / SECTOR * SECTOR;
    cells[..start] + Blank(SECTOR) + cells[start + SECTOR..]
  }

  lemma SectorErasedFrom(cells: Bytes, start: nat)
    requires start < |cells| == CHIP_SIZE && start % SECTOR == 0
    ensures start + SECTOR <= CHIP_SIZE
    ensures SectorErased(cells, start) == cells[..start] + Blank(SECTOR) + cells[start + SECTOR..]
  {
    assert start / SECTOR * SECTOR == start;
  }

  /** What an erase leaves of a range that lies in the sector or outside it. */
  lemma ErasedRange(cells: Bytes, start: nat, at: nat, n: nat)
    requires start < |cells| == CHIP_SIZE && start % SECTOR == 0 && at + n <= CHIP_SIZE
    ensures var after := SectorErased(cells, start);
            && |after| == CHIP_SIZE
            && (start <= at && at + n <= start + SECTOR ==> after[at..at + n] == Blank(n))
            && (at + n <= start || start + SECTOR <= at ==> after[at..at + n] == cells[at..at + n])
  {
    hide SectorErased;
    SectorErasedFrom(cells, start);
    var after := SectorErased(cells, start);
    if start <= at && at + n <= start + SECTOR {
      forall k | 0 <= k < n ensures after[at..at + n][k] == Blank(n)[k] {
        assert after[at + k] == Blank(SECTOR)[at + k - start];
      }
    } else if at + n <= start || start + SECTOR <= at {
      var a, c := after[at..at + n], cells[at..at + n];
      forall k | 0 <= k < n ensures a[k] == c[k] {
        assert after[at + k] == cells[at + k];
      }
    }
  }

  predicate WithinPage(address: nat, count: nat) {
    address % PAGE + count <= PAGE
  }

  lemma SamePage(address: nat, k: nat, count: nat)
    requires WithinPage(address, count) && 0 < k <= count
    ensures (address + k) % PAGE == 0 ==> k == count
  {
  }

  /** The guard is that the first and the last byte lie in one page. */
  lemma WithinPageExactly(address: nat, count: nat)
    requires count > 0
    ensures WithinPage(address, count) <==> address / PAGE == (address + count - 1) / PAGE
  {
    var page, offset := address / PAGE, address % PAGE;
    assert address + count - 1 == PAGE * page + (offset + count - 1);
  }

  /** An erase at any address blanks the bytes of its sector and keeps all others. */
  lemma ErasedByte(cells: Bytes, address: nat, k: nat)
    requires address < |cells| == CHIP_SIZE && k < CHIP_SIZE
    ensures var after := SectorErased(cells, address);
            |after| == CHIP_SIZE && after[k] == if k / SECTOR == address / SECTOR then 0xFF else cells[k]
  {
    var start := address / SECTOR * SECTOR;
    assert start + SECTOR <= CHIP_SIZE;
    assert k / SECTOR == address / SECTOR <==> start <= k < start + SECTOR;
  }

  /** Programming clears bits and sets none, and changes nothing outside the data's range. */
  lemma ProgrammedByte(cells: Bytes, at: nat, data: Bytes, k: nat)
    requires at + |data| <= |cells| && k < |cells|
    ensures |Programmed(cells, at, data)| == |cells|
    ensures Programmed(cells, at, data)[k] == if at <= k < at + |data| then cells[k] & data[k - at] else cells[k]
  {
  }

  class Flash {
    var cells: Bytes
    var eraseFlag: bool

    constructor (contents: Bytes)
      requires |contents| == CHIP_SIZE
      ensures cells == contents && Valid()
    {
      cells, eraseFlag := contents, false;
    }

    predicate Valid()
      reads this
    {
      |cells| == CHIP_SIZE
    }

    method ReadBytes(address: nat, count: nat) returns (block: Bytes)
      requires Valid() && address + count <= CHIP_SIZE
      ensures block == cells[address..address + count]
    {
      block := [];
      var left, at := count, address;
      while left > 0
        invariant left + at == address + count && address <= at
        invariant block == cells[address..at]
      {
        block := block + [cells[at]];
        at := at + 1;
        left := left - 1;
      }
    }

    /** Programs the bytes of a block one by one, all of them or none. */
    method WrBytes(address: nat, block: Bytes) returns (ok: bool)
      requires Valid() && 0 < |block| && address + |block| <= CHIP_SIZE
      modifies this`cells
      ensures Valid()
      ensures ok == WithinPage(address, |block|)
      ensures cells == if ok then Programmed(old(cells), address, block) else old(cells)
    {
      hide And;
      if address % PAGE + |block| - 1 <= PAGE - 1 {
        ghost var before := cells;
        cells := cells[address := And(cells[address], block[0])];
        var k := 1;
        while k < |block| && (address + k) % PAGE != 0
          invariant 1 <= k <= |block| && |cells| == |before|
          invariant forall j :: address <= j < address + k ==> cells[j] == And(before[j], block[j - address])
          invariant forall j :: 0 <= j < |before| && !(address <= j < address + k) ==> cells[j] == before[j]
        {
          cells := cells[address + k := And(cells[address + k], block[k])];
          k := k + 1;
        }
        assert k == |block| by { SamePage(address, k, |block|); }
        assert cells == Programmed(before, address, block);
        return true;
      }
      return false;
    }

    /** Sector 0 is only erased when the erase flag has been raised. */
    method SectorErase(address: nat)
      requires Valid() && address < CHIP_SIZE
      modifies this
      ensures Valid()
      ensures cells == if address == 0 && !old(eraseFlag) then old(cells) else SectorErased(old(cells), address)
      ensures !eraseFlag
    {
      if address == 0 && !eraseFlag {
        return;
      }
      cells := SectorErased(cells, address);
      eraseFlag := false;
    }
  }
}
