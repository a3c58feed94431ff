/**
 The firmware upload: a byte stream is cut into blocks of 256 bytes, the blocks after the first are stored in flash, and
 a marker is written to block 0 only after the stored blocks have passed the check of the last one.
 */
module FirmwareUpload {
  import opened NorFlash
  import FirmwareCrc

  const BLOCK := 256
  const BOOT_BLOCK := 0x02_0000
  const BOOT_SECTORS := 4
  const BOOT_BLOCKS := 1024
  const MOST_BLOCKS := 1025
  const TAG_AT := 240
  const CRC_AT := 236
  const MARKER_AT := 24
  const TAG: Bytes := [0x53, 0x54, 0x45, 0x52, 0x4E, 0x41, 0x2D, 0x20, 0x42, 0x4F, 0x4F, 0x54, 0x4C, 0x4F, 0x41, 0x44]

  // ---- the stream cut into blocks ----

  function Blocks(stream: Bytes): (bs: seq<Bytes>)
    ensures |bs| == |stream| / BLOCK
    ensures forall i :: 0 <= i < |bs| ==> |bs[i]| == BLOCK
    decreases |stream|
  {
    if |stream| < BLOCK then [] else [stream[..BLOCK]] + Blocks(stream[BLOCK..])
  }

  /** The bytes of a stream after its last whole block. */
  function Tail(stream: Bytes): (t: Bytes)
    ensures |t| == |stream| % BLOCK
  {
    stream[|stream| - |stream| % BLOCK..]
  }

  lemma {:induction false} OneMoreByte(stream: Bytes, c: bv8)
    ensures var t := Tail(stream) + [c];
            if |t| == BLOCK then Blocks(stream + [c]) == Blocks(stream) + [t] && Tail(stream + [c]) == []
            else Blocks(stream + [c]) == Blocks(stream) && Tail(stream + [c]) == t
    decreases |stream|
  {
    hide Blocks, Tail;
    if |stream| < BLOCK {
      ShortStream(stream, c);
    } else {
      OneMoreByte(stream[BLOCK..], c);
      FirstBlock(stream);
      FirstBlock(stream + [c]);
      assert (stream + [c])[BLOCK..] == stream[BLOCK..] + [c];
      assert (stream + [c])[..BLOCK] == stream[..BLOCK];
    }
  }

  lemma ShortStream(stream: Bytes, c: bv8)
    requires |stream| < BLOCK
    ensures Tail(stream) == stream && Blocks(stream) == []
    ensures if |stream| == BLOCK - 1 then Blocks(stream + [c]) == [stream + [c]] && Tail(stream + [c]) == []
            else Blocks(stream + [c]) == [] && Tail(stream + [c]) == stream + [c]
  {
    hide Blocks, Tail;
    NoBlock(stream);
    if |stream| == BLOCK - 1 {
      OneBlock(stream + [c]);
    } else {
      NoBlock(stream + [c]);
    }
  }

  lemma NoBlock(stream: Bytes)
    requires |stream| < BLOCK
    ensures Tail(stream) == stream && Blocks(stream) == []
  {
    Below(|stream|);
    assert stream[0..] == stream;
  }

  lemma Below(n: nat)
    requires n < BLOCK
    ensures n % BLOCK == n && n - n % BLOCK == 0
  {
  }

  lemma OneBlock(stream: Bytes)
    requires |stream| == BLOCK
    ensures Tail(stream) == [] && Blocks(stream) == [stream]
  {
    assert stream[..BLOCK] == stream && stream[BLOCK..] == [];
    NoBlock(stream[BLOCK..]);
  }

  lemma FirstBlock(stream: Bytes)
    requires |stream| >= BLOCK
    ensures Blocks(stream) == [stream[..BLOCK]] + Blocks(stream[BLOCK..])
    ensures Tail(stream) == Tail(stream[BLOCK..])
  {
    SameTail(stream);
    hide Tail;
  }

  lemma SameTail(stream: Bytes)
    requires |stream| >= BLOCK
    ensures Tail(stream) == Tail(stream[BLOCK..])
  {
    var rest := stream[BLOCK..];
    assert |rest| % BLOCK == |stream| % BLOCK;
    var at := |rest| - |rest| % BLOCK;
    assert rest[at..] == stream[BLOCK + at..];
  }

  // ---- the tag ----

  /** The bytes of the tag as a C string: zero bytes add nothing to it. */
  function Shown(s: Bytes): (r: Bytes)
    ensures |r| <= |s|
  {
    if s == [] then [] else Shown(s[..|s| - 1]) + if s[|s| - 1] == 0 then [] else [s[|s| - 1]]
  }

  predicate Tagged(b: Bytes)
    requires |b| == BLOCK
  {
    Shown(b[TAG_AT..]) == TAG
  }

  lemma {:induction false} ShownWhole(s: Bytes)
    ensures |Shown(s)| == |s| ==> Shown(s) == s
    ensures 0 !in s ==> Shown(s) == s
  {
    if s != [] {
      ShownWhole(s[..|s| - 1]);
      assert s == s[..|s| - 1] + [s[|s| - 1]];
    }
  }

  /** The tag is as long as the room for it, so a block is tagged exactly when its last bytes are the tag. */
  lemma TaggedExactly(b: Bytes)
    requires |b| == BLOCK
    ensures Tagged(b) <==> b[TAG_AT..] == TAG
  {
    ShownWhole(b[TAG_AT..]);
  }

  /** The blocks from the first tagged one on: those before it are ignored. */
  function FromTag(bs: seq<Bytes>): (r: seq<Bytes>)
    requires forall i :: 0 <= i < |bs| ==> |bs[i]| == BLOCK
    ensures forall i :: 0 <= i < |r| ==> |r[i]| == BLOCK
    ensures r != [] ==> Tagged(r[0])
  {
    if bs == [] then [] else if Tagged(bs[0]) then bs else FromTag(bs[1..])
  }

  lemma {:induction false} FromTagSnoc(bs: seq<Bytes>, b: Bytes)
    requires |b| == BLOCK && forall i :: 0 <= i < |bs| ==> |bs[i]| == BLOCK
    ensures FromTag(bs + [b]) == if FromTag(bs) != [] then FromTag(bs) + [b] else if Tagged(b) then [b] else []
  {
    hide Tagged;
    if bs != [] {
      assert (bs + [b])[1..] == bs[1..] + [b];
      if !Tagged(bs[0]) {
        FromTagSnoc(bs[1..], b);
      }
    }
  }

  // ---- the blocks in flash ----

  function BlockAt(k: nat): nat {
    BOOT_BLOCK + BLOCK * k
  }

  function BlockIn(cells: Bytes, k: nat): (b: Bytes)
    requires |cells| == CHIP_SIZE && k < BOOT_BLOCKS
    ensures |b| == BLOCK
  {
    cells[BlockAt(k)..BlockAt(k) + BLOCK]
  }

  /** The bytes of the blocks `from` to `to`, the last one not included. */
  function Stored(cells: Bytes, from: nat, to: nat): (b: Bytes)
    requires |cells| == CHIP_SIZE && from <= to <= BOOT_BLOCKS
  {
    cells[BlockAt(from)..BlockAt(to)]
  }

  /** Nothing outside the four boot sectors has changed. */
  predicate OnlyBoot(before: Bytes, after: Bytes)
    requires |before| == |after| == CHIP_SIZE
  {
    after[..BOOT_BLOCK] == before[..BOOT_BLOCK] && after[BlockAt(BOOT_BLOCKS)..] == before[BlockAt(BOOT_BLOCKS)..]
  }

  lemma OnlyBootTrans(a: Bytes, b: Bytes, c: Bytes)
    requires |a| == |b| == |c| == CHIP_SIZE && OnlyBoot(a, b) && OnlyBoot(b, c)
    ensures OnlyBoot(a, c)
  {
  }

  lemma ProgramBlock(cells: Bytes, k: nat, b: Bytes)
    requires |cells| == CHIP_SIZE && k < BOOT_BLOCKS && |b| == BLOCK && BlockIn(cells, k) == Blank(BLOCK)
    ensures WithinPage(BlockAt(k), BLOCK)
    ensures var after := Programmed(cells, BlockAt(k), b);
            && |after| == CHIP_SIZE && OnlyBoot(cells, after)
            && forall j :: 0 <= j < BOOT_BLOCKS ==> BlockIn(after, j) == if j == k then b else BlockIn(cells, j)
  {
    hide And;
    var at := BlockAt(k);
    assert at % PAGE == 0;
    assert Cleared(BlockIn(cells, k), b) == b;
    hide Cleared;
    var after := Programmed(cells, at, b);
    forall j | 0 <= j < BOOT_BLOCKS ensures BlockIn(after, j) == if j == k then b else BlockIn(cells, j) {
      if j != k {
        assert BlockAt(j) + BLOCK <= at || at + BLOCK <= BlockAt(j);
      }
    }
  }

  /** What the erase loop leaves: its first `n` sectors blank, the rest as it was. */
  function BootErased(cells: Bytes, n: nat): (after: Bytes)
    requires |cells| == CHIP_SIZE && n <= BOOT_SECTORS
    ensures |after| == CHIP_SIZE
  {
    cells[..BOOT_BLOCK] + Blank(n * SECTOR) + cells[BOOT_BLOCK + n * SECTOR..]
  }

  lemma EraseNext(cells: Bytes, n: nat)
    requires |cells| == CHIP_SIZE && n < BOOT_SECTORS
    ensures SectorErased(BootErased(cells, n), BOOT_BLOCK + n * SECTOR) == BootErased(cells, n + 1)
    ensures BootErased(cells, 0) == cells
  {
    var start := BOOT_BLOCK + n * SECTOR;
    assert start / SECTOR * SECTOR == start;
  }

  lemma AllErased(cells: Bytes)
    requires |cells| == CHIP_SIZE
    ensures OnlyBoot(cells, BootErased(cells, BOOT_SECTORS))
    ensures forall j :: 0 <= j < BOOT_BLOCKS ==> BlockIn(BootErased(cells, BOOT_SECTORS), j) == Blank(BLOCK)
  {
  }

  // ---- how far an upload reaches ----

  /**
   The packet number under which the `k`-th block of an upload of `n` blocks is taken, the tagged one being the 0-th; -1
   if the upload has ended before it, or the 16-bit number has come round to 0 and a new first block is looked for.
   */
  function PacketAt(n: nat, k: nat): (p: int)
    ensures -1 <= p < 0x1_0000
  {
    if k <= 1 then k
    else
      var p := PacketAt(n, k - 1);
      if p == -1 || p + 1 == n || p + 1 == 0x1_0000 then -1 else p + 1
  }

  lemma {:induction false} PacketIsIndex(n: nat, k: nat)
    ensures k > 0 ==> PacketAt(n, k) == if k < 0x1_0000 && (k == 1 || n < 2 || k < n) then k else -1
  {
    if k > 1 {
      PacketIsIndex(n, k - 1);
    }
  }

  /** Block `k` is stored as a middle block: it is neither the first nor the last. */
  predicate StoresBlock(n: nat, k: nat) {
    PacketAt(n, k) > 0 && PacketAt(n, k) + 1 != n
  }

  /** No block is stored beyond the sectors that were erased exactly when 2 to 1025 blocks have been announced. */
  lemma StaysInBoot(n: nat)
    requires n < 0x1_0000
    ensures (forall k: nat :: StoresBlock(n, k) ==> BlockAt(k) + BLOCK <= BOOT_BLOCK + BOOT_SECTORS * SECTOR)
       <==> 2 <= n <= MOST_BLOCKS
  {
    hide PacketAt;
    forall k: nat ensures StoresBlock(n, k) ==> 1 <= k && (n < 2 || k < n - 1) {
      PacketIsIndex(n, k);
      NotStoredFirst(n);
    }
    PacketIsIndex(n, BOOT_BLOCKS);
    assert n < 2 || n > MOST_BLOCKS ==> StoresBlock(n, BOOT_BLOCKS);
  }

  lemma NotStoredFirst(n: nat)
    ensures !StoresBlock(n, 0)
  {
  }

  // ---- what is promised ----

  /** The four bytes before the tag of the last block, low byte first. */
  function Field(b: Bytes): bv32
    requires |b| == BLOCK
  {
    Quad(b[CRC_AT], b[CRC_AT + 1], b[CRC_AT + 2], b[CRC_AT + 3])
  }

  function Quad(b0: bv8, b1: bv8, b2: bv8, b3: bv8): bv32 {
    (b0 as bv32) | ((b1 as bv32) << 8) | ((b2 as bv32) << 16) | ((b3 as bv32) << 24)
  }

  lemma QuadBytes(b0: bv8, b1: bv8, b2: bv8, b3: bv8)
    ensures FirmwareCrc.Little(Quad(b0, b1, b2, b3)) == [b0, b1, b2, b3]
  {
  }

  /** The field is the check value low byte first. */
  lemma FieldIsLittle(b: Bytes)
    requires |b| == BLOCK
    ensures FirmwareCrc.Little(Field(b)) == b[CRC_AT..CRC_AT + 4]
  {
    hide Quad, FirmwareCrc.Little;
    QuadBytes(b[CRC_AT], b[CRC_AT + 1], b[CRC_AT + 2], b[CRC_AT + 3]);
  }

  predicate WholeBlocks(image: seq<Bytes>) {
    forall i :: 0 <= i < |image| ==> |image[i]| == BLOCK
  }

  /** Blocks 1 to `n - 1` of flash hold blocks 1 to `n - 1` of the image; the rest of the boot region but block 0 is blank. */
  predicate Holding(cells: Bytes, image: seq<Bytes>, n: nat)
    requires |cells| == CHIP_SIZE && n <= |image| && n <= BOOT_BLOCKS
  {
    && (forall k :: 1 <= k < n ==> BlockIn(cells, k) == image[k])
    && (forall k :: n <= k < BOOT_BLOCKS && k > 0 ==> BlockIn(cells, k) == Blank(BLOCK))
  }

  /** The last block is tagged and carries the check value of the blocks stored. */
  predicate Passes(cells: Bytes, image: seq<Bytes>, n: nat)
    requires |cells| == CHIP_SIZE && WholeBlocks(image) && 2 <= n == |image| <= MOST_BLOCKS
  {
    Tagged(image[n - 1]) && FirmwareCrc.Crc(Stored(cells, 1, n - 1)) == Field(image[n - 1])
  }

  /** Block 0 carries the marker, a printed 1, and after it the number of blocks, low byte first. */
  predicate Marked(b: Bytes, n: nat)
    requires |b| == BLOCK && n < 0x1_0000
  {
    b[MARKER_AT] == 0x31 && b[MARKER_AT + 1] as nat + 0x100 * b[MARKER_AT + 2] as nat == n
  }

  /** While blocks are coming in block 0 is blank; at the end it carries the marker exactly if the image passes. */
  predicate CommitSafe(cells: Bytes, image: seq<Bytes>, n: nat)
    requires |cells| == CHIP_SIZE && WholeBlocks(image) && 0 < |image| <= n && 2 <= n <= MOST_BLOCKS
  {
    && Tagged(image[0])
    && Holding(cells, image, if |image| < n then |image| else n - 1)
    && (if |image| == n && Passes(cells, image, n) then Marked(BlockIn(cells, 0), n) else BlockIn(cells, 0) == Blank(BLOCK))
  }

  /**
   The marker is in block 0 only when all `n` blocks have come, the first and the last are tagged, flash holds what
   came between them, and its check value is the one the last block carries.
   */
  lemma MarkerMeansComplete(cells: Bytes, image: seq<Bytes>, n: nat)
    requires |cells| == CHIP_SIZE && WholeBlocks(image) && 0 < |image| <= n && 2 <= n <= MOST_BLOCKS
    requires CommitSafe(cells, image, n)
    ensures BlockIn(cells, 0)[MARKER_AT] == 0x31 <==>
              |image| == n && image[n - 1][TAG_AT..] == TAG && FirmwareCrc.Crc(Stored(cells, 1, n - 1)) == Field(image[n - 1])
    ensures image[0][TAG_AT..] == TAG
    ensures BlockIn(cells, 0)[MARKER_AT] == 0x31 ==> forall k :: 1 <= k <= n - 2 ==> BlockIn(cells, k) == image[k]
  {
    TaggedExactly(image[0]);
    if |image| == n {
      TaggedExactly(image[n - 1]);
    }
    hide Tagged;
    assert Blank(BLOCK)[MARKER_AT] == 0xFF;
  }

  /**
   A last block passes exactly when it ends in the tag and the stored blocks, followed by its four bytes before the tag,
   leave the check register as four zero bytes do.
   */
  lemma PassesExactly(cells: Bytes, image: seq<Bytes>, n: nat)
    requires |cells| == CHIP_SIZE && WholeBlocks(image) && 2 <= n == |image| <= MOST_BLOCKS
    ensures var last := image[n - 1];
            Passes(cells, image, n) <==>
            last[TAG_AT..] == TAG
            && FirmwareCrc.Register(0xFFFF_FFFF, Stored(cells, 1, n - 1) + last[CRC_AT..CRC_AT + 4])
               == FirmwareCrc.Register(0xFFFF_FFFF, [0, 0, 0, 0])
  {
    hide Stored, Field, FirmwareCrc.Register, FirmwareCrc.Crc, FirmwareCrc.Little, Tagged;
    var last, m := image[n - 1], Stored(cells, 1, n - 1);
    TaggedExactly(last);
    FieldIsLittle(last);
    FirmwareCrc.ResidueExactly(m, last[CRC_AT..CRC_AT + 4]);
    if FirmwareCrc.Little(Field(last)) == FirmwareCrc.Little(FirmwareCrc.Crc(m)) {
      FirmwareCrc.WordOfLittle(Field(last));
      FirmwareCrc.WordOfLittle(FirmwareCrc.Crc(m));
    }
  }

  function Flat(bs: seq<Bytes>): (s: Bytes) {
    if bs == [] then [] else Flat(bs[..|bs| - 1]) + bs[|bs| - 1]
  }

  /** The blocks in flash, one after the other, are those blocks of the image. */
  lemma {:induction false} StoredIsFlat(cells: Bytes, image: seq<Bytes>, n: nat, k: nat)
    requires |cells| == CHIP_SIZE && n <= |image| && n <= BOOT_BLOCKS && Holding(cells, image, n) && 1 <= k <= n
    ensures Stored(cells, 1, k) == Flat(image[1..k])
  {
    hide Holding;
    if k > 1 {
      StoredIsFlat(cells, image, n, k - 1);
      HeldBlock(cells, image, n, k - 1);
      assert image[1..k][..k - 2] == image[1..k - 1];
      assert Stored(cells, 1, k) == Stored(cells, 1, k - 1) + BlockIn(cells, k - 1);
    }
  }

  lemma HeldBlock(cells: Bytes, image: seq<Bytes>, n: nat, k: nat)
    requires |cells| == CHIP_SIZE && n <= |image| && n <= BOOT_BLOCKS && Holding(cells, image, n) && 1 <= k < n
    ensures BlockIn(cells, k) == image[k]
  {
    hide BlockIn;
  }

  /**
   The marker is in block 0 exactly when the blocks received say so: all `n` have come, the last ends in the tag, and the
   blocks between first and last, followed by the four bytes before the tag, leave the check register as four zero bytes do.
   */
  lemma MarkerExactly(cells: Bytes, image: seq<Bytes>, n: nat)
    requires |cells| == CHIP_SIZE && WholeBlocks(image) && 0 < |image| <= n && 2 <= n <= MOST_BLOCKS
    requires CommitSafe(cells, image, n)
    ensures BlockIn(cells, 0)[MARKER_AT] == 0x31 <==>
              (|image| == n && image[n - 1][TAG_AT..] == TAG
               && FirmwareCrc.Register(0xFFFF_FFFF, Flat(image[1..n - 1]) + image[n - 1][CRC_AT..CRC_AT + 4])
                  == FirmwareCrc.Register(0xFFFF_FFFF, [0, 0, 0, 0]))
  {
    hide Tagged, BlockIn, FirmwareCrc.Register, FirmwareCrc.Crc, Stored, Field, Flat, Holding;
    MarkerMeansComplete(cells, image, n);
    if |image| == n {
      PassesExactly(cells, image, n);
      TaggedExactly(image[n - 1]);
      StoredIsFlat(cells, image, n - 1, n - 1);
    }
  }

  // ---- what each kind of block does to it ----

  /** An upload at least begun: the tag was seen, and `n` blocks are expected. */
  predicate Begun(cells: Bytes, image: seq<Bytes>, n: nat) {
    |cells| == CHIP_SIZE && WholeBlocks(image) && 0 < |image| <= n && 2 <= n <= MOST_BLOCKS && CommitSafe(cells, image, n)
  }

  lemma FirstBlockKeeps(cells: Bytes, b: Bytes, n: nat)
    requires |cells| == CHIP_SIZE && |b| == BLOCK && Tagged(b) && 2 <= n <= MOST_BLOCKS
    ensures Begun(BootErased(cells, BOOT_SECTORS), [b], n)
  {
    AllErased(cells);
    hide Tagged, BlockIn, BootErased;
  }

  lemma MiddleBlockKeeps(cells: Bytes, image: seq<Bytes>, n: nat, b: Bytes)
    requires Begun(cells, image, n) && |image| < n - 1 && |b| == BLOCK
    ensures BlockIn(cells, |image|) == Blank(BLOCK)
    ensures Begun(Programmed(cells, BlockAt(|image|), b), image + [b], n)
  {
    ProgramBlock(cells, |image|, b);
    hide Tagged, BlockIn, Programmed;
  }

  lemma LastBlockFails(cells: Bytes, image: seq<Bytes>, n: nat, b: Bytes)
    requires Begun(cells, image, n) && |image| == n - 1 && |b| == BLOCK && !Passes(cells, image + [b], n)
    ensures Begun(cells, image + [b], n)
  {
    hide Tagged, BlockIn, Passes, Marked;
    assert (image + [b])[0] == image[0];
  }

  lemma LastBlockPasses(cells: Bytes, image: seq<Bytes>, n: nat, b: Bytes, m: Bytes)
    requires Begun(cells, image, n) && |image| == n - 1 && |b| == |m| == BLOCK
    requires Passes(cells, image + [b], n) && Marked(m, n)
    ensures BlockIn(cells, 0) == Blank(BLOCK)
    ensures Begun(Programmed(cells, BlockAt(0), m), image + [b], n)
  {
    hide Tagged, BlockIn, Programmed, Stored, Field, FirmwareCrc.Crc, Marked, OnlyBoot;
    var after := Programmed(cells, BlockAt(0), m);
    ProgramBlock(cells, 0, m);
    StoredStays(cells, m, n);
    assert (image + [b])[0] == image[0];
    assert Holding(after, image + [b], n - 1);
  }

  lemma StoredStays(cells: Bytes, m: Bytes, n: nat)
    requires |cells| == CHIP_SIZE && |m| == BLOCK && 2 <= n <= MOST_BLOCKS
    ensures Stored(Programmed(cells, BlockAt(0), m), 1, n - 1) == Stored(cells, 1, n - 1)
  {
    hide Cleared;
  }

  lemma RegisterOfByte(s: bv32, m: Bytes, b: bv8)
    ensures FirmwareCrc.Register(s, m + [b]) == FirmwareCrc.ByteStep(FirmwareCrc.Register(s, m), b)
  {
    FirmwareCrc.RegisterOfSum(s, m, [b]);
  }

  // ---- the steps ----

  class Uploader {
    const flash: Flash
    const datalen: nat
    const block: array<bv8>
    var count: nat
    var packetNum: nat
    var fwFlag: nat
    var restarted: bool
    ghost var start: Bytes
    ghost var received: Bytes
    ghost var image: seq<Bytes>

    constructor (flash: Flash, datalen: nat)
      requires flash.Valid() && 2 <= datalen <= MOST_BLOCKS
      ensures Valid() && this.flash == flash && this.datalen == datalen && start == flash.cells
      ensures received == [] && image == [] && !restarted && fwFlag == 1 && fresh(block)
    {
      this.flash, this.datalen := flash, datalen;
      block := new bv8[BLOCK];
      count, packetNum, fwFlag, restarted := 0, 0, 1, false;
      start, received, image := flash.cells, [], [];
    }

    /** The image is what has come since the first tagged block; the flash holds it, and the marker only if it passed. */
    ghost predicate Valid()
      reads this, flash, block
    {
      && flash.Valid() && block.Length == BLOCK && count < BLOCK && 2 <= datalen <= MOST_BLOCKS && |start| == CHIP_SIZE
      && WholeBlocks(image) && |image| <= datalen
      && (if image == [] then flash.cells == start else CommitSafe(flash.cells, image, datalen))
      && OnlyBoot(start, flash.cells)
      && (restarted <==> |image| == datalen)
      && (!restarted ==> packetNum == |image|)
      && image == FromTag(Blocks(received))
      && (!restarted && fwFlag != 2 ==> block[..count] == Tail(received))
    }

    /** The register goes over the stored blocks byte by byte, in the mask form of the step. */
    method CrcByte(crc: bv32, b: bv8) returns (next: bv32)
      ensures next == FirmwareCrc.ByteStep(crc, b)
    {
      hide FirmwareCrc.Xor, FirmwareCrc.BitStep, FirmwareCrc.Steps;
      next := FirmwareCrc.Xor(crc, b as bv32);
      ghost var first := next;
      var j := 8;
      while j > 0
        invariant 0 <= j <= 8
        invariant FirmwareCrc.Steps(next, j) == FirmwareCrc.Steps(first, 8)
      {
        StepsDown(next, j);
        next := CrcBit(next);
        j := j - 1;
      }
      NoStep(next);
    }

    method CrcBit(crc: bv32) returns (next: bv32)
      ensures next == FirmwareCrc.BitStep(crc)
    {
      MaskedStep(crc);
      hide FirmwareCrc.BitStep;
      var mask: bv32 := 0 - (crc & 1);
      next := (crc >> 1) ^ (0xEDB8_8340 & mask);
    }

    method ReadBoot(k: nat)
      requires flash.Valid() && block.Length == BLOCK && k < BOOT_BLOCKS
      modifies block
      ensures block[..] == BlockIn(flash.cells, k)
    {
      var value := flash.ReadBytes(BOOT_BLOCK + BLOCK * k, BLOCK);
      var i := 0;
      while i < BLOCK
        invariant 0 <= i <= BLOCK && block[..i] == value[..i]
      {
        block[i] := value[i];
        i := i + 1;
      }
    }

    method CrcBlock(crc: bv32, ghost before: Bytes) returns (next: bv32)
      requires block.Length == BLOCK && crc == FirmwareCrc.Register(0xFFFF_FFFF, before)
      ensures next == FirmwareCrc.Register(0xFFFF_FFFF, before + block[..])
    {
      hide FirmwareCrc.Register;
      next := crc;
      var i := 0;
      assert before + block[..0] == before;
      while i < BLOCK
        invariant 0 <= i <= BLOCK && next == FirmwareCrc.Register(0xFFFF_FFFF, before + block[..i])
      {
        RegisterOfByte(0xFFFF_FFFF, before + block[..i], block[i]);
        assert before + block[..i] + [block[i]] == before + block[..i + 1];
        next := CrcByte(next, block[i]);
        i := i + 1;
      }
      assert block[..BLOCK] == block[..];
    }

    /** The check value of the stored blocks 1 to `length - 1`. It leaves the last of them in the block buffer. */
    method CrcCalculationFw(length: nat) returns (crc: bv32)
      requires flash.Valid() && block.Length == BLOCK && 1 <= length <= BOOT_BLOCKS
      modifies block
      ensures crc == FirmwareCrc.Crc(Stored(flash.cells, 1, length))
      ensures block[..] == if length > 1 then BlockIn(flash.cells, length - 1) else old(block[..])
    {
      hide FirmwareCrc.Register, FirmwareCrc.Complement;
      crc := 0xFFFF_FFFF;
      ghost var was := block[..];
      NothingRegistered(Stored(flash.cells, 1, 1));
      var k := 1;
      while k < length
        invariant 1 <= k <= length
        invariant crc == FirmwareCrc.Register(0xFFFF_FFFF, Stored(flash.cells, 1, k))
        invariant block[..] == if k > 1 then BlockIn(flash.cells, k - 1) else was
      {
        ReadBoot(k);
        crc := CrcBlock(crc, Stored(flash.cells, 1, k));
        assert Stored(flash.cells, 1, k) + BlockIn(flash.cells, k) == Stored(flash.cells, 1, k + 1);
        k := k + 1;
      }
      crc := FirmwareCrc.Complement(crc);
    }

    method EraseBoot()
      requires flash.Valid()
      modifies flash
      ensures flash.Valid() && flash.cells == BootErased(old(flash.cells), BOOT_SECTORS)
    {
      hide BootErased, SectorErased;
      var i := 0;
      EraseNext(flash.cells, 0);
      while i < BOOT_SECTORS
        invariant 0 <= i <= BOOT_SECTORS && flash.Valid()
        invariant flash.cells == BootErased(old(flash.cells), i)
      {
        EraseNext(old(flash.cells), i);
        flash.SectorErase(BOOT_BLOCK + i * SECTOR);
        i := i + 1;
      }
    }

    method WriteBoot(k: nat)
      requires flash.Valid() && block.Length == BLOCK && k < BOOT_BLOCKS
      modifies flash`cells
      ensures flash.Valid() && flash.cells == Programmed(old(flash.cells), BlockAt(k), block[..])
    {
      assert WithinPage(BlockAt(k), BLOCK) by { assert BlockAt(k) % PAGE == 0; }
      hide Programmed;
      var ok := flash.WrBytes(BOOT_BLOCK + BLOCK * k, block[..]);
    }

    method ClearBlock()
      requires block.Length == BLOCK
      modifies block
      ensures forall i :: 0 <= i < BLOCK ==> block[i] == 0
    {
      var i := 0;
      while i < BLOCK
        invariant 0 <= i <= BLOCK && forall j :: 0 <= j < i ==> block[j] == 0
      {
        block[i] := 0;
        i := i + 1;
      }
    }

    /** The bytes of the block buffer from the tag on, without its zero bytes. */
    method ReadTag() returns (text: Bytes)
      requires block.Length == BLOCK
      ensures text == Shown(block[..][TAG_AT..])
    {
      text := [];
      ghost var whole := block[..][TAG_AT..];
      var i := 0;
      while i < BLOCK
        invariant 0 <= i <= BLOCK
        invariant text == Shown(if i < TAG_AT then [] else whole[..i - TAG_AT])
      {
        if i >= TAG_AT {
          assert whole[..i + 1 - TAG_AT][..i - TAG_AT] == whole[..i - TAG_AT];
          if block[i] != 0 {
            text := text + [block[i]];
          }
        }
        i := i + 1;
      }
      assert whole[..BLOCK - TAG_AT] == whole;
    }

    /** Between blocks: the upload has not ended, and its progress is what the packet number says. */
    ghost predicate Ready()
      reads this, flash
    {
      && flash.Valid() && block.Length == BLOCK && 2 <= datalen <= MOST_BLOCKS && |start| == CHIP_SIZE
      && WholeBlocks(image) && |image| < datalen && packetNum == |image| && !restarted
      && (if image == [] then flash.cells == start else Begun(flash.cells, image, datalen))
      && OnlyBoot(start, flash.cells)
    }

    /** After a block: either between blocks again, or ended with the whole image. */
    ghost predicate Moved()
      reads this, flash
    {
      && flash.Valid() && |start| == CHIP_SIZE && OnlyBoot(start, flash.cells)
      && WholeBlocks(image) && |image| <= datalen
      && (if image == [] then flash.cells == start else Begun(flash.cells, image, datalen))
      && (restarted <==> |image| == datalen)
      && (!restarted ==> packetNum == |image|)
    }

    /** A first block without the tag is ignored; with it, the four boot sectors are erased. */
    method FirstBlock()
      requires Ready() && packetNum == 0
      modifies this`packetNum, this`image, flash
      ensures Moved() && image == if Tagged(block[..]) then [block[..]] else []
    {
      hide Tagged, BootErased, OnlyBoot, BlockIn;
      var text := ReadTag();
      TextIsTag(block[..], text);
      if text != TAG {
        packetNum := 0;
        return;
      }
      FirstBlockKeeps(flash.cells, block[..], datalen);
      AllErased(flash.cells);
      OnlyBootTrans(start, flash.cells, BootErased(flash.cells, BOOT_SECTORS));
      EraseBoot();
      packetNum := packetNum + 1;
      image := [block[..]];
    }

    /** A block in the middle is stored under its number. */
    method MiddleBlock()
      requires Ready() && packetNum != 0 && packetNum + 1 != datalen
      modifies this`packetNum, this`image, flash`cells, block
      ensures Moved() && image == old(image) + [old(block[..])]
    {
      hide Tagged, Programmed, OnlyBoot, BlockIn, CommitSafe;
      MiddleBlockKeeps(flash.cells, image, datalen, block[..]);
      ProgramBlock(flash.cells, packetNum, block[..]);
      OnlyBootTrans(start, flash.cells, Programmed(flash.cells, BlockAt(packetNum), block[..]));
      WriteBoot(packetNum);
      image := image + [block[..]];
      ClearBlock();
      packetNum := packetNum + 1;
    }

    /** The last block: the marker is written only if it is tagged and its check value is that of the stored blocks. */
    method LastBlock()
      requires Ready() && packetNum != 0 && packetNum + 1 == datalen
      modifies this`packetNum, this`image, this`fwFlag, this`restarted, flash`cells, block
      ensures Moved() && image == old(image) + [old(block[..])]
      ensures fwFlag == if Passes(flash.cells, image, datalen) then 3 else 0
    {
      hide Tagged, Programmed, OnlyBoot, BlockIn, CommitSafe, Stored, Marked, Field, FirmwareCrc.Crc;
      ghost var b, before, cells := block[..], image, flash.cells;
      var text := ReadTag();
      TextIsTag(block[..], text);
      packetNum := 0;
      fwFlag := 0;
      if text == TAG {
        var check := ReadField();
        var crc := CrcCalculationFw(datalen - 1);
        if check == crc {
          WriteMarker();
          LastBlockPasses(cells, before, datalen, b, block[..]);
          ProgramBlock(cells, 0, block[..]);
          OnlyBootTrans(start, cells, Programmed(cells, BlockAt(0), block[..]));
          StoredStays(cells, block[..], datalen);
          WriteBoot(0);
          fwFlag := 3;
        }
      }
      image := image + [b];
      restarted := true;
      if fwFlag == 0 {
        LastBlockFails(cells, before, datalen, b);
      }
    }

    method ReadField() returns (v: bv32)
      requires block.Length == BLOCK
      ensures v == Field(block[..])
    {
      v := (block[236] as bv32) | ((block[237] as bv32) << 8) | ((block[238] as bv32) << 16) | ((block[239] as bv32) << 24);
    }

    method WriteMarker()
      requires block.Length == BLOCK && datalen < 0x1_0000
      modifies block
      ensures Marked(block[..], datalen)
    {
      hide ByteOf;
      CountBytes(datalen);
      block[25] := ByteOf(datalen % 256);
      block[26] := ByteOf(datalen / 256 % 256);
      block[24] := 0x31;
    }

    method FwDownload()
      requires Ready()
      modifies this`packetNum, this`image, this`fwFlag, this`restarted, flash, block
      ensures Moved()
      ensures image == if old(image) != [] then old(image) + [old(block[..])]
                       else if Tagged(old(block[..])) then [old(block[..])] else []
      ensures fwFlag == 2 ==> old(fwFlag) == 2
    {
      hide Tagged, Begun, Passes;
      if packetNum == 0 {
        FirstBlock();
      } else if packetNum + 1 == datalen {
        LastBlock();
      } else {
        MiddleBlock();
      }
    }

    /** One byte of the stream. Whole blocks are handed on unless the upload has been given up. */
    method HandleFtpChar(ch: bv8)
      requires Valid() && !restarted
      modifies this, flash, block
      ensures Valid() && start == old(start)
      ensures received == if old(fwFlag) == 2 then old(received) else old(received) + [ch]
      ensures fwFlag == 2 <==> old(fwFlag) == 2
    {
      hide Tagged, Blocks, FromTag, CommitSafe, OnlyBoot, Tail;
      OneMoreByte(received, ch);
      ghost var before := received;
      if fwFlag != 2 {
        received := received + [ch];
      }
      block[count] := ch;
      count := count + 1;
      assert fwFlag != 2 ==> block[..count] == Tail(before) + [ch];
      if count == BLOCK {
        count := 0;
        if fwFlag != 2 {
          assert block[..] == block[..BLOCK];
          FromTagSnoc(Blocks(before), block[..]);
          FwDownload();
        }
      }
    }

    /** A chunk of the stream, of any size. Nothing is taken after the restart that ends an upload. */
    method Feed(chunk: Bytes)
      requires Valid()
      modifies this, flash, block
      ensures Valid() && start == old(start)
      ensures fwFlag == 2 <==> old(fwFlag) == 2
      ensures old(fwFlag) == 2 || old(restarted) ==> received == old(received)
      ensures old(fwFlag) != 2 && !restarted ==> received == old(received) + chunk
      ensures old(received) <= received <= old(received) + chunk
    {
      hide Valid;
      var i := 0;
      while i < |chunk| && !restarted
        invariant 0 <= i <= |chunk| && Valid() && start == old(start)
        invariant fwFlag == 2 <==> old(fwFlag) == 2
        invariant received == if old(fwFlag) == 2 then old(received) else old(received) + chunk[..i]
        invariant old(restarted) ==> i == 0 && restarted
      {
        HandleFtpChar(chunk[i]);
        assert chunk[..i] + [chunk[i]] == chunk[..i + 1];
        i := i + 1;
      }
      assert chunk[..|chunk|] == chunk;
    }

    /** A lost connection gives the upload up: no further block is handed on. */
    method Abandon()
      requires Valid() && !restarted
      modifies this`fwFlag
      ensures Valid() && fwFlag == 2
    {
      hide CommitSafe, OnlyBoot, FromTag, Blocks, Tail;
      fwFlag := 2;
    }
  }

  lemma CountBytes(n: nat)
    requires n < 0x1_0000
    ensures n % 256 + 0x100 * (n / 256 % 256) == n
  {
  }

  lemma TextIsTag(b: Bytes, text: Bytes)
    requires |b| == BLOCK && text == Shown(b[TAG_AT..])
    ensures text == TAG <==> Tagged(b)
  {
  }

  lemma NothingRegistered(m: Bytes)
    requires |m| == 0
    ensures FirmwareCrc.Register(0xFFFF_FFFF, m) == 0xFFFF_FFFF
  {
  }

  lemma StepsDown(s: bv32, n: nat)
    requires n > 0
    ensures FirmwareCrc.Steps(s, n) == FirmwareCrc.Steps(FirmwareCrc.BitStep(s), n - 1)
  {
    hide FirmwareCrc.BitStep;
  }

  lemma NoStep(s: bv32)
    ensures FirmwareCrc.Steps(s, 0) == s
  {
    hide FirmwareCrc.BitStep;
  }

  lemma MaskedStep(s: bv32)
    ensures (s >> 1) ^ (0xEDB8_8340 & (0 - (s & 1))) == FirmwareCrc.BitStep(s)
  {
    if s & 1 == 1 {
      MaskSet(s);
    } else {
      MaskClear(s);
    }
  }

  lemma MaskSet(s: bv32)
    requires s & 1 == 1
    ensures (s >> 1) ^ (0xEDB8_8340 & (0 - (s & 1))) == (s >> 1) ^ 0xEDB8_8340
  {
  }

  lemma MaskClear(s: bv32)
    requires s & 1 != 1
    ensures (s >> 1) ^ (0xEDB8_8340 & (0 - (s & 1))) == s >> 1
  {
  }
}
