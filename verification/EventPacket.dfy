/**
 The packet that carries one logged event: the index of its slot, the cabinet's identity, the fields of the record high
 byte first, checksum and padding.
 */
module EventPacket {
  import opened NorFlash
  import opened EventRing
  import opened EventDelivery
  import opened EventReplies
  import opened EventLog
  import opened CcittTable
  import Checksum
  import Gf256

  const FIELDS := 24
  const PACKET := 33

  /** The bytes of a stored number, high byte first. */
  function Big(b: Bytes): (r: Bytes)
    ensures |r| == |b|
    ensures forall k :: 0 <= k < |b| ==> r[k] == b[|b| - 1 - k]
  {
    seq(|b|, k requires 0 <= k < |b| => b[|b| - 1 - k])
  }

  /** What identifies the cabinet: two 32-bit numbers, and the time zone. */
  datatype Identity = Identity(customer: Bytes, unit: Bytes, zone: bv8) {
    predicate Valid() {
      |customer| == |unit| == 4
    }
  }

  function Head(id: Identity, r: nat): (h: Bytes)
    requires id.Valid() && r < RING
    ensures |h| == 11
  {
    [ByteOf(r / 256), ByteOf(r % 256)] + Big(id.customer) + Big(id.unit) + [id.zone]
  }

  function Body(e: Event): (b: Bytes)
    ensures |b| == 13
  {
    Big(e[12..16]) + Big(e[0..2]) + Big(e[8..12]) + [e[4]] + Big(e[16..18])
  }

  /** The fields in front of the checksum, for the record in a slot. */
  function Fields(id: Identity, r: nat, e: Event): (f: Bytes)
    requires id.Valid() && r < RING
    ensures |f| == FIELDS
  {
    Head(id, r) + Body(e)
  }

  function Plain(id: Identity, r: nat, e: Event): (p: Bytes)
    requires id.Valid() && r < RING
    ensures |p| == PACKET
  {
    Checksum.Checked(Fields(id, r, e)) + [0, 0, 0, 0, 0, 0, 7]
  }

  class Sender {
    const buffer: array<bv8>

    constructor ()
      ensures buffer.Length == 256
    {
      buffer := new bv8[256];
    }

    /** Four bytes of a stored number go behind the first `at` bytes of the buffer, high byte first. */
    method PutWord(at: nat, v: Bytes)
      requires buffer.Length == 256 && at + 4 <= 256 && |v| == 4
      modifies buffer
      ensures buffer[..at + 4] == old(buffer[..at]) + Big(v)
    {
      buffer[at], buffer[at + 1], buffer[at + 2], buffer[at + 3] := v[3], v[2], v[1], v[0];
    }

    method PutHalf(at: nat, v: Bytes)
      requires buffer.Length == 256 && at + 2 <= 256 && |v| == 2
      modifies buffer
      ensures buffer[..at + 2] == old(buffer[..at]) + Big(v)
    {
      buffer[at], buffer[at + 1] := v[1], v[0];
    }

    method PutByte(at: nat, b: bv8)
      requires buffer.Length == 256 && at < 256
      modifies buffer
      ensures buffer[..at + 1] == old(buffer[..at]) + [b]
    {
      buffer[at] := b;
    }

    method PutHead(id: Identity, r: nat)
      requires buffer.Length == 256 && id.Valid() && r < RING
      modifies buffer
      ensures buffer[..11] == Head(id, r)
    {
      hide ByteOf, Big;
      PutByte(0, ByteOf(r / 256));
      PutByte(1, ByteOf(r % 256));
      PutWord(2, id.customer);
      PutWord(6, id.unit);
      PutByte(10, id.zone);
    }

    method PutBody(e: Event)
      requires buffer.Length == 256
      modifies buffer
      ensures buffer[..FIELDS] == old(buffer[..11]) + Body(e)
    {
      hide Big;
      PutWord(11, e[12..16]);
      PutHalf(15, e[0..2]);
      PutWord(17, e[8..12]);
      PutByte(21, e[4]);
      PutHalf(22, e[16..18]);
    }

    /** The checksum behind the fields, zeros, and the pad count. */
    method HandleProtocolPacket(id: Identity, r: nat, e: Event)
      requires buffer.Length == 256 && id.Valid() && r < RING
      modifies buffer
      ensures buffer[..PACKET] == Plain(id, r, e)
    {
      hide Head, Body, Gf256.Xor, CcittEntry, Checksum.HighByte, Checksum.LowByte;
      PutHead(id, r);
      PutBody(e);
      var crc: bv8 := 0;
      for i := 0 to FIELDS
        invariant crc == Checksum.XorAll(buffer[..i]) && buffer[..FIELDS] == Fields(id, r, e)
      {
        assert buffer[..i + 1][..i] == buffer[..i];
        crc := Gf256.Xor(crc, buffer[i]);
      }
      buffer[24] := Checksum.HighByte(CcittEntry(crc));
      buffer[25] := Checksum.LowByte(CcittEntry(crc));
      for i := 26 to 32
        invariant forall k :: 26 <= k < i ==> buffer[k] == 0
        invariant buffer[..26] == Checksum.Checked(Fields(id, r, e))
      {
        buffer[i] := 0;
      }
      buffer[32] := 7;
    }
  }

  /**
   The packet of a record says what was logged: when, what, by whom, with which key and task. Of the code the low half is
   sent, and of the key the low byte.
   */
  lemma PacketSays(id: Identity, r: nat, before: Event, code: Bytes, key: Bytes, user: Bytes, ticks: Bytes, task: Bytes)
    requires id.Valid() && r < RING && |code| == |key| == |user| == |ticks| == 4 && |task| == 2
    ensures var p := Plain(id, r, Built(before, code, key, user, ticks, task));
            && MessageId(p) == r
            && p[2..6] == Big(id.customer) && p[6..10] == Big(id.unit) && p[10] == id.zone
            && p[11..15] == Big(ticks) && p[15..17] == [code[1], code[0]] && p[17..21] == Big(user)
            && p[21] == key[0] && p[22..24] == [task[1], task[0]]
            && Checksum.Accepts(p[..26]) && p[26..] == [0, 0, 0, 0, 0, 0, 7]
  {
    var e := Built(before, code, key, user, ticks, task);
    BuiltFields(before, code, key, user, ticks, task);
    hide Built, ByteOf, Checksum.Checked, Checksum.Accepts;
    var f := Fields(id, r, e);
    CheckedParts(f);
    var p := Plain(id, r, e);
    assert p[..26] == Checksum.Checked(f) && p[..24] == p[..26][..24] == f;
    FieldsAt(id, r, e);
    SameStart(p, f);
    assert Big(e[0..2]) == [code[1], code[0]] && Big(e[16..18]) == [task[1], task[0]];
  }

  lemma BuiltFields(before: Event, code: Bytes, key: Bytes, user: Bytes, ticks: Bytes, task: Bytes)
    requires |code| == |key| == |user| == |ticks| == 4 && |task| == 2
    ensures var e := Built(before, code, key, user, ticks, task);
            && e[0..4] == code && e[4..8] == key && e[8..12] == user && e[12..16] == ticks && e[16..18] == task
            && e[0..2] == code[0..2] && e[4] == key[0] && e[20..] == before[20..]
  {
  }

  lemma FieldsAt(id: Identity, r: nat, e: Event)
    requires id.Valid() && r < RING
    ensures var f := Fields(id, r, e);
            && MessageId(f) == r && f[2..6] == Big(id.customer) && f[6..10] == Big(id.unit) && f[10] == id.zone
            && f[11..15] == Big(e[12..16]) && f[15..17] == Big(e[0..2]) && f[17..21] == Big(e[8..12])
            && f[21] == e[4] && f[22..24] == Big(e[16..18])
  {
    hide ByteOf, Big;
  }
}
