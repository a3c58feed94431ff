/**
 Which replies acknowledge a record: exactly those that begin with the index of its slot, the serial number and the
 checksum of both.
 */
module EventReplies {
  import opened NorFlash
  import opened EventRing
  import opened EventDelivery
  import CcittTable
  import Checksum

  /** The index of a slot, high byte first, and the serial number. */
  function Header(serial: Bytes, r: nat): (b: Bytes)
    requires |serial| == 4 && r < RING
    ensures |b| == 6
  {
    [ByteOf(r / 256), ByteOf(r % 256)] + serial
  }

  lemma HeaderId(serial: Bytes, r: nat)
    requires |serial| == 4 && r < RING
    ensures MessageId(Header(serial, r)) == r && Header(serial, r)[2..] == serial
  {
    hide ByteOf;
  }

  /** A reply that acknowledges the record at a slot. */
  function Acknowledgement(serial: Bytes, r: nat): (buffer: Bytes)
    requires |serial| == 4 && r < RING
    ensures |buffer| == REPLY
  {
    Checksum.Checked(Header(serial, r)) + seq(8, _ => 0)
  }

  lemma CheckedParts(m: Bytes)
    ensures var c := Checksum.Checked(m); |c| == |m| + 2 && c[..|m|] == m && Checksum.Accepts(c)
  {
    hide CcittTable.CcittEntry, Checksum.XorAll, Checksum.HighByte, Checksum.LowByte, Checksum.Accepts;
    Checksum.AcceptsExactly(Checksum.Checked(m));
  }

  lemma Acknowledging(serial: Bytes, r: nat)
    requires |serial| == 4 && r < RING
    ensures Acknowledges(Acknowledgement(serial, r), serial, r)
  {
    hide Checksum.Checked, Checksum.Accepts, Header;
    var m, b := Header(serial, r), Acknowledgement(serial, r);
    CheckedParts(m);
    HeaderId(serial, r);
    assert b[..8] == Checksum.Checked(m);
    assert b[..6] == m;
    assert b[2..6] == b[..6][2..];
    assert MessageId(b) == MessageId(m);
  }

  lemma SameId(b: Bytes, c: Bytes)
    requires |b| >= 2 && |c| >= 2 && MessageId(b) == MessageId(c)
    ensures b[0] == c[0] && b[1] == c[1]
  {
    TwoDigits(b[0] as nat, b[1] as nat, c[0] as nat, c[1] as nat);
    SameByte(b[0], c[0]);
    SameByte(b[1], c[1]);
  }

  lemma TwoDigits(a: nat, b: nat, c: nat, d: nat)
    requires b < 256 && d < 256 && a * 256 + b == c * 256 + d
    ensures a == c && b == d
  {
  }

  lemma SameByte(x: bv8, y: bv8)
    requires x as nat == y as nat
    ensures x == y
  {
  }

  /** A reply acknowledges a slot exactly when it is 16 bytes long and starts with the header of the slot, checked. */
  lemma AcknowledgesExactly(buffer: Bytes, serial: Bytes, r: nat)
    requires |serial| == 4 && r < RING
    ensures Acknowledges(buffer, serial, r) <==> |buffer| == REPLY && buffer[..8] == Checksum.Checked(Header(serial, r))
  {
    hide Checksum.Checked, Checksum.Accepts, Header, MessageId;
    var m := Header(serial, r);
    CheckedParts(m);
    HeaderId(serial, r);
    if |buffer| == REPLY {
      var f := buffer[..8];
      Checksum.AcceptsExactly(f);
      SameStart(buffer, f);
      assert f[..6][2..] == buffer[2..6];
      if Acknowledges(buffer, serial, r) {
        SameId(f, m);
        assert f[..6] == m;
      }
      if f == Checksum.Checked(m) {
        SameStart(f, m);
      }
    }
  }

  lemma SameStart(b: Bytes, c: Bytes)
    requires |b| >= 2 && |c| >= 2 && b[0] == c[0] && b[1] == c[1]
    ensures MessageId(b) == MessageId(c)
  {
  }

  /** One damaged byte in the first eight, and the reply acknowledges nothing, whatever is expected. */
  lemma DamagedAcknowledgesNothing(buffer: Bytes, serial: Bytes, r: nat, i: nat, x: bv8, serial': Bytes, r': nat)
    requires Acknowledges(buffer, serial, r) && i < 8 && x != buffer[i]
    ensures !Acknowledges(buffer[i := x], serial', r')
  {
    hide MessageId, Checksum.Accepts;
    Checksum.DamagedRejected(buffer[..8], i, x);
    assert buffer[i := x][..8] == buffer[..8][i := x];
  }

  /** After a reply with a damaged byte the cursor and all slots are as before. */
  lemma DamagedReplyIgnored(n: Node, serial: Bytes, buffer: Bytes, r: nat, i: nat, x: bv8)
    requires n.Valid() && Acknowledges(buffer, serial, r) && i < 8 && x != buffer[i]
    ensures var m := Step(n, serial, Reply(buffer[i := x])); m.ring == n.ring && m.r == n.r
  {
    hide Acknowledges;
    DamagedAcknowledgesNothing(buffer, serial, r, i, x, serial, n.r);
  }

  /** A reply changes the node's log or cursor only if it is the checked header of the slot at the cursor. */
  lemma OnlyThatReply(n: Node, serial: Bytes, buffer: Bytes)
    requires n.Valid() && |serial| == 4
    requires var m := Step(n, serial, Reply(buffer)); m.ring != n.ring || m.r != n.r
    ensures n.phase == Receiving && |buffer| == REPLY && buffer[..8] == Checksum.Checked(Header(serial, n.r))
  {
    hide Acknowledges, Acknowledged, Header, Checksum.Checked;
    AcknowledgesExactly(buffer, serial, n.r);
  }
}
