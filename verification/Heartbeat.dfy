/**
 Frames of the heartbeat connection: body, checksum, zero padding to whole blocks, all encrypted,
 and the pad count in clear behind them; and the receive path that takes a frame apart again.
 */
module Heartbeat {
  import opened Gf256
  import opened AesBlock
  import opened AesKeySchedule
  import opened CbcMode
  import opened CbcEngine
  import opened CcittTable
  import opened Checksum

  const KEY: Block := [0x24, 0x95, 0x41, 0x20, 0x50, 0x00, 0x00, 0x00, 0x16, 0x86, 0x22, 0x00, 0xaa, 0xce, 0x2d, 0x00]
  const IV: Block := [0x00, 0x01, 0x02, 0x03, 0x04, 0x05, 0x06, 0x07, 0x08, 0x09, 0x0a, 0x0b, 0x0c, 0x0d, 0x0e, 0x0f]

  /** The longest body whose frame the one-byte lengths and the send buffer can hold. */
  const MAX_BODY: nat := 238

  function PadCount(n: nat): nat {
    if n % 16 != 0 then 16 - n % 16 else 0
  }

  /** Body, checksum and padding: a whole number of blocks. */
  function Padding(body: seq<bv8>): (p: seq<bv8>)
    ensures |p| == 16 * Blocks(|body| + 2) == |body| + 2 + PadCount(|body| + 2)
  {
    Checked(body) + seq(PadCount(|body| + 2), _ => 0)
  }

  function PadByte(n: nat): bv8
    requires n < 16
  {
    n as bv8
  }

  /** What crc_calculation_client leaves in the send buffer. */
  function PlainFrame(body: seq<bv8>): seq<bv8> {
    Padding(body) + [PadByte(PadCount(|body| + 2))]
  }

  /** What goes out. */
  function WireFrame(body: seq<bv8>): (f: seq<bv8>)
    ensures |f| == 16 * Blocks(|body| + 2) + 1
  {
    Encrypted(KeySchedule(KEY), IV, Padding(body), Blocks(|body| + 2)) + [PadByte(PadCount(|body| + 2))]
  }

  /** The length the receive path works with: without the pad count and the padding it announces. */
  function Stripped(frame: seq<bv8>): int
    requires |frame| > 0
  {
    |frame| - frame[|frame| - 1] as int - 1
  }

  /** The bytes the receive path decrypts. */
  function Opened(rx: seq<bv8>, count: nat): (m: seq<bv8>)
    requires 16 * Blocks(count) <= |rx|
    ensures |m| == count
  {
    Decrypted(KeySchedule(KEY), IV, rx, Blocks(count))[..count]
  }

  class Link {
    const buffer: array<bv8>
    const rxbuffer: array<bv8>
    const cbc: Cbc

    constructor ()
      ensures Valid()
    {
      buffer := new bv8[256];
      rxbuffer := new bv8[1050];
      cbc := new Cbc();
    }

    ghost predicate Valid()
      reads this, cbc, cbc.aes
    {
      && buffer.Length == 256 && rxbuffer.Length == 1050 && buffer != rxbuffer
      && cbc.Valid() && buffer != cbc.aes.roundKey && rxbuffer != cbc.aes.roundKey
    }

    /** The xor of the first bytes of the send buffer. */
    method XorOfBuffer(length: nat) returns (crc: bv8)
      requires Valid() && length <= MAX_BODY
      ensures crc == XorAll(buffer[..length])
    {
      hide Xor;
      crc := 0;
      for i := 0 to length
        invariant crc == XorAll(buffer[..i])
      {
        assert buffer[..i + 1][..i] == buffer[..i];
        crc := Xor(crc, buffer[i]);
      }
    }

    /** Zero padding behind the first n bytes, and the pad count behind that. */
    method PadBuffer(n: nat, remain: nat)
      requires Valid() && remain < 16 && n + remain < 256
      modifies buffer
      ensures buffer[..] == old(buffer[..n]) + seq(remain, _ => 0) + [PadByte(remain)] + old(buffer[n + remain + 1..])
    {
      ghost var before := buffer[..];
      for i := n to n + remain
        invariant forall k | n <= k < i :: buffer[k] == 0
        invariant forall k | 0 <= k < 256 && !(n <= k < i) :: buffer[k] == before[k]
      {
        buffer[i] := 0;
      }
      buffer[n + remain] := PadByte(remain);
    }

    method CrcCalculationClient(length: nat) returns (total: nat)
      requires Valid() && length <= MAX_BODY
      modifies buffer
      ensures total == |PlainFrame(old(buffer[..length]))| <= 255
      ensures buffer[..] == PlainFrame(old(buffer[..length])) + old(buffer[total..])
    {
      hide CcittEntry, XorAll, HighByte, LowByte, PadByte;
      ghost var body, before := buffer[..length], buffer[..];
      var crc := XorOfBuffer(length);
      buffer[length] := HighByte(CcittEntry(crc));
      buffer[length + 1] := LowByte(CcittEntry(crc));
      var n := length + 2;
      assert buffer[..n] == Checked(body);
      assert buffer[n..] == before[n..];
      var remain := if n % 16 != 0 then 16 - n % 16 else 0;
      PadBuffer(n, remain);
      total := n + remain + 1;
      assert PlainFrame(body) == Checked(body) + seq(remain, _ => 0) + [PadByte(remain)];
    }

    /** The fixed key and initial vector, in arrays of their own. */
    method KeyAndIv() returns (key: array<bv8>, iv: array<bv8>)
      ensures fresh(key) && fresh(iv) && key[..] == KEY && iv[..] == IV
    {
      key := new bv8[16](i requires 0 <= i < 16 => KEY[i]);
      iv := new bv8[16](i requires 0 <= i < 16 => IV[i]);
    }

    method CopyOfBuffer(n: nat) returns (input: array<bv8>)
      requires Valid() && n <= 256
      ensures fresh(input) && input.Length == 600 && input[..n] == buffer[..n]
    {
      input := new bv8[600];
      for i := 0 to n
        invariant input[..i] == buffer[..i]
      {
        input[i] := buffer[i];
      }
    }

    /**
     Encrypts the first count bytes of the send buffer in place, by way of a copy `p` in a larger array. The copy ends one
     byte after the count; what a partial last block then takes from the array is whatever it held.
     */
    method EncryptPacket(count: nat) returns (ghost p: seq<bv8>)
      requires Valid() && count < 256 && Span(count) <= 256
      modifies buffer, cbc, cbc.aes, cbc.aes.roundKey
      ensures Valid()
      ensures |p| == 600 && p[..count + 1] == old(buffer[..count + 1])
      ensures buffer[..] == Finished(Encrypted(KeySchedule(KEY), IV, p, Blocks(count)), EncryptedExtra(KeySchedule(KEY), p, count),
                                     p, count, old(buffer[..]))
    {
      hide Encrypted, KeySchedule, EncryptedExtra, Finished;
      var key, iv := KeyAndIv();
      var input := CopyOfBuffer(count + 1);
      assert key[..16] == KEY && iv[..16] == IV;
      p := input[..];
      cbc.Encrypt(buffer, input, count, key, iv);
    }

    /** Checksum, padding and encryption: what the connection then sends are the first `total` bytes. */
    method Send(length: nat) returns (total: nat)
      requires Valid() && length <= MAX_BODY
      modifies buffer, cbc, cbc.aes, cbc.aes.roundKey
      ensures Valid()
      ensures total == |WireFrame(old(buffer[..length]))| <= 255
      ensures buffer[..total] == WireFrame(old(buffer[..length]))
    {
      hide Encrypted, KeySchedule, EncryptedExtra, Finished, PlainFrame, WireFrame;
      ghost var body := buffer[..length];
      total := CrcCalculationClient(length);
      FrameLengths(body);
      ghost var plain := buffer[..];
      SpanOfBlocks(|body| + 2);
      ghost var p := EncryptPacket(total - 1);
      FrameSent(body, plain, p, buffer[..]);
    }

    method CopyBack(bufferout: array<bv8>, count: nat)
      requires Valid() && count <= bufferout.Length && count <= rxbuffer.Length && bufferout != rxbuffer
      modifies rxbuffer
      ensures rxbuffer[..] == bufferout[..count] + old(rxbuffer[..])[count..]
    {
      ghost var before := rxbuffer[..];
      for i := 0 to count
        invariant forall k | 0 <= k < i :: rxbuffer[k] == bufferout[k]
        invariant forall k | i <= k < rxbuffer.Length :: rxbuffer[k] == before[k]
      {
        rxbuffer[i] := bufferout[i];
      }
    }

    /** Decrypts the first count bytes of the receive buffer, whatever their number. */
    method DecryptPacket(count: nat)
      requires Valid() && Span(count) <= 600
      modifies rxbuffer, cbc, cbc.aes, cbc.aes.roundKey
      ensures Valid()
      ensures rxbuffer[..] == Opened(old(rxbuffer[..]), count) + old(rxbuffer[..])[count..]
    {
      hide Decrypted, KeySchedule, DecryptedExtra, Finished;
      ghost var w, c := KeySchedule(KEY), rxbuffer[..];
      var key, iv := KeyAndIv();
      assert key[..16] == KEY && iv[..16] == IV;
      var bufferout := new bv8[600];
      FinishedStart(Decrypted(w, IV, c, Blocks(count)), DecryptedExtra(w, c, count), c, count, bufferout[..]);
      cbc.Decrypt(bufferout, rxbuffer, count, key, iv);
      assert bufferout[..count] == Opened(c, count);
      CopyBack(bufferout, count);
    }

    method CheckCrcServer(length: nat) returns (ok: bool)
      requires Valid() && 2 <= length <= rxbuffer.Length
      ensures ok == Accepts(rxbuffer[..length])
    {
      hide CcittEntry, Xor;
      var crc: bv8 := 0;
      for i := 0 to length - 2
        invariant crc == XorAll(rxbuffer[..i])
      {
        assert rxbuffer[..i + 1][..i] == rxbuffer[..i];
        crc := Xor(crc, rxbuffer[i]);
      }
      assert rxbuffer[..length][..length - 2] == rxbuffer[..length - 2];
      ok := CcittEntry(crc) == Joined(rxbuffer[length - 2], rxbuffer[length - 1]);
    }

    /** The receive path for a frame of the given length in the receive buffer. */
    method Receive(length: nat) returns (ok: bool, count: nat)
      requires Valid() && 0 < length <= rxbuffer.Length
      requires 2 <= Stripped(rxbuffer[..length]) && Span(Stripped(rxbuffer[..length])) <= 600
      modifies rxbuffer, cbc, cbc.aes, cbc.aes.roundKey
      ensures Valid()
      ensures count == Stripped(old(rxbuffer[..length]))
      ensures rxbuffer[..] == Opened(old(rxbuffer[..]), count) + old(rxbuffer[..])[count..]
      ensures ok == Accepts(Opened(old(rxbuffer[..]), count))
    {
      hide Opened, Accepts;
      count := length - rxbuffer[length - 1] as int - 1;
      DecryptPacket(count);
      ok := CheckCrcServer(count);
      assert rxbuffer[..count] == Opened(old(rxbuffer[..]), count);
    }
  }

  lemma FrameLengths(body: seq<bv8>)
    requires |body| <= MAX_BODY
    ensures |PlainFrame(body)| == |WireFrame(body)| == 16 * Blocks(|body| + 2) + 1
    ensures 0 < Blocks(|body| + 2) <= 15
  {
    hide Checked, Encrypted;
  }

  lemma SpanOfBlocks(n: nat)
    requires n > 0
    ensures Blocks(16 * Blocks(n)) == Blocks(n) && Span(16 * Blocks(n)) == 16 * Blocks(n)
  {
  }

  /** Encrypting the padded body in the buffer leaves the frame, with the pad count in clear behind it. */
  lemma FrameSent(body: seq<bv8>, plain: seq<bv8>, p: seq<bv8>, sent: seq<bv8>)
    requires |body| <= MAX_BODY && |plain| == 256 && |p| == 600
    requires |PlainFrame(body)| <= |plain| && plain[..|PlainFrame(body)|] == PlainFrame(body)
    requires var count := 16 * Blocks(|body| + 2);
             && count < 256 && p[..count + 1] == plain[..count + 1] && Blocks(count) == Blocks(|body| + 2)
             && Span(count) <= 256
             && sent == Finished(Encrypted(KeySchedule(KEY), IV, p, Blocks(count)), EncryptedExtra(KeySchedule(KEY), p, count),
                                 p, count, plain)
    ensures |WireFrame(body)| <= |sent| && sent[..|WireFrame(body)|] == WireFrame(body)
  {
    hide Encrypted, KeySchedule, EncryptedExtra, Finished, Checked, Blocks, Span, PadByte;
    var w, n := KeySchedule(KEY), Blocks(|body| + 2);
    var count := 16 * n;
    FrameLengths(body);
    assert PlainFrame(body)[..count] == Padding(body);
    assert p[..count] == p[..count + 1][..count] == plain[..count + 1][..count] == Padding(body);
    EncryptedLocal(w, IV, p, Padding(body), n);
    FinishedWhole(Encrypted(w, IV, p, n), EncryptedExtra(w, p, count), p, count, plain);
    assert plain[count] == plain[..|PlainFrame(body)|][count] == PlainFrame(body)[count];
  }

  lemma PadByteValue(n: nat)
    requires n < 16
    ensures PadByte(n) as int == n
  {
  }

  /** A frame that arrives is recovered: its length, its bytes, and a checksum that accepts. */
  lemma FrameRecovered(body: seq<bv8>, rx: seq<bv8>)
    requires |WireFrame(body)| <= |rx| && WireFrame(body) == rx[..|WireFrame(body)|]
    ensures Stripped(WireFrame(body)) == |body| + 2
    ensures Opened(rx, |body| + 2) == Checked(body)
    ensures Accepts(Opened(rx, |body| + 2))
    ensures Opened(rx, |body| + 2)[..|body|] == body
  {
    hide Encrypted, Decrypted, KeySchedule, Accepts, Checked, PadByte;
    var w, p := KeySchedule(KEY), Padding(body);
    var n := Blocks(|body| + 2);
    PadByteValue(PadCount(|body| + 2));
    var c := Encrypted(w, IV, p, n);
    assert rx[..16 * n] == WireFrame(body)[..16 * n] == c;
    DecryptedLocal(w, IV, rx, c, n);
    DecryptUndoesEncrypt(w, IV, p, n, n);
    assert Opened(rx, |body| + 2) == p[..|body| + 2] == Checked(body);
    assert Checked(body)[..|body|] == body by { CheckedPrefix(body); }
    AcceptsExactly(Checked(body));
  }

  /** The whole frame as it is before encryption: zeros up to whole blocks, and their number in the clear byte at the end. */
  lemma FrameOpens(body: seq<bv8>, pad: nat)
    requires pad < 16 && (|body| + 2 + pad) % 16 == 0
    ensures |WireFrame(body)| == |body| + 2 + pad + 1
    ensures WireFrame(body)[|body| + 2 + pad] as int == pad
    ensures Decrypted(KeySchedule(KEY), IV, WireFrame(body), Blocks(|body| + 2)) == Checked(body) + seq(pad, _ => 0)
  {
    hide Encrypted, Decrypted, KeySchedule, Checked, PadByte;
    var w, p, n := KeySchedule(KEY), Padding(body), Blocks(|body| + 2);
    PadByteValue(PadCount(|body| + 2));
    var c := Encrypted(w, IV, p, n);
    assert WireFrame(body)[..16 * n] == c;
    DecryptedLocal(w, IV, WireFrame(body), c, n);
    DecryptUndoesEncrypt(w, IV, p, n, n);
  }

  lemma CheckedPrefix(body: seq<bv8>)
    ensures |Checked(body)| == |body| + 2 && Checked(body)[..|body|] == body
  {
    hide CcittEntry;
  }
}
