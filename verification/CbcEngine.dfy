/**
 The two buffer routines: a chaining pointer that moves through the output while encrypting and
 through the input while decrypting, for any length.
 */
module CbcEngine {
  import opened Gf256
  import opened AesBlock
  import opened AesKeySchedule
  import opened AesEngine
  import opened CbcMode

  /** The number of times the block loop runs. */
  function Blocks(length: nat): nat {
    (length + 15) / 16
  }

  lemma BlocksCover(length: nat, j: nat)
    ensures 16 * j < length <==> j < Blocks(length)
  {
  }

  /** The bytes of input and output a call may touch; a last partial block is visited twice. */
  function Span(length: nat): nat {
    if length == 0 then 16 else 16 * Blocks(length) + if length % 16 == 0 then 0 else 16
  }

  /** The block after the chained ones: the bytes of a partial block again, padded with zeros. */
  function Padded(p: seq<bv8>, at: nat, n: nat): Block
    requires n < 16 && at + n <= |p|
  {
    p[at..at + n] + seq(16 - n, _ => 0)
  }

  function EncryptedExtra(w: Schedule, p: seq<bv8>, length: nat): Block
    requires Span(length) <= |p|
  {
    if length % 16 == 0 then BlockAt(p, 0) else AesBlock.Cipher(Padded(p, 16 * Blocks(length), length % 16), w)
  }

  function DecryptedExtra(w: Schedule, c: seq<bv8>, length: nat): Block
    requires Span(length) <= |c|
  {
    if length % 16 == 0 then BlockAt(c, 0) else AesBlock.InvCipher(Padded(c, 16 * Blocks(length), length % 16), w)
  }

  /** The whole output buffer after a call: the chained blocks, the extra block of a partial length, the rest untouched. */
  function Finished(blocks: seq<bv8>, extra: Block, p: seq<bv8>, length: nat, before: seq<bv8>): seq<bv8>
    requires |blocks| == 16 * Blocks(length) && Span(length) <= |p| && Span(length) <= |before|
  {
    if length == 0 then p[..16] + before[16..]
    else if length % 16 == 0 then blocks + before[|blocks|..]
    else blocks + extra + before[|blocks| + 16..]
  }

  lemma SpanCovers(length: nat)
    ensures 16 <= Span(length) && 16 * Blocks(length) <= Span(length)
    ensures length % 16 != 0 ==> 16 * Blocks(length) + 16 <= Span(length)
  {
  }

  lemma FinishedWhole(blocks: seq<bv8>, extra: Block, p: seq<bv8>, length: nat, before: seq<bv8>)
    requires length > 0 && length % 16 == 0 && |blocks| == length && length <= |p| && length <= |before|
    ensures Blocks(length) == length / 16 && Span(length) == length
    ensures Finished(blocks, extra, p, length, before) == blocks + before[length..]
  {
  }

  lemma FinishedStart(blocks: seq<bv8>, extra: Block, p: seq<bv8>, length: nat, before: seq<bv8>)
    requires |blocks| == 16 * Blocks(length) && Span(length) <= |p| && Span(length) <= |before|
    ensures |Finished(blocks, extra, p, length, before)| == |before|
    ensures Finished(blocks, extra, p, length, before)[..length] == blocks[..length]
  {
  }

  lemma FinishedByParts(blocks: seq<bv8>, extra: Block, p: seq<bv8>, length: nat, before: seq<bv8>)
    requires |blocks| == 16 * Blocks(length) && Span(length) <= |p| && Span(length) <= |before|
    ensures var looped := blocks + (p[..16] + before[16..])[|blocks|..];
      if length % 16 == 0 then looped == Finished(blocks, extra, p, length, before)
      else looped[..|blocks|] + extra + looped[|blocks| + 16..] == Finished(blocks, extra, p, length, before)
  {
    var looped := blocks + (p[..16] + before[16..])[|blocks|..];
    if length % 16 != 0 {
      assert looped[..|blocks|] == blocks;
      assert looped[|blocks| + 16..] == before[|blocks| + 16..];
    }
  }

  lemma FinishedBlocks(blocks: seq<bv8>, extra: Block, p: seq<bv8>, length: nat, before: seq<bv8>)
    requires |blocks| == 16 * Blocks(length) && Span(length) <= |p| && Span(length) <= |before|
    ensures |Finished(blocks, extra, p, length, before)| == |before| >= 16 * Blocks(length)
    ensures Finished(blocks, extra, p, length, before)[..16 * Blocks(length)] == blocks
  {
  }

  /** What decryption leaves of an encrypted buffer is the plaintext it came from, for every length and whatever else the buffers held. */
  lemma RoundTrip(w: Schedule, chain: Block, p: seq<bv8>, length: nat, before: seq<bv8>, after: seq<bv8>)
    requires Span(length) <= |p| && Span(length) <= |before| && Span(length) <= |after|
    ensures var n := Blocks(length);
            var c := Finished(Encrypted(w, chain, p, n), EncryptedExtra(w, p, length), p, length, before);
            && |c| == |before|
            && Finished(Decrypted(w, chain, c, n), DecryptedExtra(w, c, length), c, length, after)[..16 * n] == p[..16 * n]
  {
    hide Finished, Encrypted, Decrypted, EncryptedExtra, DecryptedExtra;
    var n := Blocks(length);
    var e := Encrypted(w, chain, p, n);
    var c := Finished(e, EncryptedExtra(w, p, length), p, length, before);
    FinishedBlocks(e, EncryptedExtra(w, p, length), p, length, before);
    FinishedBlocks(Decrypted(w, chain, c, n), DecryptedExtra(w, c, length), c, length, after);
    assert c[..16 * n] == e[..16 * n];
    DecryptedLocal(w, chain, c, e, n);
    DecryptUndoesEncrypt(w, chain, p, n, n);
  }

  /**
   The extra block of a partial length holds as many of the bytes behind the last block visited as the length goes over
   whole blocks, with zeros behind them, and is ciphered without chaining.
   */
  lemma PartialBlock(w: Schedule, p: seq<bv8>, length: nat)
    requires length % 16 != 0 && Span(length) <= |p|
    ensures var n := length % 16; var at := length - n + 16;
            && at + n <= |p|
            && AesBlock.InvCipher(EncryptedExtra(w, p, length), w) == p[at..at + n] + seq(16 - n, _ => 0)
            && AesBlock.Cipher(DecryptedExtra(w, p, length), w) == p[at..at + n] + seq(16 - n, _ => 0)
  {
    hide AesBlock.Cipher, AesBlock.InvCipher;
    assert 16 * Blocks(length) == length - length % 16 + 16;
    InvCipherUndoesCipher(Padded(p, 16 * Blocks(length), length % 16), w);
    CipherUndoesInvCipher(Padded(p, 16 * Blocks(length), length % 16), w);
  }

  /** A call with length 0 still copies the first block, and no call touches what lies beyond its span. */
  lemma Untouched(blocks: seq<bv8>, extra: Block, p: seq<bv8>, length: nat, before: seq<bv8>)
    requires |blocks| == 16 * Blocks(length) && Span(length) <= |p| && Span(length) <= |before|
    ensures var f := Finished(blocks, extra, p, length, before);
            && |f| == |before| && f[Span(length)..] == before[Span(length)..] && (length == 0 ==> f[..16] == p[..16])
            && f[..16 * Blocks(length)] == (if length == 0 then [] else blocks)
            && (length % 16 != 0 ==> f[16 * Blocks(length)..Span(length)] == extra)
  {
  }

  class Cbc {
    const aes: Engine
    // the chaining pointer
    var iv: array<bv8>
    var ivAt: nat

    constructor ()
      ensures Valid() && fresh(aes) && fresh(aes.roundKey) && fresh(aes.state) && fresh(iv)
    {
      aes := new Engine();
      iv := new bv8[16];
      ivAt := 0;
    }

    ghost predicate Valid()
      reads this, aes
    {
      aes.Valid() && ivAt + 16 <= iv.Length && iv != aes.roundKey
    }

    ghost function Chain(): Block
      requires Valid()
      reads this, aes, iv
    {
      iv[ivAt..ivAt + 16]
    }

    method XorWithIv(buf: array<bv8>, at: nat)
      requires Valid() && at + 16 <= buf.Length
      requires buf != iv || ivAt + 16 <= at || at + 16 <= ivAt
      modifies buf
      ensures buf[..] == old(buf[..at]) + XorBlocks(old(buf[at..at + 16]), old(Chain())) + old(buf[at + 16..])
    {
      hide Xor;
      ghost var before, chain := buf[..], Chain();
      for i := 0 to 16
        invariant forall k | 0 <= k < 16 :: iv[ivAt + k] == chain[k]
        invariant forall k | 0 <= k < i :: buf[at + k] == Xor(before[at + k], chain[k])
        invariant forall k | 0 <= k < buf.Length && !(at <= k < at + i) :: buf[k] == before[k]
      {
        buf[at + i] := Xor(buf[at + i], iv[ivAt + i]);
      }
    }

    /** Where the chaining pointer may stand when the block at this position is processed. */
    ghost predicate ChainClear(buf: array<bv8>, at: nat)
      requires Valid()
      reads this, aes
    {
      iv == buf ==> ivAt + 16 <= at
    }

    /** Points the state at a block of the buffer and runs the cipher over it. */
    method CipherInPlace(buf: array<bv8>, at: nat)
      requires Valid() && at + 16 <= buf.Length && buf != aes.roundKey
      modifies aes, buf
      ensures Valid() && aes.Keys() == old(aes.Keys())
      ensures buf[..] == old(buf[..at]) + AesBlock.Cipher(old(buf[at..at + 16]), aes.Keys()) + old(buf[at + 16..])
    {
      hide AesBlock.Cipher;
      aes.state, aes.stateAt := buf, at;
      label ready:
      aes.Cipher();
      assert buf[..at] == old@ready(buf[..])[..at];
      assert buf[at + 16..] == old@ready(buf[..])[at + 16..];
      Rejoin(buf[..], at);
    }

    /** Points the state at a block of the buffer and runs the inverse cipher over it. */
    method InvCipherInPlace(buf: array<bv8>, at: nat)
      requires Valid() && at + 16 <= buf.Length && buf != aes.roundKey
      modifies aes, buf
      ensures Valid() && aes.Keys() == old(aes.Keys())
      ensures buf[..] == old(buf[..at]) + AesBlock.InvCipher(old(buf[at..at + 16]), aes.Keys()) + old(buf[at + 16..])
    {
      hide AesBlock.InvCipher;
      aes.state, aes.stateAt := buf, at;
      label ready:
      aes.InvCipher();
      assert buf[..at] == old@ready(buf[..])[..at];
      assert buf[at + 16..] == old@ready(buf[..])[at + 16..];
      Rejoin(buf[..], at);
    }

    /** One turn of the encrypting loop. */
    method EncryptStep(output: array<bv8>, input: array<bv8>, at: nat)
      requires Valid() && at + 16 <= output.Length && at + 16 <= input.Length
      requires output != aes.roundKey && input != aes.roundKey
      requires ChainClear(input, at) && ChainClear(output, at)
      modifies this, aes, output, input
      ensures Valid() && iv == output && ivAt == at
      ensures aes.Keys() == old(aes.Keys())
      ensures var masked := XorBlocks(old(input[at..at + 16]), old(Chain()));
        && Chain() == AesBlock.Cipher(masked, aes.Keys())
        && output[..] == old(output[..at]) + AesBlock.Cipher(masked, aes.Keys()) + old(output[at + 16..])
        && (input != output ==> input[..] == old(input[..at]) + masked + old(input[at + 16..]))
    {
      hide AesBlock.Cipher, XorBlocks;
      ghost var masked := XorBlocks(input[at..at + 16], Chain());
      ghost var a, c := output[..at], output[at + 16..];
      XorWithIv(input, at);
      assert input[at..at + 16] == masked;
      BlockCopy(output, input, at);
      assert output[..] == a + masked + c;
      Parts(a, masked, c);
      CipherInPlace(output, at);
      Parts(a, AesBlock.Cipher(masked, aes.Keys()), c);
      iv, ivAt := output, at;
    }

    static lemma Parts(a: seq<bv8>, b: Block, c: seq<bv8>)
      ensures var s := a + b + c; s[..|a|] == a && s[|a|..|a| + 16] == b && s[|a| + 16..] == c
    {
    }

    static lemma Rejoin(s: seq<bv8>, at: nat)
      requires at + 16 <= |s|
      ensures s == s[..at] + s[at..at + 16] + s[at + 16..]
    {
    }

    /** What both routines do first: a copy of the first block, the key schedule, the chaining pointer. */
    method Begin(output: array<bv8>, input: array<bv8>, key: array?<bv8>, iv: array?<bv8>)
      requires Valid() && 16 <= output.Length && 16 <= input.Length
      requires output != aes.roundKey && input != aes.roundKey
      requires key != null ==> key.Length >= 16 && key != output && key != aes.roundKey
      requires iv != null ==> iv.Length >= 16 && iv != output && iv != aes.roundKey
      requires iv == null ==> this.iv != output
      modifies this, aes, aes.roundKey, output
      ensures Valid()
      ensures aes.Keys() == if key == null then old(aes.Keys()) else KeySchedule(old(key[..16]))
      ensures this.iv == if iv == null then old(this.iv) else iv
      ensures Chain() == if iv == null then old(Chain()) else old(iv[..16])
      ensures output[..] == old(input[..16]) + old(output[16..])
    {
      hide KeySchedule;
      BlockCopy(output, input, 0);
      aes.state, aes.stateAt := output, 0;
      if key != null {
        aes.KeyExpansion(key);
      }
      if iv != null {
        this.iv, ivAt := iv, 0;
      }
    }

    /** The block the next one is chained to: the initial one at first, then the last one encrypted. */
    static ghost function ChainAt(w: Schedule, chain: Block, p: seq<bv8>, j: nat): (c: Block)
      requires 16 * j <= |p|
      ensures j == 0 ==> c == chain
    {
      if j == 0 then chain else EncryptedBlock(w, chain, p, j - 1)
    }

    /** The state after `j` turns of the encrypting loop. */
    ghost predicate EncryptedSoFar(output: array<bv8>, input: array<bv8>, w: Schedule, chain: Block,
                                   p: seq<bv8>, before: seq<bv8>, j: nat)
      reads this, aes, aes.roundKey, iv, output, input
    {
      && output != aes.roundKey && input != aes.roundKey
      && |p| == input.Length && |before| == output.Length && 16 * j <= |p| && 16 * j <= |before|
      && Valid() && aes.Keys() == w
      && ChainClear(input, 16 * j) && ChainClear(output, 16 * j)
      && Chain() == ChainAt(w, chain, p, j)
      && output[..] == Encrypted(w, chain, p, j) + before[16 * j..]
      && (input != output ==> input[..] == Masked(w, chain, p, j) + p[16 * j..])
      && (input == output ==> before == p)
    }

    method EncryptNext(output: array<bv8>, input: array<bv8>, at: nat, ghost w: Schedule, ghost chain: Block,
                       ghost p: seq<bv8>, ghost before: seq<bv8>, ghost j: nat)
      requires EncryptedSoFar(output, input, w, chain, p, before, j)
      requires at == 16 * j && at + 16 <= output.Length && at + 16 <= input.Length
      modifies this, aes, output, input
      ensures EncryptedSoFar(output, input, w, chain, p, before, j + 1)
    {
      hide AesBlock.Cipher, XorBlocks, ChainAt, EncryptedBlock, MaskedBlock, Encrypted, Masked, KeySchedule;
      ghost var done, mix := output[..], input[..];
      EncryptBlock(w, chain, p, mix, j);
      EncryptTurn(w, chain, p, before, j);
      EncryptStep(output, input, at);
      assert output[..] == done[..at] + EncryptedBlock(w, chain, p, j) + done[at + 16..];
      assert input != output ==> input[..] == mix[..at] + MaskedBlock(w, chain, p, j) + mix[at + 16..];
    }

    method EncryptLoop(output: array<bv8>, input: array<bv8>, length: nat)
      requires Valid() && 16 * Blocks(length) <= output.Length && 16 * Blocks(length) <= input.Length
      requires output != aes.roundKey && input != aes.roundKey && iv != output && iv != input
      modifies this, aes, output, input
      ensures Valid() && aes.Keys() == old(aes.Keys())
      ensures var p, chain, n := old(input[..]), old(Chain()), Blocks(length);
        && output[..] == Encrypted(aes.Keys(), chain, p, n) + old(output[..])[16 * n..]
        && (input != output ==> input[..] == Masked(aes.Keys(), chain, p, n) + p[16 * n..])
    {
      hide AesBlock.Cipher, XorBlocks, EncryptedBlock, MaskedBlock, KeySchedule, Blocks;
      ghost var w, p, chain, before := aes.Keys(), input[..], Chain(), output[..];
      EncryptFrom(output, input, length, w, chain, p, before);
    }

    method EncryptFrom(output: array<bv8>, input: array<bv8>, length: nat, ghost w: Schedule, ghost chain: Block,
                       ghost p: seq<bv8>, ghost before: seq<bv8>)
      requires EncryptedSoFar(output, input, w, chain, p, before, 0)
      requires 16 * Blocks(length) <= output.Length && 16 * Blocks(length) <= input.Length
      modifies this, aes, output, input
      ensures EncryptedSoFar(output, input, w, chain, p, before, Blocks(length))
    {
      hide Blocks, EncryptedSoFar;
      BlocksCover(length, 0);
      var i := 0;
      ghost var j := 0;
      while i < length
        invariant i == 16 * j && j <= Blocks(length) && (i < length <==> j < Blocks(length))
        invariant EncryptedSoFar(output, input, w, chain, p, before, j)
      {
        EncryptNext(output, input, i, w, chain, p, before, j);
        i := i + 16;
        j := j + 1;
        BlocksCover(length, j);
      }
    }

    /** The block a turn works on: masked with the chaining block, and ciphered. */
    static lemma EncryptBlock(w: Schedule, chain: Block, p: seq<bv8>, now: seq<bv8>, j: nat)
      requires 16 * j + 16 <= |p|
      requires now == Masked(w, chain, p, j) + p[16 * j..] || now == Encrypted(w, chain, p, j) + p[16 * j..]
      ensures |now| == |p|
      ensures ChainAt(w, chain, p, j + 1) == EncryptedBlock(w, chain, p, j)
      ensures XorBlocks(now[16 * j..16 * j + 16], ChainAt(w, chain, p, j)) == MaskedBlock(w, chain, p, j)
      ensures AesBlock.Cipher(MaskedBlock(w, chain, p, j), w) == EncryptedBlock(w, chain, p, j)
    {
      hide AesBlock.Cipher, XorBlocks, EncryptedBlock, MaskedBlock, BlockAt;
      assert now[16 * j..] == p[16 * j..];
      MaskedNext(w, chain, p, j);
      BlockIsSlice(p, now, 16 * j, j);
    }

    /** What one turn does to the joined blocks: in the output, and in the overwritten input. */
    static lemma EncryptTurn(w: Schedule, chain: Block, p: seq<bv8>, before: seq<bv8>, j: nat)
      requires 16 * j + 16 <= |p| && 16 * j + 16 <= |before|
      ensures var done := Encrypted(w, chain, p, j) + before[16 * j..];
        done[..16 * j] + EncryptedBlock(w, chain, p, j) + done[16 * j + 16..] == Encrypted(w, chain, p, j + 1) + before[16 * j + 16..]
      ensures var mix := Masked(w, chain, p, j) + p[16 * j..];
        mix[..16 * j] + MaskedBlock(w, chain, p, j) + mix[16 * j + 16..] == Masked(w, chain, p, j + 1) + p[16 * j + 16..]
    {
      hide AesBlock.Cipher, XorBlocks, EncryptedBlock, MaskedBlock, BlockAt;
      MaskedNext(w, chain, p, j);
      Splice(Encrypted(w, chain, p, j), before[16 * j..], EncryptedBlock(w, chain, p, j));
      Splice(Masked(w, chain, p, j), p[16 * j..], MaskedBlock(w, chain, p, j));
    }

    static lemma BlockIsSlice(p: seq<bv8>, now: seq<bv8>, i: nat, j: nat)
      requires i == 16 * j && i + 16 <= |p| == |now| && now[i..] == p[i..]
      ensures BlockAt(p, j) == p[i..i + 16] == now[i..i + 16]
    {
      assert now[i..][..16] == now[i..i + 16];
    }

    static lemma Splice(done: seq<bv8>, rest: seq<bv8>, block: Block)
      requires |rest| >= 16
      ensures (done + rest)[..|done|] + block + (done + rest)[|done| + 16..] == (done + block) + rest[16..]
    {
    }

    method Encrypt(output: array<bv8>, input: array<bv8>, length: nat, key: array?<bv8>, iv: array?<bv8>)
      requires Valid() && Span(length) <= output.Length && Span(length) <= input.Length
      requires output != aes.roundKey && input != aes.roundKey
      requires key != null ==> key.Length >= 16 && key != output && key != aes.roundKey
      requires iv != null ==> iv.Length >= 16 && iv != output && iv != input && iv != aes.roundKey
      requires iv == null ==> this.iv != output && this.iv != input
      modifies this, aes, aes.roundKey, output, input
      ensures Valid()
      ensures aes.Keys() == if key == null then old(aes.Keys()) else KeySchedule(old(key[..16]))
      ensures var p, chain, n := old(input[..]), if iv == null then old(Chain()) else old(iv[..16]), Blocks(length);
        && output[..] == Finished(Encrypted(aes.Keys(), chain, p, n), EncryptedExtra(aes.Keys(), p, length),
                                  p, length, old(output[..]))
        && (input != output ==> input[..] == Masked(aes.Keys(), chain, p, n) + p[16 * n..])
    {
      hide AesBlock.Cipher, KeySchedule, Encrypted, Masked, Finished, Padded, Blocks, Span;
      SpanCovers(length);
      ghost var p, before := input[..], output[..];
      ghost var chain := if iv == null then Chain() else iv[..16];
      Begin(output, input, key, iv);
      assert input[..] == p;
      EncryptLoop(output, input, length);
      ghost var w := aes.Keys();
      FinishedByParts(Encrypted(w, chain, p, Blocks(length)), EncryptedExtra(w, p, length), p, length, before);
      if length % 16 != 0 {
        PaddedLocal(p, input[..], 16 * Blocks(length), length % 16);
        EncryptRemainder(output, input, 16 * Blocks(length), length % 16);
      }
    }

    static lemma PaddedLocal(p: seq<bv8>, now: seq<bv8>, at: nat, n: nat)
      requires n < 16 && at + n <= |p| == |now| && now[at..] == p[at..]
      ensures Padded(p, at, n) == Padded(now, at, n)
    {
      assert p[at..at + n] == p[at..][..n] == now[at..at + n];
    }

    method EncryptRemainder(output: array<bv8>, input: array<bv8>, at: nat, remainder: nat)
      requires Valid() && 0 < remainder < 16 && at + 16 <= output.Length && at + 16 <= input.Length
      requires output != aes.roundKey && input != aes.roundKey && iv.Length >= ivAt + 16
      modifies aes, output
      ensures Valid() && aes.Keys() == old(aes.Keys())
      ensures output[..] == old(output[..at]) + AesBlock.Cipher(Padded(old(input[..]), at, remainder), aes.Keys()) + old(output[at + 16..])
    {
      hide AesBlock.Cipher, Padded;
      ghost var a, p, c := output[..at], Padded(input[..], at, remainder), output[at + 16..];
      CopyPadded(output, input, at, remainder);
      Parts(a, p, c);
      CipherInPlace(output, at);
    }

    /** One turn of the decrypting loop. */
    method DecryptStep(output: array<bv8>, input: array<bv8>, at: nat)
      requires Valid() && at + 16 <= output.Length && at + 16 <= input.Length
      requires output != aes.roundKey && input != aes.roundKey && output != input && iv != output
      modifies this, aes, output
      ensures Valid() && iv == input && ivAt == at
      ensures aes.Keys() == old(aes.Keys())
      ensures output[..] == old(output[..at])
                          + XorBlocks(AesBlock.InvCipher(input[at..at + 16], aes.Keys()), old(Chain()))
                          + old(output[at + 16..])
    {
      hide AesBlock.InvCipher, XorBlocks;
      ghost var a, source, c := output[..at], input[at..at + 16], output[at + 16..];
      BlockCopy(output, input, at);
      Parts(a, source, c);
      InvCipherInPlace(output, at);
      Parts(a, AesBlock.InvCipher(source, aes.Keys()), c);
      XorWithIv(output, at);
      iv, ivAt := input, at;
    }

    /** The block the next one was chained to: the initial one at first, then the last one read. */
    static ghost function CipherAt(chain: Block, c: seq<bv8>, j: nat): (b: Block)
      requires 16 * j <= |c|
      ensures j == 0 ==> b == chain
    {
      if j == 0 then chain else BlockAt(c, j - 1)
    }

    static lemma DecryptTurn(w: Schedule, chain: Block, c: seq<bv8>, before: seq<bv8>, j: nat)
      requires 16 * j + 16 <= |c| && 16 * j + 16 <= |before|
      ensures CipherAt(chain, c, j + 1) == c[16 * j..16 * j + 16]
      ensures XorBlocks(AesBlock.InvCipher(c[16 * j..16 * j + 16], w), CipherAt(chain, c, j)) == DecryptedBlock(w, chain, c, j)
      ensures var done := Decrypted(w, chain, c, j) + before[16 * j..];
        done[..16 * j] + DecryptedBlock(w, chain, c, j) + done[16 * j + 16..] == Decrypted(w, chain, c, j + 1) + before[16 * j + 16..]
    {
      hide AesBlock.InvCipher, XorBlocks, DecryptedBlock, BlockAt;
      BlockIsSlice(c, c, 16 * j, j);
      DecryptedNext(w, chain, c, j);
      Splice(Decrypted(w, chain, c, j), before[16 * j..], DecryptedBlock(w, chain, c, j));
    }

    /** The state after `j` turns of the decrypting loop. */
    ghost predicate DecryptedSoFar(output: array<bv8>, input: array<bv8>, w: Schedule, chain: Block,
                                   c: seq<bv8>, before: seq<bv8>, j: nat)
      reads this, aes, aes.roundKey, iv, output, input
    {
      && output != aes.roundKey && input != aes.roundKey && output != input && iv != output
      && |c| == input.Length && |before| == output.Length && 16 * j <= |c| && 16 * j <= |before|
      && Valid() && aes.Keys() == w
      && Chain() == CipherAt(chain, c, j)
      && output[..] == Decrypted(w, chain, c, j) + before[16 * j..]
      && input[..] == c
    }

    method DecryptNext(output: array<bv8>, input: array<bv8>, at: nat, ghost w: Schedule, ghost chain: Block,
                       ghost c: seq<bv8>, ghost before: seq<bv8>, ghost j: nat)
      requires DecryptedSoFar(output, input, w, chain, c, before, j)
      requires at == 16 * j && at + 16 <= output.Length && at + 16 <= input.Length
      modifies this, aes, output
      ensures DecryptedSoFar(output, input, w, chain, c, before, j + 1)
    {
      hide AesBlock.InvCipher, XorBlocks, CipherAt, DecryptedBlock, Decrypted, KeySchedule;
      DecryptTurn(w, chain, c, before, j);
      DecryptStep(output, input, at);
    }

    method DecryptLoop(output: array<bv8>, input: array<bv8>, length: nat)
      requires Valid() && 16 * Blocks(length) <= output.Length && 16 * Blocks(length) <= input.Length
      requires output != aes.roundKey && input != aes.roundKey && output != input && iv != output
      modifies this, aes, output
      ensures Valid() && aes.Keys() == old(aes.Keys())
      ensures output[..] == Decrypted(aes.Keys(), old(Chain()), input[..], Blocks(length)) + old(output[..])[16 * Blocks(length)..]
    {
      hide AesBlock.InvCipher, XorBlocks, DecryptedBlock, KeySchedule, Blocks;
      ghost var w, c, chain, before := aes.Keys(), input[..], Chain(), output[..];
      DecryptFrom(output, input, length, w, chain, c, before);
    }

    method DecryptFrom(output: array<bv8>, input: array<bv8>, length: nat, ghost w: Schedule, ghost chain: Block,
                       ghost c: seq<bv8>, ghost before: seq<bv8>)
      requires DecryptedSoFar(output, input, w, chain, c, before, 0)
      requires 16 * Blocks(length) <= output.Length && 16 * Blocks(length) <= input.Length
      modifies this, aes, output
      ensures DecryptedSoFar(output, input, w, chain, c, before, Blocks(length))
    {
      hide Blocks, DecryptedSoFar;
      BlocksCover(length, 0);
      var i := 0;
      ghost var j := 0;
      while i < length
        invariant i == 16 * j && j <= Blocks(length) && (i < length <==> j < Blocks(length))
        invariant DecryptedSoFar(output, input, w, chain, c, before, j)
      {
        DecryptNext(output, input, i, w, chain, c, before, j);
        i := i + 16;
        j := j + 1;
        BlocksCover(length, j);
      }
    }

    method DecryptRemainder(output: array<bv8>, input: array<bv8>, at: nat, remainder: nat)
      requires Valid() && 0 < remainder < 16 && at + 16 <= output.Length && at + 16 <= input.Length
      requires output != aes.roundKey && input != aes.roundKey && output != input
      modifies aes, output
      ensures Valid() && aes.Keys() == old(aes.Keys())
      ensures output[..] == old(output[..at]) + AesBlock.InvCipher(Padded(input[..], at, remainder), aes.Keys()) + old(output[at + 16..])
    {
      hide AesBlock.InvCipher, Padded;
      ghost var a, p, c := output[..at], Padded(input[..], at, remainder), output[at + 16..];
      CopyPadded(output, input, at, remainder);
      Parts(a, p, c);
      InvCipherInPlace(output, at);
    }

    method Decrypt(output: array<bv8>, input: array<bv8>, length: nat, key: array?<bv8>, iv: array?<bv8>)
      requires Valid() && Span(length) <= output.Length && Span(length) <= input.Length
      requires output != aes.roundKey && input != aes.roundKey && output != input
      requires key != null ==> key.Length >= 16 && key != output && key != aes.roundKey
      requires iv != null ==> iv.Length >= 16 && iv != output && iv != aes.roundKey
      requires iv == null ==> this.iv != output
      modifies this, aes, aes.roundKey, output
      ensures Valid()
      ensures aes.Keys() == if key == null then old(aes.Keys()) else KeySchedule(old(key[..16]))
      ensures var c, chain := input[..], if iv == null then old(Chain()) else old(iv[..16]);
        output[..] == Finished(Decrypted(aes.Keys(), chain, c, Blocks(length)), DecryptedExtra(aes.Keys(), c, length),
                               c, length, old(output[..]))
    {
      hide AesBlock.InvCipher, KeySchedule, Decrypted, Finished, Padded, Blocks, Span;
      SpanCovers(length);
      ghost var c, before := input[..], output[..];
      ghost var chain := if iv == null then Chain() else iv[..16];
      Begin(output, input, key, iv);
      DecryptLoop(output, input, length);
      ghost var w := aes.Keys();
      FinishedByParts(Decrypted(w, chain, c, Blocks(length)), DecryptedExtra(w, c, length), c, length, before);
      if length % 16 != 0 {
        DecryptRemainder(output, input, 16 * Blocks(length), length % 16);
      }
    }
  }

  /** Zeroes the block at this position past its first bytes. */
  method ClearTail(output: array<bv8>, at: nat, kept: nat)
    requires kept <= 16 && at + 16 <= output.Length
    modifies output
    ensures output[..] == old(output[..at + kept]) + seq(16 - kept, _ => 0) + old(output[at + 16..])
  {
    ghost var before := output[..];
    for k := at + kept to at + 16
      invariant forall m | at + kept <= m < k :: output[m] == 0
      invariant forall m | 0 <= m < output.Length && !(at + kept <= m < k) :: output[m] == before[m]
    {
      output[k] := 0;
    }
  }

  method BlockCopy(output: array<bv8>, input: array<bv8>, at: nat)
    requires at + 16 <= output.Length && at + 16 <= input.Length
    modifies output
    ensures output[..] == old(output[..at]) + old(input[at..at + 16]) + old(output[at + 16..])
  {
    ghost var before, source := output[..], input[..];
    for i := 0 to 16
      invariant forall k | at <= k < at + i :: output[k] == source[k]
      invariant forall k | 0 <= k < output.Length && !(at <= k < at + i) :: output[k] == before[k]
      invariant input[..] == source
    {
      output[at + i] := input[at + i];
    }
  }

  /** A copied block whose end is cleared is the padded one, byte by byte. */
  lemma PaddedCopy(before: seq<bv8>, source: seq<bv8>, copied: seq<bv8>, after: seq<bv8>, at: nat, n: nat)
    requires n < 16 && at + 16 <= |before| && at + 16 <= |source|
    requires copied == before[..at] + source[at..at + 16] + before[at + 16..]
    requires after == copied[..at + n] + seq(16 - n, _ => 0) + copied[at + 16..]
    ensures after == before[..at] + Padded(source, at, n) + before[at + 16..]
  {
    var goal := before[..at] + Padded(source, at, n) + before[at + 16..];
    assert |after| == |goal| == |before|;
    forall k | 0 <= k < |before| ensures after[k] == goal[k] {
      if k < at {
        assert goal[k] == before[k] && copied[k] == before[k];
      } else if k < at + n {
        assert goal[k] == source[k] && copied[k] == source[k];
      } else if k < at + 16 {
        assert goal[k] == 0 && after[k] == 0;
      } else {
        assert goal[k] == before[k] && copied[k] == before[k];
      }
    }
  }

  method CopyPadded(output: array<bv8>, input: array<bv8>, at: nat, n: nat)
    requires n < 16 && at + 16 <= output.Length && at + 16 <= input.Length
    modifies output
    ensures output[..] == old(output[..at]) + Padded(old(input[..]), at, n) + old(output[at + 16..])
  {
    hide Padded;
    ghost var before, source := output[..], input[..];
    BlockCopy(output, input, at);
    ghost var copied := output[..];
    assert copied == before[..at] + source[at..at + 16] + before[at + 16..];
    ClearTail(output, at, n);
    assert output[..] == copied[..at + n] + seq(16 - n, _ => 0) + copied[at + 16..];
    PaddedCopy(before, source, copied, output[..], at, n);
  }
}
