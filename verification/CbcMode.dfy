/**
 Cipher block chaining as section 6.2 of NIST SP 800-38A defines it, on byte strings cut into
 16-byte blocks, and the two directions undoing each other.
 */
module CbcMode {
  import opened Gf256
  import opened AesBlock

  function BlockAt(p: seq<bv8>, j: nat): Block
    requires 16 * j + 16 <= |p|
  {
    p[16 * j..16 * j + 16]
  }

  /** The block number j going into the cipher: the plaintext block masked by the block before it. */
  function MaskedBlock(w: Schedule, iv: Block, p: seq<bv8>, j: nat): Block
    requires 16 * j + 16 <= |p|
    decreases j, 0
  {
    XorBlocks(BlockAt(p, j), if j == 0 then iv else EncryptedBlock(w, iv, p, j - 1))
  }

  function EncryptedBlock(w: Schedule, iv: Block, p: seq<bv8>, j: nat): Block
    requires 16 * j + 16 <= |p|
    decreases j, 1
  {
    Cipher(MaskedBlock(w, iv, p, j), w)
  }

  function DecryptedBlock(w: Schedule, iv: Block, c: seq<bv8>, j: nat): Block
    requires 16 * j + 16 <= |c|
  {
    XorBlocks(InvCipher(BlockAt(c, j), w), if j == 0 then iv else BlockAt(c, j - 1))
  }

  lemma MaskedNext(w: Schedule, iv: Block, p: seq<bv8>, j: nat)
    requires 16 * j + 16 <= |p|
    ensures MaskedBlock(w, iv, p, j) == XorBlocks(BlockAt(p, j), if j == 0 then iv else EncryptedBlock(w, iv, p, j - 1))
    ensures EncryptedBlock(w, iv, p, j) == Cipher(MaskedBlock(w, iv, p, j), w)
  {
  }

  lemma DecryptedNext(w: Schedule, iv: Block, c: seq<bv8>, j: nat)
    requires 16 * j + 16 <= |c|
    ensures DecryptedBlock(w, iv, c, j) == XorBlocks(InvCipher(BlockAt(c, j), w), if j == 0 then iv else BlockAt(c, j - 1))
  {
  }

  // The first n blocks of each, joined.

  function Masked(w: Schedule, iv: Block, p: seq<bv8>, n: nat): (m: seq<bv8>)
    requires 16 * n <= |p|
    ensures |m| == 16 * n
  {
    if n == 0 then [] else Masked(w, iv, p, n - 1) + MaskedBlock(w, iv, p, n - 1)
  }

  function Encrypted(w: Schedule, iv: Block, p: seq<bv8>, n: nat): (c: seq<bv8>)
    requires 16 * n <= |p|
    ensures |c| == 16 * n
  {
    if n == 0 then [] else Encrypted(w, iv, p, n - 1) + EncryptedBlock(w, iv, p, n - 1)
  }

  function Decrypted(w: Schedule, iv: Block, c: seq<bv8>, n: nat): (p: seq<bv8>)
    requires 16 * n <= |c|
    ensures |p| == 16 * n
  {
    if n == 0 then [] else Decrypted(w, iv, c, n - 1) + DecryptedBlock(w, iv, c, n - 1)
  }

  lemma {:induction false} BlockOfEncrypted(w: Schedule, iv: Block, p: seq<bv8>, n: nat, j: nat)
    requires j < n && 16 * n <= |p|
    ensures BlockAt(Encrypted(w, iv, p, n), j) == EncryptedBlock(w, iv, p, j)
  {
    hide EncryptedBlock;
    if j < n - 1 {
      BlockOfEncrypted(w, iv, p, n - 1, j);
      assert BlockAt(Encrypted(w, iv, p, n), j) == BlockAt(Encrypted(w, iv, p, n - 1), j);
    }
  }

  lemma {:induction false} BlockOfDecrypted(w: Schedule, iv: Block, c: seq<bv8>, n: nat, j: nat)
    requires j < n && 16 * n <= |c|
    ensures BlockAt(Decrypted(w, iv, c, n), j) == DecryptedBlock(w, iv, c, j)
  {
    hide DecryptedBlock;
    if j < n - 1 {
      BlockOfDecrypted(w, iv, c, n - 1, j);
      assert BlockAt(Decrypted(w, iv, c, n), j) == BlockAt(Decrypted(w, iv, c, n - 1), j);
    }
  }

  lemma BlockRecovered(w: Schedule, iv: Block, p: seq<bv8>, n: nat, j: nat)
    requires j < n && 16 * n <= |p|
    ensures DecryptedBlock(w, iv, Encrypted(w, iv, p, n), j) == BlockAt(p, j)
  {
    hide XorBlocks, Cipher, InvCipher, Encrypted;
    BlockOfEncrypted(w, iv, p, n, j);
    InvCipherUndoesCipher(MaskedBlock(w, iv, p, j), w);
    if j == 0 {
      XorBlocksTwice(BlockAt(p, 0), iv);
    } else {
      BlockOfEncrypted(w, iv, p, n, j - 1);
      XorBlocksTwice(BlockAt(p, j), EncryptedBlock(w, iv, p, j - 1));
    }
  }

  /** Decrypting the first m blocks of a longer encryption gives the first m blocks back. */
  lemma {:induction false} DecryptUndoesEncrypt(w: Schedule, iv: Block, p: seq<bv8>, n: nat, m: nat)
    requires m <= n && 16 * n <= |p|
    ensures Decrypted(w, iv, Encrypted(w, iv, p, n), m) == p[..16 * m]
  {
    hide DecryptedBlock, Encrypted;
    if m > 0 {
      DecryptUndoesEncrypt(w, iv, p, n, m - 1);
      BlockRecovered(w, iv, p, n, m - 1);
    }
  }

  lemma {:induction false} BlockRestored(w: Schedule, iv: Block, c: seq<bv8>, n: nat, j: nat)
    requires j < n && 16 * n <= |c|
    ensures EncryptedBlock(w, iv, Decrypted(w, iv, c, n), j) == BlockAt(c, j)
  {
    hide XorBlocks, Cipher, InvCipher, Decrypted;
    BlockOfDecrypted(w, iv, c, n, j);
    CipherUndoesInvCipher(BlockAt(c, j), w);
    if j == 0 {
      XorBlocksTwice(InvCipher(BlockAt(c, 0), w), iv);
    } else {
      BlockRestored(w, iv, c, n, j - 1);
      XorBlocksTwice(InvCipher(BlockAt(c, j), w), BlockAt(c, j - 1));
    }
  }

  lemma {:induction false} EncryptUndoesDecrypt(w: Schedule, iv: Block, c: seq<bv8>, n: nat, m: nat)
    requires m <= n && 16 * n <= |c|
    ensures Encrypted(w, iv, Decrypted(w, iv, c, n), m) == c[..16 * m]
  {
    hide EncryptedBlock, Decrypted;
    if m > 0 {
      EncryptUndoesDecrypt(w, iv, c, n, m - 1);
      BlockRestored(w, iv, c, n, m - 1);
    }
  }

  // Only the blocks asked for matter, not what follows them.

  lemma {:induction false} EncryptedBlockLocal(w: Schedule, iv: Block, p: seq<bv8>, q: seq<bv8>, j: nat)
    requires 16 * j + 16 <= |p| && 16 * j + 16 <= |q| && p[..16 * j + 16] == q[..16 * j + 16]
    ensures EncryptedBlock(w, iv, p, j) == EncryptedBlock(w, iv, q, j)
  {
    hide Cipher, XorBlocks;
    assert BlockAt(p, j) == p[..16 * j + 16][16 * j..] == BlockAt(q, j);
    if j > 0 {
      assert p[..16 * j] == p[..16 * j + 16][..16 * j] == q[..16 * j];
      EncryptedBlockLocal(w, iv, p, q, j - 1);
    }
  }

  lemma {:induction false} EncryptedLocal(w: Schedule, iv: Block, p: seq<bv8>, q: seq<bv8>, n: nat)
    requires 16 * n <= |p| && 16 * n <= |q| && p[..16 * n] == q[..16 * n]
    ensures Encrypted(w, iv, p, n) == Encrypted(w, iv, q, n)
  {
    hide EncryptedBlock;
    if n > 0 {
      assert p[..16 * (n - 1)] == p[..16 * n][..16 * (n - 1)] == q[..16 * (n - 1)];
      EncryptedLocal(w, iv, p, q, n - 1);
      EncryptedBlockLocal(w, iv, p, q, n - 1);
    }
  }

  lemma {:induction false} DecryptedLocal(w: Schedule, iv: Block, c: seq<bv8>, d: seq<bv8>, n: nat)
    requires 16 * n <= |c| && 16 * n <= |d| && c[..16 * n] == d[..16 * n]
    ensures Decrypted(w, iv, c, n) == Decrypted(w, iv, d, n)
  {
    hide InvCipher, XorBlocks;
    if n > 0 {
      assert c[..16 * (n - 1)] == c[..16 * n][..16 * (n - 1)] == d[..16 * (n - 1)];
      DecryptedLocal(w, iv, c, d, n - 1);
      assert BlockAt(c, n - 1) == c[..16 * n][16 * (n - 1)..] == BlockAt(d, n - 1);
      if n > 1 {
        assert BlockAt(c, n - 2) == c[..16 * n][16 * (n - 2)..16 * (n - 1)] == BlockAt(d, n - 2);
      }
    }
  }

  // ---- what chaining means ----

  /** The block the next one is masked with: the initial one, and from then on the last ciphertext block. */
  function LastOf(iv: Block, c: seq<bv8>): Block
    requires |c| % 16 == 0
  {
    if c == [] then iv else c[|c| - 16..]
  }

  /** One block is masked with the initial block and then ciphered. */
  lemma FirstBlock(w: Schedule, iv: Block, p: seq<bv8>)
    requires 16 <= |p|
    ensures Encrypted(w, iv, p, 1) == Cipher(XorBlocks(p[..16], iv), w)
    ensures Decrypted(w, iv, p, 1) == XorBlocks(InvCipher(p[..16], w), iv)
  {
    hide Cipher, InvCipher, XorBlocks;
    assert Encrypted(w, iv, p, 0) == [] && Decrypted(w, iv, p, 0) == [];
    assert BlockAt(p, 0) == p[..16];
  }

  lemma {:induction false} LastEncrypted(w: Schedule, iv: Block, p: seq<bv8>, n: nat)
    requires 0 < n && 16 * n <= |p|
    ensures LastOf(iv, Encrypted(w, iv, p, n)) == EncryptedBlock(w, iv, p, n - 1)
  {
    hide EncryptedBlock;
  }

  /** A block of the second part, enciphered after the first part. */
  lemma {:induction false} EncryptedOn(w: Schedule, iv: Block, p: seq<bv8>, q: seq<bv8>, n: nat, j: nat)
    requires |p| == 16 * n && 16 * j + 16 <= |q|
    ensures EncryptedBlock(w, iv, p + q, n + j) == EncryptedBlock(w, LastOf(iv, Encrypted(w, iv, p, n)), q, j)
  {
    hide Cipher, XorBlocks, Encrypted, LastOf;
    assert BlockAt(p + q, n + j) == BlockAt(q, j);
    MaskedNext(w, iv, p + q, n + j);
    MaskedNext(w, LastOf(iv, Encrypted(w, iv, p, n)), q, j);
    if j > 0 {
      EncryptedOn(w, iv, p, q, n, j - 1);
    } else if n > 0 {
      LastEncrypted(w, iv, p, n);
      EncryptedBlockLocal(w, iv, p, p + q, n - 1);
    } else {
      NothingEncrypted(w, iv, p);
    }
  }

  lemma NothingEncrypted(w: Schedule, iv: Block, p: seq<bv8>)
    ensures LastOf(iv, Encrypted(w, iv, p, 0)) == iv
  {
  }

  /**
   Enciphering goes on from the last ciphertext block: a message in two parts gives the first part's ciphertext and then
   the second part's, chained to its end.
   */
  lemma {:induction false} EncryptedInParts(w: Schedule, iv: Block, p: seq<bv8>, q: seq<bv8>, n: nat, m: nat)
    requires |p| == 16 * n && 16 * m <= |q|
    ensures var c := Encrypted(w, iv, p, n); Encrypted(w, iv, p + q, n + m) == c + Encrypted(w, LastOf(iv, c), q, m)
    decreases m
  {
    hide EncryptedBlock, LastOf;
    var c := Encrypted(w, iv, p, n);
    if m == 0 {
      EncryptedLocal(w, iv, p + q, p, n);
    } else {
      EncryptedInParts(w, iv, p, q, n, m - 1);
      EncryptedOn(w, iv, p, q, n, m - 1);
      assert n + m - 1 == n + (m - 1);
    }
  }
}
