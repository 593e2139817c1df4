/** HMAC and P_hash by their defining equations, key by key and byte by byte (RFC 2104; section 5 of RFC 5246). */
module HmacLaws {
  import opened Bytes
  import opened Sha256
  import opened Hmac
  import opened Prf

  //////////////////////////////////////////////////////////////////////////////
  // Keys of all lengths
  //////////////////////////////////////////////////////////////////////////////

  /** Zero bytes behind a key that fit its block change nothing. */
  lemma ZeroPaddedKey(key: seq<Byte>, n: nat, text: seq<Byte>)
    requires |key| + n <= 64
    ensures HmacOf(key + Zeros(n), text) == HmacOf(key, text)
  {
    hide Digest, XorByte;
    assert Zeros(n) + Zeros(64 - |key| - n) == Zeros(64 - |key|);
    assert BlockKey(key + Zeros(n)) == BlockKey(key);
  }

  /** A key longer than a block acts as its digest. */
  lemma LongKeyHashed(key: seq<Byte>, text: seq<Byte>)
    requires |key| > 64
    ensures HmacOf(key, text) == HmacOf(Digest(key), text)
  {
    hide Digest, XorByte;
    assert BlockKey(Digest(key)) == BlockKey(key);
  }

  /** Under a key of one block: the digest of the outer pad and the digest of the inner pad and the text. */
  lemma BlockKeyFormula(key: seq<Byte>, text: seq<Byte>)
    requires |key| == 64
    ensures var inner := seq(64, i requires 0 <= i < 64 => key[i] ^ 0x36);
            var outer := seq(64, i requires 0 <= i < 64 => key[i] ^ 0x5c);
            HmacOf(key, text) == Digest(outer + Digest(inner + text))
  {
    hide Digest;
    assert BlockKey(key) == key;
    assert XorByte(key, 0x36) == seq(64, i requires 0 <= i < 64 => key[i] ^ 0x36);
    assert XorByte(key, 0x5c) == seq(64, i requires 0 <= i < 64 => key[i] ^ 0x5c);
  }

  //////////////////////////////////////////////////////////////////////////////
  // P_hash
  //////////////////////////////////////////////////////////////////////////////

  /** A(1) is the keyed digest of the seed, and each further one that of the one before. */
  lemma AIs(secret: seq<Byte>, seed: seq<Byte>, i: nat)
    ensures A(secret, seed, 1) == HmacOf(secret, seed)
    ensures A(secret, seed, i + 1) == HmacOf(secret, A(secret, seed, i))
  {
    hide HmacOf;
    assert A(secret, seed, 0) == seed;
  }

  lemma {:induction false} BlocksAt(secret: seq<Byte>, seed: seq<Byte>, n: nat, j: nat)
    requires j < 32 * n
    ensures PHashBlocks(secret, seed, n)[j] == HmacOf(secret, A(secret, seed, j / 32 + 1) + seed)[j % 32]
  {
    hide HmacOf, A;
    if j < 32 * (n - 1) {
      BlocksAt(secret, seed, n - 1, j);
    } else {
      assert j / 32 == n - 1 && j % 32 == j - 32 * (n - 1);
    }
  }

  /** Byte j of P_hash is byte j % 32 of the keyed digest of A(j / 32 + 1) and the seed. */
  lemma PHashAt(secret: seq<Byte>, seed: seq<Byte>, n: nat, j: nat)
    requires j < n
    ensures PHash(secret, seed, n)[j] == HmacOf(secret, A(secret, seed, j / 32 + 1) + seed)[j % 32]
  {
    BlocksAt(secret, seed, n / 32 + 1, j);
    hide HmacOf, A, PHashBlocks;
  }

  /** The first block for a label, a client random and a server random, which come in this order. */
  lemma FirstBlock(secret: seq<Byte>, labelBytes: array<Byte>, labelLen: nat, random1: array<Byte>, random1len: nat,
                   random2: array<Byte>, random2len: nat)
    requires Fits(labelBytes, labelLen, random1, random1len, random2, random2len)
    ensures var seed := labelBytes[..labelLen] + random1[..random1len] + random2[..random2len];
            PHash(secret, Seed(labelBytes, labelLen, random1, random1len, random2, random2len), 32)
            == HmacOf(secret, HmacOf(secret, seed) + seed)
  {
    hide HmacOf, A, PHash, PHashBlocks;
    var seed := labelBytes[..labelLen] + random1[..random1len] + random2[..random2len];
    assert Seed(labelBytes, labelLen, random1, random1len, random2, random2len) == seed;
    AIs(secret, seed, 0);
    var p, h := PHash(secret, seed, 32), HmacOf(secret, HmacOf(secret, seed) + seed);
    forall j | 0 <= j < 32
      ensures p[j] == h[j]
    {
      PHashAt(secret, seed, 32, j);
      assert j / 32 == 0 && j % 32 == j;
    }
    assert p == h;
  }
}
