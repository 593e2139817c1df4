/** The TLS pseudo-random function: P_hash of section 5 of RFC 5246 over HMAC with SHA-256. */
module Prf {
  import opened Bytes
  import opened Hmac

  //////////////////////////////////////////////////////////////////////////////
  // RFC 5246
  //////////////////////////////////////////////////////////////////////////////

  /** A(i): the seed under i applications of the keyed hash. */
  function A(secret: seq<Byte>, seed: seq<Byte>, i: nat): seq<Byte> {
    if i == 0 then seed else HmacOf(secret, A(secret, seed, i - 1))
  }

  /** The first n blocks of P_hash. */
  function PHashBlocks(secret: seq<Byte>, seed: seq<Byte>, n: nat): (s: seq<Byte>)
    ensures |s| == 32 * n
  {
    if n == 0 then []
    else PHashBlocks(secret, seed, n - 1) + HmacOf(secret, A(secret, seed, n) + seed)
  }

  /** The first n bytes of P_hash. */
  function PHash(secret: seq<Byte>, seed: seq<Byte>, n: nat): (s: seq<Byte>)
    ensures |s| == n
  {
    PHashBlocks(secret, seed, n / 32 + 1)[..n]
  }

  lemma {:induction false} BlocksPrefix(secret: seq<Byte>, seed: seq<Byte>, m: nat, n: nat)
    requires m <= n
    ensures PHashBlocks(secret, seed, m) == PHashBlocks(secret, seed, n)[..32 * m]
  {
    hide HmacOf, A;
    if m < n {
      BlocksPrefix(secret, seed, m, n - 1);
      assert PHashBlocks(secret, seed, n)[..32 * (n - 1)] == PHashBlocks(secret, seed, n - 1);
      assert PHashBlocks(secret, seed, n)[..32 * m] == PHashBlocks(secret, seed, n)[..32 * (n - 1)][..32 * m];
    }
  }

  /** Any number of blocks that covers n bytes gives the same n bytes. */
  lemma EnoughBlocks(secret: seq<Byte>, seed: seq<Byte>, n: nat, k: nat)
    requires n <= 32 * k
    ensures PHashBlocks(secret, seed, k)[..n] == PHash(secret, seed, n)
  {
    hide PHashBlocks;
    var j := n / 32 + 1;
    if k <= j {
      BlocksPrefix(secret, seed, k, j);
      assert PHashBlocks(secret, seed, j)[..n] == PHashBlocks(secret, seed, j)[..32 * k][..n];
    } else {
      BlocksPrefix(secret, seed, j, k);
      assert PHashBlocks(secret, seed, k)[..n] == PHashBlocks(secret, seed, k)[..32 * j][..n];
    }
  }

  /** Shorter outputs are prefixes of longer ones. */
  lemma ShorterIsPrefix(secret: seq<Byte>, seed: seq<Byte>, m: nat, n: nat)
    requires m <= n
    ensures PHash(secret, seed, m) == PHash(secret, seed, n)[..m]
  {
    hide PHashBlocks;
    EnoughBlocks(secret, seed, m, n / 32 + 1);
  }

  //////////////////////////////////////////////////////////////////////////////
  // The expansion
  //////////////////////////////////////////////////////////////////////////////

  /** The bytes of an optional seed part. */
  ghost function Part(a: array?<Byte>, len: nat): seq<Byte>
    requires a != null ==> len <= a.Length
    reads a
  {
    if a == null then [] else a[..len]
  }

  /** Absorbs a seed part if there is one. */
  method UpdateSeed(ctx: HmacContext, seed: array?<Byte>, len: nat)
    requires ctx.Valid() && (seed != null ==> len <= seed.Length && seed != ctx.data.buffer)
    requires |ctx.text| + len < MAX_TEXT
    modifies ctx`text, ctx.data, ctx.data.state, ctx.data.buffer
    ensures ctx.Valid() && ctx.text == old(ctx.text) + old(Part(seed, len))
  {
    hide *;
    PartIs(seed, len);
    if seed != null {
      ctx.Update(seed, 0, len);
      assert seed[0..len] == seed[..len];
    } else {
      assert ctx.text == ctx.text + [];
    }
  }

  lemma PartIs(a: array?<Byte>, len: nat)
    requires a != null ==> len <= a.Length
    ensures Part(a, len) == if a == null then [] else a[..len]
  {
  }

  /** The three seed parts one after the other. */
  ghost function Seed(labelBytes: array?<Byte>, labelLen: nat, random1: array?<Byte>, random1len: nat,
                    random2: array?<Byte>, random2len: nat): seq<Byte>
    requires Fits(labelBytes, labelLen, random1, random1len, random2, random2len)
    reads labelBytes, random1, random2
  {
    Part(labelBytes, labelLen) + Part(random1, random1len) + Part(random2, random2len)
  }

  /** The lengths fit the arrays and the bit counter of the hash. */
  ghost predicate Fits(labelBytes: array?<Byte>, labelLen: nat, random1: array?<Byte>, random1len: nat,
                    random2: array?<Byte>, random2len: nat) {
    && (labelBytes != null ==> labelLen <= labelBytes.Length)
    && (random1 != null ==> random1len <= random1.Length)
    && (random2 != null ==> random2len <= random2.Length)
    && 32 + labelLen + random1len + random2len < MAX_TEXT
  }

  /** Absorbs label and randoms into the text. */
  method UpdateSeeds(ctx: HmacContext, labelBytes: array?<Byte>, labelLen: nat, random1: array?<Byte>, random1len: nat,
                    random2: array?<Byte>, random2len: nat)
    requires ctx.Valid() && |ctx.text| <= 32 && Fits(labelBytes, labelLen, random1, random1len, random2, random2len)
    requires labelBytes != ctx.data.buffer && random1 != ctx.data.buffer && random2 != ctx.data.buffer
    modifies ctx`text, ctx.data, ctx.data.state, ctx.data.buffer
    ensures ctx.Valid() && ctx.text == old(ctx.text) + old(Seed(labelBytes, labelLen, random1, random1len, random2,
        random2len))
  {
    hide Part, HmacContext.Valid;
    PartLength(labelBytes, labelLen);
    PartLength(random1, random1len);
    PartLength(random2, random2len);
    ghost var p0, p1, p2 := Part(labelBytes, labelLen), Part(random1, random1len), Part(random2, random2len);
    UpdateSeed(ctx, labelBytes, labelLen);
    UpdateSeed(ctx, random1, random1len);
    UpdateSeed(ctx, random2, random2len);
    assert ctx.text == old(ctx.text) + (p0 + p1 + p2);
  }

  lemma PartLength(a: array?<Byte>, len: nat)
    requires a != null ==> len <= a.Length
    ensures |Part(a, len)| <= len
  {
  }

  /** tmp := the keyed hash of a followed by the seed. */
  method OutputBlock(ctx: HmacContext, key: array<Byte>, keylen: nat, a: array<Byte>,
                    labelBytes: array?<Byte>, labelLen: nat, random1: array?<Byte>, random1len: nat,
                    random2: array?<Byte>, random2len: nat, tmp: array<Byte>)
    requires ctx.Shape() && keylen <= key.Length && keylen < MAX_TEXT && a.Length == tmp.Length == 32
    requires Fits(labelBytes, labelLen, random1, random1len, random2, random2len)
    requires labelBytes != ctx.data.buffer && random1 != ctx.data.buffer && random2 != ctx.data.buffer
    requires key != ctx.data.buffer && a != ctx.data.buffer && tmp != ctx.data.buffer
    requires labelBytes != ctx.pad && random1 != ctx.pad && random2 != ctx.pad
    requires key != ctx.pad && a != ctx.pad && tmp != ctx.pad
    modifies ctx, ctx.pad, ctx.data, ctx.data.state, ctx.data.buffer, tmp
    ensures ctx.Shape()
    ensures tmp[..] == HmacOf(old(key[..keylen]), old(a[..]) + old(Seed(labelBytes, labelLen, random1, random1len,
        random2, random2len)))
  {
    hide *;
    SmallText();
    ghost var av, seed := a[..], Seed(labelBytes, labelLen, random1, random1len, random2, random2len);
    ctx.Init(key, keylen);
    ctx.Update(a, 0, 32);
    assert ctx.text == av by { assert a[0..32] == a[..]; assert [] + av == av; }
    UpdateSeeds(ctx, labelBytes, labelLen, random1, random1len, random2, random2len);
    var len := ctx.Finalize(tmp);
    assert tmp[32..] == [];
  }

  lemma SmallText()
    ensures 32 < MAX_TEXT
  {
  }

  /** a := the keyed hash of a. */
  method NextA(ctx: HmacContext, key: array<Byte>, keylen: nat, a: array<Byte>)
    requires ctx.Shape() && keylen <= key.Length && keylen < MAX_TEXT && a.Length == 32
    requires key != ctx.data.buffer && a != ctx.data.buffer && key != ctx.pad && a != ctx.pad
    modifies ctx, ctx.pad, ctx.data, ctx.data.state, ctx.data.buffer, a
    ensures ctx.Shape()
    ensures a[..] == HmacOf(old(key[..keylen]), old(a[..]))
  {
    hide *;
    SmallText();
    ghost var av := a[..];
    ctx.Init(key, keylen);
    ctx.Update(a, 0, 32);
    assert ctx.text == av by { assert a[0..32] == a[..]; assert [] + av == av; }
    var len := ctx.Finalize(a);
    assert a[32..] == [];
  }

  /** a := A(1) of the seed. */
  method FirstA(ctx: HmacContext, key: array<Byte>, keylen: nat, labelBytes: array?<Byte>, labelLen: nat,
      random1: array?<Byte>, random1len: nat,
                    random2: array?<Byte>, random2len: nat, a: array<Byte>)
    requires ctx.Shape() && keylen <= key.Length && keylen < MAX_TEXT && a.Length == 32
    requires Fits(labelBytes, labelLen, random1, random1len, random2, random2len)
    requires labelBytes != ctx.data.buffer && random1 != ctx.data.buffer && random2 != ctx.data.buffer
    requires key != ctx.data.buffer && a != ctx.data.buffer && key != ctx.pad && a != ctx.pad
    requires labelBytes != ctx.pad && random1 != ctx.pad && random2 != ctx.pad
    modifies ctx, ctx.pad, ctx.data, ctx.data.state, ctx.data.buffer, a
    ensures ctx.Shape()
    ensures a[..] == HmacOf(old(key[..keylen]), old(Seed(labelBytes, labelLen, random1, random1len, random2,
        random2len)))
  {
    hide *;
    ghost var seed := Seed(labelBytes, labelLen, random1, random1len, random2, random2len);
    ctx.Init(key, keylen);
    UpdateSeeds(ctx, labelBytes, labelLen, random1, random1len, random2, random2len);
    assert [] + seed == seed;
    var len := ctx.Finalize(a);
    assert a[32..] == [];
  }

  lemma BlockAppended(secret: seq<Byte>, seed: seq<Byte>, n: nat, done: seq<Byte>, a: seq<Byte>, tmp: seq<Byte>)
    requires done == PHashBlocks(secret, seed, n) && a == A(secret, seed, n + 1) && tmp == HmacOf(secret, a + seed)
    ensures PHashBlocks(secret, seed, n + 1) == done + tmp
    ensures A(secret, seed, n + 2) == HmacOf(secret, a)
  {
    hide HmacOf;
  }

  lemma StartOf(secret: seq<Byte>, seed: seq<Byte>)
    ensures PHashBlocks(secret, seed, 0) == [] && A(secret, seed, 1) == HmacOf(secret, seed)
  {
    hide HmacOf;
    assert A(secret, seed, 0) == seed;
  }

  /** The buffer before len holds the first n blocks and a is ready for the next one. */
  ghost predicate Expanded(secret: seq<Byte>, seed: seq<Byte>, n: nat, done: seq<Byte>, a: seq<Byte>) {
    done == PHashBlocks(secret, seed, n) && a == A(secret, seed, n + 1)
  }

  lemma ExpandedStart(secret: seq<Byte>, seed: seq<Byte>, a: seq<Byte>)
    requires a == HmacOf(secret, seed)
    ensures Expanded(secret, seed, 0, [], a)
  {
    StartOf(secret, seed);
  }

  lemma ExpandedStep(secret: seq<Byte>, seed: seq<Byte>, n: nat, done: seq<Byte>, a: seq<Byte>, tmp: seq<Byte>,
      a': seq<Byte>)
    requires Expanded(secret, seed, n, done, a)
    requires tmp == HmacOf(secret, a + seed) && a' == HmacOf(secret, a)
    ensures Expanded(secret, seed, n + 1, done + tmp, a')
  {
    hide HmacOf, PHashBlocks, A;
    BlockAppended(secret, seed, n, done, a, tmp);
  }

  lemma ExpandedEnd(secret: seq<Byte>, seed: seq<Byte>, n: nat, done: seq<Byte>, a: seq<Byte>, tmp: seq<Byte>,
      buflen: nat)
    requires Expanded(secret, seed, n, done, a) && tmp == HmacOf(secret, a + seed)
    requires |done| == 32 * n && |tmp| == 32 && |done| <= buflen <= |done| + 32
    ensures done + tmp[..buflen - |done|] == PHash(secret, seed, buflen)
  {
    hide HmacOf, PHashBlocks, A, PHash;
    BlockAppended(secret, seed, n, done, a, tmp);
    EnoughBlocks(secret, seed, buflen, n + 1);
    assert (done + tmp)[..buflen] == done + tmp[..buflen - |done|];
  }

  /** One pass of the loop: a block into the buffer, and the next A. */
  method ExpandBlock(hmacA: HmacContext, hmacP: HmacContext, key: array<Byte>, keylen: nat,
      labelBytes: array?<Byte>, labelLen: nat, random1: array?<Byte>, random1len: nat,
                    random2: array?<Byte>, random2len: nat,
                    a: array<Byte>, tmp: array<Byte>, buf: array<Byte>, len: nat, ghost n: nat)
    requires hmacA.Shape() && hmacP.Shape() && keylen <= key.Length && keylen < MAX_TEXT
    requires a.Length == tmp.Length == 32 && len + 32 <= buf.Length && a != tmp && a != buf && tmp != buf
        && key != a && key != tmp
    requires Fits(labelBytes, labelLen, random1, random1len, random2, random2len)
    requires {labelBytes, random1, random2, key, a, tmp, buf}
             !! {hmacA.pad, hmacA.data.buffer, hmacP.pad, hmacP.data.buffer}
    requires buf != key && buf != labelBytes && buf != random1 && buf != random2
    requires {labelBytes, random1, random2} !! {a, tmp}
    requires Expanded(key[..keylen], Seed(labelBytes, labelLen, random1, random1len, random2, random2len), n,
        buf[..len], a[..])
    modifies hmacA, hmacA.pad, hmacA.data, hmacA.data.state, hmacA.data.buffer
    modifies hmacP, hmacP.pad, hmacP.data, hmacP.data.state, hmacP.data.buffer
    modifies a, tmp, buf
    ensures hmacA.Shape() && hmacP.Shape()
    ensures Expanded(key[..keylen], Seed(labelBytes, labelLen, random1, random1len, random2, random2len), n + 1,
        buf[..len + 32], a[..])
    ensures buf[len + 32..] == old(buf[len + 32..])
  {
    hide *;
    ghost var secret, seed, done, av := key[..keylen], Seed(labelBytes, labelLen, random1, random1len, random2,
        random2len), buf[..len], a[..];
    OutputBlock(hmacP, key, keylen, a, labelBytes, labelLen, random1, random1len, random2, random2len, tmp);
    MemMove(buf, len, tmp, 0, 32);
    ghost var block := tmp[..];
    assert buf[..len + 32] == done + block;
    NextA(hmacA, key, keylen, a);
    ExpandedStep(secret, seed, n, done, av, block, a[..]);
  }

  /** After the loop: the last block, cut to what is still missing. */
  method ExpandLast(hmacP: HmacContext, key: array<Byte>, keylen: nat, labelBytes: array?<Byte>, labelLen: nat,
      random1: array?<Byte>, random1len: nat,
                    random2: array?<Byte>, random2len: nat,
                    a: array<Byte>, tmp: array<Byte>, buf: array<Byte>, len: nat, buflen: nat, ghost n: nat)
    requires hmacP.Shape() && keylen <= key.Length && keylen < MAX_TEXT
    requires a.Length == tmp.Length == 32 && len == 32 * n && len <= buflen <= len + 32 && buflen <= buf.Length
    requires a != tmp && tmp != buf && key != tmp && a != buf
    requires Fits(labelBytes, labelLen, random1, random1len, random2, random2len)
    requires {labelBytes, random1, random2, key, a, tmp, buf} !! {hmacP.pad, hmacP.data.buffer}
    requires buf != key && buf != labelBytes && buf != random1 && buf != random2
    requires {labelBytes, random1, random2} !! {tmp}
    requires Expanded(key[..keylen], Seed(labelBytes, labelLen, random1, random1len, random2, random2len), n,
        buf[..len], a[..])
    modifies hmacP, hmacP.pad, hmacP.data, hmacP.data.state, hmacP.data.buffer
    modifies tmp, buf
    ensures buf[..] == PHash(key[..keylen], Seed(labelBytes, labelLen, random1, random1len, random2, random2len),
        buflen) + old(buf[buflen..])
  {
    hide *;
    ghost var secret, seed, done := key[..keylen], Seed(labelBytes, labelLen, random1, random1len, random2,
        random2len), buf[..len];
    OutputBlock(hmacP, key, keylen, a, labelBytes, labelLen, random1, random1len, random2, random2len, tmp);
    ExpandedEnd(secret, seed, n, done, a[..], tmp[..], buflen);
    MemMove(buf, len, tmp, 0, buflen - len);
    assert tmp[0..buflen - len] == tmp[..][..buflen - len];
  }

  /** Fills buf (buflen bytes) with P_hash of the secret and the seed, and returns buflen. */
  method DtlsPHash(key: array<Byte>, keylen: nat, labelBytes: array?<Byte>, labelLen: nat, random1: array?<Byte>,
      random1len: nat,
                    random2: array?<Byte>, random2len: nat,
                    buf: array<Byte>, buflen: nat)
    returns (r: nat)
    requires keylen <= key.Length && keylen < MAX_TEXT && buflen <= buf.Length
    requires Fits(labelBytes, labelLen, random1, random1len, random2, random2len)
    requires buf != key && buf != labelBytes && buf != random1 && buf != random2
    modifies buf
    ensures r == buflen
    ensures buf[..] == PHash(key[..keylen], Seed(labelBytes, labelLen, random1, random1len, random2, random2len),
        buflen) + old(buf[buflen..])
  {
    hide *;
    ghost var secret, seed := key[..keylen], Seed(labelBytes, labelLen, random1, random1len, random2, random2len);
    var a, tmp := new Byte[32], new Byte[32];
    var hmacA := new HmacContext();
    FirstA(hmacA, key, keylen, labelBytes, labelLen, random1, random1len, random2, random2len, a);
    ExpandedStart(secret, seed, a[..]);
    var hmacP := new HmacContext();
    var len := 0;
    ghost var n := 0;
    assert buf[..0] == [];
    while len + 32 < buflen
      invariant len == 32 * n && len <= buflen
      invariant hmacA.Shape() && hmacP.Shape()
      invariant Expanded(secret, seed, n, buf[..len], a[..])
      invariant buf[buflen..] == old(buf[buflen..])
      decreases buflen - len
    {
      ghost var tail := buf[len + 32..];
      ExpandBlock(hmacA, hmacP, key, keylen, labelBytes, labelLen, random1, random1len, random2, random2len, a, tmp,
          buf, len, n);
      assert buf[buflen..] == tail[buflen - (len + 32)..];
      len := len + 32;
      n := n + 1;
    }
    ExpandLast(hmacP, key, keylen, labelBytes, labelLen, random1, random1len, random2, random2len, a, tmp, buf, len,
        buflen, n);
    return buflen;
  }

  /** The pseudo-random function: the buffer is cleared, then filled. */
  method DtlsPrf(key: array<Byte>, keylen: nat, labelBytes: array?<Byte>, labelLen: nat, random1: array?<Byte>,
      random1len: nat,
                    random2: array?<Byte>, random2len: nat,
                    buf: array<Byte>, buflen: nat)
    returns (r: nat)
    requires keylen <= key.Length && keylen < MAX_TEXT && buflen <= buf.Length
    requires Fits(labelBytes, labelLen, random1, random1len, random2, random2len)
    requires buf != key && buf != labelBytes && buf != random1 && buf != random2
    modifies buf
    ensures r == buflen
    ensures buf[..] == PHash(key[..keylen], Seed(labelBytes, labelLen, random1, random1len, random2, random2len),
        buflen) + old(buf[buflen..])
  {
    hide *;
    ghost var tail := buf[buflen..];
    MemSetZero(buf, 0, buflen);
    assert buf[buflen..] == tail;
    r := DtlsPHash(key, keylen, labelBytes, labelLen, random1, random1len, random2, random2len, buf, buflen);
  }
}
