/** Keyed hashing in a reusable context; the specification is section 2 of RFC 2104 with SHA-256. */
module Hmac {
  import opened Bytes
  import opened Sha256

  //////////////////////////////////////////////////////////////////////////////
  // RFC 2104
  //////////////////////////////////////////////////////////////////////////////

  /** The key brought to the block length: hashed if longer, then filled up with zeros. */
  function BlockKey(key: seq<Byte>): (k: seq<Byte>)
    ensures |k| == 64
  {
    if |key| > 64 then Digest(key) + Zeros(32) else key + Zeros(64 - |key|)
  }

  /** Every byte of s xor b. */
  function XorByte(s: seq<Byte>, b: Byte): (t: seq<Byte>)
    ensures |t| == |s|
  {
    seq(|s|, i requires 0 <= i < |s| => s[i] ^ b)
  }

  function HmacOf(key: seq<Byte>, text: seq<Byte>): (d: seq<Byte>)
    ensures |d| == 32
  {
    Digest(XorByte(BlockKey(key), 0x5c) + Digest(XorByte(BlockKey(key), 0x36) + text))
  }

  /** Turning the inner pad into the outer one in place. */
  lemma PadSwitch(s: seq<Byte>)
    ensures XorByte(XorByte(s, 0x36), 0x6a) == XorByte(s, 0x5c)
  {
    var t := XorByte(XorByte(s, 0x36), 0x6a);
    forall i | 0 <= i < |s|
      ensures t[i] == s[i] ^ 0x5c
    {
      assert (s[i] ^ 0x36) ^ 0x6a == s[i] ^ 0x5c;
    }
  }

  /** a := every byte of a xor b. */
  method XorInto(a: array<Byte>, b: Byte)
    modifies a
    ensures a[..] == XorByte(old(a[..]), b)
  {
    for i := 0 to a.Length
      invariant forall j | 0 <= j < i :: a[j] == old(a[j]) ^ b
      invariant forall j | i <= j < a.Length :: a[j] == old(a[j])
    {
      a[i] := a[i] ^ b;
    }
  }

  /** Keys and texts are counted in bits by the hash. */
  const MAX_TEXT: nat := 0x1000_0000_0000_0000

  class HmacContext {
    const pad: array<Byte>
    const data: Context
    ghost var key: seq<Byte>
    ghost var text: seq<Byte>

    /** The context and the arrays it owns. */
    ghost predicate Shape() {
      && pad.Length == 64 && data.Shape() && pad != data.buffer
    }

    /** Ready for text: the outer pad is in place and the inner hash has absorbed the inner pad and the text. */
    ghost predicate Valid()
      reads this, pad, data, data.state, data.buffer
    {
      && Shape() && data.Valid() && |text| < MAX_TEXT
      && pad[..] == XorByte(BlockKey(key), 0x5c)
      && data.message == XorByte(BlockKey(key), 0x36) + text
    }

    constructor ()
      ensures Shape() && fresh(pad) && fresh(data) && fresh(data.state) && fresh(data.buffer)
    {
      pad := new Byte[64];
      data := new Context();
    }

    lemma ValidParts()
      requires Valid()
      ensures Shape() && data.Valid() && |text| < MAX_TEXT && |data.message| == 64 + |text|
      ensures pad.Length == 64 && pad != data.buffer
      ensures pad[..] == XorByte(BlockKey(key), 0x5c)
      ensures data.message == XorByte(BlockKey(key), 0x36) + text
    {
      hide XorByte, BlockKey;
    }

    lemma ValidFrom()
      requires Shape() && data.Valid() && |text| < MAX_TEXT
      requires pad[..] == XorByte(BlockKey(key), 0x5c)
      requires data.message == XorByte(BlockKey(key), 0x36) + text
      ensures Valid()
    {
      hide XorByte, BlockKey;
    }

    lemma Sizes()
      ensures 0 < MAX_TEXT && MAX_TEXT + 64 < MAX_BYTES && 96 < MAX_BYTES
    {
    }

    /** pad := the digest of the key over what was there. */
    method HashKey(k: array<Byte>, klen: nat)
      requires Shape() && klen <= k.Length && klen < MAX_TEXT && k != pad && k != data.buffer
      modifies pad, data, data.state, data.buffer
      ensures pad[..] == Digest(k[..klen]) + old(pad[32..])
    {
      hide *;
      Sizes();
      ShapeParts();
      data.Init();
      data.Update(k, 0, klen);
      assert [] + k[0..klen] == k[..klen];
      data.Final(pad);
    }

    /** pad := the key brought to the block length. */
    method LoadKey(k: array<Byte>, klen: nat)
      requires Shape() && klen <= k.Length && klen < MAX_TEXT && k != pad && k != data.buffer
      modifies pad, data, data.state, data.buffer
      ensures pad[..] == BlockKey(k[..klen])
    {
      hide Digest;
      MemSetZero(pad, 0, 64);
      assert pad[..] == Zeros(64);
      if klen > 64 {
        ghost var zeros := pad[32..];
        assert zeros == Zeros(32);
        HashKey(k, klen);
      } else {
        MemMove(pad, 0, k, 0, klen);
        assert pad[..] == k[..klen] + Zeros(64 - klen);
      }
    }

    /** Starts a new text under the first klen bytes of k. */
    method Init(k: array<Byte>, klen: nat)
      requires Shape() && klen <= k.Length && klen < MAX_TEXT && k != pad && k != data.buffer
      modifies this, pad, data, data.state, data.buffer
      ensures Valid() && key == k[..klen] && text == []
    {
      hide *;
      Sizes();
      ShapeParts();
      LoadKey(k, klen);
      key, text := k[..klen], [];
      XorInto(pad, 0x36);
      data.Init();
      data.Update(pad, 0, 64);
      ghost var inner := pad[..];
      XorInto(pad, 0x6a);
      PadSwitch(BlockKey(key));
      assert inner == XorByte(BlockKey(key), 0x36);
      assert data.message == inner + [];
      ValidFrom();
    }

    lemma ShapeParts()
      requires Shape()
      ensures pad.Length == 64 && data.Shape() && pad != data.buffer
    {
    }

    /** Absorbs len bytes of input from at. */
    method Update(input: array<Byte>, at: nat, len: nat)
      requires Valid() && at + len <= input.Length && input != data.buffer && |text| + len < MAX_TEXT
      modifies `text, data, data.state, data.buffer
      ensures Valid() && text == old(text) + input[at..at + len]
    {
      hide *;
      ValidParts();
      Sizes();
      data.Update(input, at, len);
      text := text + input[at..at + len];
      ValidFrom();
    }

    /** result (32 bytes) := the keyed digest of the text. */
    method Finalize(result: array<Byte>) returns (len: nat)
      requires Valid() && result.Length >= 32 && result != data.buffer && result != pad
      modifies data, data.state, data.buffer, result
      ensures len == 32 && Shape()
      ensures result[..] == HmacOf(key, text) + old(result[32..])
    {
      hide *;
      ValidParts();
      Sizes();
      ghost var tail := result[32..];
      var buf := new Byte[32];
      data.Final(buf);
      ghost var inner := buf[..];
      data.Init();
      data.Update(pad, 0, 64);
      data.Update(buf, 0, 32);
      ghost var outer := data.message;
      data.Final(result);
      assert outer == [] + pad[0..64] + buf[0..32];
      assert pad[0..64] == pad[..] && buf[0..32] == inner;
      HmacIs(key, text, inner, outer);
      len := 32;
    }
  }

  lemma HmacIs(key: seq<Byte>, text: seq<Byte>, inner: seq<Byte>, outer: seq<Byte>)
    requires inner == Digest(XorByte(BlockKey(key), 0x36) + text)
    requires outer == XorByte(BlockKey(key), 0x5c) + inner
    ensures HmacOf(key, text) == Digest(outer)
  {
    hide Digest, XorByte, BlockKey;
  }
}
