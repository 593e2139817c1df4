/** What sections 2.2 to 2.4 of RFC 3610 say of the blocks of CCM, from the receiver's side and byte by byte. */
module CcmFormat {
  import opened Bytes
  import opened ByteNumbers
  import opened Ccm

  //////////////////////////////////////////////////////////////////////////////
  // The first block and the counter blocks read back
  //////////////////////////////////////////////////////////////////////////////

  lemma ThreeBits(n: nat)
    requires n < 8
    ensures n as Byte < 8 && (n as Byte) as nat == n
  {
    SmallByte(n);
  }

  lemma FieldsRead(a: Byte, x: Byte, y: Byte)
    requires (a == 0 || a == 0x40) && x < 8 && y < 8
    ensures (a + 8 * x + y) & 7 == y && ((a + 8 * x + y) >> 3) & 7 == x
    ensures (a + 8 * x + y) & 0x40 == a && (a + 8 * x + y) & 0x80 == 0
  {
  }

  /** The flags byte: the length field's size less one, half the authenticator's size less one, and the Adata bit. */
  lemma FlagsRead(p: Params)
    requires p.Valid()
    ensures (Flags(p) & 7) as nat + 1 == p.l
    ensures 2 * (((Flags(p) >> 3) & 7) as nat) + 2 == p.m
    ensures Flags(p) & 0x40 != 0 <==> |p.aad| > 0
    ensures Flags(p) & 0x80 == 0
  {
    ThreeBits((p.m - 2) / 2);
    ThreeBits(p.l - 1);
    FieldsRead(if |p.aad| > 0 then 0x40 else 0, ((p.m - 2) / 2) as Byte, (p.l - 1) as Byte);
  }

  lemma PowersAgree(l: nat)
    requires 2 <= l <= 3
    ensures Power256(l) == if l == 2 then 0x1_0000 else 0x100_0000
  {
    PowerTable();
  }

  /** The first authentication block: flags, nonce, and the message's length in the last l bytes. */
  lemma FirstBlockReads(p: Params, lm: nat)
    requires p.Valid() && lm < Power256(p.l)
    ensures B0(p, lm)[0] == Flags(p) && B0(p, lm)[1..16 - p.l] == p.nonce && NumberOf(B0(p, lm)[16 - p.l..]) == lm
  {
    BigEndianReads(lm, p.l);
    hide Flags, BigEndian, NumberOf, Power256;
    assert B0(p, lm)[16 - p.l..] == BigEndian(lm, p.l);
  }

  /** A counter block: the length field's size less one, the nonce, and the counter in the last l bytes. */
  lemma CounterBlockReads(p: Params, i: nat)
    requires p.Valid() && i < Power256(p.l)
    ensures CounterBlock(p, i)[0] as nat + 1 == p.l && CounterBlock(p, i)[1..16 - p.l] == p.nonce
    ensures NumberOf(CounterBlock(p, i)[16 - p.l..]) == i
  {
    ThreeBits(p.l - 1);
    BigEndianReads(i, p.l);
    hide BigEndian, NumberOf, Power256;
    assert CounterBlock(p, i)[16 - p.l..] == BigEndian(i, p.l);
  }

  //////////////////////////////////////////////////////////////////////////////
  // The length of the additional data reads back
  //////////////////////////////////////////////////////////////////////////////

  /** A length and the bytes it was read from. */
  datatype Read = Read(value: nat, used: nat)

  /** The receiver's rule: two bytes, or four or eight after the marks 0xFFFE and 0xFFFF. */
  function ReadLength(s: seq<Byte>): Read
    requires |s| >= 10
  {
    var n := NumberOf(s[..2]);
    if n < 0xFF00 then Read(n, 2)
    else if n == 0xFFFE then Read(NumberOf(s[2..6]), 6)
    else Read(NumberOf(s[2..10]), 10)
  }

  lemma MarksRead(rest: seq<Byte>, mark: nat)
    requires mark < 0x1_0000
    ensures NumberOf((BigEndian(mark, 2) + rest)[..2]) == mark
  {
    PowerTable();
    BigEndianReads(mark, 2);
    hide BigEndian, NumberOf;
    assert (BigEndian(mark, 2) + rest)[..2] == BigEndian(mark, 2);
  }

  lemma AfterMark(mark: nat, la: nat, k: nat, rest: seq<Byte>)
    requires la < Power256(k)
    ensures NumberOf((BigEndian(mark, 2) + BigEndian(la, k) + rest)[2..2 + k]) == la
  {
    BigEndianReads(la, k);
    hide BigEndian, NumberOf, Power256;
    assert (BigEndian(mark, 2) + BigEndian(la, k) + rest)[2..2 + k] == BigEndian(la, k);
  }

  /** Every length reads back from its encoding, whatever follows. */
  lemma EncodedLengthReads(la: nat, rest: seq<Byte>)
    requires 0 < la < 0x1_0000_0000_0000_0000 && |rest| >= 8
    ensures ReadLength(EncodedLength(la) + rest) == Read(la, |EncodedLength(la)|)
  {
    PowerTable();
    hide BigEndian, NumberOf, Power256;
    if la < 0xFF00 {
      MarksRead(rest, la);
    } else if la <= 0xFFFF_FFFF {
      MarksRead(BigEndian(la, 4) + rest, 0xFFFE);
      assert EncodedLength(la) + rest == BigEndian(0xFFFE, 2) + (BigEndian(la, 4) + rest);
      AfterMark(0xFFFE, la, 4, rest);
    } else {
      MarksRead(BigEndian(la, 8) + rest, 0xFFFF);
      assert EncodedLength(la) + rest == BigEndian(0xFFFF, 2) + (BigEndian(la, 8) + rest);
      AfterMark(0xFFFF, la, 8, rest);
    }
  }

  //////////////////////////////////////////////////////////////////////////////
  // What is authenticated determines everything
  //////////////////////////////////////////////////////////////////////////////

  /** The blocks that enter the CBC-MAC after the first one. */
  function DataBlocks(p: Params, msg: seq<Byte>): (s: seq<Byte>)
    requires p.Valid()
    ensures |s| % 16 == 0
  {
    var aad := Pad16(EncodedLength(|p.aad|) + p.aad);
    MultiplesAdd(|aad|, |Pad16(msg)|);
    aad + Pad16(msg)
  }

  lemma MultiplesAdd(a: nat, b: nat)
    requires a % 16 == 0 && b % 16 == 0
    ensures (a + b) % 16 == 0
  {
  }

  lemma PadKeeps(s: seq<Byte>)
    ensures |s| <= |Pad16(s)| < |s| + 16 && Pad16(s)[..|s|] == s
    ensures |Pad16(s)| == (|s| + 15) / 16 * 16
  {
  }

  /** Additional data that is there takes at least one block, and its length is in front. */
  lemma AadReads(p: Params, rest: seq<Byte>)
    requires p.Valid() && |p.aad| > 0
    ensures var la, s := |EncodedLength(|p.aad|)|, Pad16(EncodedLength(|p.aad|) + p.aad) + rest;
            && |s| >= 16 && ReadLength(s) == Read(|p.aad|, la)
            && la + |p.aad| <= |s| && s[la..la + |p.aad|] == p.aad
  {
    var e := EncodedLength(|p.aad|);
    var s := Pad16(e + p.aad) + rest;
    PadKeeps(e + p.aad);
    EncodedSize(|p.aad|);
    hide *;
    PaddedSize(|e + p.aad|);
    FrontOfFront(Pad16(e + p.aad), rest, e + p.aad);
    assert s[..|e|] == e && s == e + s[|e|..];
    EncodedLengthReads(|p.aad|, s[|e|..]);
    assert s[|e|..|e| + |p.aad|] == p.aad;
  }

  lemma PaddedSize(n: nat)
    requires n > 0
    ensures (n + 15) / 16 * 16 >= 16 && (n + 15) / 16 * 16 >= n
  {
  }

  lemma FrontOfFront(a: seq<Byte>, rest: seq<Byte>, b: seq<Byte>)
    requires |b| <= |a| && a[..|b|] == b
    ensures (a + rest)[..|b|] == b
  {
  }

  /** A long encoding leaves room for a long string. */
  lemma EncodedSize(la: nat)
    requires la > 0
    ensures 2 <= |EncodedLength(la)| <= 10
    ensures |EncodedLength(la)| > 8 ==> la >= 8
  {
    hide BigEndian;
  }

  lemma SameAad(p: Params, q: Params, a: seq<Byte>, b: seq<Byte>)
    requires p.Valid() && q.Valid() && (|p.aad| > 0 <==> |q.aad| > 0) && DataBlocks(p, a) == DataBlocks(q, b)
    ensures p.aad == q.aad
  {
    if |p.aad| > 0 {
      AadReads(p, Pad16(a));
      AadReads(q, Pad16(b));
      hide ReadLength, Pad16, EncodedLength;
      assert |p.aad| == |q.aad|;
    }
  }

  lemma SameMessage(p: Params, a: seq<Byte>, b: seq<Byte>)
    requires p.Valid() && |a| == |b| && DataBlocks(p, a) == DataBlocks(p, b)
    ensures a == b
  {
    PadKeeps(a);
    PadKeeps(b);
    var f := Pad16(EncodedLength(|p.aad|) + p.aad);
    hide Pad16, EncodedLength;
    assert Pad16(a) == DataBlocks(p, a)[|f|..] && Pad16(b) == DataBlocks(p, b)[|f|..];
  }

  /** Blocks that are equal come from equal parameters and equal messages. */
  lemma BlocksDetermineAll(p: Params, q: Params, a: seq<Byte>, b: seq<Byte>)
    requires p.Valid() && q.Valid() && |a| < Power256(p.l) && |b| < Power256(q.l)
    requires B0(p, |a|) == B0(q, |b|) && DataBlocks(p, a) == DataBlocks(q, b)
    ensures p == q && a == b
  {
    FirstBlockReads(p, |a|);
    FirstBlockReads(q, |b|);
    FlagsRead(p);
    FlagsRead(q);
    hide Flags, B0, NumberOf, Power256, DataBlocks;
    SameAad(p, q, a, b);
    assert p == q;
    SameMessage(p, a, b);
  }

  //////////////////////////////////////////////////////////////////////////////
  // Authentication and encryption, block by block and byte by byte
  //////////////////////////////////////////////////////////////////////////////

  /** Section 2.2: X_(i+1) is the block cipher of X_i xor the next block. */
  lemma {:induction false} CbcNext(e: Cipher, x: Block, s: seq<Byte>, b: Block)
    requires |s| % 16 == 0
    ensures CbcMac(e, x, s + b) == e(Xor(CbcMac(e, x, s), b))
    decreases |s|
  {
    CbcUnfold(e, x, s + b);
    CbcUnfold(e, x, s);
    if |s| == 0 {
      assert s + b == b && b[..16] == b && b[16..] == [];
      CbcUnfold(e, e(Xor(x, b)), []);
    } else {
      hide CbcMac;
      assert (s + b)[..16] == s[..16] && (s + b)[16..] == s[16..] + b;
      CbcNext(e, e(Xor(x, s[..16])), s[16..], b);
    }
  }

  lemma {:induction false} CbcSplit(e: Cipher, x: Block, s: seq<Byte>, t: seq<Byte>)
    requires |s| % 16 == 0 && |t| % 16 == 0
    ensures CbcMac(e, CbcMac(e, x, s), t) == CbcMac(e, x, s + t)
    decreases |s|
  {
    CbcUnfold(e, x, s + t);
    CbcUnfold(e, x, s);
    if |s| == 0 {
      assert s + t == t;
    } else {
      hide CbcMac;
      assert (s + t)[..16] == s[..16] && (s + t)[16..] == s[16..] + t;
      CbcSplit(e, e(Xor(x, s[..16])), s[16..], t);
    }
  }

  /** The authentication value starts with the cipher of the first block and runs over the data blocks. */
  lemma AuthValueIs(e: Cipher, p: Params, msg: seq<Byte>)
    requires p.Valid()
    ensures AuthValue(e, p, msg) == CbcMac(e, e(B0(p, |msg|)), DataBlocks(p, msg))
  {
    hide CbcMac, B0, Pad16, EncodedLength;
    CbcSplit(e, e(B0(p, |msg|)), Pad16(EncodedLength(|p.aad|) + p.aad), Pad16(msg));
  }

  /** Byte j under the key stream that starts with counter i: counter block i + j / 16 is used, at j % 16. */
  lemma {:induction false} KeyStreamAt(e: Cipher, p: Params, i: nat, msg: seq<Byte>, j: nat)
    requires p.Valid() && j < |msg|
    ensures CtrXor(e, p, i, msg)[j] == msg[j] ^ e(CounterBlock(p, i + j / 16))[j % 16]
    decreases |msg|
  {
    hide CounterBlock;
    if |msg| > 16 && j >= 16 {
      KeyStreamAt(e, p, i + 1, msg[16..], j - 16);
      assert i + 1 + (j - 16) / 16 == i + j / 16;
    }
  }

  lemma SealParts(e: Cipher, p: Params, msg: seq<Byte>)
    requires p.Valid()
    ensures |AuthValue(e, p, msg)| == 16 >= p.m
    ensures Seal(e, p, msg)
         == CtrXor(e, p, 1, msg) + Xor(AuthValue(e, p, msg)[..p.m], e(CounterBlock(p, 0)))
  {
    hide CtrXor, AuthValue, CounterBlock;
  }

  lemma TagAt(t: seq<Byte>, m: nat, s: seq<Byte>, j: nat)
    requires j < m <= |t| && m <= |s|
    ensures Xor(t[..m], s)[j] == t[j] ^ s[j]
  {
  }

  /** Section 2.3 and 2.4: message bytes use counters from 1 on, the first m bytes of the authenticator counter 0. */
  lemma SealAt(e: Cipher, p: Params, msg: seq<Byte>, j: nat)
    requires p.Valid() && j < |msg| + p.m
    ensures j < |msg| ==> Seal(e, p, msg)[j] == msg[j] ^ e(CounterBlock(p, 1 + j / 16))[j % 16]
    ensures j >= |msg| ==>
              Seal(e, p, msg)[j] == AuthValue(e, p, msg)[j - |msg|] ^ e(CounterBlock(p, 0))[j - |msg|]
  {
    hide *;
    SealParts(e, p, msg);
    if j < |msg| {
      KeyStreamAt(e, p, 1, msg, j);
    } else {
      TagAt(AuthValue(e, p, msg), p.m, e(CounterBlock(p, 0)), j - |msg|);
    }
  }
}
