/**
 Counter with CBC-MAC on a message buffer, in place, over any 16-byte block cipher;
 the specification is sections 2.2 to 2.5 of RFC 3610.
 */
module Ccm {
  import opened Bytes

  /** A keyed block cipher. */
  type Cipher = Block -> Block

  //////////////////////////////////////////////////////////////////////////////
  // RFC 3610
  //////////////////////////////////////////////////////////////////////////////

  /** The parameters: M bytes of authenticator, L bytes of length field, and what is authenticated in clear. */
  datatype Params = Params(m: nat, l: nat, nonce: seq<Byte>, aad: seq<Byte>) {
    ghost predicate Valid() {
      && 4 <= m <= 16 && m % 2 == 0
      && 2 <= l <= 3
      && |nonce| == 15 - l
      && |aad| < 0x1_0000_0000_0000_0000
    }
  }

  /** 64 * Adata + 8 * M' + L'. */
  function Flags(p: Params): Byte
    requires p.Valid()
  {
    (if |p.aad| > 0 then 64 else 0) + 8 * (((p.m - 2) / 2) as Byte) + ((p.l - 1) as Byte)
  }

  /** The first authentication block. */
  function B0(p: Params, lm: nat): Block
    requires p.Valid()
  {
    [Flags(p)] + p.nonce + BigEndian(lm, p.l)
  }

  /** How the length of the additional data is encoded. */
  function EncodedLength(la: nat): seq<Byte>
  {
    if la == 0 then []
    else if la < 0xFF00 then BigEndian(la, 2)
    else if la <= 0xFFFF_FFFF then BigEndian(0xFFFE, 2) + BigEndian(la, 4)
    else BigEndian(0xFFFF, 2) + BigEndian(la, 8)
  }

  /** CBC-MAC continued from x over whole blocks. */
  function CbcMac(e: Cipher, x: Block, s: seq<Byte>): Block
    requires |s| % 16 == 0
    decreases |s|
  {
    if |s| == 0 then x else CbcMac(e, e(Xor(x, s[..16])), s[16..])
  }

  /** The authentication value before it is cut and encrypted. */
  function AuthValue(e: Cipher, p: Params, msg: seq<Byte>): Block
    requires p.Valid()
  {
    CbcMac(e, CbcMac(e, e(B0(p, |msg|)), Pad16(EncodedLength(|p.aad|) + p.aad)), Pad16(msg))
  }

  /** The counter block A_i. */
  function CounterBlock(p: Params, i: nat): Block
    requires p.Valid()
  {
    [(p.l - 1) as Byte] + p.nonce + BigEndian(i, p.l)
  }

  /** The message under the key stream blocks S_i, S_(i+1), ... */
  function CtrXor(e: Cipher, p: Params, i: nat, msg: seq<Byte>): (c: seq<Byte>)
    requires p.Valid()
    ensures |c| == |msg|
    decreases |msg|
  {
    if |msg| <= 16 then Xor(msg, e(CounterBlock(p, i)))
    else Xor(msg[..16], e(CounterBlock(p, i))) + CtrXor(e, p, i + 1, msg[16..])
  }

  /** The whole output: encrypted message, then encrypted authenticator. */
  function Seal(e: Cipher, p: Params, msg: seq<Byte>): (c: seq<Byte>)
    requires p.Valid()
    ensures |c| == |msg| + p.m
  {
    CtrXor(e, p, 1, msg) + Xor(AuthValue(e, p, msg)[..p.m], e(CounterBlock(p, 0)))
  }

  /** The message a sealed string decrypts to, before its authenticator is looked at. */
  function Opened(e: Cipher, p: Params, c: seq<Byte>): (msg: seq<Byte>)
    requires p.Valid() && |c| >= p.m
  {
    CtrXor(e, p, 1, c[..|c| - p.m])
  }

  /** The authenticator it carries. */
  function Carried(e: Cipher, p: Params, c: seq<Byte>): (t: seq<Byte>)
    requires p.Valid() && |c| >= p.m
    ensures |t| == p.m
  {
    Xor(c[|c| - p.m..], e(CounterBlock(p, 0)))
  }

  predicate Accepted(e: Cipher, p: Params, c: seq<Byte>)
    requires p.Valid() && |c| >= p.m
  {
    AuthValue(e, p, Opened(e, p, c))[..p.m] == Carried(e, p, c)
  }

  //////////////////////////////////////////////////////////////////////////////
  // Opening undoes sealing
  //////////////////////////////////////////////////////////////////////////////

  /** The key stream applied twice gives the message back. */
  lemma {:induction false} CtrXorTwice(e: Cipher, p: Params, i: nat, msg: seq<Byte>)
    requires p.Valid()
    ensures CtrXor(e, p, i, CtrXor(e, p, i, msg)) == msg
    decreases |msg|
  {
    var s := e(CounterBlock(p, i));
    if |msg| <= 16 {
      XorTwice(msg, s);
    } else {
      var c := CtrXor(e, p, i, msg);
      XorTwice(msg[..16], s);
      CtrXorTwice(e, p, i + 1, msg[16..]);
      assert c[..16] == Xor(msg[..16], s) && c[16..] == CtrXor(e, p, i + 1, msg[16..]);
      assert msg == msg[..16] + msg[16..];
    }
  }

  /** What was sealed opens to the message and is accepted. */
  lemma OpenSealed(e: Cipher, p: Params, msg: seq<Byte>)
    requires p.Valid()
    ensures Opened(e, p, Seal(e, p, msg)) == msg && Accepted(e, p, Seal(e, p, msg))
  {
    hide CtrXor, CbcMac;
    var c, t := Seal(e, p, msg), AuthValue(e, p, msg)[..p.m];
    assert c[..|c| - p.m] == CtrXor(e, p, 1, msg);
    assert c[|c| - p.m..] == Xor(t, e(CounterBlock(p, 0)));
    CtrXorTwice(e, p, 1, msg);
    XorTwice(t, e(CounterBlock(p, 0)));
  }

  /** Only strings that sealing produces are accepted. */
  lemma AcceptedIffSealed(e: Cipher, p: Params, c: seq<Byte>)
    requires p.Valid() && |c| >= p.m
    ensures Accepted(e, p, c) <==> c == Seal(e, p, Opened(e, p, c))
  {
    var msg := Opened(e, p, c);
    if c == Seal(e, p, msg) {
      OpenSealed(e, p, msg);
    }
    if Accepted(e, p, c) {
      hide CtrXor, CbcMac, AuthValue;
      CtrXorTwice(e, p, 1, c[..|c| - p.m]);
      XorTwice(c[|c| - p.m..], e(CounterBlock(p, 0)));
      assert c == c[..|c| - p.m] + c[|c| - p.m..];
    }
  }

  //////////////////////////////////////////////////////////////////////////////
  // The routines
  //////////////////////////////////////////////////////////////////////////////

  /** output := the input block enciphered. */
  method RijndaelEncrypt(e: Cipher, input: array<Byte>, output: array<Byte>)
    requires input.Length == 16 && output.Length == 16
    modifies output
    ensures output[..] == e(old(input[..]))
  {
    var b: Block := e(input[..]);
    forall i | 0 <= i < 16 {
      output[i] := b[i];
    }
  }

  /** The flags byte as the bit fields are put together. */
  function FlagBits(la: nat, m: nat, l: nat): Byte
    requires 2 <= m <= 16 && 1 <= l <= 8
  {
    (if la > 0 then 0x40 else 0) | (((m - 2) / 2) as Byte << 3) | ((l - 1) as Byte)
  }

  lemma SmallByte(n: nat)
    requires n < 8
    ensures n as Byte < 8
  {
    if n == 0 {
    } else if n == 1 {
    } else if n == 2 {
    } else if n == 3 {
    } else if n == 4 {
    } else if n == 5 {
    } else if n == 6 {
    } else {
      assert n == 7;
    }
  }

  /** Bit fields that do not overlap: joining them adds them. */
  lemma FieldsAdd(a: Byte, x: Byte, y: Byte)
    requires (a == 0 || a == 0x40) && x < 8 && y < 8
    ensures a | (x << 3) | y == a + 8 * x + y
  {
  }

  lemma FlagBitsAreFlags(p: Params)
    requires p.Valid()
    ensures FlagBits(|p.aad|, p.m, p.l) == Flags(p)
  {
    SmallByte((p.m - 2) / 2);
    SmallByte(p.l - 1);
    FieldsAdd(if |p.aad| > 0 then 0x40 else 0, ((p.m - 2) / 2) as Byte, (p.l - 1) as Byte);
  }

  lemma {:induction false} BigEndianZero(k: nat)
    ensures BigEndian(0, k) == Zeros(k)
  {
    if k > 0 {
      BigEndianZero(k - 1);
      assert Zeros(k) == Zeros(k - 1) + [0];
    }
  }

  function Pow256(k: nat): (p: nat)
    ensures p > 0
  {
    if k == 0 then 1 else 256 * Pow256(k - 1)
  }

  /** result := the first authentication block for a message of lm bytes. */
  method Block0(ghost p: Params, m: nat, l: nat, la: nat, lm: nat, nonce: array<Byte>, result: array<Byte>)
    requires p.Valid() && m == p.m && l == p.l && la == |p.aad|
    requires nonce.Length == 16 && nonce[..15 - l] == p.nonce && result.Length == 16 && nonce != result
    modifies result
    ensures result[..] == B0(p, lm)
  {
    result[0] := FlagBits(la, m, l);
    FlagBitsAreFlags(p);
    // one byte more than the nonce is copied; the length field covers it
    forall i | 0 <= i < 16 - l {
      result[1 + i] := nonce[i];
    }
    StoreInt(result, 16 - l, lm, l);
    hide FlagBits, BigEndian;
  }

  /** The counter field while it is filled from the right: k zero bytes are left, and what c holds goes there. */
  ghost predicate Filling(c0: nat, l: nat, c: nat, k: nat, field: seq<Byte>) {
    && k <= l && |field| == l && c < Pow256(k)
    && (forall i | 0 <= i < k :: field[i] == 0)
    && BigEndian(c0, l) == BigEndian(c, k) + field[k..]
  }

  lemma FillingStarts(counter: nat, l: nat, c: nat, field: seq<Byte>)
    requires c == counter % Pow256(l) && |field| == l && forall i | 0 <= i < l :: field[i] == 0
    ensures Filling(c, l, c, l, field)
  {
  }

  lemma FillingStep(c0: nat, l: nat, c: nat, k: nat, field: seq<Byte>)
    requires Filling(c0, l, c, k, field) && c != 0
    ensures k > 0 && field[k - 1] == 0 && field[k - 1] | Low8(c) == Low8(c)
    ensures Filling(c0, l, c / 256, k - 1, field[k - 1 := Low8(c)])
  {
    assert BigEndian(c, k) == BigEndian(c / 256, k - 1) + [Low8(c)];
    hide BigEndian;
    assert field[k - 1 := Low8(c)][k - 1..] == [Low8(c)] + field[k..];
  }

  lemma FillingEnds(c0: nat, l: nat, c: nat, k: nat, field: seq<Byte>)
    requires Filling(c0, l, c, k, field) && (c == 0 || k == 0)
    ensures field == BigEndian(c0, l)
  {
    BigEndianZero(k);
    hide BigEndian;
    assert c == 0;
    assert field == field[..k] + field[k..];
    assert field[..k] == Zeros(k);
  }

  /** The counter field of a := counter, masked to l bytes. */
  method SetCounter(a: array<Byte>, l: nat, counter: nat)
    requires 2 <= l <= 3 && a.Length == 16
    modifies a
    ensures a[..] == old(a[..16 - l]) + BigEndian(counter % Pow256(l), l)
  {
    var c: nat := counter % Pow256(l);
    hide *;
    forall i | 16 - l <= i < 16 {
      a[i] := 0;
    }
    ghost var c0, k := c, l;
    FillingStarts(counter, l, c, a[16 - l..]);
    var i := 15;
    while c != 0 && i > l
      invariant i == 15 - l + k && 0 <= k <= l
      invariant a[..16 - l] == old(a[..16 - l])
      invariant Filling(c0, l, c, k, a[16 - l..])
      decreases i
    {
      ghost var field := a[16 - l..];
      FillingStep(c0, l, c, k, field);
      assert a[i] == field[k - 1];
      a[i] := a[i] | Low8(c);
      assert a[16 - l..] == field[k - 1 := Low8(c)];
      c := c / 256;
      i := i - 1;
      k := k - 1;
    }
    FillingEnds(c0, l, c, k, a[16 - l..]);
  }

  lemma CbcUnfold(e: Cipher, x: Block, s: seq<Byte>)
    requires |s| % 16 == 0
    ensures |s| == 0 ==> CbcMac(e, x, s) == x
    ensures |s| > 0 ==> CbcMac(e, x, s) == CbcMac(e, e(Xor(x, s[..16])), s[16..])
  {
  }

  /** One whole block of data in front. */
  lemma CbcBlock(e: Cipher, x: Block, a: seq<Byte>, b: seq<Byte>)
    requires |a| == 16
    ensures CbcMac(e, x, Pad16(a + b)) == CbcMac(e, e(Xor(x, a)), Pad16(b))
  {
    hide CbcMac, Pad16;
    Pad16After(a, b);
    CbcUnfold(e, x, Pad16(a + b));
  }

  /** A last block, filled up with zeros. */
  lemma CbcLast(e: Cipher, x: Block, b: seq<Byte>)
    requires |b| <= 16
    ensures |b| == 0 ==> CbcMac(e, x, Pad16(b)) == x
    ensures |b| > 0 ==> CbcMac(e, x, Pad16(b)) == e(Xor(x, b + Zeros(16 - |b|)))
  {
    hide CbcMac;
    CbcUnfold(e, x, Pad16(b));
    if |b| > 0 {
      Pad16Short(b);
      hide Pad16;
      assert Pad16(b)[..16] == Pad16(b) && Pad16(b)[16..] == [];
      CbcUnfold(e, e(Xor(x, Pad16(b))), []);
    }
  }

  /** An escape word of two bytes followed by a length of k bytes, over zeros. */
  lemma EscapedLength(s0: seq<Byte>, s1: seq<Byte>, s2: seq<Byte>, escape: seq<Byte>, length: seq<Byte>)
    requires s0 == Zeros(16) && |escape| == 2 && |length| <= 8
    requires s1 == s0[..0] + escape + s0[2..]
    requires s2 == s1[..2] + length + s1[2 + |length|..]
    ensures s2 == escape + length + Zeros(14 - |length|)
  {
    assert s1[..2] == escape;
    assert s1[2 + |length|..] == Zeros(14 - |length|);
  }

  /** block := the encoded length of the additional data, returning the bytes used; the block starts zeroed. */
  method StoreEncodedLength(block: array<Byte>, la: nat) returns (j: nat)
    requires block.Length == 16 && block[..] == Zeros(16) && 0 < la < 0x1_0000_0000_0000_0000
    modifies block
    ensures j == |EncodedLength(la)| <= 10
    ensures block[..] == EncodedLength(la) + Zeros(16 - j)
  {
    hide BigEndian;
    ghost var s0 := block[..];
    if la < 0xFF00 {
      j := 2;
      StoreInt(block, 0, la, 2);
    } else if la <= 0xFFFF_FFFF {
      j := 6;
      StoreInt(block, 0, 0xFFFE, 2);
      ghost var s1 := block[..];
      StoreInt(block, 2, la, 4);
      EscapedLength(s0, s1, block[..], BigEndian(0xFFFE, 2), BigEndian(la, 4));
    } else {
      j := 10;
      StoreInt(block, 0, 0xFFFF, 2);
      ghost var s1 := block[..];
      StoreInt(block, 2, la, 8);
      EscapedLength(s0, s1, block[..], BigEndian(0xFFFF, 2), BigEndian(la, 8));
    }
  }

  /** b := x xor b, then x := that enciphered. */
  method ChainBlock(e: Cipher, b: array<Byte>, x: array<Byte>)
    requires b.Length == 16 && x.Length == 16 && b != x
    modifies b, x
    ensures x[..] == e(Xor(old(x[..]), old(b[..])))
  {
    hide Xor;
    ghost var bs, xs := b[..], x[..];
    MemXor(b, 0, x, 16);
    assert bs[..0] + Xor(bs[0..16], xs[..16]) + bs[16..] == Xor(bs, xs) by {
      assert bs[0..16] == bs && xs[..16] == xs;
    }
    assert b[..] == Xor(bs, xs);
    XorCommutes(bs, xs);
    RijndaelEncrypt(e, b, x);
  }

  /** The first block of additional data: its length and as many bytes as fit. */
  method FirstAuthBlock(e: Cipher, msg: array<Byte>, la: nat, b: array<Byte>, x: array<Byte>) returns (i: nat)
    requires 0 < la <= msg.Length && la < 0x1_0000_0000_0000_0000
    requires b.Length == 16 && x.Length == 16 && b != x && msg != b && msg != x
    requires b[..] == Zeros(16)
    modifies b, x
    ensures i <= la
    ensures CbcMac(e, old(x[..]), Pad16(EncodedLength(la) + msg[..la])) == CbcMac(e, x[..], Pad16(msg[i..la]))
  {
    hide EncodedLength, CbcMac, Pad16, Xor;
    ghost var xs, data := x[..], msg[..la];
    var j := StoreEncodedLength(b, la);
    i := if 16 - j <= la then 16 - j else la;
    MemMove(b, j, msg, 0, i);
    ghost var enc := EncodedLength(la);
    ghost var first := b[..];
    assert first == enc + data[..i] + Zeros(16 - j - i) by {
      assert msg[0..i] == data[..i];
    }
    ChainBlock(e, b, x);
    assert data[i..] == msg[i..la];
    if i == 16 - j {
      assert enc + data == (enc + data[..i]) + data[i..];
      assert first == enc + data[..i];
      CbcBlock(e, xs, enc + data[..i], data[i..]);
    } else {
      assert data[..i] == data && data[i..] == [];
      CbcLast(e, xs, enc + data);
      CbcLast(e, x[..], []);
    }
  }

  /** The front of b := x xor len bytes of msg; then x := b enciphered. */
  method Mac(e: Cipher, msg: array<Byte>, at: nat, len: nat, b: array<Byte>, x: array<Byte>)
    requires len <= 16 && at + len <= msg.Length
    requires b.Length == 16 && x.Length == 16 && b != x && msg != b && msg != x
    modifies b, x
    ensures x[..] == e(Xor(old(x[..len]), old(msg[at..at + len])) + old(b[len..]))
  {
    for i := 0 to len
      invariant forall j | 0 <= j < i :: b[j] == old(x[j]) ^ old(msg[at + j])
      invariant b[i..] == old(b[i..]) && x[..] == old(x[..])
    {
      b[i] := x[i] ^ msg[at + i];
    }
    assert b[..] == Xor(old(x[..len]), old(msg[at..at + len])) + old(b[len..]);
    RijndaelEncrypt(e, b, x);
  }

  /** The additional data after its first block. */
  method AuthRest(e: Cipher, msg: array<Byte>, from: nat, la: nat, b: array<Byte>, x: array<Byte>)
    requires from <= la <= msg.Length
    requires b.Length == 16 && x.Length == 16 && b != x && msg != b && msg != x
    modifies b, x
    ensures x[..] == CbcMac(e, old(x[..]), Pad16(msg[from..la]))
  {
    hide *;
    var at := from;
    ghost var whole := CbcMac(e, x[..], Pad16(msg[from..la]));
    while la - at > 16
      invariant from <= at <= la
      invariant whole == CbcMac(e, x[..], Pad16(msg[at..la]))
    {
      ghost var xs, data := x[..], msg[at..la];
      assert data == data[..16] + data[16..] && data[..16] == msg[at..at + 16] && data[16..] == msg[at + 16..la];
      CbcBlock(e, xs, data[..16], data[16..]);
      Mac(e, msg, at, 16, b, x);
      WholeBlock(xs, msg[at..at + 16], b[16..]);
      at := at + 16;
    }
    CbcLast(e, x[..], msg[at..la]);
    if la - at > 0 {
      MemSetZero(b, 0, 16);
      MemMove(b, 0, msg, at, la - at);
      PaddedFront(b[..], msg[at..la]);
      ChainBlock(e, b, x);
    }
  }

  lemma WholeBlock(x: seq<Byte>, s: seq<Byte>, rest: seq<Byte>)
    requires |x| == 16 && |s| == 16 && rest == []
    ensures Xor(x[..16], s) + rest == Xor(x, s)
  {
    assert x[..16] == x;
  }

  lemma PaddedFront(b: seq<Byte>, s: seq<Byte>)
    requires |s| <= 16 && b == [] + s + ([] + Zeros(16) + [])[|s|..]
    ensures b == s + Zeros(16 - |s|)
  {
  }

  /** x := the CBC-MAC of the additional data, continued from the first block, which b holds. */
  method AddAuthData(e: Cipher, msg: array<Byte>, la: nat, b: array<Byte>, x: array<Byte>)
    requires la <= msg.Length && la < 0x1_0000_0000_0000_0000
    requires b.Length == 16 && x.Length == 16 && b != x && msg != b && msg != x
    modifies b, x
    ensures x[..] == CbcMac(e, e(old(b[..])), Pad16(EncodedLength(la) + msg[..la]))
  {
    RijndaelEncrypt(e, b, x);
    MemSetZero(b, 0, 16);
    if la == 0 {
      assert EncodedLength(la) + msg[..la] == [];
      CbcLast(e, x[..], []);
      return;
    }
    hide *;
    assert b[..] == Zeros(16);
    var i := FirstAuthBlock(e, msg, la, b, x);
    AuthRest(e, msg, i, la, b, x);
  }

  /** The front of a is the template of a counter block. */
  ghost predicate Template(a: seq<Byte>, p: Params)
    requires p.Valid()
  {
    |a| == 16 && a[..16 - p.l] == [(p.l - 1) as Byte] + p.nonce
  }

  lemma TemplateFilled(a: seq<Byte>, was: seq<Byte>, p: Params, i: nat)
    requires p.Valid() && Template(was, p) && i < Pow256(p.l)
    requires a == was[..16 - p.l] + BigEndian(i % Pow256(p.l), p.l)
    ensures Template(a, p) && a == CounterBlock(p, i)
  {
    hide BigEndian;
    SmallRemainder(i, Pow256(p.l));
  }

  lemma SmallRemainder(i: nat, n: nat)
    requires i < n
    ensures i % n == i
  {
  }

  /** The message bytes from at under the key stream block of the given counter. */
  method Encrypt(e: Cipher, ghost p: Params, l: nat, counter: nat, msg: array<Byte>, at: nat, len: nat,
                 a: array<Byte>, s: array<Byte>)
    requires p.Valid() && l == p.l && counter < Pow256(l)
    requires len <= 16 && at + len <= msg.Length && a.Length == 16 && s.Length == 16
    requires a != s && msg != a && msg != s && Template(a[..], p)
    modifies msg, a, s
    ensures Template(a[..], p)
    ensures msg[..] == old(msg[..at]) + Xor(old(msg[at..at + len]), e(CounterBlock(p, counter))) + old(msg[at + len..])
  {
    hide *;
    ghost var was := a[..];
    LengthField(p);
    SetCounter(a, l, counter);
    TemplateFilled(a[..], was, p, counter);
    RijndaelEncrypt(e, a, s);
    MemXor(msg, at, s, len);
    XorFront(old(msg[at..at + len]), s[..]);
  }

  lemma LengthField(p: Params)
    requires p.Valid()
    ensures 2 <= p.l <= 3
  {
  }

  lemma XorFront(x: seq<Byte>, s: seq<Byte>)
    requires |x| <= |s|
    ensures Xor(x, s[..|x|]) == Xor(x, s)
  {
  }

  /** a := the template of the counter blocks. */
  method InitTemplate(ghost p: Params, l: nat, nonce: array<Byte>, a: array<Byte>)
    requires p.Valid() && l == p.l && nonce.Length == 16 && nonce[..15 - l] == p.nonce
    requires a.Length == 16 && a != nonce
    modifies a
    ensures Template(a[..], p)
  {
    a[0] := (l - 1) as Byte;
    // one byte more than the nonce is copied; the counter covers it
    MemMove(a, 1, nonce, 0, 16 - l);
    assert a[..16 - l] == [a[0]] + nonce[..15 - l];
  }

  /** The authentication value so far covers everything before the rest of the message. */
  ghost predicate Authenticated(e: Cipher, p: Params, msg: seq<Byte>, x: seq<Byte>, at: nat)
    requires p.Valid()
  {
    at <= |msg| && |x| == 16 && AuthValue(e, p, msg) == CbcMac(e, x, Pad16(msg[at..]))
  }

  /** done is the key stream applied to the message before at. */
  ghost predicate Streamed(e: Cipher, p: Params, msg: seq<Byte>, done: seq<Byte>, counter: nat, at: nat)
    requires p.Valid()
  {
    at <= |msg| && |done| == at && CtrXor(e, p, 1, msg) == done + CtrXor(e, p, counter, msg[at..])
  }

  lemma AuthStart(e: Cipher, p: Params, msg: seq<Byte>, x: seq<Byte>)
    requires p.Valid() && |x| == 16
    requires x == CbcMac(e, e(B0(p, |msg|)), Pad16(EncodedLength(|p.aad|) + p.aad))
    ensures Authenticated(e, p, msg, x, 0) && Streamed(e, p, msg, [], 1, 0)
  {
    assert msg[0..] == msg;
  }

  lemma AuthBlock(e: Cipher, p: Params, msg: seq<Byte>, x: seq<Byte>, x': seq<Byte>, at: nat)
    requires p.Valid() && Authenticated(e, p, msg, x, at) && at + 16 <= |msg|
    requires x' == e(Xor(x[..16], msg[at..at + 16]) + [])
    ensures Authenticated(e, p, msg, x', at + 16)
  {
    hide AuthValue, CbcMac, Pad16, Xor;
    assert msg[at..] == msg[at..at + 16] + msg[at + 16..];
    CbcBlock(e, x, msg[at..at + 16], msg[at + 16..]);
    assert x[..16] == x;
    assert Xor(x, msg[at..at + 16]) + [] == Xor(x, msg[at..at + 16]);
  }

  lemma AuthLast(e: Cipher, p: Params, msg: seq<Byte>, x: seq<Byte>, x': seq<Byte>, at: nat)
    requires p.Valid() && Authenticated(e, p, msg, x, at)
    requires |msg| - at < 16
    requires at < |msg| ==> x' == e(Xor(x[..|msg| - at], msg[at..]) + x[|msg| - at..])
    requires at == |msg| ==> x' == x
    ensures AuthValue(e, p, msg) == x'
  {
    hide AuthValue, CbcMac, Pad16;
    var b := msg[at..];
    CbcLast(e, x, b);
    if |b| > 0 {
      assert Xor(x, b + Zeros(16 - |b|)) == Xor(x[..|b|], b) + x[|b|..] by {
        forall i | |b| <= i < 16
          ensures x[i] ^ 0 == x[i]
        {
        }
      }
    }
  }

  lemma StreamBlock(e: Cipher, p: Params, msg: seq<Byte>, done: seq<Byte>, counter: nat, at: nat, len: nat)
    requires p.Valid() && Streamed(e, p, msg, done, counter, at)
    requires at + len <= |msg| && len <= 16 && (len < 16 ==> at + len == |msg|)
    ensures Streamed(e, p, msg, done + Xor(msg[at..at + len], e(CounterBlock(p, counter))), counter + 1, at + len)
  {
    hide Xor, CounterBlock;
    var rest := msg[at..];
    assert rest[..len] == msg[at..at + len] && rest[len..] == msg[at + len..];
    if |rest| <= 16 {
      assert rest[..len] == rest;
      assert CtrXor(e, p, counter + 1, []) == [];
    }
  }

  lemma StreamDone(e: Cipher, p: Params, msg: seq<Byte>, done: seq<Byte>, counter: nat)
    requires p.Valid() && Streamed(e, p, msg, done, counter, |msg|)
    ensures done == CtrXor(e, p, 1, msg)
  {
  }

  /** A block counter never outgrows its field. */
  lemma CounterFits(p: Params, lm: nat, at: nat)
    requires p.Valid() && lm < Pow256(p.l) && at <= lm
    ensures 1 + at / 16 < Pow256(p.l)
  {
    assert Pow256(2) == 65536 && Pow256(3) == 16777216;
  }

  ghost function ParamsOf(m: nat, l: nat, nonce: array<Byte>, aad: array<Byte>, la: nat): Params
    requires nonce.Length == 16 && 2 <= l <= 3 && la <= aad.Length
    reads nonce, aad
  {
    Params(m, l, nonce[..15 - l], aad[..la])
  }

  /** x := the authentication of the first block and the additional data; a := the counter template. */
  method Prepare(e: Cipher, ghost p: Params, m: nat, l: nat, nonce: array<Byte>, lm: nat, aad: array<Byte>, la: nat,
                 a: array<Byte>, b: array<Byte>, x: array<Byte>)
    requires nonce.Length == 16 && la <= aad.Length && p.Valid() && m == p.m && l == p.l
    requires nonce[..15 - l] == p.nonce && aad[..la] == p.aad
    requires a.Length == b.Length == x.Length == 16 && a != b && a != x && b != x
    requires nonce != a && nonce != b && nonce != x && aad != a && aad != b && aad != x
    modifies a, b, x
    ensures Template(a[..], p)
    ensures x[..] == CbcMac(e, e(B0(p, lm)), Pad16(EncodedLength(|p.aad|) + p.aad))
  {
    hide B0, CbcMac, Pad16, EncodedLength;
    Block0(p, m, l, la, lm, nonce, b);
    AddAuthData(e, aad, la, b, x);
    InitTemplate(p, l, nonce, a);
  }

  /** Authenticates and encrypts the whole blocks of the message, from the front. */
  method SealBlocks(e: Cipher, ghost p: Params, l: nat, msg: array<Byte>, lm: nat,
                    a: array<Byte>, b: array<Byte>, s: array<Byte>, x: array<Byte>)
    returns (at: nat, counter: nat)
    requires p.Valid() && l == p.l && lm <= msg.Length && lm < Pow256(l)
    requires a.Length == b.Length == s.Length == x.Length == 16
    requires a != b && a != s && a != x && b != s && b != x && s != x
    requires msg != a && msg != b && msg != s && msg != x
    requires Template(a[..], p) && Authenticated(e, p, msg[..lm], x[..], 0) && Streamed(e, p, msg[..lm], [], 1, 0)
    modifies msg, a, b, s, x
    ensures at <= lm < at + 16 && counter == 1 + at / 16
    ensures Template(a[..], p) && Authenticated(e, p, old(msg[..lm]), x[..], at)
    ensures Streamed(e, p, old(msg[..lm]), msg[..at], counter, at)
    ensures msg[at..] == old(msg[at..])
  {
    hide *;
    ghost var plain := msg[..lm];
    at, counter := 0, 1;
    assert msg[..0] == [];
    while lm - at >= 16
      invariant at <= lm && at % 16 == 0 && counter == 1 + at / 16
      invariant Template(a[..], p) && Authenticated(e, p, plain, x[..], at)
      invariant Streamed(e, p, plain, msg[..at], counter, at)
      invariant msg[at..] == old(msg[at..])
    {
      ghost var done := msg[..at];
      assert msg[at..at + 16] == plain[at..at + 16] by { SliceOf(old(msg[..]), msg[..], at, 16, lm); }
      ghost var xs := x[..];
      Mac(e, msg, at, 16, b, x);
      assert b[16..] == [];
      AuthBlock(e, p, plain, xs, x[..], at);
      CounterFits(p, lm, at);
      Encrypt(e, p, l, counter, msg, at, 16, a, s);
      StreamBlock(e, p, plain, done, counter, at, 16);
      at := at + 16;
      counter := counter + 1;
    }
  }

  lemma SliceOf(was: seq<Byte>, now: seq<Byte>, at: nat, n: nat, lm: nat)
    requires at + n <= lm <= |was| == |now| && now[at..] == was[at..]
    ensures now[at..at + n] == was[..lm][at..at + n]
    ensures now[at..lm] == was[..lm][at..]
  {
    assert now[at..at + n] == now[at..][..n];
    assert was[at..at + n] == was[at..][..n];
    assert now[at..lm] == now[at..][..lm - at];
    assert was[at..lm] == was[at..][..lm - at];
  }

  /** Moving the last bytes of one block over those of another. */
  lemma MovedTail(now: seq<Byte>, front: seq<Byte>, x: seq<Byte>, rest: seq<Byte>, k: nat)
    requires k <= 16 == |x| == |now| && |front| == k && rest == [] && now == front + x[k..k + (16 - k)] + rest
    ensures now[k..] == x[k..]
  {
  }

  /** Authenticates and encrypts what is left after the whole blocks. */
  method SealRest(e: Cipher, ghost p: Params, ghost plain: seq<Byte>, l: nat, counter: nat, msg: array<Byte>,
      at: nat, lm: nat,
                  a: array<Byte>, b: array<Byte>, s: array<Byte>, x: array<Byte>)
    requires p.Valid() && l == p.l && |plain| == lm <= msg.Length && lm < Pow256(l)
    requires at <= lm < at + 16 && counter == 1 + at / 16
    requires a.Length == b.Length == s.Length == x.Length == 16
    requires a != b && a != s && a != x && b != s && b != x && s != x
    requires msg != a && msg != b && msg != s && msg != x
    requires Template(a[..], p) && Authenticated(e, p, plain, x[..], at)
    requires Streamed(e, p, plain, msg[..at], counter, at) && msg[at..lm] == plain[at..]
    modifies msg, a, b, s, x
    ensures Template(a[..], p) && x[..] == AuthValue(e, p, plain)
    ensures msg[..lm] == CtrXor(e, p, 1, plain) && msg[lm..] == old(msg[lm..])
  {
    hide *;
    ghost var done, xs := msg[..at], x[..];
    if at < lm {
      ghost var was := b[..lm - at];
      MemMove(b, lm - at, x, lm - at, 16 - (lm - at));
      MovedTail(b[..], was, xs, b[..][16..], lm - at);
      Mac(e, msg, at, lm - at, b, x);
      CounterFits(p, lm, at);
      assert plain[at..] == plain[at..lm];
      Encrypt(e, p, l, counter, msg, at, lm - at, a, s);
      StreamBlock(e, p, plain, done, counter, at, lm - at);
      StreamDone(e, p, plain, done + Xor(plain[at..lm], e(CounterBlock(p, counter))), counter + 1);
    } else {
      StreamDone(e, p, plain, done, counter);
    }
    AuthLast(e, p, plain, xs, x[..], at);
  }

  /** Encryption with the parameters gathered in one value. */
  method SealMessage(e: Cipher, ghost p: Params, m: nat, l: nat, nonce: array<Byte>, msg: array<Byte>, lm: nat,
                     aad: array<Byte>, la: nat)
    requires p.Valid() && m == p.m && l == p.l && lm + m <= msg.Length && lm < Pow256(l)
    requires nonce.Length == 16 && la <= aad.Length && nonce[..15 - l] == p.nonce && aad[..la] == p.aad
    requires msg != nonce && msg != aad
    modifies msg
    ensures msg[..] == Seal(e, p, old(msg[..lm])) + old(msg[lm + m..])
  {
    hide *;
    ghost var plain, was := msg[..lm], msg[..];
    var a, b, s, x := new Byte[16], new Byte[16], new Byte[16], new Byte[16];
    Prepare(e, p, m, l, nonce, lm, aad, la, a, b, x);
    AuthStart(e, p, plain, x[..]);
    var at, counter := SealBlocks(e, p, l, msg, lm, a, b, s, x);
    SliceOf(was, msg[..], at, lm - at, lm);
    ghost var mid := msg[..];
    SealRest(e, p, plain, l, counter, msg, at, lm, a, b, s, x);
    TailKept(was, mid, msg[..], at, lm, m);
    AppendTag(e, p, plain, l, m, msg, lm, a, s, x);
  }

  /**
   Encrypts lm bytes of msg in place and appends the m bytes of authenticator; the length of
   the result is returned.
   */
  method CcmEncryptMessage(e: Cipher, m: nat, l: nat, nonce: array<Byte>, msg: array<Byte>, lm: nat,
                           aad: array<Byte>, la: nat)
    returns (r: int)
    requires nonce.Length == 16 && 2 <= l <= 3 && la <= aad.Length && lm + m <= msg.Length && lm < Pow256(l)
    requires ParamsOf(m, l, nonce, aad, la).Valid()
    requires msg != nonce && msg != aad
    modifies msg
    ensures r == lm + m
    ensures msg[..] == Seal(e, old(ParamsOf(m, l, nonce, aad, la)), old(msg[..lm])) + old(msg[lm + m..])
  {
    hide *;
    ParamsAre(m, l, nonce, aad, la);
    SealMessage(e, ParamsOf(m, l, nonce, aad, la), m, l, nonce, msg, lm, aad, la);
    return lm + m;
  }

  /** s := the key stream block zero. */
  method StreamZero(e: Cipher, ghost p: Params, l: nat, a: array<Byte>, s: array<Byte>)
    requires p.Valid() && l == p.l && a.Length == s.Length == 16 && a != s && Template(a[..], p)
    modifies a, s
    ensures s[..] == e(CounterBlock(p, 0))
  {
    hide *;
    ghost var was := a[..];
    LengthField(p);
    SetCounter(a, l, 0);
    CounterFits(p, 0, 0);
    TemplateFilled(a[..], was, p, 0);
    RijndaelEncrypt(e, a, s);
  }

  /** msg[at..at + m] := x xor s. */
  method WriteTag(msg: array<Byte>, at: nat, m: nat, s: array<Byte>, x: array<Byte>)
    requires m <= 16 && at + m <= msg.Length && s.Length == x.Length == 16 && msg != s && msg != x
    modifies msg
    ensures msg[..] == old(msg[..at]) + Xor(x[..m], s[..]) + old(msg[at + m..])
  {
    ghost var was := msg[..];
    for i := 0 to m
      invariant forall j | 0 <= j < i :: msg[at + j] == x[j] ^ s[j]
      invariant forall j | 0 <= j < msg.Length && !(at <= j < at + i) :: msg[j] == was[j]
    {
      msg[at + i] := x[i] ^ s[i];
    }
    TagWritten(msg[..], was, at, x[..m], s[..]);
  }

  lemma TagWritten(now: seq<Byte>, was: seq<Byte>, at: nat, x: seq<Byte>, s: seq<Byte>)
    requires |now| == |was| && at + |x| <= |was| && |x| <= |s|
    requires forall j | 0 <= j < |x| :: now[at + j] == x[j] ^ s[j]
    requires forall j | 0 <= j < |was| && !(at <= j < at + |x|) :: now[j] == was[j]
    ensures now == was[..at] + Xor(x, s) + was[at + |x|..]
  {
    assert now[..at] == was[..at] && now[at + |x|..] == was[at + |x|..];
    assert now[at..at + |x|] == Xor(x, s);
    hide Xor;
    assert now == now[..at] + now[at..at + |x|] + now[at + |x|..];
  }

  lemma SealIs(e: Cipher, p: Params, plain: seq<Byte>)
    requires p.Valid()
    ensures p.m <= 16
    ensures Seal(e, p, plain) == CtrXor(e, p, 1, plain) + Xor(AuthValue(e, p, plain)[..p.m], e(CounterBlock(p, 0)))
  {
    hide CtrXor, AuthValue, CounterBlock;
  }

  /** msg[lm..lm + m] := the authentication value under the key stream block zero. */
  method AppendTag(e: Cipher, ghost p: Params, ghost plain: seq<Byte>, l: nat, m: nat, msg: array<Byte>, lm: nat,
                   a: array<Byte>, s: array<Byte>, x: array<Byte>)
    requires p.Valid() && l == p.l && m == p.m && |plain| == lm && lm + m <= msg.Length
    requires a.Length == s.Length == x.Length == 16 && a != s && a != x && s != x
    requires msg != a && msg != s && msg != x
    requires Template(a[..], p) && x[..] == AuthValue(e, p, plain) && msg[..lm] == CtrXor(e, p, 1, plain)
    modifies msg, a, s
    ensures msg[..] == Seal(e, p, plain) + old(msg[lm + m..])
  {
    hide *;
    SealIs(e, p, plain);
    StreamZero(e, p, l, a, s);
    WriteTag(msg, lm, m, s, x);
    assert x[..m] == x[..][..m];
  }

  //////////////////////////////////////////////////////////////////////////////
  // Decryption
  //////////////////////////////////////////////////////////////////////////////

  lemma StreamPrefix(e: Cipher, p: Params, msg: seq<Byte>, done: seq<Byte>, counter: nat, at: nat)
    requires p.Valid() && Streamed(e, p, msg, done, counter, at)
    ensures at <= |msg| && CtrXor(e, p, 1, msg)[..at] == done
  {
  }

  lemma OpenStart(e: Cipher, p: Params, cipher: seq<Byte>, x: seq<Byte>)
    requires p.Valid() && |x| == 16
    requires x == CbcMac(e, e(B0(p, |cipher|)), Pad16(EncodedLength(|p.aad|) + p.aad))
    ensures Authenticated(e, p, CtrXor(e, p, 1, cipher), x, 0) && Streamed(e, p, cipher, [], 1, 0)
  {
    AuthStart(e, p, CtrXor(e, p, 1, cipher), x);
    assert cipher[0..] == cipher;
  }

  /** Decrypts the whole blocks of the message in place and authenticates what comes out. */
  method OpenBlocks(e: Cipher, ghost p: Params, ghost plain: seq<Byte>, l: nat, msg: array<Byte>, lm: nat,
                    a: array<Byte>, b: array<Byte>, s: array<Byte>, x: array<Byte>)
    returns (at: nat, counter: nat)
    requires p.Valid() && l == p.l && lm <= msg.Length && lm < Pow256(l)
    requires a.Length == b.Length == s.Length == x.Length == 16
    requires a != b && a != s && a != x && b != s && b != x && s != x
    requires msg != a && msg != b && msg != s && msg != x
    requires plain == CtrXor(e, p, 1, msg[..lm])
    requires Template(a[..], p) && Authenticated(e, p, plain, x[..], 0) && Streamed(e, p, msg[..lm], [], 1, 0)
    modifies msg, a, b, s, x
    ensures at <= lm < at + 16 && counter == 1 + at / 16
    ensures Template(a[..], p) && Authenticated(e, p, plain, x[..], at)
    ensures Streamed(e, p, old(msg[..lm]), msg[..at], counter, at)
    ensures msg[at..] == old(msg[at..])
  {
    hide *;
    ghost var cipher := msg[..lm];
    at, counter := 0, 1;
    assert msg[..0] == [];
    while lm - at >= 16
      invariant at <= lm && at % 16 == 0 && counter == 1 + at / 16
      invariant Template(a[..], p) && Authenticated(e, p, plain, x[..], at)
      invariant Streamed(e, p, cipher, msg[..at], counter, at)
      invariant msg[at..] == old(msg[at..])
    {
      ghost var done, xs := msg[..at], x[..];
      assert msg[at..at + 16] == cipher[at..at + 16] by { SliceOf(old(msg[..]), msg[..], at, 16, lm); }
      CounterFits(p, lm, at);
      Encrypt(e, p, l, counter, msg, at, 16, a, s);
      StreamBlock(e, p, cipher, done, counter, at, 16);
      StreamPrefix(e, p, cipher, msg[..at + 16], counter + 1, at + 16);
      assert msg[at..at + 16] == plain[at..at + 16] by { assert msg[..at + 16] == plain[..at + 16]; }
      Mac(e, msg, at, 16, b, x);
      assert b[16..] == [];
      AuthBlock(e, p, plain, xs, x[..], at);
      at := at + 16;
      counter := counter + 1;
    }
  }

  /** Decrypts and authenticates what is left after the whole blocks. */
  method OpenRest(e: Cipher, ghost p: Params, ghost cipher: seq<Byte>, l: nat, counter: nat, msg: array<Byte>,
      at: nat, lm: nat,
                  a: array<Byte>, b: array<Byte>, s: array<Byte>, x: array<Byte>)
    requires p.Valid() && l == p.l && |cipher| == lm <= msg.Length && lm < Pow256(l)
    requires at <= lm < at + 16 && counter == 1 + at / 16
    requires a.Length == b.Length == s.Length == x.Length == 16
    requires a != b && a != s && a != x && b != s && b != x && s != x
    requires msg != a && msg != b && msg != s && msg != x
    requires Template(a[..], p) && Authenticated(e, p, CtrXor(e, p, 1, cipher), x[..], at)
    requires Streamed(e, p, cipher, msg[..at], counter, at) && msg[at..lm] == cipher[at..]
    modifies msg, a, b, s, x
    ensures Template(a[..], p) && x[..] == AuthValue(e, p, CtrXor(e, p, 1, cipher))
    ensures msg[..lm] == CtrXor(e, p, 1, cipher) && msg[lm..] == old(msg[lm..])
  {
    hide *;
    ghost var done, xs, plain := msg[..at], x[..], CtrXor(e, p, 1, cipher);
    if at < lm {
      CounterFits(p, lm, at);
      assert cipher[at..] == cipher[at..lm];
      Encrypt(e, p, l, counter, msg, at, lm - at, a, s);
      StreamBlock(e, p, cipher, done, counter, at, lm - at);
      StreamDone(e, p, cipher, done + Xor(cipher[at..lm], e(CounterBlock(p, counter))), counter + 1);
      assert msg[..lm] == plain;
      ghost var was := b[..lm - at];
      MemMove(b, lm - at, x, lm - at, 16 - (lm - at));
      MovedTail(b[..], was, xs, b[..][16..], lm - at);
      assert msg[at..lm] == plain[at..];
      Mac(e, msg, at, lm - at, b, x);
    } else {
      StreamDone(e, p, cipher, done, counter);
    }
    AuthLast(e, p, plain, xs, x[..], at);
  }

  /** Decryption for lengths that leave room for the authenticator: n message bytes and m more. */
  method OpenMessage(e: Cipher, ghost p: Params, m: nat, l: nat, nonce: array<Byte>, msg: array<Byte>, n: nat,
                     aad: array<Byte>, la: nat)
    returns (r: int)
    requires p.Valid() && m == p.m && l == p.l && n + m <= msg.Length && n < Pow256(l)
    requires nonce.Length == 16 && la <= aad.Length && nonce[..15 - l] == p.nonce && aad[..la] == p.aad
    requires msg != nonce && msg != aad
    modifies msg
    ensures var plain, t := CtrXor(e, p, 1, old(msg[..n])), Xor(old(msg[n..n + m]), e(CounterBlock(p, 0)));
            && msg[..] == plain + t + old(msg[n + m..])
            && r == if AuthValue(e, p, plain)[..m] == t then n else -1
  {
    hide *;
    ghost var cipher, was := msg[..n], msg[..];
    var a, b, s, x := new Byte[16], new Byte[16], new Byte[16], new Byte[16];
    Prepare(e, p, m, l, nonce, n, aad, la, a, b, x);
    OpenStart(e, p, cipher, x[..]);
    ghost var plain := CtrXor(e, p, 1, cipher);
    var at, counter := OpenBlocks(e, p, plain, l, msg, n, a, b, s, x);
    SliceOf(was, msg[..], at, n - at, n);
    ghost var mid := msg[..];
    OpenRest(e, p, cipher, l, counter, msg, at, n, a, b, s, x);
    TailKept(was, mid, msg[..], at, n, m);
    r := CheckTag(e, p, plain, l, m, msg, n, a, s, x);
  }

  lemma TailKept(was: seq<Byte>, mid: seq<Byte>, now: seq<Byte>, at: nat, n: nat, m: nat)
    requires at <= n && n + m <= |was| == |mid| == |now|
    requires mid[at..] == was[at..] && now[n..] == mid[n..]
    ensures now[n..n + m] == was[n..n + m] && now[n + m..] == was[n + m..]
  {
    forall i | n <= i < |was|
      ensures now[i] == was[i]
    {
      assert now[i] == now[n..][i - n] && mid[i] == mid[n..][i - n];
      assert mid[i] == mid[at..][i - at] && was[i] == was[at..][i - at];
    }
  }

  /** What decrypting the first lm bytes of a buffer leaves in it and returns. */
  ghost predicate DecryptsTo(e: Cipher, p: Params, was: seq<Byte>, lm: nat, now: seq<Byte>, r: int)
    requires p.Valid() && lm <= |was|
  {
    if lm < p.m then r == -1 && now == was
    else
      var c := was[..lm];
      && r == (if Accepted(e, p, c) then lm - p.m else -1)
      && now == Opened(e, p, c) + Carried(e, p, c) + was[lm..]
  }

  /**
   Decrypts msg (lm bytes, authenticator included) in place; the length of the message is
   returned if the authenticator is right, and -1 otherwise.
   */
  method CcmDecryptMessage(e: Cipher, m: nat, l: nat, nonce: array<Byte>, msg: array<Byte>, lm: nat,
                           aad: array<Byte>, la: nat)
    returns (r: int)
    requires nonce.Length == 16 && 2 <= l <= 3 && la <= aad.Length && lm <= msg.Length && lm < Pow256(l) + m
    requires ParamsOf(m, l, nonce, aad, la).Valid()
    requires msg != nonce && msg != aad
    modifies msg
    ensures DecryptsTo(e, old(ParamsOf(m, l, nonce, aad, la)), old(msg[..]), lm, msg[..], r)
  {
    hide *;
    ghost var p, was := ParamsOf(m, l, nonce, aad, la), msg[..];
    ParamsAre(m, l, nonce, aad, la);
    if lm < m {
      DecryptsShort(e, p, was, lm);
      return -1;
    }
    ghost var c := was[..lm];
    r := OpenMessage(e, p, m, l, nonce, msg, lm - m, aad, la);
    OpenedParts(e, p, was, lm, CtrXor(e, p, 1, was[..lm - m]));
    DecryptsIf(e, p, was, lm, msg[..], r);
  }

  lemma ParamsAre(m: nat, l: nat, nonce: array<Byte>, aad: array<Byte>, la: nat)
    requires nonce.Length == 16 && 2 <= l <= 3 && la <= aad.Length
    ensures var p := ParamsOf(m, l, nonce, aad, la);
            p.m == m && p.l == l && nonce[..15 - l] == p.nonce && aad[..la] == p.aad
  {
  }

  lemma DecryptsShort(e: Cipher, p: Params, was: seq<Byte>, lm: nat)
    requires p.Valid() && lm < p.m && lm <= |was|
    ensures DecryptsTo(e, p, was, lm, was, -1)
  {
  }

  lemma DecryptsIf(e: Cipher, p: Params, was: seq<Byte>, lm: nat, now: seq<Byte>, r: int)
    requires p.Valid() && p.m <= lm <= |was|
    requires r == (if Accepted(e, p, was[..lm]) then lm - p.m else -1)
    requires now == Opened(e, p, was[..lm]) + Carried(e, p, was[..lm]) + was[lm..]
    ensures DecryptsTo(e, p, was, lm, now, r)
  {
  }

  /** The last step: uncovers the authenticator in place and compares. */
  method CheckTag(e: Cipher, ghost p: Params, ghost plain: seq<Byte>, l: nat, m: nat, msg: array<Byte>, n: nat,
                  a: array<Byte>, s: array<Byte>, x: array<Byte>)
    returns (r: int)
    requires p.Valid() && l == p.l && m == p.m && n + m <= msg.Length
    requires a.Length == s.Length == x.Length == 16 && a != s && a != x && s != x
    requires msg != a && msg != s && msg != x
    requires Template(a[..], p) && x[..] == AuthValue(e, p, plain)
    modifies msg, a, s
    ensures var t := Xor(old(msg[n..n + m]), e(CounterBlock(p, 0)));
            && msg[..] == old(msg[..n]) + t + old(msg[n + m..])
            && r == if AuthValue(e, p, plain)[..m] == t then n else -1
  {
    LengthField(p);
    assert m <= 16;
    hide *;
    StreamZero(e, p, l, a, s);
    MemXor(msg, n, s, m);
    XorFront(old(msg[n..n + m]), s[..]);
    var same := Equals(x, msg, n, m);
    return if same then n else -1;
  }

  lemma OpenedParts(e: Cipher, p: Params, msg: seq<Byte>, lm: nat, plain: seq<Byte>)
    requires p.Valid() && p.m <= lm <= |msg| && plain == CtrXor(e, p, 1, msg[..lm - p.m])
    ensures Opened(e, p, msg[..lm]) == plain
    ensures Carried(e, p, msg[..lm]) == Xor(msg[lm - p.m..lm], e(CounterBlock(p, 0)))
    ensures Accepted(e, p, msg[..lm]) <==>
            AuthValue(e, p, plain)[..p.m] == Xor(msg[lm - p.m..lm], e(CounterBlock(p, 0)))
  {
    hide CtrXor, AuthValue, CounterBlock;
    assert msg[..lm][..lm - p.m] == msg[..lm - p.m];
    assert msg[..lm][lm - p.m..] == msg[lm - p.m..lm];
  }

  /** Decrypting a buffer that holds a sealed message returns its length and restores it. */
  lemma DecryptUndoesEncrypt(e: Cipher, p: Params, msg: seq<Byte>, rest: seq<Byte>, now: seq<Byte>, r: int)
    requires p.Valid()
    requires DecryptsTo(e, p, Seal(e, p, msg) + rest, |msg| + p.m, now, r)
    ensures r == |msg| && now[..|msg|] == msg
  {
    hide CtrXor, CbcMac, Seal, AuthValue, Opened, Carried, Accepted;
    assert (Seal(e, p, msg) + rest)[..|msg| + p.m] == Seal(e, p, msg);
    OpenSealed(e, p, msg);
  }
}
