/** Bytes, fixed-size blocks and the byte-string helpers the DTLS code shares. */
module Bytes {

  type Byte = bv8

  type Block = s: seq<Byte> | |s| == 16 witness [0, 0, 0, 0, 0, 0, 0, 0, 0, 0, 0, 0, 0, 0, 0, 0]

  /** The low eight bits of a number. */
  function Low8(n: nat): Byte {
    (n % 256) as Byte
  }

  function Zeros(n: nat): (s: seq<Byte>)
    ensures |s| == n
  {
    seq(n, _ => 0)
  }

  /** Bytewise exclusive or with the front of a second string. */
  function Xor(a: seq<Byte>, b: seq<Byte>): (s: seq<Byte>)
    requires |a| <= |b|
    ensures |s| == |a|
  {
    seq(|a|, i requires 0 <= i < |a| => a[i] ^ b[i])
  }

  lemma XorTwice(a: seq<Byte>, b: seq<Byte>)
    requires |a| <= |b|
    ensures Xor(Xor(a, b), b) == a
  {
    var x := Xor(Xor(a, b), b);
    forall i | 0 <= i < |a|
      ensures x[i] == a[i]
    {
      assert (a[i] ^ b[i]) ^ b[i] == a[i];
    }
  }

  /** n in k bytes, most significant first; higher parts of n are dropped. */
  function BigEndian(n: nat, k: nat): (s: seq<Byte>)
    ensures |s| == k
  {
    if k == 0 then [] else BigEndian(n / 256, k - 1) + [Low8(n)]
  }

  /** The string filled up with zeros to a multiple of 16 bytes. */
  function Pad16(s: seq<Byte>): (p: seq<Byte>)
    ensures |p| % 16 == 0
  {
    if |s| % 16 == 0 then s else s + Zeros(16 - |s| % 16)
  }

  /** x[at + i] := x[at + i] xor y[i] for n bytes. */
  method MemXor(x: array<Byte>, at: nat, y: array<Byte>, n: nat)
    requires at + n <= x.Length && n <= y.Length && x != y
    modifies x
    ensures x[..] == old(x[..at]) + Xor(old(x[at..at + n]), y[..n]) + old(x[at + n..])
  {
    for i := 0 to n
      invariant forall j | 0 <= j < i :: x[at + j] == old(x[at + j]) ^ y[j]
      invariant forall j | 0 <= j < x.Length && !(at <= j < at + i) :: x[j] == old(x[j])
    {
      x[at + i] := x[at + i] ^ y[i];
    }
  }

  /** Compares n bytes of a with n bytes of b from at, always looking at all of them. */
  method Equals(a: array<Byte>, b: array<Byte>, at: nat, n: nat) returns (same: bool)
    requires n <= a.Length && at + n <= b.Length
    ensures same <==> a[..n] == b[at..at + n]
  {
    same := true;
    for i := 0 to n
      invariant same <==> forall j | 0 <= j < i :: a[j] == b[at + j]
    {
      same := same && a[i] == b[at + i];
    }
    if same {
      assert forall j | 0 <= j < n :: a[..n][j] == b[at..at + n][j];
    } else {
      var j :| 0 <= j < n && a[j] != b[at + j];
      assert a[..n][j] != b[at..at + n][j];
    }
  }

  lemma XorCommutes(a: seq<Byte>, b: seq<Byte>)
    requires |a| == |b|
    ensures Xor(a, b) == Xor(b, a)
  {
    var x, y := Xor(a, b), Xor(b, a);
    forall i | 0 <= i < |a|
      ensures x[i] == y[i]
    {
      assert a[i] ^ b[i] == b[i] ^ a[i];
    }
  }

  lemma Pad16After(a: seq<Byte>, b: seq<Byte>)
    requires |a| == 16
    ensures |Pad16(a + b)| >= 16
    ensures Pad16(a + b)[..16] == a && Pad16(a + b)[16..] == Pad16(b)
  {
    assert |a + b| % 16 == |b| % 16;
  }

  lemma Pad16Short(b: seq<Byte>)
    requires 0 < |b| <= 16
    ensures Pad16(b) == b + Zeros(16 - |b|)
  {
  }

  /** x[at..at + n] := 0. */
  method MemSetZero(x: array<Byte>, at: nat, n: nat)
    requires at + n <= x.Length
    modifies x
    ensures x[..] == old(x[..at]) + Zeros(n) + old(x[at + n..])
  {
    forall i | at <= i < at + n {
      x[i] := 0;
    }
  }

  /** x[at..at + n] := y[from..from + n]. */
  method MemMove(x: array<Byte>, at: nat, y: array<Byte>, from: nat, n: nat)
    requires at + n <= x.Length && from + n <= y.Length
    modifies x
    ensures x[..] == old(x[..at]) + old(y[from..from + n]) + old(x[at + n..])
  {
    forall i | 0 <= i < n {
      x[at + i] := y[from + i];
    }
  }

  /** x[at..at + k] := value in k bytes, most significant first. */
  method StoreInt(x: array<Byte>, at: nat, value: nat, k: nat)
    requires at + k <= x.Length
    modifies x
    ensures x[..] == old(x[..at]) + BigEndian(value, k) + old(x[at + k..])
  {
    var v, i := value, k;
    while i > 0
      invariant 0 <= i <= k
      invariant BigEndian(value, k) == BigEndian(v, i) + x[at + i..at + k]
      invariant x[..at] == old(x[..at]) && x[at + k..] == old(x[at + k..])
    {
      ghost var tail := x[at + i..at + k];
      BigEndianUnfold(v, i);
      hide *;
      i := i - 1;
      x[at + i] := Low8(v);
      assert x[at + i..at + k] == [x[at + i]] + tail;
      v := v / 256;
    }
  }

  lemma BigEndianUnfold(n: nat, k: nat)
    requires k > 0
    ensures BigEndian(n, k) == BigEndian(n / 256, k - 1) + [Low8(n)]
  {
  }
}
