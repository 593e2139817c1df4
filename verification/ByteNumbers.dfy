/** Numbers below 256 as bytes. */
module ByteValues {

  lemma ByteBack(k: int)
    requires 0 <= k < 256
    ensures (k as bv8) as int == k
  {
  }
}

/** The number a byte string stands for, most significant byte first. */
module ByteNumbers {
  import opened Bytes
  import opened ByteValues

  function Power256(k: nat): (p: nat)
    ensures p > 0
  {
    if k == 0 then 1 else 256 * Power256(k - 1)
  }

  /** Every byte counts by its place from the right. */
  function NumberOf(s: seq<Byte>): nat {
    if s == [] then 0 else s[0] as nat * Power256(|s| - 1) + NumberOf(s[1..])
  }

  lemma {:induction false} NumberOfSnoc(s: seq<Byte>, b: Byte)
    ensures NumberOf(s + [b]) == 256 * NumberOf(s) + b as nat
  {
    var t := s + [b];
    if s == [] {
      assert t[1..] == [] && Power256(0) == 1;
    } else {
      assert t[1..] == s[1..] + [b];
      NumberOfSnoc(s[1..], b);
      hide NumberOf;
      NumberOfFront(t);
      NumberOfFront(s);
      PowerStep(|s|);
      hide *;
      ShiftOne(s[0] as nat, Power256(|s| - 1));
    }
  }

  lemma NumberOfFront(s: seq<Byte>)
    requires s != []
    ensures NumberOf(s) == s[0] as nat * Power256(|s| - 1) + NumberOf(s[1..])
  {
  }

  lemma PowerStep(k: nat)
    requires k > 0
    ensures Power256(k) == 256 * Power256(k - 1)
  {
  }

  lemma ShiftOne(a: nat, p: nat)
    ensures a * (256 * p) == 256 * (a * p)
  {
  }

  /** Bytes written most significant first stand for the number. */
  lemma {:induction false} BigEndianReads(n: nat, k: nat)
    requires n < Power256(k)
    ensures NumberOf(BigEndian(n, k)) == n
  {
    if k > 0 {
      PowerStep(k);
      BigEndianUnfold(n, k);
      hide *;
      Quotient(n, Power256(k - 1));
      BigEndianReads(n / 256, k - 1);
      NumberOfSnoc(BigEndian(n / 256, k - 1), Low8(n));
      LowIs(n);
    }
  }

  lemma Quotient(n: nat, p: nat)
    requires n < 256 * p
    ensures n / 256 < p
  {
  }

  lemma LowIs(n: nat)
    ensures Low8(n) as nat == n % 256
  {
    ByteBack(n % 256);
  }

  lemma PowerTable()
    ensures Power256(0) == 1 && Power256(1) == 256 && Power256(2) == 0x1_0000 && Power256(3) == 0x100_0000
    ensures Power256(4) == 0x1_0000_0000 && Power256(8) == 0x1_0000_0000_0000_0000
  {
    assert Power256(1) == 256 * Power256(0);
    assert Power256(2) == 256 * Power256(1);
    assert Power256(3) == 256 * Power256(2);
    assert Power256(4) == 256 * Power256(3);
    assert Power256(5) == 256 * Power256(4);
    assert Power256(6) == 256 * Power256(5);
    assert Power256(7) == 256 * Power256(6);
    assert Power256(8) == 256 * Power256(7);
  }
}
