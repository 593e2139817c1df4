/**
 What FIPS 180-4 says of SHA-256 apart from listing it: roots of primes, the bits that are chosen and moved, the
 padding, and the schedule and the rounds as recurrences of words.
 */
module Sha256Standard {
  import opened Bytes
  import opened ByteNumbers
  import opened ModArith
  import opened Sha256

  //////////////////////////////////////////////////////////////////////////////
  // The first primes
  //////////////////////////////////////////////////////////////////////////////

  const PRIMES0: seq<nat> := [2, 3, 5, 7, 11, 13, 17, 19]
  const PRIMES1: seq<nat> := [23, 29, 31, 37, 41, 43, 47, 53]
  const PRIMES2: seq<nat> := [59, 61, 67, 71, 73, 79, 83, 89]
  const PRIMES3: seq<nat> := [97, 101, 103, 107, 109, 113, 127, 131]
  const PRIMES4: seq<nat> := [137, 139, 149, 151, 157, 163, 167, 173]
  const PRIMES5: seq<nat> := [179, 181, 191, 193, 197, 199, 211, 223]
  const PRIMES6: seq<nat> := [227, 229, 233, 239, 241, 251, 257, 263]
  const PRIMES7: seq<nat> := [269, 271, 277, 281, 283, 293, 307, 311]

  const PRIMES: seq<nat> := PRIMES0 + PRIMES1 + PRIMES2 + PRIMES3 + PRIMES4 + PRIMES5 + PRIMES6 + PRIMES7

  ghost predicate Prime(n: nat) {
    n >= 2 && forall d | 2 <= d < n :: n % d != 0
  }

  /** No number from 2 to 17 divides n, unless it is n. Below 324 that makes a prime. */
  predicate Sieved(n: nat) {
    n >= 2 && (n == 2 || n % 2 != 0) && (n == 3 || n % 3 != 0) && (n == 5 || n % 5 != 0) && (n == 7 || n % 7 != 0)
    && (n == 11 || n % 11 != 0) && (n == 13 || n % 13 != 0) && (n == 17 || n % 17 != 0)
  }

  lemma SmallDivisor(n: nat, m: nat)
    requires 2 <= m <= 17 && m < n && n % m == 0
    ensures !Sieved(n)
  {
    var c := n / m;
    assert n == m * c;
    if m % 2 == 0 {
      EvenMultiple(m / 2, c);
    } else if m == 9 || m == 15 {
      ThreeMultiple(m / 3, c);
    }
  }

  lemma EvenMultiple(h: nat, c: nat)
    ensures 2 * h * c % 2 == 0
  {
    assert 2 * h * c == 2 * (h * c);
  }

  lemma ThreeMultiple(h: nat, c: nat)
    ensures 3 * h * c % 3 == 0
  {
    assert 3 * h * c == 3 * (h * c);
  }

  lemma DivisorOrCofactor(n: nat, d: nat)
    requires 2 <= d < n < 324 && n % d == 0
    ensures exists m | 2 <= m <= 17 :: m < n && n % m == 0
  {
    var c := n / d;
    assert n == d * c;
    assert 2 <= c < n;
    if d > 17 {
      Cofactor(n, d, c);
      assert c <= 17 && n % c == 0;
    }
  }

  lemma Cofactor(n: nat, d: nat, c: nat)
    requires n == d * c && n < 324 && d >= 18 && c > 0
    ensures c <= 17 && n % c == 0
  {
    MultipleOf(d, c);
    if c >= 18 {
      AtLeast(d, c);
    }
  }

  lemma AtLeast(d: nat, c: nat)
    requires d >= 18 && c >= 18
    ensures d * c >= 324
  {
    assert d * c == 18 * c + (d - 18) * c;
  }

  lemma MultipleOf(d: nat, c: nat)
    requires c > 0
    ensures d * c % c == 0
  {
    CongIntro(d * c, 0, c, d);
    CongIffMod(d * c, 0, c);
    assert 0 % c == 0;
  }

  lemma SievedIff(n: nat)
    requires n < 324
    ensures Sieved(n) <==> Prime(n)
  {
    if Sieved(n) {
      forall d | 2 <= d < n
        ensures n % d != 0
      {
        if n % d == 0 {
          DivisorOrCofactor(n, d);
          var m :| 2 <= m <= 17 && m < n && n % m == 0;
          SmallDivisor(n, m);
        }
      }
    }
  }

  lemma Sieved0(i: nat)
    requires i < 8
    ensures |PRIMES0| == 8 && Sieved(PRIMES0[i]) && PRIMES0[i] < 324
  {
  }

  lemma Sieved1(i: nat)
    requires i < 8
    ensures |PRIMES1| == 8 && Sieved(PRIMES1[i]) && PRIMES1[i] < 324
  {
  }

  lemma Sieved2(i: nat)
    requires i < 8
    ensures |PRIMES2| == 8 && Sieved(PRIMES2[i]) && PRIMES2[i] < 324
  {
  }

  lemma Sieved3(i: nat)
    requires i < 8
    ensures |PRIMES3| == 8 && Sieved(PRIMES3[i]) && PRIMES3[i] < 324
  {
  }

  lemma Sieved4(i: nat)
    requires i < 8
    ensures |PRIMES4| == 8 && Sieved(PRIMES4[i]) && PRIMES4[i] < 324
  {
  }

  lemma Sieved5(i: nat)
    requires i < 8
    ensures |PRIMES5| == 8 && Sieved(PRIMES5[i]) && PRIMES5[i] < 324
  {
  }

  lemma Sieved6(i: nat)
    requires i < 8
    ensures |PRIMES6| == 8 && Sieved(PRIMES6[i]) && PRIMES6[i] < 324
  {
  }

  lemma Sieved7(i: nat)
    requires i < 8
    ensures |PRIMES7| == 8 && Sieved(PRIMES7[i]) && PRIMES7[i] < 324
  {
  }

  //////////////////////////////////////////////////////////////////////////////
  // Roots of primes
  //////////////////////////////////////////////////////////////////////////////

  /** i is the integer part of the cube root of p, and k the first 32 bits of its fraction. */
  predicate CubeRootAt(k: nat, p: nat, i: nat) {
    var r := i * 0x1_0000_0000 + k;
    k < 0x1_0000_0000 && r * r * r <= p * 0x1_00000000_00000000_00000000 < (r + 1) * (r + 1) * (r + 1)
  }

  /** The same for the square root. */
  predicate SquareRootAt(k: nat, p: nat, i: nat) {
    var r := i * 0x1_0000_0000 + k;
    k < 0x1_0000_0000 && r * r <= p * 0x1_00000000_00000000 < (r + 1) * (r + 1)
  }

  /** The integer part of the cube root, up to 6. */
  function CubeRoot(p: nat): nat {
    if p < 8 then 1 else if p < 27 then 2 else if p < 64 then 3 else if p < 125 then 4 else if p < 216 then 5 else 6
  }

  function SquareRoot(p: nat): nat {
    if p < 4 then 1 else if p < 9 then 2 else if p < 16 then 3 else 4
  }

  lemma Roots0(i: nat)
    requires i < 8
    ensures |K_ROW0| == |PRIMES0| == 8 && CubeRootAt(K_ROW0[i] as nat, PRIMES0[i], CubeRoot(PRIMES0[i]))
  {
  }

  lemma Roots1(i: nat)
    requires i < 8
    ensures |K_ROW1| == |PRIMES1| == 8 && CubeRootAt(K_ROW1[i] as nat, PRIMES1[i], CubeRoot(PRIMES1[i]))
  {
  }

  lemma Roots2(i: nat)
    requires i < 8
    ensures |K_ROW2| == |PRIMES2| == 8 && CubeRootAt(K_ROW2[i] as nat, PRIMES2[i], CubeRoot(PRIMES2[i]))
  {
  }

  lemma Roots3(i: nat)
    requires i < 8
    ensures |K_ROW3| == |PRIMES3| == 8 && CubeRootAt(K_ROW3[i] as nat, PRIMES3[i], CubeRoot(PRIMES3[i]))
  {
  }

  lemma Roots4(i: nat)
    requires i < 8
    ensures |K_ROW4| == |PRIMES4| == 8 && CubeRootAt(K_ROW4[i] as nat, PRIMES4[i], CubeRoot(PRIMES4[i]))
  {
  }

  lemma Roots5(i: nat)
    requires i < 8
    ensures |K_ROW5| == |PRIMES5| == 8 && CubeRootAt(K_ROW5[i] as nat, PRIMES5[i], CubeRoot(PRIMES5[i]))
  {
  }

  lemma Roots6(i: nat)
    requires i < 8
    ensures |K_ROW6| == |PRIMES6| == 8 && CubeRootAt(K_ROW6[i] as nat, PRIMES6[i], CubeRoot(PRIMES6[i]))
  {
  }

  lemma Roots7(i: nat)
    requires i < 8
    ensures |K_ROW7| == |PRIMES7| == 8 && CubeRootAt(K_ROW7[i] as nat, PRIMES7[i], CubeRoot(PRIMES7[i]))
  {
  }

  lemma RowLengths()
    ensures |K_ROW0| == |K_ROW1| == |K_ROW2| == |K_ROW3| == |K_ROW4| == |K_ROW5| == |K_ROW6| == |K_ROW7| == 8
    ensures |PRIMES0| == |PRIMES1| == |PRIMES2| == |PRIMES3| == |PRIMES4| == |PRIMES5| == |PRIMES6| == |PRIMES7| == 8
  {
  }

  lemma EntryIs(t: nat, j: nat, i: nat)
    requires t == 8 * j + i < 64 && i < 8
    ensures |K256| == |PRIMES| == 64
    ensures j < 8 && K256[t] == KRow(j)[i] && PRIMES[t] == PrimeRow(j)[i]
  {
    RowLengths();
    hide K_ROW0, K_ROW1, K_ROW2, K_ROW3, K_ROW4, K_ROW5, K_ROW6, K_ROW7;
    hide PRIMES0, PRIMES1, PRIMES2, PRIMES3, PRIMES4, PRIMES5, PRIMES6, PRIMES7;
  }

  function KRow(j: nat): (s: seq<Word32>)
    requires j < 8
    ensures |s| == 8
  {
    RowLengths();
    if j == 0 then K_ROW0 else if j == 1 then K_ROW1 else if j == 2 then K_ROW2 else if j == 3 then K_ROW3
    else if j == 4 then K_ROW4 else if j == 5 then K_ROW5 else if j == 6 then K_ROW6 else K_ROW7
  }

  function PrimeRow(j: nat): (s: seq<nat>)
    requires j < 8
    ensures |s| == 8
  {
    RowLengths();
    if j == 0 then PRIMES0 else if j == 1 then PRIMES1 else if j == 2 then PRIMES2 else if j == 3 then PRIMES3
    else if j == 4 then PRIMES4 else if j == 5 then PRIMES5 else if j == 6 then PRIMES6 else PRIMES7
  }

  lemma {:induction false} AscendingTo(s: seq<nat>, i: nat, j: nat)
    requires i < j < |s| && forall t | 0 <= t < |s| - 1 :: s[t] < s[t + 1]
    ensures s[i] < s[j]
    decreases j
  {
    if i + 1 < j {
      AscendingTo(s, i, j - 1);
    }
    assert s[j - 1] < s[j - 1 + 1];
  }

  lemma Ascending(s: seq<nat>)
    requires forall t | 0 <= t < |s| - 1 :: s[t] < s[t + 1]
    ensures forall i, j | 0 <= i < j < |s| :: s[i] < s[j]
  {
    forall i, j | 0 <= i < j < |s|
      ensures s[i] < s[j]
    {
      AscendingTo(s, i, j);
    }
  }

  lemma RowPrimes(j: nat, i: nat)
    requires j < 8 && i < 8
    ensures Prime(PrimeRow(j)[i])
  {
    hide Sieved, Prime, PRIMES0, PRIMES1, PRIMES2, PRIMES3, PRIMES4, PRIMES5, PRIMES6, PRIMES7;
    Sieved0(i);
    Sieved1(i);
    Sieved2(i);
    Sieved3(i);
    Sieved4(i);
    Sieved5(i);
    Sieved6(i);
    Sieved7(i);
    SievedIff(PrimeRow(j)[i]);
  }

  lemma RowAscends(j: nat, i: nat)
    requires j < 8 && i < 8
    ensures i < 7 ==> PrimeRow(j)[i] < PrimeRow(j)[i + 1]
    ensures j < 7 ==> PrimeRow(j)[7] < PrimeRow(j + 1)[0]
  {
  }

  /** The table holds 64 primes in ascending order. */
  lemma PrimesAscend()
    ensures |PRIMES| == 64
    ensures forall t | 0 <= t < 64 :: Prime(PRIMES[t])
    ensures forall s, t | 0 <= s < t < 64 :: PRIMES[s] < PRIMES[t]
  {
    hide *;
    EntryIs(0, 0, 0);
    forall t | 0 <= t < 64
      ensures Prime(PRIMES[t])
    {
      EntryIs(t, t / 8, t % 8);
      RowPrimes(t / 8, t % 8);
    }
    forall t | 0 <= t < 63
      ensures PRIMES[t] < PRIMES[t + 1]
    {
      EntryIs(t, t / 8, t % 8);
      EntryIs(t + 1, (t + 1) / 8, (t + 1) % 8);
      RowAscends(t / 8, t % 8);
    }
    Ascending(PRIMES);
  }

  lemma RowRoots(j: nat, i: nat)
    requires j < 8 && i < 8
    ensures CubeRootAt(KRow(j)[i] as nat, PrimeRow(j)[i], CubeRoot(PrimeRow(j)[i]))
  {
    hide CubeRootAt, CubeRoot, K_ROW0, K_ROW1, K_ROW2, K_ROW3, K_ROW4, K_ROW5, K_ROW6, K_ROW7;
    hide PRIMES0, PRIMES1, PRIMES2, PRIMES3, PRIMES4, PRIMES5, PRIMES6, PRIMES7;
    Roots0(i);
    Roots1(i);
    Roots2(i);
    Roots3(i);
    Roots4(i);
    Roots5(i);
    Roots6(i);
    Roots7(i);
  }

  /** Constant t is the first 32 bits of the fraction of the cube root of the t-th prime. */
  lemma ConstantsAreCubeRoots(t: nat)
    requires t < 64
    ensures |K256| == |PRIMES| == 64 && CubeRootAt(K256[t] as nat, PRIMES[t], CubeRoot(PRIMES[t]))
  {
    hide *;
    EntryIs(t, t / 8, t % 8);
    RowRoots(t / 8, t % 8);
  }

  /** The initial hash values are the first 32 bits of the fractions of the square roots of the first eight primes. */
  lemma InitialHashIsSquareRoots(t: nat)
    requires t < 8
    ensures |INITIAL_HASH| == |PRIMES0| == 8
    ensures SquareRootAt(INITIAL_HASH[t] as nat, PRIMES0[t], SquareRoot(PRIMES0[t]))
  {
  }

  //////////////////////////////////////////////////////////////////////////////
  // Bits
  //////////////////////////////////////////////////////////////////////////////

  /** Ch agrees with the second word where the first has ones, and with the third elsewhere. */
  lemma ChChooses(x: Word32, y: Word32, z: Word32)
    ensures (Ch(x, y, z) ^ y) & x == 0 && (Ch(x, y, z) ^ z) & !x == 0
  {
  }

  /** Where two words agree Maj agrees with them, and where they do not, with the third. */
  lemma MajDecides(x: Word32, y: Word32, z: Word32)
    ensures (Maj(x, y, z) ^ x) & !(x ^ y) == 0 && (Maj(x, y, z) ^ z) & (x ^ y) == 0
  {
  }

  /** Rotation to the right, as the language has it. */
  function Turned(x: Word32, n: nat): Word32
    requires n < 32
  {
    x.RotateRight(n)
  }

  lemma RotationsAre(x: Word32)
    ensures RotR(2, x) == Turned(x, 2) && RotR(6, x) == Turned(x, 6) && RotR(7, x) == Turned(x, 7)
    ensures RotR(11, x) == Turned(x, 11) && RotR(13, x) == Turned(x, 13) && RotR(17, x) == Turned(x, 17)
    ensures RotR(18, x) == Turned(x, 18) && RotR(19, x) == Turned(x, 19) && RotR(22, x) == Turned(x, 22)
    ensures RotR(25, x) == Turned(x, 25)
  {
  }

  lemma BigSigma0Is(x: Word32)
    ensures BigSigma0(x) == RotR(2, x) ^ RotR(13, x) ^ RotR(22, x)
  {
    hide RotR;
  }

  lemma BigSigma1Is(x: Word32)
    ensures BigSigma1(x) == RotR(6, x) ^ RotR(11, x) ^ RotR(25, x)
  {
    hide RotR;
  }

  lemma SmallSigma0Is(x: Word32)
    ensures SmallSigma0(x) == RotR(7, x) ^ RotR(18, x) ^ (x >> 3)
  {
    hide RotR;
  }

  lemma SmallSigma1Is(x: Word32)
    ensures SmallSigma1(x) == RotR(17, x) ^ RotR(19, x) ^ (x >> 10)
  {
    hide RotR;
  }

  lemma BigSigma0Rotates(x: Word32)
    ensures BigSigma0(x) == Turned(x, 2) ^ Turned(x, 13) ^ Turned(x, 22)
  {
    hide *;
    RotationsAre(x);
    BigSigma0Is(x);
  }

  lemma BigSigma1Rotates(x: Word32)
    ensures BigSigma1(x) == Turned(x, 6) ^ Turned(x, 11) ^ Turned(x, 25)
  {
    hide *;
    RotationsAre(x);
    BigSigma1Is(x);
  }

  lemma SmallSigma0Rotates(x: Word32)
    ensures SmallSigma0(x) == Turned(x, 7) ^ Turned(x, 18) ^ (x >> 3)
  {
    hide *;
    RotationsAre(x);
    SmallSigma0Is(x);
  }

  lemma SmallSigma1Rotates(x: Word32)
    ensures SmallSigma1(x) == Turned(x, 17) ^ Turned(x, 19) ^ (x >> 10)
  {
    hide *;
    RotationsAre(x);
    SmallSigma1Is(x);
  }

  /** The sigma functions put together rotated words, the small ones a shifted word too. */
  lemma SigmasRotate(x: Word32)
    ensures BigSigma0(x) == Turned(x, 2) ^ Turned(x, 13) ^ Turned(x, 22)
    ensures BigSigma1(x) == Turned(x, 6) ^ Turned(x, 11) ^ Turned(x, 25)
    ensures SmallSigma0(x) == Turned(x, 7) ^ Turned(x, 18) ^ (x >> 3)
    ensures SmallSigma1(x) == Turned(x, 17) ^ Turned(x, 19) ^ (x >> 10)
  {
    hide *;
    BigSigma0Rotates(x);
    BigSigma1Rotates(x);
    SmallSigma0Rotates(x);
    SmallSigma1Rotates(x);
  }

  //////////////////////////////////////////////////////////////////////////////
  // The padding
  //////////////////////////////////////////////////////////////////////////////

  /**
   A padded message is the message, a one bit, zeros, and the message's length in bits in the last eight bytes; it
   fills whole blocks, and no shorter string of blocks has room for that.
   */
  lemma PaddingIs(msg: seq<Byte>)
    requires |msg| < MAX_BYTES
    ensures var p := Padded(msg);
            && |p| % 64 == 0 && |msg| + 9 <= |p| < |msg| + 9 + 64
            && p[..|msg|] == msg && p[|msg|] == 0x80
            && (forall i | |msg| < i < |p| - 8 :: p[i] == 0)
            && NumberOf(p[|p| - 8..]) == 8 * |msg|
  {
    var p, z, tail := Padded(msg), PadZeros(|msg|), BigEndian(8 * |msg|, 8);
    PowerTable();
    BigEndianReads(8 * |msg|, 8);
    hide BigEndian, NumberOf;
    assert p[|p| - 8..] == tail;
    assert z < 64;
  }

  /** Different messages are padded differently. */
  lemma PaddingInjective(a: seq<Byte>, b: seq<Byte>)
    requires |a| < MAX_BYTES && |b| < MAX_BYTES && Padded(a) == Padded(b)
    ensures a == b
  {
    PaddingIs(a);
    PaddingIs(b);
    hide Padded, NumberOf;
    assert |a| == |b|;
  }

  //////////////////////////////////////////////////////////////////////////////
  // Words and bytes
  //////////////////////////////////////////////////////////////////////////////

  /** A word is read with its first byte as the most significant one. */
  lemma WordsReadBigEndian(b0: Byte, b1: Byte, b2: Byte, b3: Byte)
    ensures WordBE(b0, b1, b2, b3)
         == 0x100_0000 * (b0 as Word32) + 0x1_0000 * (b1 as Word32) + 0x100 * (b2 as Word32) + (b3 as Word32)
  {
  }

  lemma DigestFront(h: seq<Word32>)
    requires |h| > 0
    ensures DigestBytes(h)[..4] == BytesBE(h[0]) && DigestBytes(h)[4..] == DigestBytes(h[1..])
  {
    hide BytesBE;
    FourBytes(h[0]);
  }

  lemma DropMore(s: seq<Byte>, n: nat)
    requires n >= 4 && n + 4 <= |s|
    ensures s[n..n + 4] == s[4..][n - 4..n]
  {
    var a, b := s[n..n + 4], s[4..][n - 4..n];
    assert forall j | 0 <= j < 4 :: a[j] == b[j];
  }

  /** The digest is the hash value word by word, each with its most significant byte first. */
  lemma {:induction false} DigestWords(h: seq<Word32>, i: nat)
    requires i < |h|
    ensures DigestBytes(h)[4 * i..4 * i + 4] == BytesBE(h[i])
    ensures var s := BytesBE(h[i]); |s| == 4 && WordBE(s[0], s[1], s[2], s[3]) == h[i]
  {
    SplitWord(h[i]);
    DigestFront(h);
    hide *;
    if i > 0 {
      DigestWords(h[1..], i - 1);
      DropMore(DigestBytes(h), 4 * i);
    }
  }

  //////////////////////////////////////////////////////////////////////////////
  // Schedule and rounds as recurrences
  //////////////////////////////////////////////////////////////////////////////

  /** Sums modulo 2^32. */
  function Sum4(a: Word32, b: Word32, c: Word32, d: Word32): Word32 {
    a + b + c + d
  }

  function Sum5(a: Word32, b: Word32, c: Word32, d: Word32, e: Word32): Word32 {
    a + b + c + d + e
  }

  lemma ExpandIs(w2: Word32, w7: Word32, w15: Word32, w16: Word32)
    ensures Expand(w2, w7, w15, w16) == Sum4(SmallSigma1(w2), w7, SmallSigma0(w15), w16)
  {
    hide SmallSigma0, SmallSigma1;
  }

  /** Section 6.2.2: the first sixteen words are those of the block, the others follow. */
  lemma ScheduleRecurrence(m: seq<Word32>, t: nat)
    requires |m| == 16
    ensures t < 16 ==> Schedule(m, t) == m[t]
    ensures Schedule(m, t + 16)
         == Sum4(SmallSigma1(Schedule(m, t + 14)), Schedule(m, t + 9), SmallSigma0(Schedule(m, t + 1)), Schedule(m, t))
  {
    hide *;
    ScheduleAt(m, t);
    ScheduleAt(m, t + 16);
    ExpandIs(Schedule(m, t + 14), Schedule(m, t + 9), Schedule(m, t + 1), Schedule(m, t));
  }

  /** The part of a round that depends on e, f, g, h, the constant and the schedule. */
  function Mixed(h: seq<Word32>, m: seq<Word32>, t: nat): Word32
    requires |h| == 8 && |m| == 16 && t < 64
    decreases t, 2
  {
    KLength();
    Sum5(ESeries(h, m, t), BigSigma1(ESeries(h, m, t + 3)),
         Ch(ESeries(h, m, t + 3), ESeries(h, m, t + 2), ESeries(h, m, t + 1)), K256[t], Schedule(m, t))
  }

  /** All values register a takes, after d, c, b and a themselves. */
  function ASeries(h: seq<Word32>, m: seq<Word32>, t: nat): Word32
    requires |h| == 8 && |m| == 16 && t < 68
    decreases if t < 4 then 0 else t - 3, 1
  {
    if t < 4 then h[3 - t]
    else
      Add32(Mixed(h, m, t - 4), Add32(BigSigma0(ASeries(h, m, t - 1)),
            Maj(ASeries(h, m, t - 1), ASeries(h, m, t - 2), ASeries(h, m, t - 3))))
  }

  /** All values register e takes, after h, g, f and e themselves. */
  function ESeries(h: seq<Word32>, m: seq<Word32>, t: nat): Word32
    requires |h| == 8 && |m| == 16 && t < 68
    decreases if t < 4 then 0 else t - 3, 0
  {
    if t < 4 then h[7 - t] else Add32(ASeries(h, m, t - 4), Mixed(h, m, t - 4))
  }

  /** The registers after t rounds, read off the two series. */
  function SeriesRegs(h: seq<Word32>, m: seq<Word32>, t: nat): Regs
    requires |h| == 8 && |m| == 16 && t <= 64
  {
    Regs(ASeries(h, m, t + 3), ASeries(h, m, t + 2), ASeries(h, m, t + 1), ASeries(h, m, t),
         ESeries(h, m, t + 3), ESeries(h, m, t + 2), ESeries(h, m, t + 1), ESeries(h, m, t))
  }

  lemma SeriesStart(h: seq<Word32>, m: seq<Word32>)
    requires |h| == 8 && |m| == 16
    ensures RegsOf(h) == SeriesRegs(h, m, 0)
  {
    hide Mixed, BigSigma0, Maj, Add32;
  }

  lemma SeriesStep(h: seq<Word32>, m: seq<Word32>, t: nat)
    requires |h| == 8 && |m| == 16 && t < 64
    ensures ASeries(h, m, t + 4)
         == Add32(Mixed(h, m, t), Add32(BigSigma0(ASeries(h, m, t + 3)),
                  Maj(ASeries(h, m, t + 3), ASeries(h, m, t + 2), ASeries(h, m, t + 1))))
    ensures ESeries(h, m, t + 4) == Add32(ASeries(h, m, t), Mixed(h, m, t))
  {
    hide BigSigma0, Maj, Mixed, Add32;
  }

  lemma MixedIs(h: seq<Word32>, m: seq<Word32>, t: nat)
    requires |h| == 8 && |m| == 16 && t < 64
    ensures |K256| == 64
    ensures Mixed(h, m, t)
         == Sum5(ESeries(h, m, t), BigSigma1(ESeries(h, m, t + 3)),
                 Ch(ESeries(h, m, t + 3), ESeries(h, m, t + 2), ESeries(h, m, t + 1)), K256[t], Schedule(m, t))
  {
    hide BigSigma1, Ch, ESeries, Schedule, K256, Sum5;
    KLength();
  }

  lemma Temp1Is(e: Word32, f: Word32, g: Word32, h: Word32, k: Word32, w: Word32)
    ensures Temp1(e, f, g, h, k, w) == Sum5(h, BigSigma1(e), Ch(e, f, g), k, w)
  {
    hide BigSigma1, Ch;
  }

  lemma Temp2Is(a: Word32, b: Word32, c: Word32)
    ensures Temp2(a, b, c) == Add32(BigSigma0(a), Maj(a, b, c))
  {
    hide BigSigma0, Maj;
  }

  lemma RoundIs(r: Regs, k: Word32, w: Word32)
    ensures var t1 := Sum5(r.h, BigSigma1(r.e), Ch(r.e, r.f, r.g), k, w);
            Round(r, k, w) == Regs(Add32(t1, Add32(BigSigma0(r.a), Maj(r.a, r.b, r.c))), r.a, r.b, r.c,
                                   Add32(r.d, t1), r.e, r.f, r.g)
  {
    Temp1Is(r.e, r.f, r.g, r.h, k, w);
    Temp2Is(r.a, r.b, r.c);
    hide BigSigma0, BigSigma1, Maj, Ch, Temp1, Temp2, Sum5, Add32;
  }

  lemma SeriesRegsIs(h: seq<Word32>, m: seq<Word32>, t: nat)
    requires |h| == 8 && |m| == 16 && t <= 64
    ensures SeriesRegs(h, m, t)
         == Regs(ASeries(h, m, t + 3), ASeries(h, m, t + 2), ASeries(h, m, t + 1), ASeries(h, m, t),
                 ESeries(h, m, t + 3), ESeries(h, m, t + 2), ESeries(h, m, t + 1), ESeries(h, m, t))
  {
    hide ASeries, ESeries;
  }

  lemma SeriesRound(h: seq<Word32>, m: seq<Word32>, t: nat)
    requires |h| == 8 && |m| == 16 && t < 64
    ensures |K256| == 64 && Round(SeriesRegs(h, m, t), K256[t], Schedule(m, t)) == SeriesRegs(h, m, t + 1)
  {
    hide *;
    SeriesStep(h, m, t);
    MixedIs(h, m, t);
    SeriesRegsIs(h, m, t);
    SeriesRegsIs(h, m, t + 1);
    RoundIs(SeriesRegs(h, m, t), K256[t], Schedule(m, t));
  }

  /** Rounds move the registers along two series of words, one for a to d and one for e to h. */
  lemma {:induction false} RoundsAreSeries(h: seq<Word32>, m: seq<Word32>, t: nat)
    requires |h| == 8 && |m| == 16 && t <= 64
    ensures Rounds(RegsOf(h), m, t) == SeriesRegs(h, m, t)
  {
    hide *;
    if t == 0 {
      SeriesStart(h, m);
      RoundsNone(RegsOf(h), m);
    } else {
      RoundsAreSeries(h, m, t - 1);
      RoundsStep(RegsOf(h), m, t - 1);
      SeriesRound(h, m, t - 1);
    }
  }

  /** A block adds the last four words of each series to the hash value. */
  lemma CompressAddsSeries(h: seq<Word32>, block: seq<Byte>)
    requires |h| == 8 && |block| == 64
    ensures var m := BlockWords(block);
            Compress(h, block)
            == [Add32(h[0], ASeries(h, m, 67)), Add32(h[1], ASeries(h, m, 66)), Add32(h[2], ASeries(h, m, 65)),
                Add32(h[3], ASeries(h, m, 64)), Add32(h[4], ESeries(h, m, 67)), Add32(h[5], ESeries(h, m, 66)),
                Add32(h[6], ESeries(h, m, 65)), Add32(h[7], ESeries(h, m, 64))]
  {
    var m := BlockWords(block);
    RoundsAreSeries(h, m, 64);
    SeriesRegsIs(h, m, 64);
    hide Rounds, RegsOf, BlockWords, Add32, ASeries, ESeries, SeriesRegs;
  }
}
