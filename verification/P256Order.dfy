/**
 Barrett reduction modulo the order of the P-256 base point, as fieldModO does it:
 a 9-word quotient estimate of which only 8 words are kept, a 9-word subtraction,
 and repeated subtraction of the order.
 */
module P256Order {
  import opened Limbs
  import opened ModArith
  import opened P256Field

  const N: nat := 0xffffffff_00000000_ffffffff_ffffffff_bce6faad_a7179e84_f3b9cac2_fc632551

  const MU: nat := 0x1_00000000_ffffffff_fffffffe_ffffffff_43190552_df1a6c21_012ffd85_eedf9bfe

  /** 2^224, 2^288 and 2^512: the shifts of the estimate and the range of the argument. */
  const R224: nat := 0x1_00000000_00000000_00000000_00000000_00000000_00000000_00000000
  const R288: nat := 0x1_00000000_00000000_00000000_00000000_00000000_00000000_00000000_00000000_00000000
  const R512: nat := 0x1_00000000_00000000_00000000_00000000_00000000_00000000_00000000_00000000_00000000_00000000_00000000_00000000_00000000_00000000_00000000_00000000

  /** The first argument whose quotient estimate needs a ninth word. */
  const BARRETT_LIMIT: nat := 0xffffffff_00000000_ffffffff_ffffffff_bce6faad_a7179e84_f3b9cac2_fc632551_66e12d95_00000000_00000000_00000000_00000000_00000000_00000000_00000000

  const ORDER_M: seq<Word> :=
    [0xFC632551, 0xF3B9CAC2, 0xA7179E84, 0xBCE6FAAD, 0xFFFFFFFF, 0xFFFFFFFF, 0x00000000, 0xFFFFFFFF, 0x00000000]

  const ORDER_R: seq<Word> :=
    [0x039CDAAF, 0x0C46353D, 0x58E8617B, 0x43190552, 0x00000000, 0x00000000, 0xFFFFFFFF, 0x00000000]

  const ORDER_MU: seq<Word> :=
    [0xEEDF9BFE, 0x012FFD85, 0xDF1A6C21, 0x43190552, 0xFFFFFFFF, 0xFFFFFFFE, 0xFFFFFFFF, 0x00000000, 0x00000001]

  lemma Known9(s: seq<Word>, low: nat, top: Word)
    requires |s| == 9 && Val(s[..8]) == low && s[8] == top
    ensures Val(s) == low + top * R256
  {
    PrimeTables();
    ValAt(s, 8);
    assert s[8..] == [top] && [top][1..] == [];
    assert Val([top]) == top;
  }

  lemma OrderTable()
    ensures |ORDER_M| == 9 && Val(ORDER_M) == N && Val(ORDER_M[..8]) == N
  {
    hide Val, Pow;
    Known8(ORDER_M[..8], 0xFC632551, 0xF3B9CAC2, 0xA7179E84, 0xBCE6FAAD, 0xFFFFFFFF, 0xFFFFFFFF, 0x00000000,
        0xFFFFFFFF);
    Known9(ORDER_M, N, 0);
  }

  lemma ReducerTable()
    ensures |ORDER_R| == 8 && Val(ORDER_R) == R256 - N
  {
    hide Val, Pow;
    Known8(ORDER_R, 0x039CDAAF, 0x0C46353D, 0x58E8617B, 0x43190552, 0x00000000, 0x00000000, 0xFFFFFFFF, 0x00000000);
  }

  lemma MuTable()
    ensures |ORDER_MU| == 9 && Val(ORDER_MU) == MU
  {
    hide Val, Pow;
    Known8(ORDER_MU[..8], 0xEEDF9BFE, 0x012FFD85, 0xDF1A6C21, 0x43190552, 0xFFFFFFFF, 0xFFFFFFFE, 0xFFFFFFFF,
        0x00000000);
    Known9(ORDER_MU, 0x00000000_ffffffff_fffffffe_ffffffff_43190552_df1a6c21_012ffd85_eedf9bfe, 1);
  }

  /** The precomputed constant is floor(2^512 / N). */
  lemma MuIsFloor()
    ensures MU == R512 / N
  {
    assert MU * N <= R512 < (MU + 1) * N;
  }

  //////////////////////////////////////////////////////////////////////////////
  // The estimate
  //////////////////////////////////////////////////////////////////////////////

  /** The quotient estimate before its ninth word is dropped. */
  function Quotient(a: nat): nat {
    a / R224 * MU / R288
  }

  /** The nine-word difference the closing loop starts from; a9 is the low nine words in memory. */
  function Remainder(a: nat, a9: nat): nat {
    (a9 - Quotient(a) % R256 * N) % R288
  }

  lemma EstimateError(a: int, q1: int, q3: int)
    requires 0 <= a < R512
    requires 0 <= a - q1 * R224 < R224
    requires 0 <= q1 * MU - q3 * R288 < R288
    ensures 0 <= a - q3 * N < 3 * N
  {
  }

  lemma EstimateRange(a: int, q1: int, q3: int)
    requires 0 <= a < R512
    requires 0 <= a - q1 * R224 < R224
    requires 0 <= q1 * MU - q3 * R288 < R288
    ensures 0 <= q3 < 2 * R256
  {
  }

  /** The nine top words from which on the estimate needs a ninth word. */
  const TOP_LIMIT: nat := 0xffffffff_00000000_ffffffff_ffffffff_bce6faad_a7179e84_f3b9cac2_fc632551_66e12d95

  lemma TopBelow(q1: int, q3: int)
    requires 0 <= q1 * MU - q3 * R288 && q1 < TOP_LIMIT
    ensures q3 < R256
  {
    assert q1 * MU <= (TOP_LIMIT - 1) * MU < R256 * R288;
  }

  lemma TopAbove(q1: int, q3: int)
    requires q1 * MU - q3 * R288 < R288 && TOP_LIMIT <= q1
    ensures R256 <= q3
  {
    assert R256 * R288 <= TOP_LIMIT * MU <= q1 * MU;
  }

  lemma TopOfLimit(a: int, q1: int)
    requires 0 <= a - q1 * R224 < R224
    ensures q1 < TOP_LIMIT <==> a < BARRETT_LIMIT
  {
    assert TOP_LIMIT * R224 == BARRETT_LIMIT;
  }

  lemma EstimateFits(a: int, q1: int, q3: int)
    requires 0 <= a - q1 * R224 < R224
    requires 0 <= q1 * MU - q3 * R288 < R288
    ensures q3 < R256 <==> a < BARRETT_LIMIT
  {
    hide *;
    TopOfLimit(a, q1);
    if q1 < TOP_LIMIT {
      TopBelow(q1, q3);
    } else {
      TopAbove(q1, q3);
    }
  }

  /** The estimate is never too large and at most two too small. */
  lemma EstimateClose(a: nat)
    requires a < R512
    ensures 0 <= a - Quotient(a) * N < 3 * N
    ensures Quotient(a) < 2 * R256
    ensures Quotient(a) < R256 <==> a < BARRETT_LIMIT
  {
    var q1 := a / R224;
    var q3 := q1 * MU / R288;
    assert 0 <= a - q1 * R224 < R224;
    assert 0 <= q1 * MU - q3 * R288 < R288;
    EstimateError(a, q1, q3);
    EstimateRange(a, q1, q3);
    EstimateFits(a, q1, q3);
  }

  //////////////////////////////////////////////////////////////////////////////
  // The routine
  //////////////////////////////////////////////////////////////////////////////

  method OrderM() returns (m: array<Word>)
    ensures fresh(m) && m.Length == 9 && Val(m[..9]) == N && Val(m[..8]) == N
  {
    hide *;
    m := Table(ORDER_M);
    OrderTable();
    assert m[..9] == m[..] && m[..8] == m[..][..8];
  }

  method OrderMu() returns (m: array<Word>)
    ensures fresh(m) && m.Length == 9 && Val(m[..9]) == MU
  {
    hide *;
    m := Table(ORDER_MU);
    MuTable();
    assert m[..9] == m[..];
  }

  method OrderR() returns (m: array<Word>)
    ensures fresh(m) && m.Length == 8 && V8(m) == R256 - N
  {
    hide Val, Pow, ORDER_R, R256, N;
    m := Table(ORDER_R);
    ReducerTable();
    assert m[..8] == m[..];
  }

  lemma Powers()
    ensures Pow(7) == R224 && Pow(8) == R256 && Pow(9) == R288 && Pow(16) == R512
  {
    PowValues();
    PowAdd(8, 8);
    hide Pow;
  }

  /** The parts of the estimate, read off the words of the shifted products. */
  lemma QuotientParts(a: nat, q1: nat, q2: nat, q3: nat)
    requires a < R512
    requires q1 == a / R224 % R288 && q2 == MU * q1 && q3 == q2 / R288 % R256
    ensures q3 == Quotient(a) % R256
  {
    assert a / R224 < R288;
    assert q1 == a / R224;
    Commute(MU, q1);
  }

  lemma WordsBound(s: seq<Word>)
    requires |s| <= 16
    ensures Val(s) < R512
  {
    hide *;
    Powers();
    ValBound(s);
    PowMonotone(|s|, 16);
  }

  /** q (first eight words) := the quotient estimate for the first length words of a. */
  method EstimateQuotient(a: array<Word>, length: nat, q: array<Word>, tmp: array<Word>)
    requires 8 <= length <= 16 && length <= a.Length && q.Length == 9 && tmp.Length == 18
    requires a != q && a != tmp && q != tmp
    modifies q, tmp
    ensures Val(q[..8]) == Quotient(Val(a[..length])) % R256
  {
    hide *;
    Powers();
    WordsBound(a[..length]);
    var mu := OrderMu();
    RShiftBy(a, length, q, 9, 7);
    ghost var q1 := Val(q[..9]);
    FieldMult(mu, q, tmp, 9);
    ghost var q2 := Val(tmp[..18]);
    RShiftBy(tmp, 18, q, 8, 9);
    QuotientParts(Val(a[..length]), q1, q2, Val(q[..8]));
  }

  lemma WrappedDifference(x: int, y: int, m: int, r: int, borrow: int)
    requires 0 < m && 0 <= r < m && r == x - y % m + borrow * m
    ensures r == (x - y) % m
  {
    var q := y / m;
    assert y == q * m + y % m;
    assert r - (x - y) == (q + borrow) * m;
    CongIntro(r, x - y, m, q + borrow);
    CongIffMod(r, x - y, m);
    SmallMod(r, m);
  }

  /** Subtracts the order until the nine-word number is below it. */
  method SubtractOrder(result: array<Word>, orderM: array<Word>) returns (ghost times: nat)
    requires result.Length >= 9 && orderM.Length == 9 && result != orderM && Val(orderM[..9]) == N
    modifies result
    ensures Val(result[..9]) == old(Val(result[..9])) % N
    ensures times == old(Val(result[..9])) / N
    ensures SameOutside(old(result[..]), result[..], 0, 9)
  {
    times := 0;
    ghost var start := Val(result[..9]);
    var order := IsGreater(result, orderM, 9);
    while order >= 0
      invariant Val(result[..9]) + times * N == start
      invariant order == Compare(Val(result[..9]), N)
      invariant SameOutside(old(result[..]), result[..], 0, 9)
      decreases Val(result[..9])
    {
      hide Val, Pow, N;
      ghost var was, r := result[..], Val(result[..9]);
      var borrow := Sub(result, orderM, result, 0, 9);
      NoBorrow(r, N, Val(result[..9]), borrow, Pow(9));
      AddOne(times, N);
      times := times + 1;
      WindowTwice(old(result[..]), was, result[..]);
      order := IsGreater(result, orderM, 9);
    }
    DivModUnique(Val(result[..9]), N, times);
    Commute(times, N);
  }

  lemma NoBorrow(r: int, n: int, r': int, borrow: int, p: int)
    requires 0 < n <= r < p && 0 <= r' < p && 0 <= borrow && r' == r - n + borrow * p
    ensures r' == r - n
  {
    if borrow >= 1 {
      MulMonotone(1, borrow, p);
      assert false;
    }
  }

  lemma WindowTwice(s: seq<Word>, t: seq<Word>, u: seq<Word>)
    requires SameOutside(s, t, 0, 9) && SameOutside(t, u, 0, 9)
    ensures SameOutside(s, u, 0, 9)
  {
  }

  /** The words of a are read unreduced when there are eight of them and they do not exceed the order. */
  ghost predicate ReturnedAsIs(a: nat, length: nat) {
    length == 8 && a <= N
  }

  /** The reduction proper: result (9 words) := a less the estimated multiple of the order, then below it. */
  method BarrettReduce(a: array<Word>, result: array<Word>, length: nat, orderM: array<Word>) returns (ghost times: nat)
    requires 8 <= length <= 16 && length <= a.Length && 9 <= a.Length && 9 <= result.Length
    requires orderM.Length == 9 && Val(orderM[..9]) == N && Val(orderM[..8]) == N
    requires orderM != a && orderM != result
    modifies result
    ensures var r := Remainder(old(Val(a[..length])), old(Val(a[..9])));
            Val(result[..9]) == r % N && times == r / N
    ensures SameOutside(old(result[..]), result[..], 0, 9)
  {
    hide *;
    var q := new Word[9];
    var tmp := new Word[18];
    ghost var v, v9 := Val(a[..length]), Val(a[..9]);
    EstimateQuotient(a, length, q, tmp);
    ghost var q3 := Val(q[..8]);
    FieldMult(q, orderM, tmp, 8);
    ghost var product := Val(tmp[..16]);
    ValDropTake(tmp[..16], 9);
    assert tmp[..16][..9] == tmp[0..9];
    var borrow := Sub(a, tmp, result, 0, 9);
    Difference9(v, v9, q3, product, Val(result[..9]), borrow);
    ghost var was := result[..];
    times := SubtractOrder(result, orderM);
    WindowTwice(old(result[..]), was, result[..]);
  }

  /**
   result := a (length words) reduced modulo the order; a and result may be the same array. Nine words of both are
   touched, but for a that is returned as it is only eight.
   */
  method FieldModO(a: array<Word>, result: array<Word>, length: nat) returns (ghost times: nat)
    requires 8 <= length <= 16 && length <= a.Length && 8 <= result.Length
    requires !ReturnedAsIs(Val(a[..length]), length) ==> 9 <= a.Length && 9 <= result.Length
    modifies result
    ensures ReturnedAsIs(old(Val(a[..length])), length) ==>
              Val(result[..8]) == old(Val(a[..8])) && SameOutside(old(result[..]), result[..], 0, 8)
    ensures !ReturnedAsIs(old(Val(a[..length])), length) ==>
              var r := Remainder(old(Val(a[..length])), old(Val(a[..9])));
              Val(result[..9]) == r % N && times == r / N
    ensures SameOutside(old(result[..]), result[..], 0, 9)
  {
    hide Val, Pow, Remainder, N;
    var orderM := OrderM();
    times := 0;
    if length == 8 {
      var order := IsGreater(a, orderM, 8);
      if order <= 0 {
        if a != result {
          Copy(a, result, length);
        }
        return;
      }
    }
    times := BarrettReduce(a, result, length, orderM);
  }

  lemma Difference9(v: nat, v9: nat, q3: nat, product: nat, r: int, borrow: int)
    requires q3 == Quotient(v) % R256 && product == q3 * N
    requires 0 <= r < Pow(9) && r == v9 - product % Pow(9) + borrow * Pow(9)
    ensures r == Remainder(v, v9)
  {
    hide Quotient, R256, N, Pow, R288;
    Powers();
    WrappedDifference(v9, product, R288, r, borrow);
  }

  //////////////////////////////////////////////////////////////////////////////
  // What the routine computes
  //////////////////////////////////////////////////////////////////////////////

  /** The low word of the order, which is what a lost ninth word of the estimate brings in. */
  const N_LOW: nat := 0xFC632551

  lemma ModIs(x: int, r: int, m: int, k: int)
    requires 0 <= r < m && x == r + k * m
    ensures x % m == r
  {
    CongIntro(x, r, m, k);
    CongIffMod(x, r, m);
    SmallMod(r, m);
  }

  /** With an eight-word estimate the difference is small and congruent to the argument in memory. */
  lemma RemainderKept(a: nat, a9: nat, extra: nat)
    requires a < BARRETT_LIMIT && a < R512
    requires a9 == (a + extra) % R288
    requires extra == 0 || a + extra < R288
    ensures extra == 0 ==> Remainder(a, a9) == a - Quotient(a) * N < 3 * N
    ensures Remainder(a, a9) % N == (a + extra) % N
  {
    EstimateClose(a);
    var q := Quotient(a);
    var k := (a + extra) / R288;
    assert q % R256 == q;
    assert a9 - q * N == a + extra - q * N - k * R288;
    var r := a + extra - q * N;
    hide Quotient;
    ModIs(a9 - q * N, r, R288, -k);
    CongIntro(a + extra, r, N, q);
    CongIffMod(a + extra, r, N);
  }

  /** N * 2^256 taken modulo 2^288, where only the low word of N is left. */
  lemma LowWordLeft()
    ensures N * R256 == N / 0x1_0000_0000 * R288 + N_LOW * R256
    ensures 3 * N + N_LOW * R256 < R288
  {
  }

  lemma SpoiltArith(a: int, q: int, a9: int, k: int, r: int, n: int, r256: int, r288: int, high: int, low: int)
    requires a == a9 + k * r288 && r == a - q * n + low && r256 * n == high * r288 + low
    ensures a9 - (q - r256) * n == r + (high - k) * r288
  {
    Distribute(q, -r256, n);
    Distribute(high, -k, r288);
  }

  lemma Distribute(x: int, y: int, z: int)
    ensures (x + y) * z == x * z + y * z
    ensures (-y) * z == -(y * z)
  {
  }

  lemma TopDropped(q: int)
    requires R256 <= q < 2 * R256
    ensures q % R256 == q - R256
  {
  }

  lemma SpoiltNotCong(a: int, q: int)
    ensures (a - q * N + N_LOW * R256) % N != a % N
  {
    var r := a - q * N + N_LOW * R256;
    CongIffMod(a, r, N);
    if Cong(a, r, N) {
      var j := CongElim(a, r, N);
      NotAMultiple(q - j);
      assert false;
    }
  }

  lemma SpoiltMod(a: int, q: int, a9: int, k: int, n: int, r256: int, r288: int, high: int, low: int)
    requires a == a9 + k * r288 && r256 * n == high * r288 + low && 0 <= a - q * n + low < r288
    ensures (a9 - (q - r256) * n) % r288 == a - q * n + low
  {
    hide *;
    SpoiltArith(a, q, a9, k, a - q * n + low, n, r256, r288, high, low);
    ModIs(a9 - (q - r256) * n, a - q * n + low, r288, high - k);
  }

  /** Above the limit the kept part of the estimate is the estimate less 2^256. */
  lemma SpoiltParts(a: nat)
    requires BARRETT_LIMIT <= a < R512
    ensures Remainder(a, a % R288) == (a % R288 - (Quotient(a) - R256) * N) % R288
    ensures 0 <= a - Quotient(a) * N < 3 * N
  {
    EstimateClose(a);
    TopDropped(Quotient(a));
    hide Quotient, N, R288;
  }

  lemma DivMod288(a: nat)
    ensures a == a % R288 + a / R288 * R288
  {
  }

  /** Without the ninth word of the estimate the difference is off by a multiple of 2^256. */
  lemma RemainderSpoilt(a: nat)
    requires BARRETT_LIMIT <= a < R512
    ensures Remainder(a, a % R288) == a - Quotient(a) * N + N_LOW * R256
    ensures Remainder(a, a % R288) % N != a % N
  {
    SpoiltParts(a);
    LowWordLeft();
    DivMod288(a);
    SpoiltNotCong(a, Quotient(a));
    Commute(N, R256);
    hide Quotient, Remainder, N, N_LOW, R256, R288, R512, BARRETT_LIMIT;
    SpoiltMod(a, Quotient(a), a % R288, a / R288, N, R256, R288, N / 0x1_0000_0000, N_LOW * R256);
  }

  /** N does not divide N_LOW * 2^256. */
  lemma NotAMultiple(k: int)
    ensures k * N != N_LOW * R256
  {
    var f := N_LOW * R256 / N;
    assert f * N < N_LOW * R256 < (f + 1) * N;
  }

  /**
   For sixteen words the routine reduces correctly exactly below BARRETT_LIMIT, a bound
   above N * 2^256, and there the closing loop subtracts at most twice.
   */
  lemma BarrettExactIff(a: nat)
    requires a < R512
    ensures N * R256 <= BARRETT_LIMIT
    ensures Remainder(a, a % R288) % N == a % N <==> a < BARRETT_LIMIT
    ensures a < BARRETT_LIMIT ==> Remainder(a, a % R288) / N <= 2
  {
    if a < BARRETT_LIMIT {
      RemainderKept(a, a % R288, 0);
      assert Remainder(a, a % R288) < 3 * N;
    } else {
      RemainderSpoilt(a);
    }
  }

  /** Nine words are always below the bound. */
  lemma BarrettNineWords(a: nat)
    requires a < R288
    ensures Remainder(a, a) == a - Quotient(a) * N
    ensures Remainder(a, a) % N == a % N && Remainder(a, a) / N <= 2
  {
    BarrettExactIff(a);
    RemainderKept(a, a, 0);
  }

  /** Eight words above the order are reduced together with whatever the ninth word in memory holds. */
  lemma BarrettEightWords(a: nat, ninth: Word)
    requires N < a < R256
    ensures Remainder(a, a + ninth * R256) % N == (a + ninth * R256) % N
  {
    RemainderKept(a, a + ninth * R256, ninth * R256);
  }

  /** A ninth word w shifts the residue by w * (2^256 mod N), which is no multiple of N unless w is zero. */
  lemma NinthWordShifts(a: nat, ninth: Word)
    ensures (a + ninth * R256) % N == a % N <==> ninth == 0
  {
    CongIffMod(a + ninth * R256, a, N);
    if ninth != 0 && Cong(a + ninth * R256, a, N) {
      var k := CongElim(a + ninth * R256, a, N);
      NinthNoMultiple(ninth, k);
      assert false;
    }
  }

  lemma NinthNoMultiple(ninth: Word, k: int)
    requires ninth != 0
    ensures ninth * R256 != k * N
  {
    var gap, j := ninth * (R256 - N), k - ninth;
    assert 0 < gap < N;
    assert ninth * R256 == ninth * N + gap;
    assert k * N == ninth * N + j * N;
    hide N, R256;
    if gap == j * N {
      NoMultipleBetween(gap, j, N);
      assert false;
    }
  }

  /** Above the order eight words are reduced correctly exactly if the ninth word in memory is zero. */
  lemma BarrettEightIff(a: nat, ninth: Word)
    requires N < a < R256
    ensures Remainder(a, a + ninth * R256) % N == a % N <==> ninth == 0
  {
    hide Remainder;
    BarrettEightWords(a, ninth);
    NinthWordShifts(a, ninth);
  }

  /** Eight words that are not above the order are reduced by returning them, except the order itself. */
  lemma AsIsReducedIff(a: nat)
    requires ReturnedAsIs(a, 8)
    ensures a == a % N <==> a != N
  {
    if a < N {
      SmallMod(a, N);
    }
  }
}
