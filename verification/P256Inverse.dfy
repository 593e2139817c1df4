/**
 Modular inversion by the binary extended Euclidean algorithm on eight-word
 numbers, as fieldInv runs it with separate halving and subtraction steps.
 */
module P256Inverse {
  import opened Limbs
  import opened ModArith
  import opened P256Field

  //////////////////////////////////////////////////////////////////////////////
  // Tests and halving
  //////////////////////////////////////////////////////////////////////////////

  lemma {:induction false} ValIsZero(s: seq<Word>)
    ensures Val(s) == 0 <==> forall i | 0 <= i < |s| :: s[i] == 0
  {
    if |s| > 0 {
      ValIsZero(s[1..]);
      assert (forall i | 0 <= i < |s| :: s[i] == 0)
          <==> s[0] == 0 && (forall i | 0 <= i < |s[1..]| :: s[1..][i] == 0) by {
        assert forall i | 1 <= i < |s| :: s[i] == s[1..][i - 1];
      }
    }
  }

  lemma ValOfOne(s: seq<Word>)
    requires |s| == 8
    ensures Val(s) == 1 <==> s[0] == 1 && forall i | 1 <= i < 8 :: s[i] == 0
    ensures Val(s) == 0 <==> forall i | 0 <= i < 8 :: s[i] == 0
  {
    ValIsZero(s);
    ValIsZero(s[1..]);
    assert forall i | 1 <= i < 8 :: s[i] == s[1..][i - 1];
  }

  lemma ValParity(s: seq<Word>)
    requires |s| > 0
    ensures Val(s) % 2 == s[0] % 2
  {
    hide *;
    ValUnfold(s);
    EvenMultiple(s[0], Val(s[1..]));
  }

  lemma ValUnfold(s: seq<Word>)
    requires |s| > 0
    ensures Val(s) == s[0] as int + 0x1_0000_0000 * Val(s[1..])
  {
  }

  lemma EvenMultiple(w: int, v: int)
    ensures (w + 0x1_0000_0000 * v) % 2 == w % 2
  {
  }

  method IsOne(a: array<Word>) returns (one: bool)
    requires a.Length >= 8
    ensures one <==> V8(a) == 1
  {
    ValOfOne(a[..8]);
    hide Val;
    var n := 1;
    while n < 8
      invariant 1 <= n <= 8
      invariant forall i | 1 <= i < n :: a[i] == 0
    {
      if a[n] != 0 {
        break;
      }
      n := n + 1;
    }
    one := n == 8 && a[0] == 1;
  }

  method IsZero(a: array<Word>) returns (zero: bool)
    requires a.Length >= 8
    ensures zero <==> V8(a) == 0
  {
    ValOfOne(a[..8]);
    hide Val;
    var r := 0;
    for n := 0 to 8
      invariant 0 <= r <= n
      invariant r == n <==> forall i | 0 <= i < n :: a[i] == 0
    {
      if a[n] == 0 {
        r := r + 1;
      }
    }
    zero := r == 8;
  }

  /** One word of a halving: w is shifted right and takes in the bit dropped above it. */
  lemma HalveStep(w: Word, high: nat, dropped: nat, now: nat)
    requires dropped == high % 2 && now == high / 2
    ensures w / 2 + dropped * 0x8000_0000 < 0x1_0000_0000
    ensures (w as int + 0x1_0000_0000 * high) / 2 == w / 2 + dropped * 0x8000_0000 + 0x1_0000_0000 * now
    ensures (w as int + 0x1_0000_0000 * high) % 2 == w % 2
  {
  }

  /** Halves the eight-word number in place. */
  method RShift(a: array<Word>)
    requires a.Length == 8
    modifies a
    ensures V8(a) == old(V8(a)) / 2
  {
    ghost var s := a[..];
    var nOld: Word := 0;
    var i := 8;
    assert s[8..] == [];
    while i > 0
      invariant 0 <= i <= 8
      invariant a[..i] == s[..i]
      invariant nOld == Val(s[i..]) % 2
      invariant Val(a[i..]) == Val(s[i..]) / 2
    {
      i := i - 1;
      ghost var high := s[i + 1..];
      assert s[i..][1..] == high && a[i] == s[i];
      HalveStep(a[i], Val(high), nOld, Val(a[i + 1..]));
      var n: Word := a[i] % 2;
      // the two parts of the word do not overlap, so the bitwise or is their sum
      a[i] := a[i] / 2 + nOld * 0x8000_0000;
      assert a[i..][1..] == a[i + 1..];
      nOld := n;
    }
    assert s[0..] == s[..8] && a[0..] == a[..8];
  }

  /** What fieldAddAndDivide leaves: the halved sum, pulled back once if it carried and exceeds the modulus. */
  function AddAndDivide(x: nat, modulus: nat, reducer: nat): nat {
    var h := (x + modulus) / 2;
    if x + modulus >= R256 && h > modulus then (h + reducer) % R256 else h
  }

  const TOP_BIT: nat := 0x80000000_00000000_00000000_00000000_00000000_00000000_00000000_00000000

  /** How the halved sum, its carry and the corrected value make up the result. */
  lemma AddAndDivideParts(x: nat, m: nat, reducer: nat, r: nat, n: nat, h: nat, r': nat, lost: nat)
    requires x < R256 && m < R256 && r < R256 && r' < R256 && n <= 1
    requires r + n * R256 == x + m && h == r / 2 + n * TOP_BIT
    requires n == 1 && h > m ==> r' + lost * R256 == h + reducer
    ensures AddAndDivide(x, m, reducer) == if n == 1 && h > m then r' else h
  {
    assert (x + m) / 2 == h;
  }

  lemma TopBitFree(r: nat)
    requires r < R256
    ensures r / 2 < TOP_BIT
  {
  }

  lemma TopBitAdded(s: seq<Word>, t: seq<Word>)
    requires |s| == |t| == 8 && Val(s) < TOP_BIT
    ensures s[7] < 0x8000_0000
    ensures t == s[7 := t[7]] && t[7] == s[7] + 0x8000_0000 ==> Val(t) == Val(s) + TOP_BIT
  {
    Val8(s);
    Val8(t);
    hide Val, Pow;
  }

  /** Sets the top bit of a number that has it clear. */
  method SetTopBit(a: array<Word>)
    requires a.Length == 8 && V8(a) < TOP_BIT
    modifies a
    ensures V8(a) == old(V8(a)) + TOP_BIT
  {
    hide Val, Pow, TOP_BIT;
    ghost var s := a[..8];
    TopBitAdded(s, s);
    // the bit is clear, so the bitwise or adds it
    a[7] := a[7] + 0x8000_0000;
    TopBitAdded(s, a[..8]);
    assert a[..8] == s[7 := a[7]];
  }

  /** result := (x + modulus) / 2, keeping the carry of the sum as the top bit. */
  method FieldAddAndDivide(x: array<Word>, modulus: array<Word>, reducer: array<Word>, result: array<Word>)
    requires x.Length >= 8 && modulus.Length >= 8 && reducer.Length >= 8 && result.Length == 8
    requires result != modulus && result != reducer
    modifies result
    ensures V8(result) == AddAndDivide(old(V8(x)), V8(modulus), V8(reducer))
  {
    PowValues();
    hide Val, Pow, AddAndDivide, TOP_BIT;
    ghost var xv, m := V8(x), V8(modulus);
    var n := Add(x, modulus, result, 0, 8);
    ghost var r := V8(result);
    RShift(result);
    TopBitFree(r);
    ghost var h, h', lost' := V8(result), 0, 0;
    if n != 0 {
      SetTopBit(result);
      h := V8(result);
      var order := IsGreater(result, modulus, 8);
      if order == 1 {
        var tempas := new Word[8];
        SetZero(tempas, 8);
        var lost := Add(result, reducer, tempas, 0, 8);
        h', lost' := V8(tempas), lost;
        Copy(tempas, result, 8);
      }
    }
    AddAndDivideParts(xv, m, V8(reducer), r, n, h, h', lost');
  }

  //////////////////////////////////////////////////////////////////////////////
  // The invariant of the inversion
  //////////////////////////////////////////////////////////////////////////////

  /** x is a residue with a * x congruent to u. */
  ghost predicate Witness(a: int, x: int, u: int, m: int) {
    0 <= x < m && Cong(a * x, u, m)
  }

  /** Halving u halves its witness modulo an odd m. */
  lemma WitnessHalved(a: int, x: int, u: int, m: int, x': int)
    requires m % 2 == 1 && u % 2 == 0 && Witness(a, x, u, m)
    requires x' == if x % 2 == 0 then x / 2 else (x + m) / 2
    ensures Witness(a, x', u / 2, m)
  {
    var k := CongElim(a * x, u, m);
    var e := if x % 2 == 0 then 0 else 1;
    assert 2 * x' == x + e * m;
    var u' := u / 2;
    HalvedArith(a, x, u', m, x', k, e);
    var d := a * x' - u';
    OddFactor(d, k + a * e, m);
    CongIntro(a * x', u', m, (k + a * e) / 2);
  }

  lemma HalvedArith(a: int, x: int, u: int, m: int, x': int, k: int, e: int)
    requires a * x - 2 * u == k * m && 2 * x' == x + e * m
    ensures 2 * (a * x' - u) == (k + a * e) * m
  {
    assert a * (2 * x') == a * x + a * (e * m);
    assert a * (e * m) == a * e * m;
  }

  lemma OddFactor(d: int, k: int, m: int)
    requires 2 * d == k * m && m % 2 == 1
    ensures d == k / 2 * m
  {
    OddFactorEven(d, k, m / 2);
    HalfFactor(d, k / 2, m);
  }

  lemma OddFactorEven(d: int, k: int, h: int)
    requires 2 * d == k * (2 * h + 1)
    ensures k % 2 == 0
  {
    Distribute(k, 2 * h, 1);
    Associate(k, 2, h);
  }

  lemma Distribute(k: int, a: int, b: int)
    ensures k * (a + b) == k * a + k * b
  {
  }

  lemma HalfFactor(d: int, j: int, m: int)
    requires 2 * d == 2 * j * m
    ensures d == j * m
  {
    assert 2 * j * m == 2 * (j * m);
  }

  lemma FSubBelow(x: nat, y: nat, m: nat)
    requires x < m && y < m && m < R256
    ensures FSub(x, y, m) == (if x >= y then x - y else x - y + m) < m
  {
  }

  lemma DifferenceArith(a: int, x: int, y: int, u: int, v: int, m: int, k: int, l: int, e: int)
    requires a * x - u == k * m && a * y - v == l * m
    ensures a * (x - y + e * m) - (u - v) == (k - l + a * e) * m
  {
    assert a * (x - y + e * m) == a * x - a * y + a * (e * m);
    assert (k - l + a * e) * m == k * m - l * m + a * e * m;
    assert a * (e * m) == a * e * m;
  }

  /** Subtracting the numbers subtracts the witnesses. */
  lemma WitnessDifference(a: int, x: nat, u: int, y: nat, v: int, m: nat)
    requires Witness(a, x, u, m) && Witness(a, y, v, m) && m < R256
    ensures Witness(a, FSub(x, y, m), u - v, m)
  {
    FSubBelow(x, y, m);
    hide FSub, R256, Cong;
    var k := CongElim(a * x, u, m);
    var l := CongElim(a * y, v, m);
    var e := if x >= y then 0 else 1;
    DifferenceArith(a, x, y, u, v, m, k, l, e);
    CongIntro(a * FSub(x, y, m), u - v, m, k - l + a * e);
  }

  //////////////////////////////////////////////////////////////////////////////
  // The inversion
  //////////////////////////////////////////////////////////////////////////////

  /** A positive number with its factors of two taken out. */
  function OddPart(u: nat): (r: nat)
    requires u > 0
    ensures 0 < r <= u && r % 2 == 1
    ensures u % 2 == 1 ==> r == u
  {
    if u % 2 == 0 then OddPart(u / 2) else u
  }

  /** Halves u until it is odd, keeping x a witness for it: one of the two inner loops. */
  method HalveWhileEven(u: array<Word>, x: array<Word>, modulus: array<Word>, reducer: array<Word>,
                        tempm: array<Word>, ghost a: nat, ghost m: nat)
    requires u.Length == x.Length == tempm.Length == 8 && modulus.Length >= 8 && reducer.Length >= 8
    requires u != x && u != tempm && x != tempm
    requires modulus != u && modulus != x && modulus != tempm && reducer != tempm && reducer != u && reducer != x
    requires V8(modulus) == m && m % 2 == 1
    requires V8(u) > 0 && Witness(a, V8(x), V8(u), m)
    modifies u, x, tempm
    ensures V8(u) == OddPart(old(V8(u)))
    ensures Witness(a, V8(x), V8(u), m)
  {
    ValParity(u[..8]);
    while u[0] % 2 == 0
      invariant 0 < V8(u) && V8(u) % 2 == u[0] % 2 && OddPart(V8(u)) == OddPart(old(V8(u)))
      invariant Witness(a, V8(x), V8(u), m)
      decreases V8(u)
    {
      hide Val, Pow, Witness, AddAndDivide;
      ghost var uv, xv := V8(u), V8(x);
      WitnessBound(a, xv, uv, m);
      RShift(u);
      ValParity(x[..8]);
      if x[0] % 2 == 0 {
        RShift(x);
      } else {
        FieldAddAndDivide(x, modulus, reducer, tempm);
        NoPullBack(xv, m, V8(reducer));
        Copy(tempm, x, 8);
      }
      WitnessHalved(a, xv, uv, m, V8(x));
      ValParity(u[..8]);
    }
  }

  lemma WitnessBound(a: int, x: int, u: int, m: int)
    requires Witness(a, x, u, m)
    ensures 0 <= x < m
  {
  }

  /** Below the modulus the halved sum never exceeds it. */
  lemma NoPullBack(x: nat, m: nat, reducer: nat)
    requires x < m
    ensures AddAndDivide(x, m, reducer) == (x + m) / 2
  {
  }

  /** The congruences every pass of the outer loop keeps. */
  ghost predicate Witnesses(a: nat, m: nat, u: nat, v: nat, x1: nat, x2: nat) {
    Witness(a, x1, u, m) && Witness(a, x2, v, m)
  }

  /** The larger number gives up the smaller. */
  function Subtracted(u: nat, v: nat): (nat, nat) {
    if u >= v then (u - v, v) else (u, v - u)
  }

  /** What a pass of the outer loop makes of two positive numbers. */
  function Round(u: nat, v: nat): (nat, nat)
    requires u > 0 && v > 0
  {
    Subtracted(OddPart(u), OddPart(v))
  }

  /** The subtraction step on values: the witnesses follow the numbers. */
  lemma SubtractKeeps(a: nat, m: nat, u: nat, v: nat, x1: nat, x2: nat)
    requires Witnesses(a, m, u, v, x1, x2) && m < R256
    ensures u >= v ==> Witnesses(a, m, u - v, v, FSub(x1, x2, m), x2)
    ensures u < v ==> Witnesses(a, m, u, v - u, x1, FSub(x2, x1, m))
  {
    hide Witness, FSub;
    if u >= v {
      WitnessDifference(a, x1, u, x2, v, m);
    } else {
      WitnessDifference(a, x2, v, x1, u, m);
    }
  }

  /** Subtracts the smaller number from the larger and the witnesses modulo m. */
  method SubtractSmaller(u: array<Word>, v: array<Word>, x1: array<Word>, x2: array<Word>, modulus: array<Word>,
                         tempm: array<Word>, ghost a: nat, ghost m: nat)
    requires u.Length == v.Length == x1.Length == x2.Length == tempm.Length == 8 && modulus.Length >= 8
    requires u != v && u != x1 && u != x2 && u != tempm && v != x1 && v != x2 && v != tempm
    requires x1 != x2 && x1 != tempm && x2 != tempm
    requires modulus != u && modulus != v && modulus != x1 && modulus != x2 && modulus != tempm && V8(modulus) == m
    requires Witnesses(a, m, V8(u), V8(v), V8(x1), V8(x2))
    modifies u, v, x1, x2, tempm
    ensures Witnesses(a, m, V8(u), V8(v), V8(x1), V8(x2))
    ensures (V8(u), V8(v)) == Subtracted(old(V8(u)), old(V8(v)))
  {
    hide Val, Pow, Witnesses, FSub, Subtracted, R256, SameOutside;
    ghost var uv, vv, x1v, x2v := V8(u), V8(v), V8(x1), V8(x2);
    SubtractKeeps(a, m, uv, vv, x1v, x2v);
    var t := Sub(u, v, tempm, 0, 8);
    Difference8(uv, vv, V8(tempm), t);
    if t == 0 {
      Copy(tempm, u, 8);
      FieldSub(x1, x2, modulus, tempm);
      Copy(tempm, x1, 8);
      assert V8(u) == uv - vv && V8(v) == vv && V8(x1) == FSub(x1v, x2v, m) && V8(x2) == x2v;
    } else {
      var t2 := Sub(v, u, tempm, 0, 8);
      Difference8(vv, uv, V8(tempm), t2);
      Copy(tempm, v, 8);
      FieldSub(x2, x1, modulus, tempm);
      Copy(tempm, x2, 8);
      assert V8(u) == uv && V8(v) == vv - uv && V8(x1) == x1v && V8(x2) == FSub(x2v, x1v, m);
    }
  }

  /** Without a borrow the difference is exact, and then only. */
  lemma Difference8(u: nat, v: nat, r: nat, borrow: Word)
    requires u < R256 && v < R256 && r < R256 && borrow <= 1 && r == u - v + borrow * Pow(8)
    ensures borrow == 0 <==> u >= v
    ensures u >= v ==> r == u - v && Subtracted(u, v) == (r, v)
    ensures u > v ==> Subtracted(v, u) == (v, r)
  {
    PowValues();
    hide Pow;
  }

  /** One pass of the outer loop; coprime or not, and whatever the numbers are. */
  method InversionRound(u: array<Word>, v: array<Word>, x1: array<Word>, x2: array<Word>, modulus: array<Word>,
                        reducer: array<Word>, tempm: array<Word>, ghost a: nat, ghost m: nat)
    requires u.Length == v.Length == x1.Length == x2.Length == tempm.Length == 8
    requires modulus.Length >= 8 && reducer.Length >= 8
    requires u != v && u != x1 && u != x2 && u != tempm && v != x1 && v != x2 && v != tempm
    requires x1 != x2 && x1 != tempm && x2 != tempm
    requires modulus != u && modulus != v && modulus != x1 && modulus != x2 && modulus != tempm
    requires reducer != u && reducer != v && reducer != x1 && reducer != x2 && reducer != tempm
    requires V8(modulus) == m && m % 2 == 1
    requires V8(u) > 0 && V8(v) > 0 && Witnesses(a, m, V8(u), V8(v), V8(x1), V8(x2))
    modifies u, v, x1, x2, tempm
    ensures Witnesses(a, m, V8(u), V8(v), V8(x1), V8(x2))
    ensures (V8(u), V8(v)) == Round(old(V8(u)), old(V8(v)))
  {
    hide Val, Witness, OddPart, Subtracted;
    HalveWhileEven(u, x1, modulus, reducer, tempm, a, m);
    HalveWhileEven(v, x2, modulus, reducer, tempm, a, m);
    SubtractSmaller(u, v, x1, x2, modulus, tempm, a, m);
  }

  //////////////////////////////////////////////////////////////////////////////
  // When the rounds end
  //////////////////////////////////////////////////////////////////////////////

  /** Whether at most n rounds make one of the numbers one; a round on a zero never returns. */
  predicate Ends(u: nat, v: nat, n: nat) {
    u == 1 || v == 1 || (n > 0 && u > 0 && v > 0 && Ends(Round(u, v).0, Round(u, v).1, n - 1))
  }

  predicate OneOdd(u: nat, v: nat) {
    u % 2 == 1 || v % 2 == 1
  }

  lemma {:induction false} OddPartDivides(d: int, u: nat)
    requires u > 0
    ensures Divides(d, OddPart(u)) ==> Divides(d, u)
    ensures d % 2 == 1 && Divides(d, u) ==> Divides(d, OddPart(u))
  {
    if u % 2 == 0 {
      OddPartDivides(d, u / 2);
      if Divides(d, OddPart(u)) {
        DividesTimes(d, u / 2, 2);
      }
      if d % 2 == 1 && Divides(d, u) {
        OddDivisorOfDouble(d, u);
      }
    }
  }

  lemma OddDivisorOfDouble(d: int, u: int)
    requires d % 2 == 1 && u % 2 == 0 && Divides(d, u)
    ensures Divides(d, u / 2)
  {
    var k: int :| u == k * d;
    OddFactor(u / 2, k, d);
    DividesIntro(d, u / 2, k / 2);
  }

  /** Subtraction keeps the common divisors. */
  lemma SubtractedDivides(d: int, u: nat, v: nat)
    ensures Divides(d, u) && Divides(d, v)
       <==> Divides(d, Subtracted(u, v).0) && Divides(d, Subtracted(u, v).1)
  {
    var (s, t) := Subtracted(u, v);
    hide Divides;
    if Divides(d, u) && Divides(d, v) {
      DividesSum(d, u, v);
      DividesSum(d, v, u);
    }
    if Divides(d, s) && Divides(d, t) {
      DividesSum(d, s, t);
      DividesSum(d, t, s);
    }
  }

  lemma EvenDivisor(d: int, x: int)
    requires d % 2 == 0 && Divides(d, x)
    ensures x % 2 == 0
  {
    var k: int :| x == k * d;
    assert k * d == 2 * (k * (d / 2));
  }

  /** What divides both numbers is odd if one of them is. */
  lemma CommonDivisorOdd(d: int, u: nat, v: nat)
    requires OneOdd(u, v) && Divides(d, u) && Divides(d, v)
    ensures d % 2 == 1
  {
    if d % 2 == 0 {
      EvenDivisor(d, u);
      EvenDivisor(d, v);
      assert false;
    }
  }

  /** A round keeps the common divisors of two numbers that are not both even. */
  lemma RoundDivides(d: int, u: nat, v: nat)
    requires u > 0 && v > 0 && OneOdd(u, v)
    ensures Divides(d, u) && Divides(d, v) <==> Divides(d, Round(u, v).0) && Divides(d, Round(u, v).1)
  {
    hide Divides, OddPart, Subtracted, OneOdd;
    OddPartDivides(d, u);
    OddPartDivides(d, v);
    SubtractedDivides(d, OddPart(u), OddPart(v));
    if Divides(d, u) && Divides(d, v) {
      CommonDivisorOdd(d, u, v);
    }
  }

  lemma RoundCoprime(u: nat, v: nat)
    requires u > 0 && v > 0 && OneOdd(u, v)
    ensures Coprime(u, v) <==> Coprime(Round(u, v).0, Round(u, v).1)
  {
    forall d: int | d > 1
      ensures Divides(d, u) && Divides(d, v) <==> Divides(d, Round(u, v).0) && Divides(d, Round(u, v).1)
    {
      RoundDivides(d, u, v);
    }
    hide Divides, Round, OneOdd;
  }

  /** A round leaves one number odd and the sum smaller. */
  lemma RoundShape(u: nat, v: nat)
    requires u > 0 && v > 0
    ensures OneOdd(Round(u, v).0, Round(u, v).1)
    ensures Round(u, v).0 + Round(u, v).1 < u + v
  {
    hide OddPart;
  }

  lemma CoprimeToZero(v: nat)
    ensures Coprime(0, v) ==> v == 1
    ensures Coprime(v, 0) ==> v == 1
  {
    if v != 1 {
      var d := if v == 0 then 2 else v;
      DividesIntro(d, 0, 0);
      DividesIntro(d, v, if v == 0 then 0 else 1);
    }
  }

  lemma OneCoprime(v: int)
    ensures Coprime(1, v) && Coprime(v, 1)
  {
    forall d: int | d > 1
      ensures !Divides(d, 1)
    {
      if Divides(d, 1) {
        var k: int :| 1 == k * d;
        NoMultipleBetween(1, k, d);
        assert false;
      }
    }
  }

  /** Coprime numbers, not both even and neither one, leave a round as they entered it. */
  lemma RoundKeeps(u: nat, v: nat)
    requires u > 1 && v > 1 && OneOdd(u, v) && Coprime(u, v)
    ensures Round(u, v).0 > 0 && Round(u, v).1 > 0
    ensures Coprime(Round(u, v).0, Round(u, v).1) && OneOdd(Round(u, v).0, Round(u, v).1)
    ensures Round(u, v).0 + Round(u, v).1 < u + v
  {
    RoundCoprime(u, v);
    RoundShape(u, v);
    hide Coprime;
    var (s, t) := Round(u, v);
    CoprimeToZero(s);
    CoprimeToZero(t);
    RoundZero(u, v);
  }

  /** A round that leaves a zero leaves the odd part both numbers shared, which is no one unless one came in. */
  lemma RoundZero(u: nat, v: nat)
    requires u > 1 && v > 1 && OneOdd(u, v)
    ensures Round(u, v).1 > 0
    ensures Round(u, v).0 == 0 ==> Round(u, v).1 > 1
  {
    hide OddPart;
  }

  lemma {:induction false} CoprimeEnds(u: nat, v: nat, n: nat)
    requires u > 0 && v > 0 && OneOdd(u, v) && Coprime(u, v) && u + v <= n
    ensures Ends(u, v, n)
    decreases n
  {
    if u > 1 && v > 1 {
      RoundKeeps(u, v);
      hide Coprime, OneOdd, Round;
      CoprimeEnds(Round(u, v).0, Round(u, v).1, n - 1);
    }
  }

  lemma {:induction false} EndsCoprime(u: nat, v: nat, n: nat)
    requires OneOdd(u, v) && Ends(u, v, n)
    ensures Coprime(u, v)
    decreases n
  {
    OneCoprime(u);
    OneCoprime(v);
    if u != 1 && v != 1 {
      RoundShape(u, v);
      RoundCoprime(u, v);
      hide Coprime, OneOdd, Round;
      EndsCoprime(Round(u, v).0, Round(u, v).1, n - 1);
    }
  }

  /** For an odd modulus the rounds end, after as many as it takes, if and only if the argument is coprime to it. */
  lemma InversionEndsIff(a: nat, m: nat)
    requires m % 2 == 1 && m > 1
    ensures (exists n: nat :: Ends(a, m, n)) <==> Coprime(a, m)
  {
    assert OneOdd(a, m);
    hide Coprime, OneOdd, Ends;
    if exists n: nat :: Ends(a, m, n) {
      var n: nat :| Ends(a, m, n);
      EndsCoprime(a, m, n);
    }
    if Coprime(a, m) {
      CoprimeToZero(m);
      CoprimeEnds(a, m, a + m);
    }
  }

  /** A common factor at the start keeps both numbers from ever being one. */
  lemma CommonFactorNeverExits(a: nat, m: nat, d: int, n: nat)
    requires m % 2 == 1 && m > 1 && d > 1 && Divides(d, a) && Divides(d, m)
    ensures !Ends(a, m, n)
  {
    if Ends(a, m, n) {
      EndsCoprime(a, m, n);
      assert false;
    }
  }

  //////////////////////////////////////////////////////////////////////////////
  // The inversion
  //////////////////////////////////////////////////////////////////////////////

  /** What every pass of the outer loop keeps. */
  ghost predicate InvState(a: nat, m: nat, u: nat, v: nat, x1: nat, x2: nat) {
    u > 0 && v > 0 && OneOdd(u, v) && Coprime(u, v) && Witnesses(a, m, u, v, x1, x2)
  }

  lemma InvStart(a: nat, m: nat)
    requires m % 2 == 1 && m > 1 && Coprime(a, m)
    ensures InvState(a, m, a, m, 1, 0)
  {
    hide Coprime;
    CoprimeToZero(m);
    WitnessStart(a, m);
  }

  lemma InvParts(a: nat, m: nat, u: nat, v: nat, x1: nat, x2: nat)
    requires InvState(a, m, u, v, x1, x2)
    ensures u > 0 && v > 0 && Witnesses(a, m, u, v, x1, x2)
  {
  }

  lemma InvRound(a: nat, m: nat, was: (nat, nat), x1: nat, x2: nat, now: (nat, nat), y1: nat, y2: nat)
    requires InvState(a, m, was.0, was.1, x1, x2) && was.0 != 1 && was.1 != 1
    requires now == Round(was.0, was.1) && Witnesses(a, m, now.0, now.1, y1, y2)
    ensures InvState(a, m, now.0, now.1, y1, y2) && now.0 + now.1 < was.0 + was.1
  {
    hide Round, Witnesses, Coprime, OneOdd;
    RoundKeeps(was.0, was.1);
  }

  /** b := the inverse of a modulo an odd modulus; a and b may be the same array. */
  method FieldInv(a: array<Word>, modulus: array<Word>, reducer: array<Word>, b: array<Word>)
    requires a.Length >= 8 && modulus.Length >= 8 && reducer.Length >= 8 && b.Length >= 8
    requires b != modulus && b != reducer
    requires V8(modulus) % 2 == 1 && V8(modulus) > 1
    requires Coprime(V8(a), V8(modulus))
    modifies b
    ensures V8(b) < V8(modulus)
    ensures Cong(old(V8(a)) * V8(b), 1, V8(modulus))
    ensures SameOutside(old(b[..]), b[..], 0, 8)
  {
    hide Val, Pow, InvState, Coprime, SameOutside, Cong, Round, Witnesses;
    ghost var av, m := V8(a), V8(modulus);
    var u, v := new Word[8], new Word[8];
    Copy(a, u, 8);
    Copy(modulus, v, 8);
    var x1, x2 := OneAndZero();
    InvStart(av, m);
    var tempm := new Word[8];
    var uOne := IsOne(u);
    var vOne := IsOne(v);
    while !(uOne || vOne)
      invariant uOne <==> V8(u) == 1
      invariant vOne <==> V8(v) == 1
      invariant InvState(av, m, V8(u), V8(v), V8(x1), V8(x2))
      invariant b[..] == old(b[..])
      decreases V8(u) + V8(v)
    {
      ghost var was, y1, y2 := (V8(u), V8(v)), V8(x1), V8(x2);
      InvParts(av, m, was.0, was.1, y1, y2);
      InversionRound(u, v, x1, x2, modulus, reducer, tempm, av, m);
      InvRound(av, m, was, y1, y2, (V8(u), V8(v)), V8(x1), V8(x2));
      uOne := IsOne(u);
      vOne := IsOne(v);
    }
    InvParts(av, m, V8(u), V8(v), V8(x1), V8(x2));
    WitnessEnd(av, m, V8(u), V8(v), V8(x1), V8(x2));
    if uOne {
      Copy(x1, b, 8);
    } else {
      Copy(x2, b, 8);
    }
  }

  method OneAndZero() returns (x1: array<Word>, x2: array<Word>)
    ensures fresh(x1) && fresh(x2) && x1 != x2 && x1.Length == x2.Length == 8
    ensures V8(x1) == 1 && V8(x2) == 0
  {
    x1, x2 := new Word[8], new Word[8];
    SetZero(x1, 8);
    SetZero(x2, 8);
    x1[0] := 1;
    ValOfOne(x1[..8]);
  }

  lemma WitnessStart(a: nat, m: nat)
    requires m > 1
    ensures Witnesses(a, m, a, m, 1, 0)
  {
    CongRefl(a, m);
    CongIntro(0, m, m, -1);
    assert a * 0 == 0;
  }

  lemma WitnessEnd(a: nat, m: nat, u: nat, v: nat, x1: nat, x2: nat)
    requires Witnesses(a, m, u, v, x1, x2)
    ensures u == 1 ==> x1 < m && Cong(a * x1, 1, m)
    ensures v == 1 ==> x2 < m && Cong(a * x2, 1, m)
  {
  }
}
