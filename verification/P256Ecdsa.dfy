/**
 Scalar multiplication and ECDSA on top of the point routines. The group is any associative
 operation on points with identity (0, 0); ec_add has to agree with it at the points a call meets.
 */
module P256Ecdsa {
  import opened Limbs
  import opened ModArith
  import opened P256Field
  import opened P256Inverse
  import opened P256Order
  import opened P256Curve

  //////////////////////////////////////////////////////////////////////////////
  // Multiples of a point
  //////////////////////////////////////////////////////////////////////////////

  /** A set of points and an operation on it. */
  datatype Law = Law(member: Point -> bool, add: (Point, Point) -> Point)

  ghost predicate ClosedAt(g: Law, p: Point, q: Point) {
    g.member(g.add(p, q))
  }

  ghost predicate AssociativeAt(g: Law, p: Point, q: Point, r: Point) {
    g.add(g.add(p, q), r) == g.add(p, g.add(q, r))
  }

  ghost predicate IdentityAt(g: Law, p: Point) {
    g.add(p, INFINITY) == p && g.add(INFINITY, p) == p
  }

  /** An associative operation with identity (0, 0). */
  ghost predicate Group(g: Law) {
    && g.member(INFINITY)
    && (forall p {:trigger IdentityAt(g, p)} | g.member(p) :: IdentityAt(g, p))
    && (forall p, q {:trigger ClosedAt(g, p, q)} | g.member(p) && g.member(q) :: ClosedAt(g, p, q))
    && (forall p, q, r {:trigger AssociativeAt(g, p, q, r)} | g.member(p) && g.member(q) && g.member(r) ::
          AssociativeAt(g, p, q, r))
  }

  /** ec_add ends on these two points and computes their sum. */
  ghost predicate Agrees(g: Law, p: Point, q: Point) {
    AddReady(p, q) && EcAdd(p, q) == g.add(p, q)
  }

  /** [k]p by repeated addition. */
  ghost function Times(g: Law, k: nat, p: Point): Point {
    if k == 0 then INFINITY else g.add(Times(g, k - 1, p), p)
  }

  lemma Identity(g: Law, p: Point)
    requires Group(g) && g.member(p)
    ensures g.add(p, INFINITY) == p && g.add(INFINITY, p) == p
  {
    assert IdentityAt(g, p);
  }

  lemma Closed(g: Law, p: Point, q: Point)
    requires Group(g) && g.member(p) && g.member(q)
    ensures g.member(g.add(p, q)) && g.member(INFINITY)
  {
    assert ClosedAt(g, p, q);
  }

  lemma Associative(g: Law, p: Point, q: Point, r: Point)
    requires Group(g) && g.member(p) && g.member(q) && g.member(r)
    ensures g.add(g.add(p, q), r) == g.add(p, g.add(q, r))
  {
    assert AssociativeAt(g, p, q, r);
  }

  lemma TimesStep(g: Law, k: nat, p: Point)
    ensures Times(g, 0, p) == INFINITY
    ensures Times(g, k + 1, p) == g.add(Times(g, k, p), p)
  {
  }

  lemma {:induction false} TimesIn(g: Law, k: nat, p: Point)
    requires Group(g) && g.member(p)
    ensures g.member(Times(g, k, p))
  {
    hide *;
    Closed(g, p, p);
    if k == 0 {
      TimesStep(g, 0, p);
    } else {
      TimesIn(g, k - 1, p);
      TimesStep(g, k - 1, p);
      Closed(g, Times(g, k - 1, p), p);
    }
  }

  lemma {:induction false} TimesAdd(g: Law, a: nat, b: nat, p: Point)
    requires Group(g) && g.member(p)
    ensures Times(g, a + b, p) == g.add(Times(g, a, p), Times(g, b, p))
  {
    hide *;
    TimesIn(g, a, p);
    if b == 0 {
      TimesStep(g, 0, p);
      Identity(g, Times(g, a, p));
    } else {
      TimesAdd(g, a, b - 1, p);
      TimesIn(g, b - 1, p);
      TimesStep(g, a + (b - 1), p);
      TimesStep(g, b - 1, p);
      Associative(g, Times(g, a, p), Times(g, b - 1, p), p);
    }
  }

  lemma {:induction false} TimesMul(g: Law, a: nat, b: nat, p: Point)
    requires Group(g) && g.member(p)
    ensures 0 <= a * b && Times(g, b, Times(g, a, p)) == Times(g, a * b, p)
  {
    hide *;
    TimesStep(g, 0, p);
    if b == 0 {
      TimesStep(g, 0, Times(g, a, p));
      assert a * b == 0;
    } else {
      TimesMul(g, a, b - 1, p);
      assert a * b == a * (b - 1) + a;
      TimesAdd(g, a * (b - 1), a, p);
      TimesStep(g, b - 1, Times(g, a, p));
    }
  }

  /** Both sides of a Diffie-Hellman exchange reach the same point. */
  lemma SharedSecret(g: Law, a: nat, b: nat, p: Point)
    requires Group(g) && g.member(p)
    ensures Times(g, a, Times(g, b, p)) == Times(g, b, Times(g, a, p))
  {
    hide *;
    TimesMul(g, b, a, p);
    TimesMul(g, a, b, p);
    Commute(a, b);
  }

  /** A multiple by a number that n annihilates depends on the number modulo n only. */
  lemma {:induction false} TimesPeriod(g: Law, k: nat, j: nat, n: nat, p: Point)
    requires Group(g) && g.member(p) && Times(g, n, p) == INFINITY
    ensures Times(g, k + j * n, p) == Times(g, k, p)
  {
    hide *;
    if j > 0 {
      TimesPeriod(g, k, j - 1, n, p);
      assert j * n == (j - 1) * n + n;
      MulMonotone(0, j - 1, n);
      TimesAdd(g, k + (j - 1) * n, n, p);
      TimesIn(g, k, p);
      Identity(g, Times(g, k, p));
    }
  }

  lemma TimesCong(g: Law, k: nat, l: nat, n: nat, p: Point)
    requires Group(g) && g.member(p) && n > 0 && Times(g, n, p) == INFINITY
    requires Cong(k, l, n)
    ensures Times(g, k, p) == Times(g, l, p)
  {
    hide *;
    var j := CongElim(k, l, n);
    if j >= 0 {
      TimesPeriod(g, l, j, n, p);
    } else {
      assert l == k + (-j) * n;
      TimesPeriod(g, k, -j, n, p);
    }
  }

  //////////////////////////////////////////////////////////////////////////////
  // Scalar multiplication
  //////////////////////////////////////////////////////////////////////////////

  /** w >> j, one bit at a time. */
  function ShiftRight(w: Word, j: nat): Word {
    if j == 0 then w else ShiftRight(w, j - 1) / 2
  }

  /** Bit i of an eight-word number. */
  function Bit(s: seq<Word>, i: nat): Word
    requires i / 32 < |s|
  {
    ShiftRight(s[i / 32], i % 32) % 2
  }

  /** The number formed by bits i and up. */
  function HighBits(s: seq<Word>, i: nat): nat
    requires |s| == 8 && i <= 256
    decreases 256 - i
  {
    if i == 256 then 0 else 2 * HighBits(s, i + 1) + Bit(s, i)
  }

  function Exp2(j: nat): nat {
    if j == 0 then 1 else 2 * Exp2(j - 1)
  }

  lemma {:induction false} ShiftBound(w: Word, j: nat)
    ensures ShiftRight(w, j) * Exp2(j) <= w
  {
    if j > 0 {
      ShiftBound(w, j - 1);
      HalfTimesTwice(ShiftRight(w, j - 1), Exp2(j - 1));
    }
  }

  lemma HalfTimesTwice(v: nat, e: nat)
    ensures v / 2 * (2 * e) <= v * e
  {
    assert v / 2 * (2 * e) == 2 * (v / 2) * e;
    MulMonotone(2 * (v / 2), v, e);
  }

  lemma ShiftedOut(w: Word)
    ensures ShiftRight(w, 32) == 0
  {
    hide *;
    ShiftBound(w, 32);
    Exp2Of32();
    SmallFactor(ShiftRight(w, 32), w);
  }

  lemma SmallFactor(v: nat, w: nat)
    requires v * 0x1_0000_0000 <= w < 0x1_0000_0000
    ensures v == 0
  {
  }

  lemma Exp2Of32()
    ensures Exp2(32) == 0x1_0000_0000 && Exp2(0) == 1
  {
    assert Exp2(8) == 256;
    assert Exp2(16) == 0x10000;
    assert Exp2(24) == 0x1000000;
  }

  lemma HighBitsStep(s: seq<Word>, w: nat, j: nat)
    requires |s| == 8 && w < 8 && j < 32
    ensures HighBits(s, 32 * w + j) == 2 * HighBits(s, 32 * w + (j + 1)) + ShiftRight(s[w], j) % 2
    ensures ShiftRight(s[w], j + 1) == ShiftRight(s[w], j) / 2
    ensures Exp2(32 - j) == 2 * Exp2(32 - (j + 1))
  {
    assert (32 * w + j) / 32 == w && (32 * w + j) % 32 == j;
  }

  lemma HighBitsArith(v: int, e: int, now: int)
    ensures 2 * (v * e + now / 2) + now % 2 == v * (2 * e) + now
  {
    Associate(v, 2, e);
  }

  /** Inside word w, bits 32w + j and up. */
  lemma {:induction false} HighBitsInWord(s: seq<Word>, w: nat, j: nat)
    requires |s| == 8 && w < 8 && j <= 32
    requires HighBits(s, 32 * (w + 1)) == Val(s[w + 1..])
    ensures HighBits(s, 32 * w + j) == Val(s[w + 1..]) * Exp2(32 - j) + ShiftRight(s[w], j)
    decreases 32 - j
  {
    hide *;
    if j == 32 {
      ShiftedOut(s[w]);
      assert 32 * w + 32 == 32 * (w + 1);
      Exp2Of32();
    } else {
      HighBitsInWord(s, w, j + 1);
      HighBitsStep(s, w, j);
      HighBitsArith(Val(s[w + 1..]), Exp2(32 - (j + 1)), ShiftRight(s[w], j));
    }
  }

  lemma {:induction false} HighBitsFromWord(s: seq<Word>, w: nat)
    requires |s| == 8 && w <= 8
    ensures HighBits(s, 32 * w) == Val(s[w..])
    decreases 8 - w
  {
    hide *;
    if w == 8 {
      NoHighBits(s);
    } else {
      HighBitsFromWord(s, w + 1);
      HighBitsInWord(s, w, 0);
      ShiftNone(s[w]);
      ValUnfold(s[w..]);
      assert s[w..][1..] == s[w + 1..];
      Commute(Val(s[w + 1..]), 0x1_0000_0000);
    }
  }

  lemma NoHighBits(s: seq<Word>)
    requires |s| == 8
    ensures HighBits(s, 32 * 8) == Val(s[8..]) == 0
  {
  }

  lemma ShiftNone(w: Word)
    ensures ShiftRight(w, 0) == w && Exp2(32 - 0) == 0x1_0000_0000
  {
    Exp2Of32();
  }

  /** All the bits make up the number. */
  lemma HighBitsAll(s: seq<Word>)
    requires |s| == 8
    ensures HighBits(s, 0) == Val(s)
  {
    HighBitsFromWord(s, 0);
    assert s[0..] == s;
  }

  lemma DoubleIsSum(q: Point)
    requires AddReady(q, q)
    ensures EcDouble(q) == EcAdd(q, q) && DoubleReady(q)
  {
    hide Third, TangentSlope;
  }

  /** ec_double and ec_add compute what extending the multiple m of p by one bit needs. */
  ghost predicate FaithfulAt(g: Law, m: nat, bit: nat, p: Point) {
    Agrees(g, Times(g, m, p), Times(g, m, p)) && (bit == 1 ==> Agrees(g, Times(g, 2 * m, p), p))
  }

  /** They do at each of the points on the way to [k]p. */
  ghost predicate Faithful(g: Law, k: nat, p: Point) {
    forall i: nat {:trigger HighPart(k, i)} | i < 256 :: FaithfulAt(g, HighPart(k, i + 1), HighPart(k, i) % 2, p)
  }

  /** k shifted right by i bits. */
  function HighPart(k: nat, i: nat): nat {
    if i == 0 then k else HighPart(k, i - 1) / 2
  }

  lemma {:induction false} HighPartIs(s: seq<Word>, i: nat)
    requires |s| == 8 && i <= 256
    ensures HighPart(Val(s), i) == HighBits(s, i)
  {
    hide *;
    HighPartStep(Val(s), i);
    if i == 0 {
      HighBitsAll(s);
    } else {
      HighPartIs(s, i - 1);
      NextBit(s, i - 1);
      HalfOf(HighBits(s, i), Bit(s, i - 1));
    }
  }

  lemma HalfOf(h: nat, b: nat)
    requires b <= 1
    ensures (2 * h + b) / 2 == h
  {
  }

  lemma HighPartStep(k: nat, i: nat)
    ensures HighPart(k, i) == if i == 0 then k else HighPart(k, i - 1) / 2
  {
  }

  lemma FaithfulBit(g: Law, s: seq<Word>, p: Point, i: nat)
    requires |s| == 8 && i < 256 && Faithful(g, Val(s), p)
    ensures FaithfulAt(g, HighBits(s, i + 1), Bit(s, i), p)
  {
    HighPartIs(s, i);
    HighPartIs(s, i + 1);
    hide Val, FaithfulAt, Bit, HighPart;
    assert FaithfulAt(g, HighPart(Val(s), i + 1), HighPart(Val(s), i) % 2, p);
  }

  /** Doubling and, for a set bit, adding p extends the multiple by one bit. */
  lemma DoubleAndAdd(g: Law, m: nat, bit: nat, p: Point)
    requires Group(g) && g.member(p) && bit <= 1 && FaithfulAt(g, m, bit, p)
    ensures DoubleReady(Times(g, m, p))
    ensures var d := EcDouble(Times(g, m, p));
            (bit == 1 ==> AddReady(d, p)) && Times(g, 2 * m + bit, p) == if bit == 1 then EcAdd(d, p) else d
  {
    hide EcAdd, EcDouble, AddReady, DoubleReady, Group, Times;
    DoubleIsSum(Times(g, m, p));
    TimesAdd(g, m, m, p);
    TimesStep(g, 2 * m, p);
    assert m + m == 2 * m;
  }

  /** One bit of the multiplication: q := 2q, and q := q + p if the bit is set. */
  method DoubleAddStep(px: array<Word>, py: array<Word>, bit: Word, qx: array<Word>, qy: array<Word>,
                       tempx: array<Word>, tempy: array<Word>, ghost m: nat, ghost g: Law)
    requires px.Length >= 8 && py.Length >= 8 && qx.Length == qy.Length == tempx.Length == tempy.Length == 8
    requires qx != qy && qx != tempx && qx != tempy && qy != tempx && qy != tempy && tempx != tempy
    requires px != qx && px != qy && px != tempx && px != tempy && py != qx && py != qy && py != tempx && py != tempy
    requires bit <= 1 && Group(g) && g.member(PointOf(px, py)) && FaithfulAt(g, m, bit, PointOf(px, py))
    requires PointOf(qx, qy) == Times(g, m, PointOf(px, py))
    modifies qx, qy, tempx, tempy
    ensures PointOf(qx, qy) == Times(g, 2 * m + bit, PointOf(px, py))
  {
    hide Val, Pow, Group, EcAdd, EcDouble, AddReady, DoubleReady, Times, SameOutside, FaithfulAt;
    ghost var p := PointOf(px, py);
    DoubleAndAdd(g, m, bit, p);
    EcDoubleWords(qx, qy, tempx, tempy);
    Copy(tempx, qx, 8);
    Copy(tempy, qy, 8);
    if bit != 0 {
      EcAddWords(qx, qy, px, py, tempx, tempy);
      Copy(tempx, qx, 8);
      Copy(tempy, qy, 8);
    }
  }

  /** (resultx, resulty) := [secret](px, py). */
  method EcMult(px: array<Word>, py: array<Word>, secret: array<Word>, resultx: array<Word>, resulty: array<Word>,
                ghost g: Law)
    requires px.Length >= 8 && py.Length >= 8 && secret.Length >= 8 && resultx.Length >= 8 && resulty.Length >= 8
    requires resultx != resulty
    requires Group(g) && g.member(PointOf(px, py)) && Faithful(g, V8(secret), PointOf(px, py))
    modifies resultx, resulty
    ensures PointOf(resultx, resulty) == Times(g, old(V8(secret)), old(PointOf(px, py)))
    ensures SameOutside(old(resultx[..]), resultx[..], 0, 8) && SameOutside(old(resulty[..]), resulty[..], 0, 8)
  {
    hide Val, Pow, Group, EcAdd, Times, SameOutside, HighBits, Bit, Faithful, FaithfulAt;
    ghost var p, bits := PointOf(px, py), secret[..8];
    var qx, qy, tempx, tempy := new Word[8], new Word[8], new Word[8], new Word[8];
    SetZero(qx, 8);
    SetZero(qy, 8);
    StartAtInfinity(g, p, bits);
    var i := 256;
    while i > 0
      invariant 0 <= i <= 256
      invariant secret[..8] == bits && PointOf(px, py) == p
      invariant PointOf(qx, qy) == Times(g, HighBits(bits, i), p)
      invariant resultx[..] == old(resultx[..]) && resulty[..] == old(resulty[..])
    {
      i := i - 1;
      var bit := ShiftRight(secret[i / 32], i % 32) % 2;
      NextBit(bits, i);
      assert secret[i / 32] == bits[i / 32];
      FaithfulBit(g, bits, p, i);
      DoubleAddStep(px, py, bit, qx, qy, tempx, tempy, HighBits(bits, i + 1), g);
    }
    HighBitsAll(bits);
    Copy(qx, resultx, 8);
    Copy(qy, resulty, 8);
  }

  lemma StartAtInfinity(g: Law, p: Point, bits: seq<Word>)
    requires |bits| == 8
    ensures Times(g, HighBits(bits, 256), p) == Point(0, 0)
  {
  }

  lemma NextBit(bits: seq<Word>, i: nat)
    requires |bits| == 8 && i < 256
    ensures HighBits(bits, i) == 2 * HighBits(bits, i + 1) + Bit(bits, i)
    ensures Bit(bits, i) == ShiftRight(bits[i / 32], i % 32) % 2 <= 1
  {
  }

  //////////////////////////////////////////////////////////////////////////////
  // Multiplication stays on the curve
  //////////////////////////////////////////////////////////////////////////////

  /** No product loses a carry when the multiple m of p is extended by one bit. */
  ghost predicate ExactAt(g: Law, m: nat, bit: nat, p: Point) {
    ExactDoubling(Times(g, m, p)) && (bit == 1 ==> ExactAdding(EcDouble(Times(g, m, p)), p))
  }

  /** Nor on the whole way to [k]p. */
  ghost predicate ExactMult(g: Law, k: nat, p: Point) {
    forall i: nat {:trigger HighPart(k, i)} | i < 256 :: ExactAt(g, HighPart(k, i + 1), HighPart(k, i) % 2, p)
  }

  lemma ExactBit(g: Law, s: seq<Word>, p: Point, i: nat)
    requires |s| == 8 && i < 256 && ExactMult(g, Val(s), p)
    ensures ExactAt(g, HighBits(s, i + 1), Bit(s, i), p)
  {
    HighPartIs(s, i);
    HighPartIs(s, i + 1);
    NextBit(s, i);
    hide Val, ExactAt, Bit, HighPart;
    assert ExactAt(g, HighPart(Val(s), i + 1), HighPart(Val(s), i) % 2, p);
  }

  lemma StepOnCurve(g: Law, m: nat, bit: nat, p: Point, b: int)
    requires Group(g) && g.member(p) && bit <= 1 && FaithfulAt(g, m, bit, p) && ExactAt(g, m, bit, p)
    requires ValidPoint(p, b) && ValidPoint(Times(g, m, p), b)
    ensures ValidPoint(Times(g, 2 * m + bit, p), b)
  {
    hide Group, FaithfulAt, Times, EcAdd, EcDouble, AddReady, DoubleReady, ExactDoubling, ExactAdding, ValidPoint;
    DoubleAndAdd(g, m, bit, p);
    EcDoubleOnCurve(Times(g, m, p), b);
    if bit == 1 {
      EcAddOnCurve(EcDouble(Times(g, m, p)), p, b);
    }
  }

  lemma {:induction false} BitsOnCurve(g: Law, s: seq<Word>, i: nat, p: Point, b: int)
    requires |s| == 8 && i <= 256 && Group(g) && g.member(p) && ValidPoint(p, b)
    requires Faithful(g, Val(s), p) && ExactMult(g, Val(s), p)
    ensures ValidPoint(Times(g, HighBits(s, i), p), b)
    decreases 256 - i
  {
    hide *;
    if i == 256 {
      StartAtInfinity(g, p, s);
      InfinityValid(b);
    } else {
      BitsOnCurve(g, s, i + 1, p, b);
      FaithfulBit(g, s, p, i);
      ExactBit(g, s, p, i);
      NextBit(s, i);
      StepOnCurve(g, HighBits(s, i + 1), Bit(s, i), p, b);
    }
  }

  lemma InfinityValid(b: int)
    ensures ValidPoint(Point(0, 0), b)
  {
  }

  /** Multiplying a point of the curve gives a point of the curve, if no product on the way loses a carry. */
  lemma EcMultOnCurve(g: Law, s: seq<Word>, p: Point, b: int)
    requires |s| == 8 && Group(g) && g.member(p) && ValidPoint(p, b)
    requires Faithful(g, Val(s), p) && ExactMult(g, Val(s), p)
    ensures ValidPoint(Times(g, Val(s), p), b)
  {
    hide *;
    BitsOnCurve(g, s, 0, p, b);
    HighBitsAll(s);
  }

  //////////////////////////////////////////////////////////////////////////////
  // Signatures
  //////////////////////////////////////////////////////////////////////////////

  const G_X: seq<Word> :=
    [0xD898C296, 0xF4A13945, 0x2DEB33A0, 0x77037D81, 0x63A440F2, 0xF8BCE6E5, 0xE12C4247, 0x6B17D1F2]

  const G_Y: seq<Word> :=
    [0x37BF51F5, 0xCBB64068, 0x6B315ECE, 0x2BCE3357, 0x7C0F9E16, 0x8EE7EB4A, 0xFE1A7F9B, 0x4FE342E2]

  const BASE_POINT: Point := Point(
    0x6b17d1f2_e12c4247_f8bce6e5_63a440f2_77037d81_2deb33a0_f4a13945_d898c296,
    0x4fe342e2_fe1a7f9b_8ee7eb4a_7c0f9e16_2bce3357_6b315ece_cbb64068_37bf51f5)

  lemma BasePointTables()
    ensures |G_X| == 8 && |G_Y| == 8 && Point(Val(G_X), Val(G_Y)) == BASE_POINT
  {
    hide Val, Pow;
    Known8(G_X, 0xD898C296, 0xF4A13945, 0x2DEB33A0, 0x77037D81, 0x63A440F2, 0xF8BCE6E5, 0xE12C4247, 0x6B17D1F2);
    Known8(G_Y, 0x37BF51F5, 0xCBB64068, 0x6B315ECE, 0x2BCE3357, 0x7C0F9E16, 0x8EE7EB4A, 0xFE1A7F9B, 0x4FE342E2);
  }

  method GPoint() returns (gx: array<Word>, gy: array<Word>)
    ensures fresh(gx) && fresh(gy) && gx != gy && gx.Length == gy.Length == 8
    ensures PointOf(gx, gy) == BASE_POINT
  {
    hide Val, Pow, G_X, G_Y, BASE_POINT;
    BasePointTables();
    gx := Table(G_X);
    gy := Table(G_Y);
    assert gx[..8] == gx[..] && gy[..8] == gy[..];
  }

  /** What the first reduction of a signature leaves of the abscissa, ninth being the ninth word of the r buffer. */
  ghost function RValue(x1: nat, ninth: Word): nat {
    if x1 <= N then x1 else (x1 + ninth * R256) % N
  }

  /** The second half of a signature. */
  ghost function SValue(d: nat, e: nat, k: nat, r: nat): nat {
    InvMod(k, N) * ((e + r * d % N) % N) % N
  }

  lemma NinthWord(s: seq<Word>)
    requires |s| == 9
    ensures Val(s) == Val(s[..8]) + s[8] * R256
  {
    hide Val, Pow, R256;
    PrimeTables();
    ValPush(s[..8], s[8]);
    assert s == s[..8] + [s[8]];
  }

  lemma NoNinthWord(s: seq<Word>, v: nat)
    requires |s| == 9 && Val(s) == v && v < N
    ensures Val(s[..8]) == v && s[8] == 0
  {
    NinthWord(s);
    hide Val;
    NinthIsZero(Val(s[..8]), s[8]);
  }

  lemma NinthIsZero(low: nat, w: nat)
    requires low + w * R256 < R256
    ensures w == 0
  {
  }

  lemma OrderFacts()
    ensures 1 < N < R256 && N % 2 == 1 && N * R256 <= BARRETT_LIMIT && BARRETT_LIMIT < R512
  {
  }

  lemma BelowLimit(x: nat, y: nat)
    requires (x < R256 && y <= N) || (x <= N && y < R256)
    ensures x * y < BARRETT_LIMIT
  {
    hide *;
    OrderFacts();
    if x < R256 && y <= N {
      MulMonotone(y, N, x);
      Commute(x, y);
      StrictlyBelow(x, R256, N);
    } else {
      MulMonotone(x, N, y);
      StrictlyBelow(y, R256, N);
    }
  }

  lemma StrictlyBelow(x: int, r: int, n: int)
    requires 0 <= x < r && n > 1
    ensures n * x < n * r
  {
    MulMonotone(1, r - x, n);
    assert n * r - n * x == (r - x) * n;
  }

  /** result (9 words, the top one zero) := x * y modulo the order. */
  method MultModO(x: array<Word>, y: array<Word>, tmp: array<Word>, result: array<Word>)
    requires x.Length >= 8 && y.Length >= 8 && tmp.Length == 16 && result.Length >= 9
    requires tmp != x && tmp != y && tmp != result
    requires V8(x) <= N || V8(y) <= N
    modifies tmp, result
    ensures V8(result) == old(V8(x)) * old(V8(y)) % N && result[8] == 0
    ensures SameOutside(old(result[..]), result[..], 0, 9)
  {
    hide Val, Pow, N, R256, R288, R512, BARRETT_LIMIT, Remainder, SameOutside;
    ghost var xv, yv := V8(x), V8(y);
    FieldMult(x, y, tmp, 8);
    OrderFacts();
    BelowLimit(xv, yv);
    BarrettExactIff(xv * yv);
    Powers();
    ValDropTake(tmp[..16], 9);
    assert tmp[..16][..9] == tmp[..9];
    var times := FieldModO(tmp, result, 16);
    ModBelow(xv * yv, N);
    NoNinthWord(result[..9], xv * yv % N);
    assert result[..9][..8] == result[..8];
  }

  lemma ModBelow(x: int, m: int)
    requires m > 0
    ensures 0 <= x % m < m
  {
  }

  /** result (9 words) := e + t modulo the order, through the carry word of tmp. */
  method AddModO(e: array<Word>, t: array<Word>, tmp: array<Word>, result: array<Word>)
    requires e.Length >= 8 && t.Length >= 8 && tmp.Length == 16 && result.Length >= 9
    requires tmp != e && tmp != t && tmp != result
    modifies tmp, result
    ensures V8(result) == (old(V8(e)) + old(V8(t))) % N && result[8] == 0
    ensures SameOutside(old(result[..]), result[..], 0, 9)
  {
    hide Val, Pow, N, R256, R288, R512, BARRETT_LIMIT, Remainder, SameOutside;
    ghost var sum := V8(e) + V8(t);
    Powers();
    var carry := Add(e, t, tmp, 0, 8);
    assert tmp[0..8] == tmp[..8];
    tmp[8] := carry;
    NinthWord(tmp[..9]);
    assert tmp[..9][..8] == tmp[..8];
    ValBound(tmp[..9]);
    OrderFacts();
    BarrettNineWords(sum);
    var times := FieldModO(tmp, result, 9);
    ModBelow(sum, N);
    NoNinthWord(result[..9], sum % N);
    assert result[..9][..8] == result[..8];
  }

  /** A scalar that is a multiple of the order, zero or not, is never inverted: no number of rounds ends. */
  lemma MultipleNeverInverted(a: nat, n: nat)
    requires a % N == 0
    ensures !Ends(a, N, n)
  {
    hide Ends;
    OrderFacts();
    DividesIntro(N, a, a / N);
    DividesIntro(N, N, 1);
    hide N;
    CommonFactorNeverExits(a, N, N, n);
  }

  /** result := the inverse of a modulo the order. */
  method InvertModO(a: array<Word>, result: array<Word>)
    requires a.Length >= 8 && result.Length >= 8
    requires Coprime(V8(a), N)
    modifies result
    ensures V8(result) == InvMod(old(V8(a)), N) && V8(result) < N
    ensures SameOutside(old(result[..]), result[..], 0, 8)
  {
    hide V8, InvMod, Coprime, Cong, SameOutside, N, R256;
    OrderFacts();
    var orderM := OrderWords();
    var orderR := OrderR();
    ghost var av := V8(a);
    FieldInv(a, orderM, orderR, result);
    InverseUnique(av, V8(result), N);
  }

  method OrderWords() returns (m: array<Word>)
    ensures fresh(m) && m.Length == 9 && V8(m) == N
  {
    hide Val, N;
    m := OrderM();
  }

  /** Reduces the abscissa in r, in place and including the ninth word of the buffer. */
  method ReduceAbscissa(r: array<Word>)
    requires r.Length >= 9
    modifies r
    ensures V8(r) == RValue(old(V8(r)), old(r[8])) && V8(r) <= N
    ensures SameOutside(old(r[..]), r[..], 0, 9)
  {
    hide Val, Pow, N, R256, Remainder, SameOutside;
    ghost var x, ninth := V8(r), r[8];
    NinthWord(r[..9]);
    assert r[..9][..8] == r[..8];
    OrderFacts();
    if x > N {
      BarrettEightWords(x, ninth);
    }
    var times := FieldModO(r, r, 8);
    if x > N {
      ModBelow(x + ninth * R256, N);
      NoNinthWord(r[..9], (x + ninth * R256) % N);
      assert r[..9][..8] == r[..8];
    }
  }

  /** s := k^-1 * (e + r * d) modulo the order. */
  method SecondHalf(d: array<Word>, e: array<Word>, k: array<Word>, r: array<Word>, s: array<Word>)
    requires d.Length >= 8 && e.Length >= 8 && k.Length >= 8 && r.Length >= 8 && s.Length >= 9
    requires V8(r) <= N && V8(k) > 0 && Coprime(V8(k), N)
    modifies s
    ensures V8(s) == SValue(old(V8(d)), old(V8(e)), old(V8(k)), old(V8(r))) && V8(s) < N
    ensures SameOutside(old(s[..]), s[..], 0, 9)
  {
    hide V8, InvMod, Coprime, SameOutside, N;
    OrderFacts();
    var tmp1, tmp2, tmp3 := new Word[16], new Word[9], new Word[9];
    MultModO(r, d, tmp1, tmp2);
    AddModO(e, tmp2, tmp1, tmp3);
    InvertModO(k, tmp2);
    MultModO(tmp2, tmp3, tmp1, s);
    ModBelow(V8(tmp2) * V8(tmp3), N);
  }

  /** A nonce that is a multiple of the order leads to no inversion: it is given up for its abscissa, zero. */
  lemma MultipleNonceGivenUp(g: Law, k: nat, ninth: Word)
    requires Group(g) && g.member(BASE_POINT) && Times(g, N, BASE_POINT) == INFINITY && k % N == 0
    ensures RValue(Times(g, k, BASE_POINT).x, ninth) == 0
  {
    hide Group, BASE_POINT;
    OrderFacts();
    var j := k / N;
    assert k == 0 + j * N;
    hide N;
    TimesPeriod(g, 0, j, N, BASE_POINT);
    TimesStep(g, 0, BASE_POINT);
  }

  /** Signs the hash e with private key d and nonce k; -1 asks for another nonce. */
  method EcdsaSign(d: array<Word>, e: array<Word>, k: array<Word>, r: array<Word>, s: array<Word>,
                   ghost g: Law)
    returns (ret: int)
    requires d.Length >= 8 && e.Length >= 8 && k.Length >= 8 && r.Length >= 9 && s.Length >= 9
    requires r != d && r != e && r != k && s != d && s != e && s != k && r != s
    requires Group(g) && g.member(BASE_POINT) && Faithful(g, V8(k), BASE_POINT)
    requires RValue(Times(g, V8(k), BASE_POINT).x, r[8]) != 0 ==> Coprime(V8(k), N)
    modifies r, s
    ensures V8(k) == 0 ==> ret == -1
    ensures V8(k) > 0 ==>
              && V8(r) == RValue(Times(g, V8(k), BASE_POINT).x, old(r[8]))
              && ret == (if V8(r) == 0 || SValue(V8(d), V8(e), V8(k), V8(r)) == 0 then -1 else 0)
              && (V8(r) != 0 ==> V8(s) == SValue(V8(d), V8(e), V8(k), V8(r)))
  {
    hide Val, Pow, Group, Times, EcAdd, Coprime, N, SValue, RValue, BASE_POINT, Faithful;
    var zk := IsZero(k);
    if zk {
      return -1;
    }
    var gx, gy := GPoint();
    var tmp1 := new Word[16];
    EcMult(gx, gy, k, r, tmp1, g);
    ReduceAbscissa(r);
    var zr := IsZero(r);
    if zr {
      return -1;
    }
    SecondHalf(d, e, k, r, s);
    var zs := IsZero(s);
    if zs {
      return -1;
    }
    return 0;
  }

  /** The scalar of the hash and that of r in a verification. */
  ghost function HashScalar(e: nat, s: nat): nat {
    e * InvMod(s, N) % N
  }

  /** The abscissa a verification arrives at. */
  ghost function CheckedAbscissa(g: Law, q: Point, e: nat, r: nat, s: nat): nat {
    g.add(Times(g, HashScalar(e, s), BASE_POINT), Times(g, HashScalar(r, s), q)).x
  }

  /** The point routines are right at every point a verification with these scalars meets. */
  ghost predicate FaithfulSum(g: Law, u1: nat, u2: nat, q: Point) {
    Faithful(g, u1, BASE_POINT) && Faithful(g, u2, q) && Agrees(g, Times(g, u1, BASE_POINT), Times(g, u2, q))
  }

  /** (tmp3x, tmp3y) := [u1]G + [u2](x, y). */
  method LinearCombination(u1: array<Word>, u2: array<Word>, x: array<Word>, y: array<Word>,
                           tmp3x: array<Word>, tmp3y: array<Word>, ghost g: Law)
    requires u1.Length >= 8 && u2.Length >= 8 && x.Length >= 8 && y.Length >= 8
    requires tmp3x.Length == tmp3y.Length == 8 && tmp3x != tmp3y
    requires Group(g) && g.member(BASE_POINT) && g.member(PointOf(x, y))
    requires FaithfulSum(g, V8(u1), V8(u2), PointOf(x, y))
    modifies tmp3x, tmp3y
    ensures PointOf(tmp3x, tmp3y)
            == g.add(Times(g, old(V8(u1)), BASE_POINT), Times(g, old(V8(u2)), old(PointOf(x, y))))
  {
    hide Val, Pow, Group, Times, EcAdd, BASE_POINT, AddReady, SameOutside, Faithful;
    var gx, gy := GPoint();
    var tmp1x, tmp1y, tmp2x, tmp2y := new Word[8], new Word[8], new Word[8], new Word[8];
    EcMult(gx, gy, u1, tmp1x, tmp1y, g);
    EcMult(x, y, u2, tmp2x, tmp2y, g);
    EcAddWords(tmp1x, tmp1y, tmp2x, tmp2y, tmp3x, tmp3y);
  }

  /** Verifies (r, s) as a signature of e under the public key (x, y): 0 or -1. */
  method EcdsaValidate(x: array<Word>, y: array<Word>, e: array<Word>, r: array<Word>, s: array<Word>,
                       ghost g: Law)
    returns (ret: int)
    requires x.Length >= 8 && y.Length >= 8 && e.Length >= 8 && r.Length >= 8 && s.Length >= 8
    requires V8(s) > 0 && Coprime(V8(s), N)
    requires Group(g) && g.member(BASE_POINT) && g.member(PointOf(x, y))
    requires FaithfulSum(g, HashScalar(V8(e), V8(s)), HashScalar(V8(r), V8(s)), PointOf(x, y))
    ensures ret == if CheckedAbscissa(g, PointOf(x, y), V8(e), V8(r), V8(s)) == V8(r) then 0 else -1
  {
    hide Val, Pow, Group, Times, EcAdd, Coprime, N, BASE_POINT, AddReady, SameOutside, InvMod, FaithfulSum;
    var w, tmp, u1, u2 := new Word[8], new Word[16], new Word[9], new Word[9];
    InvertModO(s, w);
    MultModO(e, w, tmp, u1);
    MultModO(r, w, tmp, u2);
    var tmp3x, tmp3y := new Word[8], new Word[8];
    LinearCombination(u1, u2, x, y, tmp3x, tmp3y, g);
    var same := IsSame(tmp3x, r, 8);
    return if same then 0 else -1;
  }

  //////////////////////////////////////////////////////////////////////////////
  // Verification accepts what signing made
  //////////////////////////////////////////////////////////////////////////////

  lemma InvModN(a: nat)
    requires Coprime(a, N)
    ensures InvMod(a, N) < N && Cong(a * InvMod(a, N), 1, N)
  {
    hide Cong, Coprime, InvMod, R256;
    OrderFacts();
    CoprimeToZero(N);
    var b := InverseExists(a, N);
    InverseUnique(a, b, N);
  }

  /** The equation a signature satisfies: k * s is e + r * d. */
  lemma SignatureEquation(d: nat, e: nat, k: nat, r: nat)
    requires Coprime(k, N)
    ensures Cong(k * SValue(d, e, k, r), e + r * d, N)
  {
    hide Cong, Coprime, InvMod, N;
    OrderFacts();
    var t := r * d;
    var z := (e + t % N) % N;
    var i := InvMod(k, N);
    // z is e + r * d
    CongMod(t, N);
    CongSym(t, t % N, N);
    CongRefl(e, N);
    CongAdd(e, e, t % N, t, N);
    CongMod(e + t % N, N);
    CongSym(e + t % N, z, N);
    CongTrans(z, e + t % N, e + t, N);
    // k * s is k * i * z
    InvModN(k);
    CongMod(i * z, N);
    CongSym(i * z, i * z % N, N);
    CongRefl(k, N);
    CongMul(k, k, i * z % N, i * z, N);
    Associate(i, k, z);
    Associate(k, i, z);
    CongRefl(z, N);
    CongMul(k * i, 1, z, z, N);
    assert k * (i * z) == k * i * z;
    CongTrans(k * (i * z % N), k * i * z, z, N);
    CongTrans(k * (i * z % N), z, e + t, N);
  }

  /** The two scalars of a verification add up to the nonce. */
  lemma ScalarsAddUp(d: nat, e: nat, k: nat, r: nat, s: nat, w: nat, u1: nat, u2: nat)
    requires Cong(k * s, e + r * d, N) && Cong(s * w, 1, N)
    requires u1 == e * w % N && u2 == r * w % N
    ensures Cong(u1 + d * u2, k, N)
  {
    hide Cong, N;
    OrderFacts();
    CongMod(e * w, N);
    CongSym(e * w, u1, N);
    CongMod(r * w, N);
    CongSym(r * w, u2, N);
    CongRefl(d, N);
    CongMul(d, d, u2, r * w, N);
    CongAdd(u1, e * w, d * u2, d * (r * w), N);
    CongRefl(w, N);
    CongMul(k * s, e + r * d, w, w, N);
    CongSym(k * s * w, (e + r * d) * w, N);
    CongRefl(k, N);
    CongMul(k, k, s * w, 1, N);
    Regrouped(e, r, d, w, k, s);
    CongTrans(u1 + d * u2, (e + r * d) * w, k * s * w, N);
    CongTrans(u1 + d * u2, k * (s * w), k, N);
  }

  lemma Regrouped(e: int, r: int, d: int, w: int, k: int, s: int)
    ensures (e + r * d) * w == e * w + d * (r * w)
    ensures k * s * w == k * (s * w)
  {
    assert (e + r * d) * w == e * w + r * d * w;
    assert r * d * w == d * (r * w);
  }

  /** With the right scalars, verification arrives at the point signing started from. */
  lemma CheckedIsNoncePoint(g: Law, d: nat, e: nat, k: nat, r: nat, s: nat)
    requires Group(g) && g.member(BASE_POINT) && Times(g, N, BASE_POINT) == INFINITY
    requires Coprime(k, N) && s == SValue(d, e, k, r) && Coprime(s, N)
    ensures CheckedAbscissa(g, Times(g, d, BASE_POINT), e, r, s) == Times(g, k, BASE_POINT).x
  {
    hide Cong, Coprime, InvMod, N, Times, BASE_POINT, Group, SValue;
    var p, w := BASE_POINT, InvMod(s, N);
    OrderFacts();
    SignatureEquation(d, e, k, r);
    InvModN(s);
    ModBelow(e * w, N);
    ModBelow(r * w, N);
    var u1: nat, u2: nat := e * w % N, r * w % N;
    ScalarsAddUp(d, e, k, r, s, w, u1, u2);
    TimesMul(g, d, u2, p);
    TimesAdd(g, u1, d * u2, p);
    TimesCong(g, u1 + d * u2, k, N, p);
  }

  /**
   Verification accepts a signature made with nonce k exactly when the abscissa of [k]G
   does not exceed the group order: above it, r was reduced but the check compares unreduced.
   */
  lemma SignatureAcceptedIff(g: Law, d: nat, e: nat, k: nat, ninth: Word, r: nat, s: nat)
    requires Group(g) && g.member(BASE_POINT) && Times(g, N, BASE_POINT) == INFINITY
    requires Coprime(k, N) && r == RValue(Times(g, k, BASE_POINT).x, ninth)
    requires s == SValue(d, e, k, r) && Coprime(s, N)
    ensures CheckedAbscissa(g, Times(g, d, BASE_POINT), e, r, s) == r <==> Times(g, k, BASE_POINT).x <= N
  {
    hide Cong, Coprime, InvMod, Times, BASE_POINT, Group, SValue, CheckedAbscissa, N, R256;
    CheckedIsNoncePoint(g, d, e, k, r, s);
    var x1 := Times(g, k, BASE_POINT).x;
    OrderFacts();
    if x1 > N {
      ModBelow(x1 + ninth * R256, N);
    }
  }

  /** The scalars of a check of the zero hash with r for both halves. */
  lemma ScalarsOfSame(r: nat)
    requires Coprime(r, N)
    ensures HashScalar(0, r) == 0 && HashScalar(r, r) == 1
  {
    OrderFacts();
    InvModN(r);
    CongIffMod(r * InvMod(r, N), 1, N);
    SmallMod(1, N);
    SmallMod(0, N);
    hide N, InvMod, Coprime, Cong;
  }

  lemma CheckedIs(g: Law, q: Point, e: nat, r: nat, s: nat)
    ensures CheckedAbscissa(g, q, e, r, s)
         == g.add(Times(g, HashScalar(e, s), BASE_POINT), Times(g, HashScalar(r, s), q)).x
  {
  }

  /**
   A public key with an abscissa above the group order has a signature that is refused: of the zero hash, with the
   reduced abscissa, coprime to the order, for both halves. The check arrives at the key itself.
   */
  lemma HighKeyRefused(g: Law, q: Point, r: nat)
    requires Group(g) && g.member(q) && q.x > N && r == q.x % N && Coprime(r, N)
    ensures CheckedAbscissa(g, q, 0, r, r) == q.x != r
  {
    hide *;
    OrderFacts();
    ModBelow(q.x, N);
    ScalarsOfSame(r);
    CheckedIs(g, q, 0, r, r);
    TimesStep(g, 0, BASE_POINT);
    TimesStep(g, 0, q);
    Identity(g, q);
  }

  //////////////////////////////////////////////////////////////////////////////
  // A group of order n
  //////////////////////////////////////////////////////////////////////////////

  /** A point with an abscissa above n. */
  const HIGH_POINT: Point := Point(N + 5, 0)

  /** The residues modulo n, written as points such that 1 is the base point and 2 has an abscissa above n. */
  function PointAt(i: nat): Point {
    if i == 1 then BASE_POINT else if i == 2 then HIGH_POINT else Point(i, 0)
  }

  function IndexOf(p: Point): nat {
    if p == BASE_POINT then 1 else if p == HIGH_POINT then 2 else p.x
  }

  predicate IsResidue(p: Point) {
    IndexOf(p) < N && p == PointAt(IndexOf(p))
  }

  function Residues(): Law {
    Law(p => IsResidue(p), (p, q) => PointAt((IndexOf(p) + IndexOf(q)) % N))
  }

  lemma IndexAt(i: nat)
    requires i < N
    ensures IndexOf(PointAt(i)) == i && IsResidue(PointAt(i))
  {
  }

  lemma ModSum(a: nat, b: nat, c: nat, n: nat)
    requires n > 0
    ensures ((a + b) % n + c) % n == (a + (b + c) % n) % n
  {
    CongMod(a + b, n);
    CongMod(b + c, n);
    SumsCong(a, b, c, (a + b) % n, (b + c) % n, n);
    hide Cong;
    CongIffMod((a + b) % n + c, a + (b + c) % n, n);
  }

  lemma SumsCong(a: int, b: int, c: int, s: int, t: int, n: int)
    requires Cong(a + b, s, n) && Cong(b + c, t, n)
    ensures Cong(s + c, a + t, n)
  {
    hide Cong;
    CongSym(a + b, s, n);
    CongRefl(c, n);
    CongAdd(s, a + b, c, c, n);
    CongRefl(a, n);
    CongAdd(a, a, b + c, t, n);
    CongTrans(s + c, a + b + c, a + t, n);
  }

  lemma ModShift(a: nat, b: nat, n: nat)
    requires n > 0
    ensures (a % n + b) % n == (a + b) % n
  {
    hide Cong;
    CongMod(a, n);
    CongRefl(b, n);
    CongAdd(a, a % n, b, b, n);
    CongIffMod(a + b, a % n + b, n);
  }

  lemma ResiduesAdd(p: Point, q: Point)
    requires IsResidue(p) && IsResidue(q)
    ensures Residues().add(p, q) == PointAt((IndexOf(p) + IndexOf(q)) % N)
    ensures IndexOf(Residues().add(p, q)) == (IndexOf(p) + IndexOf(q)) % N && IsResidue(Residues().add(p, q))
  {
    ModBelow(IndexOf(p) + IndexOf(q), N);
    IndexAt((IndexOf(p) + IndexOf(q)) % N);
    hide IndexOf, PointAt, N, IsResidue;
  }

  lemma InfinityIsZero()
    ensures IsResidue(INFINITY) && IndexOf(INFINITY) == 0 && PointAt(0) == INFINITY
    ensures IsResidue(BASE_POINT) && IndexOf(BASE_POINT) == 1 && PointAt(1) == BASE_POINT
  {
  }

  lemma ResiduesIdentity(p: Point)
    requires IsResidue(p)
    ensures IdentityAt(Residues(), p)
  {
    InfinityIsZero();
    ResiduesAdd(p, INFINITY);
    ResiduesAdd(INFINITY, p);
    assert p == PointAt(IndexOf(p)) && IndexOf(p) < N;
    SmallMod(IndexOf(p), N);
    hide PointAt, IndexOf, N, Residues, IsResidue;
  }

  lemma ResiduesAssociative(p: Point, q: Point, r: Point)
    requires IsResidue(p) && IsResidue(q) && IsResidue(r)
    ensures AssociativeAt(Residues(), p, q, r)
  {
    hide *;
    var g := Residues();
    ResiduesAdd(p, q);
    ResiduesAdd(q, r);
    ResiduesAdd(g.add(p, q), r);
    ResiduesAdd(p, g.add(q, r));
    OrderFacts();
    ModSum(IndexOf(p), IndexOf(q), IndexOf(r), N);
    AssociativeIs(g, p, q, r);
  }

  lemma AssociativeIs(g: Law, p: Point, q: Point, r: Point)
    ensures AssociativeAt(g, p, q, r) <==> g.add(g.add(p, q), r) == g.add(p, g.add(q, r))
  {
  }

  lemma ResiduesMember(p: Point)
    ensures Residues().member(p) == IsResidue(p)
  {
  }

  lemma ResiduesGroup()
    ensures Group(Residues()) && Residues().member(BASE_POINT)
  {
    var g := Residues();
    forall p: Point
      ensures g.member(p) == IsResidue(p)
    {
      ResiduesMember(p);
    }
    InfinityIsZero();
    hide Residues, IsResidue, IdentityAt, AssociativeAt;
    forall p | g.member(p)
      ensures IdentityAt(g, p)
    {
      ResiduesIdentity(p);
    }
    forall p, q | g.member(p) && g.member(q)
      ensures ClosedAt(g, p, q)
    {
      ResiduesAdd(p, q);
    }
    forall p, q, r | g.member(p) && g.member(q) && g.member(r)
      ensures AssociativeAt(g, p, q, r)
    {
      ResiduesAssociative(p, q, r);
    }
  }

  /** The residue of a multiple of the base point. */
  function ModN(k: nat): nat {
    k % N
  }

  lemma ModNStep(k: nat)
    ensures ModN(0) == 0 && (ModN(k) + 1) % N == ModN(k + 1)
  {
    OrderFacts();
    SmallMod(0, N);
    ModShift(k, 1, N);
  }

  lemma ResiduesStep(p: Point, k: nat)
    requires IsResidue(p) && IndexOf(p) == ModN(k)
    ensures IsResidue(Residues().add(p, BASE_POINT)) && IndexOf(Residues().add(p, BASE_POINT)) == ModN(k + 1)
  {
    hide *;
    InfinityIsZero();
    ResiduesAdd(p, BASE_POINT);
    ModNStep(k);
  }

  lemma {:induction false} ResiduesTimes(k: nat)
    ensures IsResidue(Times(Residues(), k, BASE_POINT)) && IndexOf(Times(Residues(), k, BASE_POINT)) == ModN(k)
  {
    hide *;
    if k == 0 {
      InfinityIsZero();
      TimesStep(Residues(), 0, BASE_POINT);
      ModNStep(0);
    } else {
      ResiduesTimes(k - 1);
      TimesStep(Residues(), k - 1, BASE_POINT);
      ResiduesStep(Times(Residues(), k - 1, BASE_POINT), k - 1);
    }
  }

  lemma ModNOf(k: nat)
    ensures k < N ==> ModN(k) == k
    ensures ModN(N) == 0
  {
    if k < N {
      SmallMod(k, N);
    }
  }

  /** With private key 0, a nonce that is also the hash signs with 1. */
  lemma NonceAsHash(k: nat, r: nat)
    requires k < N && Coprime(k, N)
    ensures SValue(0, k, k, r) == 1
  {
    OrderFacts();
    SmallMod(k, N);
    SmallMod(0, N);
    SmallMod(1, N);
    InvModN(k);
    assert r * 0 % N == 0;
    CongIffMod(k * InvMod(k, N), 1, N);
    Commute(k, InvMod(k, N));
    hide N, InvMod, Coprime, Cong;
  }

  lemma TwoCoprime(n: nat)
    requires n % 2 == 1
    ensures Coprime(2, n)
  {
    forall d: int | d > 1
      ensures !(Divides(d, 2) && Divides(d, n))
    {
      if Divides(d, 2) && Divides(d, n) {
        DivisorOfTwo(d);
        EvenDivisor(d, n);
        assert false;
      }
    }
  }

  lemma DivisorOfTwo(d: int)
    requires d > 1 && Divides(d, 2)
    ensures d == 2
  {
    var k: int :| 2 == k * d;
    ProductBounds(k, d);
  }

  lemma ProductBounds(k: int, d: int)
    requires d > 0
    ensures k <= 0 ==> k * d <= 0
    ensures k >= 2 ==> k * d >= 2 * d
  {
  }

  lemma ResiduesOrder()
    ensures Group(Residues()) && Residues().member(BASE_POINT) && Times(Residues(), N, BASE_POINT) == INFINITY
  {
    hide *;
    ResiduesGroup();
    ResiduesTimes(N);
    ModNOf(N);
    ResidueZero(Times(Residues(), N, BASE_POINT));
  }

  lemma ResidueIs(p: Point, i: nat)
    requires IsResidue(p) && IndexOf(p) == i
    ensures p == PointAt(i)
  {
  }

  lemma HighIsHigh(ninth: Word)
    ensures PointAt(1) == BASE_POINT && BASE_POINT.x < N && RValue(BASE_POINT.x, ninth) == BASE_POINT.x
    ensures PointAt(2).x == N + 5
  {
  }

  /** What signing and checking with the private key 0 and k for both nonce and hash lead to, for k = 1 and 2. */
  lemma ResiduesSign(k: nat)
    requires 1 <= k <= 2
    ensures Times(Residues(), k, BASE_POINT) == PointAt(k)
    ensures Coprime(k, N) && Coprime(1, N)
    ensures forall r: nat :: SValue(0, k, k, r) == 1
  {
    hide *;
    OrderFacts();
    ResiduesTimes(k);
    ModNOf(k);
    ResidueIs(Times(Residues(), k, BASE_POINT), k);
    OneCoprime(N);
    TwoCoprime(N);
    forall r: nat
      ensures SValue(0, k, k, r) == 1
    {
      NonceAsHash(k, r);
    }
  }

  /** What SignatureAcceptedIff asks can be met by a signature that is accepted and by one that is refused. */
  lemma SigningIsPossible(ninth: Word)
    ensures Group(Residues()) && Residues().member(BASE_POINT) && Times(Residues(), N, BASE_POINT) == INFINITY
    ensures var r := RValue(Times(Residues(), 1, BASE_POINT).x, ninth);
            SValue(0, 1, 1, r) == 1 && Coprime(1, N)
            && CheckedAbscissa(Residues(), Times(Residues(), 0, BASE_POINT), 1, r, 1) == r
    ensures var r := RValue(Times(Residues(), 2, BASE_POINT).x, ninth);
            SValue(0, 2, 2, r) == 1 && Coprime(2, N)
            && CheckedAbscissa(Residues(), Times(Residues(), 0, BASE_POINT), 2, r, 1) != r
  {
    hide *;
    ResiduesOrder();
    ResiduesSign(1);
    ResiduesSign(2);
    HighIsHigh(ninth);
    SignatureAcceptedIff(Residues(), 0, 1, 1, ninth, RValue(Times(Residues(), 1, BASE_POINT).x, ninth), 1);
    SignatureAcceptedIff(Residues(), 0, 2, 2, ninth, RValue(Times(Residues(), 2, BASE_POINT).x, ninth), 1);
  }

  lemma ResidueZero(p: Point)
    requires IsResidue(p) && IndexOf(p) == 0
    ensures p == INFINITY
  {
    InfinityIsZero();
  }
}
