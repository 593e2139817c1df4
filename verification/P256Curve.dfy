/**
 Affine point arithmetic on curve P-256, as ec_double, ec_add and ecc_ec_mult
 carry it out on eight-word coordinates. The point at infinity is (0, 0).
 */
module P256Curve {
  import opened Limbs
  import opened ModArith
  import opened P256Field
  import opened P256Inverse

  //////////////////////////////////////////////////////////////////////////////
  // Field operations as functions of values
  //////////////////////////////////////////////////////////////////////////////

  /** The n words of a number. */
  ghost function Words(v: nat, n: nat): (s: seq<Word>)
    ensures |s| == n
  {
    if n == 0 then [] else [v % 0x1_0000_0000] + Words(v / 0x1_0000_0000, n - 1)
  }

  lemma {:induction false} WordsVal(s: seq<Word>)
    ensures Words(Val(s), |s|) == s
  {
    if |s| > 0 {
      WordsVal(s[1..]);
      FirstWord(s[0], Val(s[1..]));
      assert s == [s[0]] + s[1..];
    }
  }

  lemma FirstWord(w: int, v: int)
    requires 0 <= w < 0x1_0000_0000 && 0 <= v
    ensures (w + 0x1_0000_0000 * v) % 0x1_0000_0000 == w
    ensures (w + 0x1_0000_0000 * v) / 0x1_0000_0000 == v
  {
  }

  /** What fieldMult followed by fieldModP computes. */
  ghost function MulP(x: nat, y: nat): nat {
    ModP(Words(x * y, 16))
  }

  /** The reduction loses nothing on this product. */
  ghost predicate ExactProduct(x: nat, y: nat) {
    NetLoss(Words(x * y, 16)) == 0
  }

  lemma {:induction false} ValWords(v: nat, n: nat)
    requires v < Pow(n)
    ensures Val(Words(v, n)) == v
  {
    if n > 0 {
      ValWords(v / 0x1_0000_0000, n - 1);
    }
  }

  lemma ProductBelow(x: nat, y: nat)
    requires x < R256 && y < R256
    ensures 0 <= x * y < Pow(16)
  {
    PowValues();
    PowAdd(8, 8);
    hide Pow;
    SquareBound(x, y, R256);
  }

  lemma SquareBound(x: int, y: int, r: int)
    requires 0 <= x < r && 0 <= y < r
    ensures 0 <= x * y < r * r
  {
    MulBound(x, y, r - 1, r - 1);
    assert (r - 1) * (r - 1) == r * r - 2 * r + 1;
  }

  lemma MulPMeans(x: nat, y: nat)
    ensures MulP(x, y) == ModP(Words(x * y, 16))
    ensures ExactProduct(x, y) <==> NetLoss(Words(x * y, 16)) == 0
  {
  }

  /** An exact product is the product modulo P. */
  lemma MulPExact(x: nat, y: nat)
    requires x < R256 && y < R256
    ensures MulP(x, y) < P
    ensures ExactProduct(x, y) <==> MulP(x, y) == x * y % P
  {
    hide *;
    ProductBelow(x, y);
    MulPMeans(x, y);
    ValWords(x * y, 16);
    ModPValue(Words(x * y, 16));
    ModPCorrectIff(Words(x * y, 16));
  }

  /** b is an inverse of a modulo m. */
  ghost predicate IsInverse(a: nat, b: nat, m: nat) {
    b < m && Cong(a * b, 1, m)
  }

  /** The inverse, where there is one. */
  ghost function InvMod(a: nat, m: nat): nat {
    if exists b: nat :: IsInverse(a, b, m) then (var b: nat :| IsInverse(a, b, m); b) else 0
  }

  lemma InverseUnique(a: nat, b: nat, m: nat)
    requires IsInverse(a, b, m)
    ensures b == InvMod(a, m)
  {
    var c := InvMod(a, m);
    assert IsInverse(a, c, m);
    hide Cong;
    // c == c * 1 == c * (a * b) == (a * c) * b == b
    CongRefl(c, m);
    CongMul(c, c, a * b, 1, m);
    CongRefl(b, m);
    CongMul(a * c, 1, b, b, m);
    assert c * (a * b) == a * c * b;
    CongSym(c * (a * b), c * 1, m);
    CongTrans(c, c * (a * b), b, m);
    CongUnique(c, b, m);
  }

  /** result := x * y reduced modulo P, through the 16-word product tempD. */
  method MultModP(x: array<Word>, y: array<Word>, tempD: array<Word>, result: array<Word>)
    requires x.Length >= 8 && y.Length >= 8 && tempD.Length == 16 && result.Length >= 8
    requires tempD != x && tempD != y && tempD != result
    modifies tempD, result
    ensures V8(result) == MulP(old(V8(x)), old(V8(y)))
    ensures SameOutside(old(result[..]), result[..], 0, 8)
  {
    hide Val, Pow, Words, ModP, MulP, SameOutside;
    ghost var xv, yv := V8(x), V8(y);
    FieldMult(x, y, tempD, 8);
    WordsVal(tempD[..16]);
    FieldModP(result, tempD);
    ProductReduced(xv, yv, tempD[..16]);
  }

  lemma ProductReduced(x: nat, y: nat, d: seq<Word>)
    requires |d| == 16 && Words(x * y, 16) == d
    ensures MulP(x, y) == ModP(d)
  {
  }

  //////////////////////////////////////////////////////////////////////////////
  // The point routines as functions of coordinates
  //////////////////////////////////////////////////////////////////////////////

  datatype Point = Point(x: nat, y: nat)

  const INFINITY: Point := Point(0, 0)

  /** 2 * y as ec_double forms it. */
  ghost function Twice(y: nat): nat {
    FAdd(y, y, R256 - P)
  }

  /** The tangent slope 3 * (x^2 - 1) / (2 * y). */
  ghost function TangentSlope(p: Point): nat {
    MulP(MulP(FSub(MulP(p.x, p.x), 1, P), 3), InvMod(Twice(p.y), P))
  }

  /** The chord slope (py - qy) / (px - qx). */
  ghost function ChordSlope(p: Point, q: Point): nat {
    MulP(FSub(p.y, q.y, P), InvMod(FSub(p.x, q.x, P), P))
  }

  /** The point a line of slope l through q and a point with abscissa px leads to. */
  ghost function Third(l: nat, px: nat, q: Point): Point {
    var x := FSub(FSub(MulP(l, l), px, P), q.x, P);
    Point(x, FSub(MulP(l, FSub(q.x, x, P)), q.y, P))
  }

  ghost function EcDouble(p: Point): Point {
    if p == INFINITY then p else Third(TangentSlope(p), p.x, p)
  }

  ghost function EcAdd(p: Point, q: Point): Point {
    if p == INFINITY then q
    else if q == INFINITY then p
    else if p.x == q.x then (if p.y != q.y then INFINITY else EcDouble(p))
    else Third(ChordSlope(p, q), p.x, q)
  }

  /** What the inversion inside a doubling needs to come to an end. */
  ghost predicate DoubleReady(p: Point) {
    p != INFINITY ==> Twice(p.y) > 0 && Coprime(Twice(p.y), P)
  }

  /** What the inversion inside an addition needs to come to an end. */
  ghost predicate AddReady(p: Point, q: Point) {
    p != INFINITY && q != INFINITY ==>
      if p.x != q.x then FSub(p.x, q.x, P) > 0 && Coprime(FSub(p.x, q.x, P), P)
      else p.y == q.y ==> DoubleReady(p)
  }

  ghost function PointOf(x: array<Word>, y: array<Word>): Point
    requires x.Length >= 8 && y.Length >= 8
    reads x, y
  {
    Point(V8(x), V8(y))
  }

  /** (sx, sy) := the point of slope l through q and a point with abscissa px. */
  method ThirdPoint(l: array<Word>, px: array<Word>, qx: array<Word>, qy: array<Word>, sx: array<Word>, sy: array<Word>)
    requires l.Length == 8 && px.Length >= 8 && qx.Length >= 8 && qy.Length >= 8 && sx.Length >= 8 && sy.Length >= 8
    requires sx != l && sx != px && sx != qx && sx != qy && sy != sx
    modifies sx, sy
    ensures PointOf(sx, sy) == Third(old(V8(l)), old(V8(px)), old(PointOf(qx, qy)))
    ensures SameOutside(old(sx[..]), sx[..], 0, 8) && SameOutside(old(sy[..]), sy[..], 0, 8)
  {
    hide V8, MulP, FSub, SameOutside, P;
    var tempA, tempC, tempD := new Word[8], new Word[8], new Word[16];
    var primeM := PrimeM();
    MultModP(l, l, tempD, tempC);
    FieldSub(tempC, px, primeM, tempA);
    FieldSub(tempA, qx, primeM, sx);
    FieldSub(qx, sx, primeM, tempA);
    MultModP(l, tempA, tempD, tempC);
    FieldSub(tempC, qy, primeM, sy);
  }

  lemma SmallNumber(s: seq<Word>, k: Word)
    requires |s| == 8 && s[0] == k && forall i | 1 <= i < 8 :: s[i] == 0
    ensures Val(s) == k
  {
    ValIsZero(s[1..]);
  }

  /** tempB := the number k. */
  method SetSmall(tempB: array<Word>, k: Word)
    requires tempB.Length == 8
    modifies tempB
    ensures V8(tempB) == k
  {
    SetZero(tempB, 8);
    tempB[0] := k;
    SmallNumber(tempB[..8], k);
  }

  /** The inverse modulo P, as a function of the value. */
  method InvertModP(a: array<Word>, b: array<Word>)
    requires a.Length >= 8 && b.Length >= 8
    requires V8(a) > 0 && Coprime(V8(a), P)
    modifies b
    ensures V8(b) == InvMod(old(V8(a)), P)
    ensures SameOutside(old(b[..]), b[..], 0, 8)
  {
    hide V8, InvMod, Coprime, Cong, SameOutside;
    PrimeOdd();
    var primeM := PrimeM();
    var primeR := PrimeR();
    ghost var av := V8(a);
    FieldInv(a, primeM, primeR, b);
    InverseUnique(av, V8(b), P);
  }

  lemma PrimeOdd()
    ensures P % 2 == 1 && P > 1
  {
  }

  /** tempB := the slope of the tangent at (px, py). */
  method Tangent(px: array<Word>, py: array<Word>, tempB: array<Word>)
    requires px.Length >= 8 && py.Length >= 8 && tempB.Length == 8 && tempB != px && tempB != py
    requires Twice(V8(py)) > 0 && Coprime(Twice(V8(py)), P)
    modifies tempB
    ensures V8(tempB) == TangentSlope(PointOf(px, py))
  {
    hide V8, MulP, FSub, FAdd, InvMod, SameOutside, Coprime, P, R256;
    var tempA, tempC, tempD := new Word[8], new Word[8], new Word[16];
    var primeM := PrimeM();
    var primeR := PrimeR();
    MultModP(px, px, tempD, tempA);
    SetSmall(tempB, 1);
    FieldSub(tempA, tempB, primeM, tempC);
    SetSmall(tempB, 3);
    MultModP(tempC, tempB, tempD, tempA);
    FieldAdd(py, py, primeR, tempB);
    InvertModP(tempB, tempC);
    MultModP(tempA, tempC, tempD, tempB);
  }

  /** (dx, dy) := (px, py) doubled. */
  method EcDoubleWords(px: array<Word>, py: array<Word>, dx: array<Word>, dy: array<Word>)
    requires px.Length >= 8 && py.Length >= 8 && dx.Length >= 8 && dy.Length >= 8
    requires dx != px && dx != py && dy != px && dy != py && dx != dy
    requires DoubleReady(PointOf(px, py))
    modifies dx, dy
    ensures PointOf(dx, dy) == EcDouble(old(PointOf(px, py)))
    ensures SameOutside(old(dx[..]), dx[..], 0, 8) && SameOutside(old(dy[..]), dy[..], 0, 8)
  {
    hide TangentSlope, Third, Twice, SameOutside, Coprime, P;
    var zx := IsZero(px);
    var zy := IsZero(py);
    if zx && zy {
      Copy(px, dx, 8);
      Copy(py, dy, 8);
      return;
    }
    hide V8;
    var tempB := new Word[8];
    Tangent(px, py, tempB);
    ThirdPoint(tempB, px, px, py, dx, dy);
  }

  /** tempC := the slope of the chord through (px, py) and (qx, qy). */
  method Chord(px: array<Word>, py: array<Word>, qx: array<Word>, qy: array<Word>, tempC: array<Word>)
    requires px.Length >= 8 && py.Length >= 8 && qx.Length >= 8 && qy.Length >= 8 && tempC.Length == 8
    requires tempC != px && tempC != py && tempC != qx && tempC != qy
    requires FSub(V8(px), V8(qx), P) > 0 && Coprime(FSub(V8(px), V8(qx), P), P)
    modifies tempC
    ensures V8(tempC) == ChordSlope(PointOf(px, py), PointOf(qx, qy))
  {
    hide V8, MulP, FSub, InvMod, SameOutside, Coprime, P;
    var tempA, tempB, tempD := new Word[8], new Word[8], new Word[16];
    var primeM := PrimeM();
    FieldSub(py, qy, primeM, tempA);
    FieldSub(px, qx, primeM, tempB);
    InvertModP(tempB, tempB);
    MultModP(tempA, tempB, tempD, tempC);
  }

  /** (sx, sy) := (px, py) + (qx, qy). */
  method EcAddWords(px: array<Word>, py: array<Word>, qx: array<Word>, qy: array<Word>, sx: array<Word>,
      sy: array<Word>)
    requires px.Length >= 8 && py.Length >= 8 && qx.Length >= 8 && qy.Length >= 8 && sx.Length >= 8 && sy.Length >= 8
    requires sx != px && sx != py && sx != qx && sx != qy && sy != px && sy != py && sy != qx && sy != qy && sx != sy
    requires AddReady(PointOf(px, py), PointOf(qx, qy))
    modifies sx, sy
    ensures PointOf(sx, sy) == EcAdd(old(PointOf(px, py)), old(PointOf(qx, qy)))
    ensures SameOutside(old(sx[..]), sx[..], 0, 8) && SameOutside(old(sy[..]), sy[..], 0, 8)
  {
    hide ChordSlope, Third, FSub, EcDouble, SameOutside, Coprime, P, Val, DoubleReady;
    var zpx := IsZero(px);
    var zpy := IsZero(py);
    var zqx := IsZero(qx);
    var zqy := IsZero(qy);
    if zpx && zpy {
      Copy(qx, sx, 8);
      Copy(qy, sy, 8);
      return;
    } else if zqx && zqy {
      Copy(px, sx, 8);
      Copy(py, sy, 8);
      return;
    }
    var sameX := IsSame(px, qx, 8);
    if sameX {
      var sameY := IsSame(py, qy, 8);
      if !sameY {
        SetZero(sx, 8);
        SetZero(sy, 8);
      } else {
        EcDoubleWords(px, py, sx, sy);
      }
      return;
    }
    hide V8;
    var tempC := new Word[8];
    Chord(px, py, qx, qy, tempC);
    ThirdPoint(tempC, px, qx, qy, sx, sy);
  }

  //////////////////////////////////////////////////////////////////////////////
  // The routines stay on the curve
  //////////////////////////////////////////////////////////////////////////////

  /** y^2 = x^3 - 3x + b over the field of P elements. */
  ghost predicate OnCurve(p: Point, b: int) {
    p.x < P && p.y < P && Cong(p.y * p.y, p.x * p.x * p.x - 3 * p.x + b, P)
  }

  ghost predicate ValidPoint(p: Point, b: int) {
    p == INFINITY || OnCurve(p, b)
  }

  /** No product of a third-point computation loses a carry. */
  ghost predicate ExactThird(l: nat, px: nat, q: Point) {
    ExactProduct(l, l) && ExactProduct(l, FSub(q.x, Third(l, px, q).x, P))
  }

  ghost predicate ExactTangent(p: Point) {
    var n := FSub(MulP(p.x, p.x), 1, P);
    ExactProduct(p.x, p.x) && ExactProduct(n, 3) && ExactProduct(MulP(n, 3), InvMod(Twice(p.y), P))
  }

  ghost predicate ExactChord(p: Point, q: Point) {
    ExactProduct(FSub(p.y, q.y, P), InvMod(FSub(p.x, q.x, P), P))
  }

  /** No product inside ec_double loses a carry. */
  ghost predicate ExactDoubling(p: Point) {
    p != INFINITY ==> ExactTangent(p) && ExactThird(TangentSlope(p), p.x, p)
  }

  /** No product inside ec_add loses a carry. */
  ghost predicate ExactAdding(p: Point, q: Point) {
    p != INFINITY && q != INFINITY ==>
      if p.x == q.x then p.y == q.y ==> ExactDoubling(p)
      else ExactChord(p, q) && ExactThird(ChordSlope(p, q), p.x, q)
  }

  lemma PIsSmall()
    ensures 3 < P < R256
  {
  }

  lemma MulPCong(x: nat, y: nat)
    requires x < R256 && y < R256 && ExactProduct(x, y)
    ensures MulP(x, y) < P && Cong(MulP(x, y), x * y, P)
  {
    hide *;
    PIsSmall();
    MulPExact(x, y);
    CongMod(x * y, P);
    CongSym(x * y, x * y % P, P);
  }

  lemma FSubCong(x: nat, y: nat)
    requires x < P && y < P
    ensures FSub(x, y, P) < P && Cong(FSub(x, y, P), x - y, P)
  {
    CongIntro(FSub(x, y, P), x - y, P, if x >= y then 0 else 1);
  }

  lemma TwiceCong(y: nat)
    requires y < P
    ensures Twice(y) < R256 && Cong(Twice(y), 2 * y, P)
  {
    CongIntro(Twice(y), 2 * y, P, if 2 * y < R256 then 0 else -1);
  }

  lemma InvModIs(a: nat)
    requires a > 0 && Coprime(a, P)
    ensures InvMod(a, P) < P && Cong(a * InvMod(a, P), 1, P)
  {
    hide Cong, Coprime, InvMod, R256;
    PIsSmall();
    var b := InverseExists(a, P);
    InverseUnique(a, b, P);
  }

  lemma SquareOfDifference(l: int, t: int, y: int)
    ensures (l * t - y) * (l * t - y) == l * l * (t * t) - t * (2 * l * y) + y * y
  {
    var a := l * t;
    assert (a - y) * (a - y) == a * a - 2 * (a * y) + y * y;
    assert a * a == l * l * (t * t);
    assert a * y == t * (l * y);
    assert 2 * (t * (l * y)) == t * (2 * l * y);
  }

  lemma IdentityLine(x: int, p: int, q: int)
    ensures p * p + p * q + q * q - 3 - (x + p + q) * (p - q) == 2 * (q * q) + p * q - x * p + x * q - 3
  {
  }

  lemma IdentitySlope(x: int, p: int, q: int)
    ensures (x + p + q) * (q - x) == q * q + p * q - x * x - x * p
  {
  }

  lemma IdentityCubes(x: int, q: int)
    ensures (q - x) * (-(x * x) - q * q - x * q + 3) == x * x * x - q * q * q + 3 * q - 3 * x
  {
  }

  lemma CommonFactor(t: int, m: int, n: int)
    ensures m * (t * t) - t * n == t * (m * t - n)
  {
  }

  lemma ThirdIdentity(x: int, px: int, qx: int, b: int)
    ensures var m, t, d := x + px + qx, qx - x, px - qx;
            var s := px * px + px * qx + qx * qx - 3;
            m * (t * t) - t * (s - m * d) + (qx * qx * qx - 3 * qx + b) == x * x * x - 3 * x + b
  {
    IdentityLine(x, px, qx);
    IdentitySlope(x, px, qx);
    IdentityCubes(x, qx);
    CommonFactor(qx - x, x + px + qx, 2 * (qx * qx) + px * qx - x * px + x * qx - 3);
  }

  /**
   The algebra of chord and tangent: a third point formed with a slope that meets the
   curve equation at q, in the sense of the last requirement, is on the curve again.
   */
  lemma ThirdMeetsCurve(l: int, px: int, qx: int, qy: int, x: int, y: int, b: int, m: int)
    requires Cong(x, l * l - px - qx, m)
    requires Cong(y, l * (qx - x) - qy, m)
    requires Cong(qy * qy, qx * qx * qx - 3 * qx + b, m)
    requires Cong(2 * l * qy, px * px + px * qx + qx * qx - 3 - l * l * (px - qx), m)
    ensures Cong(y * y, x * x * x - 3 * x + b, m)
  {
    hide Cong;
    var t, d, ll := qx - x, px - qx, l * l;
    var s := px * px + px * qx + qx * qx - 3;
    var mm := x + px + qx;
    // l^2 is x + px + qx
    CongRefl(px + qx, m);
    CongAdd(x, ll - px - qx, px + qx, px + qx, m);
    CongSym(mm, ll, m);
    // y^2 is l^2 t^2 - 2 l qy t + qy^2
    CongMul(y, l * t - qy, y, l * t - qy, m);
    SquareOfDifference(l, t, qy);
    // replace l^2 and 2 l qy
    CongRefl(t * t, m);
    CongMul(ll, mm, t * t, t * t, m);
    CongRefl(d, m);
    CongMul(ll, mm, d, d, m);
    CongRefl(s, m);
    CongAdd(s, s, ll * d, mm * d, m);
    CongTrans(2 * l * qy, s - ll * d, s - mm * d, m);
    CongRefl(t, m);
    CongMul(t, t, 2 * l * qy, s - mm * d, m);
    CongAdd(ll * (t * t), mm * (t * t), t * (2 * l * qy), t * (s - mm * d), m);
    CongAdd(ll * (t * t) - t * (2 * l * qy), mm * (t * t) - t * (s - mm * d), qy * qy, qx * qx * qx - 3 * qx + b, m);
    ThirdIdentity(x, px, qx, b);
    CongTrans(y * y, ll * (t * t) - t * (2 * l * qy) + qy * qy, x * x * x - 3 * x + b, m);
  }

  lemma ThirdCong(l: nat, px: nat, q: Point)
    requires l < P && px < P && q.x < P && q.y < P && ExactThird(l, px, q)
    ensures var r := Third(l, px, q);
            r.x < P && r.y < P && Cong(r.x, l * l - px - q.x, P) && Cong(r.y, l * (q.x - r.x) - q.y, P)
  {
    hide Cong, FSub, MulP, ExactProduct, P, R256;
    PIsSmall();
    var r := Third(l, px, q);
    MulPCong(l, l);
    var s := MulP(l, l);
    FSubCong(s, px);
    FSubCong(FSub(s, px, P), q.x);
    CongRefl(px, P);
    CongRefl(q.x, P);
    CongRefl(q.y, P);
    CongAdd(s, l * l, px, px, P);
    CongTrans(FSub(s, px, P), s - px, l * l - px, P);
    CongAdd(FSub(s, px, P), l * l - px, q.x, q.x, P);
    CongTrans(r.x, FSub(s, px, P) - q.x, l * l - px - q.x, P);
    FSubCong(q.x, r.x);
    var t := FSub(q.x, r.x, P);
    MulPCong(l, t);
    CongRefl(l, P);
    CongMul(l, l, t, q.x - r.x, P);
    CongTrans(MulP(l, t), l * t, l * (q.x - r.x), P);
    FSubCong(MulP(l, t), q.y);
    CongAdd(MulP(l, t), l * (q.x - r.x), q.y, q.y, P);
    CongTrans(r.y, MulP(l, t) - q.y, l * (q.x - r.x) - q.y, P);
  }

  /** A quotient formed as n * (1 / d) is one: d times it is n. */
  lemma QuotientCong(n: int, d: int, inv: int, l: int, m: int)
    requires Cong(d * inv, 1, m) && Cong(l, n * inv, m)
    ensures Cong(d * l, n, m)
  {
    hide Cong;
    CongRefl(d, m);
    CongMul(d, d, l, n * inv, m);
    assert d * (n * inv) == n * (d * inv) by {
      Associate(n, d, inv);
    }
    CongRefl(n, m);
    CongMul(n, n, d * inv, 1, m);
    CongTrans(d * l, d * (n * inv), n, m);
  }

  /** x^2 - 1 and 3 * (x^2 - 1), as ec_double forms them. */
  ghost function TangentBase(x: nat): nat {
    FSub(MulP(x, x), 1, P)
  }

  ghost function TangentTop(x: nat): nat {
    MulP(TangentBase(x), 3)
  }

  lemma TangentParts(p: Point)
    requires p != INFINITY && DoubleReady(p) && ExactTangent(p)
    ensures ExactProduct(p.x, p.x) && ExactProduct(TangentBase(p.x), 3)
    ensures Twice(p.y) > 0 && Coprime(Twice(p.y), P) && ExactProduct(TangentTop(p.x), InvMod(Twice(p.y), P))
    ensures TangentSlope(p) == MulP(TangentTop(p.x), InvMod(Twice(p.y), P))
  {
    hide MulP, FSub, Twice, InvMod, ExactProduct, Coprime;
  }

  lemma TangentTopIs(x: nat)
    ensures TangentTop(x) == MulP(TangentBase(x), 3) && TangentBase(x) == FSub(MulP(x, x), 1, P)
  {
  }

  lemma TangentTopCong(x: nat)
    requires x < P && ExactProduct(x, x) && ExactProduct(TangentBase(x), 3)
    ensures TangentTop(x) < P && Cong(TangentTop(x), 3 * (x * x) - 3, P)
  {
    hide *;
    PIsSmall();
    TangentTopIs(x);
    MulPCong(x, x);
    var x2: int, n, t := MulP(x, x), TangentBase(x), TangentTop(x);
    FSubCong(x2, 1);
    CongRefl(1, P);
    CongAdd(x2, x * x, 1, 1, P);
    CongTrans(n, x2 - 1, x * x - 1, P);
    MulPCong(n, 3);
    CongRefl(3, P);
    CongMul(n, x * x - 1, 3, 3, P);
    CongTrans(t, n * 3, (x * x - 1) * 3, P);
    assert (x * x - 1) * 3 == 3 * (x * x) - 3;
  }

  /** The tangent slope times 2y is 3x^2 - 3. */
  lemma TangentCong(p: Point)
    requires p.x < P && p.y < P && p != INFINITY && DoubleReady(p) && ExactTangent(p)
    ensures var l := TangentSlope(p); l < P && Cong(2 * l * p.y, 3 * (p.x * p.x) - 3, P)
  {
    hide *;
    PIsSmall();
    TangentParts(p);
    TangentTopCong(p.x);
    var t, d, l := TangentTop(p.x), Twice(p.y), TangentSlope(p);
    InvModIs(d);
    MulPCong(t, InvMod(d, P));
    QuotientCong(t, d, InvMod(d, P), l, P);
    TwiceCong(p.y);
    CongSym(d, 2 * p.y, P);
    ReplaceFactor(2 * p.y, d, l, t, P);
    CongTrans(2 * p.y * l, t, 3 * (p.x * p.x) - 3, P);
    Commute(p.y, l);
    Associate(2, p.y, l);
    Associate(2, l, p.y);
  }

  lemma ChordParts(p: Point, q: Point)
    requires p != INFINITY && q != INFINITY && p.x != q.x && AddReady(p, q) && ExactChord(p, q)
    ensures var d, n := FSub(p.x, q.x, P), FSub(p.y, q.y, P);
            && d > 0 && Coprime(d, P)
            && ExactProduct(n, InvMod(d, P)) && ChordSlope(p, q) == MulP(n, InvMod(d, P))
  {
  }

  /** The chord slope times px - qx is py - qy. */
  lemma ChordCong(p: Point, q: Point)
    requires p.x < P && p.y < P && q.x < P && q.y < P
    requires p != INFINITY && q != INFINITY && p.x != q.x && AddReady(p, q) && ExactChord(p, q)
    ensures var l := ChordSlope(p, q);
            && l < P && Cong((p.x - q.x) * l, p.y - q.y, P)
            && Cong((p.x - q.x) * InvMod(FSub(p.x, q.x, P), P), 1, P)
  {
    hide *;
    PIsSmall();
    FSubCong(p.x, q.x);
    FSubCong(p.y, q.y);
    ChordParts(p, q);
    var d, n := FSub(p.x, q.x, P), FSub(p.y, q.y, P);
    var inv, l := InvMod(d, P), ChordSlope(p, q);
    InvModIs(d);
    MulPCong(n, inv);
    QuotientCong(n, d, inv, l, P);
    CongSym(d, p.x - q.x, P);
    ReplaceFactor(p.x - q.x, d, l, n, P);
    CongTrans((p.x - q.x) * l, n, p.y - q.y, P);
    ReplaceFactor(p.x - q.x, d, inv, 1, P);
  }

  lemma ReplaceFactor(a: int, b: int, x: int, c: int, m: int)
    requires Cong(a, b, m) && Cong(b * x, c, m)
    ensures Cong(a * x, c, m)
  {
    hide *;
    CongRefl(x, m);
    CongMul(a, b, x, x, m);
    CongTrans(a * x, b * x, c, m);
  }

  lemma SquareOfSum(y: int, k: int)
    ensures (y + k) * (y + k) == y * y + 2 * (k * y) + k * k
  {
  }

  lemma CubeDifference(a: int, c: int)
    ensures a * a * a - c * c * c == (a - c) * (a * a + a * c + c * c)
  {
  }

  /** Two curve points on a line of slope l: the line meets the curve equation at the second. */
  lemma ChordMeetsCurve(l: int, px: int, py: int, qx: int, qy: int, inv: int, b: int, m: int)
    requires Cong((px - qx) * l, py - qy, m) && Cong((px - qx) * inv, 1, m)
    requires Cong(py * py, px * px * px - 3 * px + b, m)
    requires Cong(qy * qy, qx * qx * qx - 3 * qx + b, m)
    ensures Cong(2 * l * qy, px * px + px * qx + qx * qx - 3 - l * l * (px - qx), m)
  {
    hide Cong;
    var d, k := px - qx, (px - qx) * l;
    var s := px * px + px * qx + qx * qx - 3;
    CongRefl(qy, m);
    CongAdd(k, py - qy, qy, qy, m);
    CongMul(k + qy, py, k + qy, py, m);
    CongTrans((k + qy) * (k + qy), py * py, px * px * px - 3 * px + b, m);
    CongAdd((k + qy) * (k + qy), px * px * px - 3 * px + b, qy * qy, qx * qx * qx - 3 * qx + b, m);
    SquareOfSum(qy, k);
    CubeDifference(px, qx);
    CongRefl(k * k, m);
    CongAdd(2 * (k * qy) + k * k, px * px * px - 3 * px - (qx * qx * qx - 3 * qx), k * k, k * k, m);
    FactorOut(d, l, qy, s);
    assert px * px * px - 3 * px - (qx * qx * qx - 3 * qx) == d * s by {
      LessThree(d, px * px + px * qx + qx * qx);
    }
    CongCancel(d, inv, 2 * l * qy, s - l * l * d, m);
  }

  lemma LessThree(d: int, s: int)
    ensures d * (s - 3) == d * s - 3 * d
  {
  }

  lemma FactorOut(d: int, l: int, y: int, s: int)
    ensures 2 * (d * l * y) == d * (2 * l * y)
    ensures d * s - d * l * (d * l) == d * (s - l * l * d)
  {
    Associate(d, 2, l * y);
    assert d * l * y == d * (l * y);
    assert d * l * (d * l) == d * (l * l * d);
  }

  /** Doubling a point of the curve gives a point of the curve. */
  lemma EcDoubleOnCurve(p: Point, b: int)
    requires ValidPoint(p, b) && DoubleReady(p) && ExactDoubling(p)
    ensures ValidPoint(EcDouble(p), b)
  {
    hide Cong, FSub, MulP, ExactThird, ExactTangent, P, R256, InvMod, TangentSlope, DoubleReady;
    if p != INFINITY {
      var l := TangentSlope(p);
      TangentCong(p);
      ThirdCong(l, p.x, p);
      var r := Third(l, p.x, p);
      assert p.x * p.x + p.x * p.x + p.x * p.x - 3 - l * l * (p.x - p.x) == 3 * (p.x * p.x) - 3;
      ThirdMeetsCurve(l, p.x, p.x, p.y, r.x, r.y, b, P);
    }
  }

  /** Adding points of the curve gives a point of the curve. */
  lemma EcAddOnCurve(p: Point, q: Point, b: int)
    requires ValidPoint(p, b) && ValidPoint(q, b) && AddReady(p, q) && ExactAdding(p, q)
    ensures ValidPoint(EcAdd(p, q), b)
  {
    hide Cong, FSub, MulP, ExactThird, ExactChord, P, R256, InvMod, ChordSlope, EcDouble, ExactDoubling;
    if p != INFINITY && q != INFINITY {
      if p.x == q.x {
        if p.y == q.y {
          EcDoubleOnCurve(p, b);
        }
      } else {
        var l := ChordSlope(p, q);
        ChordCong(p, q);
        ChordMeetsCurve(l, p.x, p.y, q.x, q.y, InvMod(FSub(p.x, q.x, P), P), b, P);
        ThirdCong(l, p.x, q);
        var r := Third(l, p.x, q);
        ThirdMeetsCurve(l, p.x, q.x, q.y, r.x, r.y, b, P);
      }
    }
  }
}
