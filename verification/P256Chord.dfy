/** What the point routines give, said by the curve's geometry: third points of chords and tangents, reflected. */
module P256Chord {
  import opened Limbs
  import opened ModArith
  import opened P256Field
  import opened P256Curve
  import opened P256Ecdsa

  //////////////////////////////////////////////////////////////////////////////
  // Lines and third points
  //////////////////////////////////////////////////////////////////////////////

  ghost predicate Reduced(p: Point) {
    p.x < P && p.y < P
  }

  /**
   r is the reflected third point of the line through q of slope e / d that also runs through a point of abscissa px:
   -r is on the line, and the abscissas add up to the squared slope.
   */
  ghost predicate ReflectedThird(d: int, e: int, px: int, q: Point, r: Point) {
    && Cong(d * (r.y + q.y), e * (q.x - r.x), P)
    && Cong(d * d * r.x, e * e - (px + q.x) * (d * d), P)
  }

  lemma TwoProducts(d: int, l: int, u: int, s: int)
    ensures d * (l * u) == d * l * u
    ensures d * d * (l * l - s) == d * l * (d * l) - s * (d * d)
  {
    Associate(l, d, u);
    assert d * d * (l * l - s) == d * d * (l * l) - d * d * s;
    assert d * d * (l * l) == d * l * (d * l);
  }

  /** A third point formed with a slope l that times d is e. */
  lemma ThirdIsReflected(d: int, e: int, l: nat, px: nat, q: Point, r: Point)
    requires Cong(d * l, e, P)
    requires Cong(r.x, l * l - px - q.x, P) && Cong(r.y, l * (q.x - r.x) - q.y, P)
    ensures ReflectedThird(d, e, px, q, r)
  {
    hide *;
    var u, s := q.x - r.x, px + q.x;
    TwoProducts(d, l, u, s);
    // d * (y + qy) is d * l * u, which is e * u
    CongRefl(q.y, P);
    CongAdd(r.y, l * u - q.y, q.y, q.y, P);
    CongRefl(d, P);
    CongMul(d, d, r.y + q.y, l * u, P);
    CongRefl(u, P);
    CongMul(d * l, e, u, u, P);
    CongTrans(d * (r.y + q.y), d * l * u, e * u, P);
    // d^2 * x is (d * l)^2 - s * d^2, which is e^2 - s * d^2
    CongRefl(d * d, P);
    CongMul(d * d, d * d, r.x, l * l - s, P);
    CongMul(d * l, e, d * l, e, P);
    CongRefl(s * (d * d), P);
    CongAdd(d * l * (d * l), e * e, s * (d * d), s * (d * d), P);
    CongTrans(d * d * r.x, d * l * (d * l) - s * (d * d), e * e - s * (d * d), P);
    ReflectedIs(d, e, px, q, r);
  }

  lemma ReflectedIs(d: int, e: int, px: int, q: Point, r: Point)
    ensures ReflectedThird(d, e, px, q, r)
       <==> Cong(d * (r.y + q.y), e * (q.x - r.x), P) && Cong(d * d * r.x, e * e - (px + q.x) * (d * d), P)
  {
  }

  //////////////////////////////////////////////////////////////////////////////
  // Adding and doubling
  //////////////////////////////////////////////////////////////////////////////

  lemma ChordBranch(p: Point, q: Point)
    requires p != INFINITY && q != INFINITY && p.x != q.x && AddReady(p, q) && ExactAdding(p, q)
    ensures ExactChord(p, q) && ExactThird(ChordSlope(p, q), p.x, q)
    ensures EcAdd(p, q) == Third(ChordSlope(p, q), p.x, q)
  {
    hide ChordSlope, Third, ExactChord, ExactThird, P;
  }

  /** Two points of different abscissas add to the reflected third point of their chord. */
  lemma ChordLaw(p: Point, q: Point)
    requires Reduced(p) && Reduced(q) && p != INFINITY && q != INFINITY && p.x != q.x
    requires AddReady(p, q) && ExactAdding(p, q)
    ensures Reduced(EcAdd(p, q)) && ReflectedThird(p.x - q.x, p.y - q.y, p.x, q, EcAdd(p, q))
  {
    hide Cong, ExactThird, ExactChord, P, AddReady, ExactAdding, ChordSlope, Third, EcAdd, ReflectedThird, InvMod;
    var l := ChordSlope(p, q);
    ChordBranch(p, q);
    ChordCong(p, q);
    ThirdCong(l, p.x, q);
    ThirdIsReflected(p.x - q.x, p.y - q.y, l, p.x, q, EcAdd(p, q));
  }

  lemma TangentBranch(p: Point)
    requires p != INFINITY && ExactDoubling(p)
    ensures ExactTangent(p) && ExactThird(TangentSlope(p), p.x, p) && EcDouble(p) == Third(TangentSlope(p), p.x, p)
  {
    hide TangentSlope, Third, ExactTangent, ExactThird;
  }

  /** Doubling gives the reflected third point of the tangent, whose slope is (3x^2 - 3) / 2y. */
  lemma TangentLaw(p: Point)
    requires Reduced(p) && p != INFINITY && DoubleReady(p) && ExactDoubling(p)
    ensures Reduced(EcDouble(p)) && ReflectedThird(2 * p.y, 3 * (p.x * p.x) - 3, p.x, p, EcDouble(p))
  {
    hide Cong, ExactThird, ExactTangent, P, DoubleReady, ExactDoubling, TangentSlope, Third, EcDouble, ReflectedThird;
    var l: nat := TangentSlope(p);
    TangentBranch(p);
    TangentCong(p);
    ThirdCong(l, p.x, p);
    assert 2 * l * p.y == 2 * p.y * l by {
      Commute(l, p.y);
      Associate(2, l, p.y);
      Associate(2, p.y, l);
    }
    ThirdIsReflected(2 * p.y, 3 * (p.x * p.x) - 3, l, p.x, p, EcDouble(p));
  }

  /** The point at infinity changes nothing, opposite points add to it, and equal ones are doubled. */
  lemma SpecialSums(p: Point, q: Point)
    ensures EcAdd(INFINITY, q) == q && EcAdd(p, INFINITY) == p && EcDouble(INFINITY) == INFINITY
    ensures p.x == q.x && p.y != q.y && p != INFINITY && q != INFINITY ==> EcAdd(p, q) == INFINITY
    ensures EcAdd(p, p) == EcDouble(p)
  {
    hide Third, TangentSlope;
  }

  //////////////////////////////////////////////////////////////////////////////
  // That determines the sum
  //////////////////////////////////////////////////////////////////////////////

  lemma DifferenceOfProducts(c: int, a: int, b: int)
    ensures c * (a + b) - c * b == c * a
  {
  }

  /** With an invertible d there is one reduced point only. */
  lemma OneReflectedThird(d: int, inv: int, e: int, px: int, q: Point, r: Point, s: Point)
    requires Cong(d * inv, 1, P) && Reduced(r) && Reduced(s)
    requires ReflectedThird(d, e, px, q, r) && ReflectedThird(d, e, px, q, s)
    ensures r == s
  {
    ReflectedIs(d, e, px, q, r);
    ReflectedIs(d, e, px, q, s);
    assert r.x < P && r.y < P && s.x < P && s.y < P;
    hide *;
    var x2 := e * e - (px + q.x) * (d * d);
    CongSym(d * d * s.x, x2, P);
    CongTrans(d * d * r.x, x2, d * d * s.x, P);
    Associate(d, d, r.x);
    Associate(d, d, s.x);
    assert d * d * r.x == d * (d * r.x) && d * d * s.x == d * (d * s.x);
    CongCancel(d, inv, d * r.x, d * s.x, P);
    CongCancel(d, inv, r.x, s.x, P);
    CongUnique(r.x, s.x, P);
    var u := e * (q.x - r.x);
    CongSym(d * (s.y + q.y), u, P);
    CongTrans(d * (r.y + q.y), u, d * (s.y + q.y), P);
    CongCancel(d, inv, r.y + q.y, s.y + q.y, P);
    CongRefl(q.y, P);
    CongAdd(r.y + q.y, s.y + q.y, q.y, q.y, P);
    CongUnique(r.y, s.y, P);
    SamePoint(r, s);
  }

  lemma SamePoint(r: Point, s: Point)
    requires r.x == s.x && r.y == s.y
    ensures r == s
  {
  }

  /** A reduced point is the sum of two points of different abscissas exactly if it is the reflected third point. */
  lemma SumIff(p: Point, q: Point, r: Point)
    requires Reduced(p) && Reduced(q) && Reduced(r) && p != INFINITY && q != INFINITY && p.x != q.x
    requires AddReady(p, q) && ExactAdding(p, q)
    ensures r == EcAdd(p, q) <==> ReflectedThird(p.x - q.x, p.y - q.y, p.x, q, r)
  {
    hide Cong, ExactThird, ExactChord, P, AddReady, ExactAdding, ChordSlope, Third, EcAdd, ReflectedThird, InvMod;
    ChordLaw(p, q);
    ChordBranch(p, q);
    ChordCong(p, q);
    if ReflectedThird(p.x - q.x, p.y - q.y, p.x, q, r) {
      OneReflectedThird(p.x - q.x, InvMod(FSub(p.x, q.x, P), P), p.y - q.y, p.x, q, r, EcAdd(p, q));
    }
  }

  /** The coefficient b of the curve, section D.1.2.3 of FIPS 186-4. */
  const CURVE_B: nat := 0x5ac635d8_aa3a93e7_b3ebbd55_769886bc_651d06b0_cc53b0f6_3bce3c3e_27d2604b

  /** The base point lies on the curve. */
  lemma BasePointOnCurve()
    ensures OnCurve(BASE_POINT, CURVE_B)
  {
    var x, y := BASE_POINT.x, BASE_POINT.y;
    var k := (y * y - (x * x * x - 3 * x + CURVE_B)) / P;
    assert y * y - (x * x * x - 3 * x + CURVE_B) == k * P;
    CongIntro(y * y, x * x * x - 3 * x + CURVE_B, P, k);
  }
}
