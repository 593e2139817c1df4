/**
 Congruence, divisibility and coprimality of integers, stated so that the
 carry-level proofs can pass between exact values and residues.
 */
module ModArith {

  /** a and b have the same residue modulo m. */
  ghost predicate Cong(a: int, b: int, m: int) {
    exists k: int :: a - b == k * m
  }

  lemma CongIntro(a: int, b: int, m: int, k: int)
    requires a - b == k * m
    ensures Cong(a, b, m)
  {
  }

  lemma CongElim(a: int, b: int, m: int) returns (k: int)
    requires Cong(a, b, m)
    ensures a - b == k * m
  {
    k :| a - b == k * m;
  }

  lemma CongRefl(a: int, m: int)
    ensures Cong(a, a, m)
  {
    CongIntro(a, a, m, 0);
  }

  lemma CongSym(a: int, b: int, m: int)
    requires Cong(a, b, m)
    ensures Cong(b, a, m)
  {
    var k := CongElim(a, b, m);
    assert (-k) * m == -(k * m);
    CongIntro(b, a, m, -k);
  }

  lemma CongTrans(a: int, b: int, c: int, m: int)
    requires Cong(a, b, m) && Cong(b, c, m)
    ensures Cong(a, c, m)
  {
    var k := CongElim(a, b, m);
    var l := CongElim(b, c, m);
    assert (k + l) * m == k * m + l * m;
    CongIntro(a, c, m, k + l);
  }

  lemma CongAdd(a: int, b: int, c: int, d: int, m: int)
    requires Cong(a, b, m) && Cong(c, d, m)
    ensures Cong(a + c, b + d, m) && Cong(a - c, b - d, m)
  {
    var k := CongElim(a, b, m);
    var l := CongElim(c, d, m);
    assert (k + l) * m == k * m + l * m;
    assert (k - l) * m == k * m - l * m;
    CongIntro(a + c, b + d, m, k + l);
    CongIntro(a - c, b - d, m, k - l);
  }

  lemma CongMul(a: int, b: int, c: int, d: int, m: int)
    requires Cong(a, b, m) && Cong(c, d, m)
    ensures Cong(a * c, b * d, m)
  {
    var k := CongElim(a, b, m);
    var l := CongElim(c, d, m);
    MulArith(a, b, c, d, m, k, l);
    CongIntro(a * c, b * d, m, k * c + b * l);
  }

  lemma MulArith(a: int, b: int, c: int, d: int, m: int, k: int, l: int)
    requires a - b == k * m && c - d == l * m
    ensures a * c - b * d == (k * c + b * l) * m
  {
    assert a * c - b * d == (a - b) * c + b * (c - d);
    assert (k * m) * c == (k * c) * m;
    assert b * (l * m) == (b * l) * m;
    assert (k * c + b * l) * m == (k * c) * m + (b * l) * m;
  }

  /** A residue below the modulus is unique. */
  lemma CongUnique(a: int, b: int, m: int)
    requires 0 <= a < m && 0 <= b < m && Cong(a, b, m)
    ensures a == b
  {
    var k := CongElim(a, b, m);
    NoMultipleBetween(a - b, k, m);
  }

  lemma NoMultipleBetween(x: int, k: int, m: int)
    requires -m < x < m && x == k * m
    ensures x == 0
  {
    if k >= 1 {
      assert false;
    } else if k <= -1 {
      assert false;
    }
  }

  lemma CongMod(a: int, m: int)
    requires m > 0
    ensures Cong(a, a % m, m)
  {
    assert a == a / m * m + a % m;
    CongIntro(a, a % m, m, a / m);
  }

  /** Congruence is equality of remainders. */
  lemma CongIffMod(a: int, b: int, m: int)
    requires m > 0
    ensures Cong(a, b, m) <==> a % m == b % m
  {
    CongMod(a, m);
    CongMod(b, m);
    if Cong(a, b, m) {
      CongSym(a, a % m, m);
      CongTrans(a % m, a, b, m);
      CongTrans(a % m, b, b % m, m);
      CongUnique(a % m, b % m, m);
    }
    if a % m == b % m {
      CongSym(b, b % m, m);
      CongTrans(a, a % m, b, m);
    }
  }

  //////////////////////////////////////////////////////////////////////////////
  // Divisibility
  //////////////////////////////////////////////////////////////////////////////

  ghost predicate Divides(d: int, a: int) {
    exists k: int :: a == k * d
  }

  lemma DividesIntro(d: int, a: int, k: int)
    requires a == k * d
    ensures Divides(d, a)
  {
  }

  lemma DividesSum(d: int, a: int, b: int)
    requires Divides(d, a) && Divides(d, b)
    ensures Divides(d, a + b) && Divides(d, a - b)
  {
    var k :| a == k * d;
    var l :| b == l * d;
    assert (k + l) * d == k * d + l * d;
    assert (k - l) * d == k * d - l * d;
    DividesIntro(d, a + b, k + l);
    DividesIntro(d, a - b, k - l);
  }

  lemma DividesTimes(d: int, a: int, c: int)
    requires Divides(d, a)
    ensures Divides(d, c * a)
  {
    var k :| a == k * d;
    assert c * (k * d) == (c * k) * d;
    DividesIntro(d, c * a, c * k);
  }

  /** No number above 1 divides both. */
  ghost predicate Coprime(a: int, b: int) {
    forall d: int | d > 1 :: !(Divides(d, a) && Divides(d, b))
  }

  lemma CoprimeSym(a: int, b: int)
    requires Coprime(a, b)
    ensures Coprime(b, a)
  {
  }

  /** Subtracting the other number keeps coprimality. */
  lemma CoprimeSub(a: int, b: int)
    requires Coprime(a, b)
    ensures Coprime(a - b, b)
  {
    forall d: int | d > 1
      ensures !(Divides(d, a - b) && Divides(d, b))
    {
      if Divides(d, a - b) && Divides(d, b) {
        DividesSum(d, a - b, b);
        assert false;
      }
    }
  }

  lemma CoprimeSelf(a: int)
    requires Coprime(a, a) && a > 0
    ensures a == 1
  {
    DividesIntro(a, a, 1);
  }

  /** Coprime numbers combine to one. */
  lemma {:induction false} Bezout(a: int, b: int) returns (s: int, t: int)
    requires a > 0 && b > 0 && Coprime(a, b)
    ensures s * a + t * b == 1
    decreases a + b
  {
    if a == b {
      CoprimeSelf(a);
      s, t := 1, 0;
    } else if a > b {
      CoprimeSub(a, b);
      s, t := Bezout(a - b, b);
      assert s * (a - b) == s * a - s * b;
      assert (t - s) * b == t * b - s * b;
      t := t - s;
    } else {
      CoprimeSym(a, b);
      CoprimeSub(b, a);
      CoprimeSym(b - a, a);
      s, t := Bezout(a, b - a);
      assert t * (b - a) == t * b - t * a;
      assert (s - t) * a == s * a - t * a;
      s := s - t;
    }
  }

  /** A number coprime to the modulus has an inverse below it. */
  lemma InverseExists(a: int, m: int) returns (b: int)
    requires a > 0 && m > 1 && Coprime(a, m)
    ensures 0 <= b < m && Cong(a * b, 1, m)
  {
    var s, t := Bezout(a, m);
    b := s % m;
    CongMod(s, m);
    CongSym(s, b, m);
    CongRefl(a, m);
    CongMul(a, a, b, s, m);
    assert a * s == s * a;
    CongIntro(a * s, 1, m, -t);
    CongTrans(a * b, a * s, 1, m);
  }

  /** A factor with an inverse can be cancelled. */
  lemma CongCancel(a: int, b: int, x: int, y: int, m: int)
    requires Cong(a * b, 1, m) && Cong(a * x, a * y, m)
    ensures Cong(x, y, m)
  {
    CongRefl(b, m);
    CongMul(b, b, a * x, a * y, m);
    assert b * (a * x) == a * b * x && b * (a * y) == a * b * y;
    CongRefl(x, m);
    CongRefl(y, m);
    CongMul(a * b, 1, x, x, m);
    CongMul(a * b, 1, y, y, m);
    CongSym(a * b * x, 1 * x, m);
    CongTrans(x, a * b * x, a * b * y, m);
    CongTrans(x, a * b * y, y, m);
  }
}
