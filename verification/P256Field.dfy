/**
 Addition, subtraction and fast reduction for the prime of curve P-256. Each
 correction step adds the modulus (or its complement) once; the proofs follow the
 carry that such a single correction may or may not lose.
 */
module P256Field {
  import opened Limbs
  import opened ModArith

  /** 2^256, the range of eight words. */
  const R256: nat := 0x1_00000000_00000000_00000000_00000000_00000000_00000000_00000000_00000000

  const P: nat := 0xffffffff_00000001_00000000_00000000_00000000_ffffffff_ffffffff_ffffffff

  const PRIME_M: seq<Word> :=
    [0xffffffff, 0xffffffff, 0xffffffff, 0x00000000, 0x00000000, 0x00000000, 0x00000001, 0xffffffff]

  /** 2^256 - P: added after an addition that carries out of the top word. */
  const PRIME_R: seq<Word> :=
    [0x00000001, 0x00000000, 0x00000000, 0xffffffff, 0xffffffff, 0xffffffff, 0xfffffffe, 0x00000000]

  lemma PrimeTables()
    ensures |PRIME_M| == 8 && Val(PRIME_M) == P
    ensures |PRIME_R| == 8 && Val(PRIME_R) == R256 - P
    ensures Pow(8) == R256
  {
    Val8(PRIME_M);
    Val8(PRIME_R);
  }

  /** The number in the first eight words of an array. */
  ghost function V8(a: array<Word>): (v: nat)
    requires a.Length >= 8
    reads a
    ensures v < R256
  {
    Val8(a[..8]);
    Val(a[..8])
  }

  /** A static constant table. */
  method Table(s: seq<Word>) returns (a: array<Word>)
    ensures fresh(a) && a[..] == s && a.Length == |s|
  {
    a := new Word[|s|](i requires 0 <= i < |s| => s[i]);
  }

  method PrimeM() returns (a: array<Word>)
    ensures fresh(a) && a.Length == 8 && V8(a) == P
  {
    a := Table(PRIME_M);
    PrimeTables();
    assert a[..8] == PRIME_M;
  }

  method PrimeR() returns (a: array<Word>)
    ensures fresh(a) && a.Length == 8 && V8(a) == R256 - P
  {
    a := Table(PRIME_R);
    PrimeTables();
    assert a[..8] == PRIME_R;
  }

  //////////////////////////////////////////////////////////////////////////////
  // Addition and subtraction with a single correction
  //////////////////////////////////////////////////////////////////////////////

  /** What fieldAdd leaves: on a carry, the reducer is added once and a second carry is dropped. */
  function FAdd(x: nat, y: nat, reducer: nat): nat {
    if x + y < R256 then x + y else (x + y - R256 + reducer) % R256
  }

  /** What fieldSub leaves: on a borrow, the modulus is added once and the carry is dropped. */
  function FSub(x: nat, y: nat, modulus: nat): nat {
    if x >= y then x - y else (x - y + R256 + modulus) % R256
  }

  /** Which value fieldAdd ends with: r when the first addition has no carry, else r'. */
  lemma CorrectedSum(x: nat, y: nat, reducer: nat, r: nat, carry: nat, r': nat, lost: nat)
    requires r < R256 && r' < R256 && r + carry * R256 == x + y && carry <= 1
    requires carry == 1 ==> r' + lost * R256 == r + reducer
    ensures FAdd(x, y, reducer) == if carry == 0 then r else r'
  {
  }

  /** Which value fieldSub ends with: r when the first subtraction has no borrow, else r'. */
  lemma CorrectedDifference(x: nat, y: nat, modulus: nat, r: nat, borrow: nat, r': nat, lost: nat)
    requires x < R256 && y < R256 && borrow <= 1
    requires r < R256 && r' < R256 && r == x - y + borrow * R256
    requires borrow == 1 ==> r' + lost * R256 == r + modulus
    ensures FSub(x, y, modulus) == if borrow == 0 then r else r'
  {
  }

  /** result := x + y, corrected by reducer if the top word carries. */
  method FieldAdd(x: array<Word>, y: array<Word>, reducer: array<Word>, result: array<Word>)
    requires x.Length >= 8 && y.Length >= 8 && reducer.Length >= 8 && result.Length >= 8
    requires reducer != result
    modifies result
    ensures V8(result) == FAdd(old(V8(x)), old(V8(y)), old(V8(reducer)))
    ensures SameOutside(old(result[..]), result[..], 0, 8)
  {
    PowValues();
    hide Val, Pow, FAdd;
    ghost var xv, yv, rv := V8(x), V8(y), V8(reducer);
    var carry := Add(x, y, result, 0, 8);
    ghost var r := V8(result);
    if carry != 0 {
      var tempas := new Word[8];
      SetZero(tempas, 8);
      var lost := Add(result, reducer, tempas, 0, 8);
      CorrectedSum(xv, yv, rv, r, carry, V8(tempas), lost);
      Copy(tempas, result, 8);
    } else {
      CorrectedSum(xv, yv, rv, r, carry, 0, 0);
    }
  }

  /** result := x - y, corrected by modulus if the top word borrows. */
  method FieldSub(x: array<Word>, y: array<Word>, modulus: array<Word>, result: array<Word>)
    requires x.Length >= 8 && y.Length >= 8 && modulus.Length >= 8 && result.Length >= 8
    requires modulus != result
    modifies result
    ensures V8(result) == FSub(old(V8(x)), old(V8(y)), old(V8(modulus)))
    ensures SameOutside(old(result[..]), result[..], 0, 8)
  {
    PowValues();
    hide Val, Pow, FSub;
    ghost var xv, yv, mv := V8(x), V8(y), V8(modulus);
    var borrow := Sub(x, y, result, 0, 8);
    ghost var r := V8(result);
    if borrow != 0 {
      var tempas := new Word[8];
      SetZero(tempas, 8);
      var lost := Add(result, modulus, tempas, 0, 8);
      CorrectedDifference(xv, yv, mv, r, borrow, V8(tempas), lost);
      Copy(tempas, result, 8);
    } else {
      CorrectedDifference(xv, yv, mv, r, borrow, 0, 0);
    }
  }

  //////////////////////////////////////////////////////////////////////////////
  // The nine terms of the fast reduction (section D.2.3 of FIPS 186-4)
  //////////////////////////////////////////////////////////////////////////////

  ghost function S1(b: seq<Word>): seq<Word>
    requires |b| == 16
  {
    [0, 0, 0, b[11], b[12], b[13], b[14], b[15]]
  }

  ghost function S2(b: seq<Word>): seq<Word>
    requires |b| == 16
  {
    [0, 0, 0, b[12], b[13], b[14], b[15], 0]
  }

  ghost function S3(b: seq<Word>): seq<Word>
    requires |b| == 16
  {
    [b[8], b[9], b[10], 0, 0, 0, b[14], b[15]]
  }

  ghost function S4(b: seq<Word>): seq<Word>
    requires |b| == 16
  {
    [b[9], b[10], b[11], b[13], b[14], b[15], b[13], b[8]]
  }

  ghost function D1(b: seq<Word>): seq<Word>
    requires |b| == 16
  {
    [b[11], b[12], b[13], 0, 0, 0, b[8], b[10]]
  }

  ghost function D2(b: seq<Word>): seq<Word>
    requires |b| == 16
  {
    [b[12], b[13], b[14], b[15], 0, 0, b[9], b[11]]
  }

  ghost function D3(b: seq<Word>): seq<Word>
    requires |b| == 16
  {
    [b[13], b[14], b[15], b[8], b[9], b[10], 0, b[12]]
  }

  ghost function D4(b: seq<Word>): seq<Word>
    requires |b| == 16
  {
    [b[14], b[15], 0, b[9], b[10], b[11], 0, b[13]]
  }

  /** T + 2*S1 + 2*S2 + S3 + S4 - D1 - D2 - D3 - D4, without any reduction. */
  ghost function Combination(b: seq<Word>): int
    requires |b| == 16
  {
    Val(b[..8]) + 2 * Val(S1(b)) + 2 * Val(S2(b)) + Val(S3(b)) + Val(S4(b))
    - Val(D1(b)) - Val(D2(b)) - Val(D3(b)) - Val(D4(b))
  }

  /** How often P goes into the number beyond the combination. */
  ghost function Excess(b8: int, b9: int, b10: int, b11: int, b12: int, b13: int, b14: int, b15: int): int {
    b8 * 0x1
    + b9 * 0x1_00000001
    + b10 * 0x1_00000001_00000000
    + b11 * 0x1_00000000_ffffffff_ffffffff
    + b12 * 0x1_00000000_ffffffff_fffffffe_ffffffff
    + b13 * 0x1_00000000_ffffffff_fffffffe_fffffffe_ffffffff
    + b14 * 0x1_00000000_ffffffff_fffffffe_fffffffe_fffffffe_ffffffff
    + b15 * 0x1_00000000_ffffffff_fffffffe_fffffffe_fffffffe_ffffffff_00000000
  }

  /** The identity behind the nine terms, on the eight high words. */
  lemma NistIdentity(b8: int, b9: int, b10: int, b11: int, b12: int, b13: int, b14: int, b15: int)
    ensures Num8(b8, b9, b10, b11, b12, b13, b14, b15) * R256
            == 2 * Num8(0, 0, 0, b11, b12, b13, b14, b15) + 2 * Num8(0, 0, 0, b12, b13, b14, b15, 0)
               + Num8(b8, b9, b10, 0, 0, 0, b14, b15) + Num8(b9, b10, b11, b13, b14, b15, b13, b8)
               - Num8(b11, b12, b13, 0, 0, 0, b8, b10) - Num8(b12, b13, b14, b15, 0, 0, b9, b11)
               - Num8(b13, b14, b15, b8, b9, b10, 0, b12) - Num8(b14, b15, 0, b9, b10, b11, 0, b13)
               + Excess(b8, b9, b10, b11, b12, b13, b14, b15) * P
  {
  }

  lemma TermValues(b: seq<Word>)
    requires |b| == 16
    ensures Val(S1(b)) == Num8(0, 0, 0, b[11], b[12], b[13], b[14], b[15])
    ensures Val(S2(b)) == Num8(0, 0, 0, b[12], b[13], b[14], b[15], 0)
    ensures Val(S3(b)) == Num8(b[8], b[9], b[10], 0, 0, 0, b[14], b[15])
    ensures Val(S4(b)) == Num8(b[9], b[10], b[11], b[13], b[14], b[15], b[13], b[8])
    ensures Val(D1(b)) == Num8(b[11], b[12], b[13], 0, 0, 0, b[8], b[10])
    ensures Val(D2(b)) == Num8(b[12], b[13], b[14], b[15], 0, 0, b[9], b[11])
    ensures Val(D3(b)) == Num8(b[13], b[14], b[15], b[8], b[9], b[10], 0, b[12])
    ensures Val(D4(b)) == Num8(b[14], b[15], 0, b[9], b[10], b[11], 0, b[13])
  {
    hide Val, Pow, Num8;
    Val8(S1(b));
    Val8(S2(b));
    Val8(S3(b));
    Val8(S4(b));
    Val8(D1(b));
    Val8(D2(b));
    Val8(D3(b));
    Val8(D4(b));
  }

  /** The combination is the 512-bit number modulo P. */
  lemma CombinationCongruent(b: seq<Word>)
    requires |b| == 16
    ensures Cong(Val(b), Combination(b), P)
  {
    hide Val, Num8, Excess, Cong, P, S1, S2, S3, S4, D1, D2, D3, D4;
    assert Pow(8) == R256 by { PrimeTables(); }
    hide Pow, R256;
    ValAt(b, 8);
    Val8(b[8..]);
    TermValues(b);
    NistIdentity(b[8], b[9], b[10], b[11], b[12], b[13], b[14], b[15]);
    Commute(Val(b[8..]), R256);
    CongIntro(Val(b), Combination(b), P, Excess(b[8], b[9], b[10], b[11], b[12], b[13], b[14], b[15]));
  }

  //////////////////////////////////////////////////////////////////////////////
  // A run of single-correction additions and subtractions
  //////////////////////////////////////////////////////////////////////////////

  /** x + y overruns even the corrected range, so fieldAdd drops a second carry. */
  ghost function AddLost(x: nat, y: nat): int {
    if x + y >= R256 + P then 1 else 0
  }

  /** y exceeds x by more than P, so fieldSub leaves a second borrow standing. */
  ghost function SubLost(x: nat, y: nat): int {
    if y > x + P then 1 else 0
  }

  /** One addition is off by 2^256 exactly when its second carry is lost. */
  lemma FAddExact(x: nat, y: nat)
    requires x < R256 && y < R256
    ensures FAdd(x, y, R256 - P) < R256
    ensures Cong(FAdd(x, y, R256 - P), x + y - AddLost(x, y) * R256, P)
  {
    CongIntro(FAdd(x, y, R256 - P), x + y - AddLost(x, y) * R256, P, if x + y < R256 then 0 else -1);
  }

  /** One subtraction is off by 2^256 exactly when its second borrow is lost. */
  lemma FSubExact(x: nat, y: nat)
    requires x < R256 && y < R256
    ensures FSub(x, y, P) < R256
    ensures Cong(FSub(x, y, P), x - y + SubLost(x, y) * R256, P)
  {
    CongIntro(FSub(x, y, P), x - y + SubLost(x, y) * R256, P, if x >= y then 0 else 1);
  }

  function AddAll(acc: nat, ts: seq<nat>): nat
    decreases |ts|
  {
    if ts == [] then acc else AddAll(FAdd(acc, ts[0], R256 - P), ts[1..])
  }

  function SubAll(acc: nat, ts: seq<nat>): nat
    decreases |ts|
  {
    if ts == [] then acc else SubAll(FSub(acc, ts[0], P), ts[1..])
  }

  ghost function Sum(ts: seq<nat>): nat {
    if ts == [] then 0 else ts[0] + Sum(ts[1..])
  }

  /** How many of the additions lose a carry. */
  ghost function LostInAdds(acc: nat, ts: seq<nat>): (n: int)
    ensures 0 <= n <= |ts|
    decreases |ts|
  {
    if ts == [] then 0 else AddLost(acc, ts[0]) + LostInAdds(FAdd(acc, ts[0], R256 - P), ts[1..])
  }

  /** How many of the subtractions lose a borrow. */
  ghost function LostInSubs(acc: nat, ts: seq<nat>): (n: int)
    ensures 0 <= n <= |ts|
    decreases |ts|
  {
    if ts == [] then 0 else SubLost(acc, ts[0]) + LostInSubs(FSub(acc, ts[0], P), ts[1..])
  }

  lemma {:induction false} AddAllExact(acc: nat, ts: seq<nat>)
    requires acc < R256 && forall i | 0 <= i < |ts| :: ts[i] < R256
    ensures AddAll(acc, ts) < R256
    ensures Cong(AddAll(acc, ts), acc + Sum(ts) - LostInAdds(acc, ts) * R256, P)
    decreases |ts|
  {
    hide Cong;
    if ts == [] {
      CongRefl(acc, P);
    } else {
      FAddExact(acc, ts[0]);
      var next := FAdd(acc, ts[0], R256 - P);
      hide FAdd, AddLost, R256, P;
      AddAllExact(next, ts[1..]);
      var rest := Sum(ts[1..]) - LostInAdds(next, ts[1..]) * R256;
      CongRefl(rest, P);
      CongAdd(next, acc + ts[0] - AddLost(acc, ts[0]) * R256, rest, rest, P);
      SplitLoss(AddLost(acc, ts[0]), LostInAdds(next, ts[1..]), R256);
      CongTrans(AddAll(acc, ts), next + rest, acc + Sum(ts) - LostInAdds(acc, ts) * R256, P);
    }
  }

  lemma SplitLoss(a: int, b: int, r: int)
    ensures (a + b) * r == a * r + b * r
  {
  }

  lemma {:induction false} SubAllExact(acc: nat, ts: seq<nat>)
    requires acc < R256 && forall i | 0 <= i < |ts| :: ts[i] < R256
    ensures SubAll(acc, ts) < R256
    ensures Cong(SubAll(acc, ts), acc - Sum(ts) + LostInSubs(acc, ts) * R256, P)
    decreases |ts|
  {
    hide Cong;
    if ts == [] {
      CongRefl(acc, P);
    } else {
      FSubExact(acc, ts[0]);
      var next := FSub(acc, ts[0], P);
      hide FSub, SubLost, R256, P;
      SubAllExact(next, ts[1..]);
      var rest := LostInSubs(next, ts[1..]) * R256 - Sum(ts[1..]);
      CongRefl(rest, P);
      CongAdd(next, acc - ts[0] + SubLost(acc, ts[0]) * R256, rest, rest, P);
      SplitLoss(SubLost(acc, ts[0]), LostInSubs(next, ts[1..]), R256);
      CongTrans(SubAll(acc, ts), next + rest, acc - Sum(ts) + LostInSubs(acc, ts) * R256, P);
    }
  }

  /** A few copies of 2^256 vanish modulo P only when there are none. */
  lemma LossShows(k: int)
    requires -6 <= k <= 6 && Cong(k * R256, 0, P)
    ensures k == 0
  {
    var q := CongElim(k * R256, 0, P);
    // 2^256 - P is a residue below P / 2^28
    NoMultipleBetween(k * (R256 - P), q - k, P);
  }

  //////////////////////////////////////////////////////////////////////////////
  // Fast reduction modulo P
  //////////////////////////////////////////////////////////////////////////////

  ghost function AddTerms(b: seq<Word>): seq<nat>
    requires |b| == 16
  {
    [Val(S1(b)), Val(S1(b)), Val(S2(b)), Val(S2(b)), Val(S3(b)), Val(S4(b))]
  }

  ghost function SubTerms(b: seq<Word>): seq<nat>
    requires |b| == 16
  {
    [Val(D1(b)), Val(D2(b)), Val(D3(b)), Val(D4(b))]
  }

  /** The accumulator after all nine terms, before the closing comparison with P. */
  ghost function Accumulated(b: seq<Word>): nat
    requires |b| == 16
  {
    SubAll(AddAll(Val(b[..8]), AddTerms(b)), SubTerms(b))
  }

  /** The closing conditional subtraction. */
  ghost function ModP(b: seq<Word>): nat
    requires |b| == 16
  {
    if Accumulated(b) >= P then FSub(Accumulated(b), P, P) else Accumulated(b)
  }

  /** Carries lost in the six additions less borrows lost in the four subtractions. */
  ghost function NetLoss(b: seq<Word>): int
    requires |b| == 16
  {
    LostInAdds(Val(b[..8]), AddTerms(b)) - LostInSubs(AddAll(Val(b[..8]), AddTerms(b)), SubTerms(b))
  }

  /** tempm[n] := B[n + shift] for lo <= n < hi. */
  method Load(b: array<Word>, tempm: array<Word>, lo: nat, hi: nat, shift: nat)
    requires lo <= hi <= tempm.Length && hi + shift <= b.Length && b != tempm
    modifies tempm
    ensures forall n | 0 <= n < tempm.Length :: tempm[n] == if lo <= n < hi then b[n + shift] else old(tempm[n])
  {
    for n := lo to hi
      invariant forall i | 0 <= i < tempm.Length :: tempm[i] == if lo <= i < n then b[i + shift] else old(tempm[i])
    {
      tempm[n] := b[n + shift];
    }
  }

  /** tempm[n] := 0 for lo <= n < hi. */
  method Clear(tempm: array<Word>, lo: nat, hi: nat)
    requires lo <= hi <= tempm.Length
    modifies tempm
    ensures forall n | 0 <= n < tempm.Length :: tempm[n] == if lo <= n < hi then 0 else old(tempm[n])
  {
    for n := lo to hi
      invariant forall i | 0 <= i < tempm.Length :: tempm[i] == if lo <= i < n then 0 else old(tempm[i])
    {
      tempm[n] := 0;
    }
  }

  method FormS1(b: array<Word>, tempm: array<Word>)
    requires b.Length >= 16 && tempm.Length == 8 && b != tempm
    modifies tempm
    ensures tempm[..8] == S1(b[..16])
  {
    Clear(tempm, 0, 3);
    Load(b, tempm, 3, 8, 8);
  }

  method FormS2(b: array<Word>, tempm: array<Word>)
    requires b.Length >= 16 && tempm.Length == 8 && b != tempm
    modifies tempm
    ensures tempm[..8] == S2(b[..16])
  {
    Clear(tempm, 0, 3);
    Load(b, tempm, 3, 7, 9);
    Clear(tempm, 7, 8);
  }

  method FormS3(b: array<Word>, tempm: array<Word>)
    requires b.Length >= 16 && tempm.Length == 8 && b != tempm
    modifies tempm
    ensures tempm[..8] == S3(b[..16])
  {
    Load(b, tempm, 0, 3, 8);
    Clear(tempm, 3, 6);
    Load(b, tempm, 6, 8, 8);
  }

  method FormS4(b: array<Word>, tempm: array<Word>)
    requires b.Length >= 16 && tempm.Length == 8 && b != tempm
    modifies tempm
    ensures tempm[..8] == S4(b[..16])
  {
    Load(b, tempm, 0, 3, 9);
    Load(b, tempm, 3, 6, 10);
    Load(b, tempm, 6, 7, 7);
    Load(b, tempm, 7, 8, 1);
  }

  method FormD1(b: array<Word>, tempm: array<Word>)
    requires b.Length >= 16 && tempm.Length == 8 && b != tempm
    modifies tempm
    ensures tempm[..8] == D1(b[..16])
  {
    Load(b, tempm, 0, 3, 11);
    Clear(tempm, 3, 6);
    Load(b, tempm, 6, 7, 2);
    Load(b, tempm, 7, 8, 3);
  }

  method FormD2(b: array<Word>, tempm: array<Word>)
    requires b.Length >= 16 && tempm.Length == 8 && b != tempm
    modifies tempm
    ensures tempm[..8] == D2(b[..16])
  {
    Load(b, tempm, 0, 4, 12);
    Clear(tempm, 4, 6);
    Load(b, tempm, 6, 7, 3);
    Load(b, tempm, 7, 8, 4);
  }

  method FormD3(b: array<Word>, tempm: array<Word>)
    requires b.Length >= 16 && tempm.Length == 8 && b != tempm
    modifies tempm
    ensures tempm[..8] == D3(b[..16])
  {
    Load(b, tempm, 0, 3, 13);
    Load(b, tempm, 3, 6, 5);
    Clear(tempm, 6, 7);
    Load(b, tempm, 7, 8, 5);
  }

  method FormD4(b: array<Word>, tempm: array<Word>)
    requires b.Length >= 16 && tempm.Length == 8 && b != tempm
    modifies tempm
    ensures tempm[..8] == D4(b[..16])
  {
    Load(b, tempm, 0, 2, 14);
    Clear(tempm, 2, 3);
    Load(b, tempm, 3, 6, 6);
    Clear(tempm, 6, 7);
    Load(b, tempm, 7, 8, 6);
  }

  lemma AddAllUnfolded(acc: nat, s: seq<nat>, r: nat)
    requires |s| == 6 && r == R256 - P
    ensures AddAll(acc, s) == FAdd(FAdd(FAdd(FAdd(FAdd(FAdd(acc, s[0], r), s[1], r), s[2], r), s[3], r), s[4], r),
        s[5], r)
  {
    hide FAdd;
    assert AddAll(acc, s) == AddAll(FAdd(acc, s[0], r), s[1..]);
    var a1 := FAdd(acc, s[0], r);
    assert AddAll(a1, s[1..]) == AddAll(FAdd(a1, s[1], r), s[2..]) by { assert s[1..][1..] == s[2..]; }
    var a2 := FAdd(a1, s[1], r);
    assert AddAll(a2, s[2..]) == AddAll(FAdd(a2, s[2], r), s[3..]) by { assert s[2..][1..] == s[3..]; }
    var a3 := FAdd(a2, s[2], r);
    assert AddAll(a3, s[3..]) == AddAll(FAdd(a3, s[3], r), s[4..]) by { assert s[3..][1..] == s[4..]; }
    var a4 := FAdd(a3, s[3], r);
    assert AddAll(a4, s[4..]) == AddAll(FAdd(a4, s[4], r), s[5..]) by { assert s[4..][1..] == s[5..]; }
    var a5 := FAdd(a4, s[4], r);
    assert AddAll(a5, s[5..]) == AddAll(FAdd(a5, s[5], r), []) by { assert s[5..][1..] == []; }
  }

  lemma SubAllUnfolded(acc: nat, s: seq<nat>)
    requires |s| == 4
    ensures SubAll(acc, s) == FSub(FSub(FSub(FSub(acc, s[0], P), s[1], P), s[2], P), s[3], P)
  {
    hide FSub;
    assert SubAll(acc, s) == SubAll(FSub(acc, s[0], P), s[1..]);
    var a1 := FSub(acc, s[0], P);
    assert SubAll(a1, s[1..]) == SubAll(FSub(a1, s[1], P), s[2..]) by { assert s[1..][1..] == s[2..]; }
    var a2 := FSub(a1, s[1], P);
    assert SubAll(a2, s[2..]) == SubAll(FSub(a2, s[2], P), s[3..]) by { assert s[2..][1..] == s[3..]; }
    var a3 := FSub(a2, s[2], P);
    assert SubAll(a3, s[3..]) == SubAll(FSub(a3, s[3], P), []) by { assert s[3..][1..] == []; }
  }

  lemma OutsideTwice(s: seq<Word>, t: seq<Word>, u: seq<Word>)
    requires SameOutside(s, t, 0, 8) && SameOutside(t, u, 0, 8)
    ensures SameOutside(s, u, 0, 8)
  {
  }

  /** The first six steps: a := a + 2*S1 + 2*S2 + S3 + S4, each sum corrected once. */
  method AddTermsInto(a: array<Word>, b: array<Word>, tempm: array<Word>, tempm2: array<Word>, primeR: array<Word>)
    requires a.Length >= 8 && b.Length >= 16 && tempm.Length == tempm2.Length == primeR.Length == 8
    requires a != b && tempm != a && tempm != b && tempm2 != a && tempm2 != b && tempm != tempm2
    requires primeR != a && primeR != tempm && primeR != tempm2 && V8(primeR) == R256 - P
    modifies a, tempm, tempm2
    ensures V8(a) == AddAll(old(V8(a)), AddTerms(b[..16]))
    ensures SameOutside(old(a[..]), a[..], 0, 8)
  {
    ghost var bs := b[..16];
    AddAllUnfolded(V8(a), AddTerms(bs), V8(primeR));
    hide FAdd, AddAll, S1, S2, S3, S4, SameOutside;
    hide R256, P, V8;
    FormS1(b, tempm);
    FieldAdd(a, tempm, primeR, tempm2);
    FieldAdd(tempm2, tempm, primeR, a);
    ghost var a2 := a[..];
    FormS2(b, tempm);
    FieldAdd(a, tempm, primeR, tempm2);
    FieldAdd(tempm2, tempm, primeR, a);
    OutsideTwice(old(a[..]), a2, a[..]);
    ghost var a4 := a[..];
    FormS3(b, tempm);
    FieldAdd(a, tempm, primeR, tempm2);
    FormS4(b, tempm);
    FieldAdd(tempm2, tempm, primeR, a);
    OutsideTwice(old(a[..]), a4, a[..]);
  }

  /** The last four steps: a := a - D1 - D2 - D3 - D4, each difference corrected once. */
  method SubTermsFrom(a: array<Word>, b: array<Word>, tempm: array<Word>, tempm2: array<Word>, primeM: array<Word>)
    requires a.Length >= 8 && b.Length >= 16 && tempm.Length == tempm2.Length == primeM.Length == 8
    requires a != b && tempm != a && tempm != b && tempm2 != a && tempm2 != b && tempm != tempm2
    requires primeM != a && primeM != tempm && primeM != tempm2 && V8(primeM) == P
    modifies a, tempm, tempm2
    ensures V8(a) == SubAll(old(V8(a)), SubTerms(b[..16]))
    ensures SameOutside(old(a[..]), a[..], 0, 8)
  {
    ghost var bs := b[..16];
    SubAllUnfolded(V8(a), SubTerms(bs));
    hide FSub, SubAll, D1, D2, D3, D4, SameOutside;
    hide P, V8;
    FormD1(b, tempm);
    FieldSub(a, tempm, primeM, tempm2);
    FormD2(b, tempm);
    FieldSub(tempm2, tempm, primeM, a);
    ghost var a2 := a[..];
    FormD3(b, tempm);
    FieldSub(a, tempm, primeM, tempm2);
    FormD4(b, tempm);
    FieldSub(tempm2, tempm, primeM, a);
    OutsideTwice(old(a[..]), a2, a[..]);
  }

  /** The closing step: one subtraction of P from a value not below it. */
  method SubtractOnce(a: array<Word>, primeM: array<Word>, tempm: array<Word>)
    requires a.Length >= 8 && tempm.Length == primeM.Length == 8
    requires a != tempm && primeM != a && primeM != tempm
    modifies a, tempm
    ensures V8(a) == if old(V8(a)) >= V8(primeM) then FSub(old(V8(a)), V8(primeM), V8(primeM)) else old(V8(a))
    ensures SameOutside(old(a[..]), a[..], 0, 8)
  {
    hide Val, Pow, FSub;
    var order := IsGreater(a, primeM, 8);
    if order >= 0 {
      FieldSub(a, primeM, primeM, tempm);
      Copy(tempm, a, 8);
    }
  }

  /** a (8 words) := b (16 words) reduced modulo P by the nine-term combination. */
  method FieldModP(a: array<Word>, b: array<Word>)
    requires a.Length >= 8 && b.Length >= 16 && a != b
    modifies a
    ensures V8(a) == ModP(b[..16])
    ensures SameOutside(old(a[..]), a[..], 0, 8)
  {
    hide Val, Pow, SameOutside, AddAll, SubAll, AddTerms, SubTerms, FSub, P, R256;
    var primeM := PrimeM();
    var primeR := PrimeR();
    var tempm, tempm2 := new Word[8], new Word[8];
    SetZero(tempm, 8);
    SetZero(tempm2, 8);
    ghost var bs := b[..16];
    Copy(b, a, 8);
    ghost var a0 := a[..];
    assert b[..16][..8] == b[..8];
    assert V8(a) == Val(b[..16][..8]);
    AddTermsInto(a, b, tempm, tempm2, primeR);
    ghost var a6 := a[..];
    SubTermsFrom(a, b, tempm, tempm2, primeM);
    assert b[..16] == bs;
    OutsideTwice(old(a[..]), a0, a6);
    OutsideTwice(old(a[..]), a6, a[..]);
    ghost var a10 := a[..];
    SubtractOnce(a, primeM, tempm);
    OutsideTwice(old(a[..]), a10, a[..]);
  }

  //////////////////////////////////////////////////////////////////////////////
  // What the reduction computes
  //////////////////////////////////////////////////////////////////////////////

  lemma TermsInRange(b: seq<Word>)
    requires |b| == 16
    ensures Val(b[..8]) < R256
    ensures forall i | 0 <= i < |AddTerms(b)| :: AddTerms(b)[i] < R256
    ensures forall i | 0 <= i < |SubTerms(b)| :: SubTerms(b)[i] < R256
  {
    PowValues();
    hide Val, Pow;
  }

  lemma TermSums(b: seq<Word>)
    requires |b| == 16
    ensures Val(b[..8]) + Sum(AddTerms(b)) - Sum(SubTerms(b)) == Combination(b)
  {
    hide Val, Pow, S1, S2, S3, S4, D1, D2, D3, D4;
    var s, t := AddTerms(b), SubTerms(b);
    SumOf6(s);
    SumOf4(t);
  }

  lemma SumOf4(s: seq<nat>)
    requires |s| == 4
    ensures Sum(s) == s[0] + s[1] + s[2] + s[3]
  {
    assert s[1..][1..] == s[2..] && s[2..][1..] == s[3..] && s[3..][1..] == [];
    assert Sum(s[3..]) == s[3] && Sum(s[2..]) == s[2] + Sum(s[3..]);
  }

  lemma SumOf6(s: seq<nat>)
    requires |s| == 6
    ensures Sum(s) == s[0] + s[1] + s[2] + s[3] + s[4] + s[5]
  {
    assert s[1..][1..] == s[2..];
    SumOf4(s[2..]);
  }

  lemma AccumulatedExact(b: seq<Word>)
    requires |b| == 16
    ensures Accumulated(b) < R256
    ensures Cong(Accumulated(b), Val(b) - NetLoss(b) * R256, P)
  {
    hide *;
    TermsInRange(b);
    TermSums(b);
    CombinationCongruent(b);
    AccumulatedParts(b);
    var t, s6, s4 := Val(b[..8]), AddTerms(b), SubTerms(b);
    AddAllExact(t, s6);
    var a6 := AddAll(t, s6);
    SubAllExact(a6, s4);
    ChainCong(a6, Accumulated(b), t + Sum(s6), LostInAdds(t, s6), Sum(s4), LostInSubs(a6, s4),
              Combination(b), Val(b), R256, P);
  }

  lemma AccumulatedParts(b: seq<Word>)
    requires |b| == 16
    ensures var t := Val(b[..8]);
            var a6 := AddAll(t, AddTerms(b));
            && Accumulated(b) == SubAll(a6, SubTerms(b))
            && NetLoss(b) == LostInAdds(t, AddTerms(b)) - LostInSubs(a6, SubTerms(b))
  {
  }

  lemma ChainCong(a6: int, a10: int, sum: int, l6: int, s4: int, l4: int, comb: int, val: int, r: int, m: int)
    requires Cong(a6, sum - l6 * r, m)
    requires Cong(a10, a6 - s4 + l4 * r, m)
    requires sum - s4 == comb && Cong(val, comb, m)
    ensures Cong(a10, val - (l6 - l4) * r, m)
  {
    var k := CongElim(a6, sum - l6 * r, m);
    var l := CongElim(a10, a6 - s4 + l4 * r, m);
    var n := CongElim(val, comb, m);
    assert (k + l - n) * m == k * m + l * m - n * m;
    assert (l6 - l4) * r == l6 * r - l4 * r;
    CongIntro(a10, val - (l6 - l4) * r, m, k + l - n);
  }

  lemma ClosingStep(a: nat, r: nat, v: int)
    requires a < R256 && Cong(a, v, P)
    requires r == if a >= P then FSub(a, P, P) else a
    ensures r < P && Cong(r, v, P)
  {
    hide Cong;
    CongIntro(r, a, P, if a >= P then -1 else 0);
    CongTrans(r, a, v, P);
  }

  lemma ModPIs(b: seq<Word>)
    requires |b| == 16
    ensures ModP(b) == if Accumulated(b) >= P then FSub(Accumulated(b), P, P) else Accumulated(b)
  {
    hide Accumulated, FSub, P;
  }

  /** The reduction always ends below P, and at the argument less 2^256 for each carry it lost. */
  lemma ModPValue(b: seq<Word>)
    requires |b| == 16
    ensures ModP(b) < P
    ensures Cong(ModP(b), Val(b) - NetLoss(b) * R256, P)
  {
    hide *;
    AccumulatedExact(b);
    ModPIs(b);
    ClosingStep(Accumulated(b), ModP(b), Val(b) - NetLoss(b) * R256);
  }

  lemma NetLossBounds(b: seq<Word>)
    requires |b| == 16
    ensures -4 <= NetLoss(b) <= 6
  {
    hide Val;
  }

  /** The reduction is right exactly when the lost carries and the lost borrows balance. */
  lemma ModPCorrectIff(b: seq<Word>)
    requires |b| == 16
    ensures ModP(b) == Val(b) % P <==> NetLoss(b) == 0
  {
    hide *;
    ModPValue(b);
    NetLossBounds(b);
    ResidueIff(ModP(b), Val(b), NetLoss(b));
  }

  lemma ResidueIff(r: int, v: int, n: int)
    requires -4 <= n <= 6 && 0 <= r < P && Cong(r, v - n * R256, P)
    ensures r == v % P <==> n == 0
  {
    hide Cong;
    CongMod(v, P);
    if n == 0 {
      CongTrans(r, v, v % P, P);
      CongUnique(r, v % P, P);
    }
    if r == v % P {
      CongSym(v, r, P);
      CongSym(r, v - n * R256, P);
      CongTrans(v - n * R256, r, v, P);
      CongRefl(v, P);
      CongAdd(v, v, v - n * R256, v, P);
      LossShows(n);
    }
  }

  /** No step loses anything while every term stays below P. */
  lemma {:induction false} NothingLost(acc: nat, ts: seq<nat>)
    requires forall i | 0 <= i < |ts| :: ts[i] < P
    requires acc < R256
    ensures LostInAdds(acc, ts) == 0 && LostInSubs(acc, ts) == 0
    decreases |ts|
  {
    if ts != [] {
      FAddExact(acc, ts[0]);
      FSubExact(acc, ts[0]);
      hide FAdd, FSub;
      NothingLost(FAdd(acc, ts[0], R256 - P), ts[1..]);
      NothingLost(FSub(acc, ts[0], P), ts[1..]);
    }
  }

  /** Eight words whose top word is not all ones, or is followed by a zero word, stay below P. */
  lemma BelowP(s: seq<Word>)
    requires |s| == 8
    requires s[7] != 0xffffffff || s[6] == 0
    ensures Val(s) < P
  {
    Val8(s);
    hide Val, Pow;
  }

  /** Four words of the argument that are not all ones make the reduction exact. */
  lemma ModPExactWhen(b: seq<Word>)
    requires |b| == 16
    requires b[8] != 0xffffffff && b[10] != 0xffffffff && b[11] != 0xffffffff && b[15] != 0xffffffff
    ensures ModP(b) == Val(b) % P
  {
    TermsInRange(b);
    BelowP(S1(b));
    BelowP(S2(b));
    BelowP(S3(b));
    BelowP(S4(b));
    BelowP(D1(b));
    BelowP(D2(b));
    BelowP(D3(b));
    BelowP(D4(b));
    AccumulatesFrom(b);
    ModPCorrectIff(b);
  }

  lemma AccumulatesFrom(b: seq<Word>)
    requires |b| == 16
    requires forall i | 0 <= i < |AddTerms(b)| :: AddTerms(b)[i] < P
    requires forall i | 0 <= i < |SubTerms(b)| :: SubTerms(b)[i] < P
    ensures NetLoss(b) == 0
  {
    TermsInRange(b);
    hide Val, AddTerms, SubTerms;
    NothingLost(Val(b[..8]), AddTerms(b));
    AddAllExact(Val(b[..8]), AddTerms(b));
    NothingLost(AddAll(Val(b[..8]), AddTerms(b)), SubTerms(b));
  }

  //////////////////////////////////////////////////////////////////////////////
  // A product of two field elements that is reduced wrongly
  //////////////////////////////////////////////////////////////////////////////

  const BAD_X: nat := 0x40000000_00000000_00000000_00000000_00000000_00000000_00000000
  const BAD_Y: nat := 0x3_fffffffc_00000000_00000000_00000000_00000003_ffffffff_fffffffe
  const BAD_PRODUCT: seq<Word> :=
    [0, 0, 0, 0, 0, 0, 0x80000000, 0xffffffff, 0xffffffff, 0, 0, 0, 0, 0xffffffff, 0, 0]

  /** The value of a sequence known word by word. */
  lemma Known8(s: seq<Word>, w0: Word, w1: Word, w2: Word, w3: Word, w4: Word, w5: Word, w6: Word, w7: Word)
    requires s == [w0, w1, w2, w3, w4, w5, w6, w7]
    ensures Val(s) == Num8(w0, w1, w2, w3, w4, w5, w6, w7)
  {
    Val8(s);
  }

  lemma BadFactors()
    ensures BAD_X < P && BAD_Y < P
  {
  }

  lemma BadProductValue()
    ensures |BAD_PRODUCT| == 16 && Val(BAD_PRODUCT) == BAD_X * BAD_Y
  {
    hide Val, Pow;
    PrimeTables();
    ValAt(BAD_PRODUCT, 8);
    Known8(BAD_PRODUCT[..8], 0, 0, 0, 0, 0, 0, 0x80000000, 0xffffffff);
    Known8(BAD_PRODUCT[8..], 0xffffffff, 0, 0, 0, 0, 0xffffffff, 0, 0);
  }

  /** The last of the six additions counts towards the loss. */
  lemma LastAddition(acc: nat, s: seq<nat>)
    requires |s| == 6 && acc + s[0] + s[1] + s[2] + s[3] + s[4] < R256
    ensures LostInAdds(acc, s) >= AddLost(acc + s[0] + s[1] + s[2] + s[3] + s[4], s[5])
  {
    var a1, a2, a3, a4 := acc + s[0], acc + s[0] + s[1], acc + s[0] + s[1] + s[2], acc + s[0] + s[1] + s[2] + s[3];
    assert s[1..][1..] == s[2..] && s[2..][1..] == s[3..] && s[3..][1..] == s[4..] && s[4..][1..] == s[5..];
    assert LostInAdds(acc, s) >= LostInAdds(a1, s[1..]);
    assert LostInAdds(a1, s[1..]) >= LostInAdds(a2, s[2..]);
    assert LostInAdds(a2, s[2..]) >= LostInAdds(a3, s[3..]);
    assert LostInAdds(a3, s[3..]) >= LostInAdds(a4, s[4..]);
    assert LostInAdds(a4, s[4..]) >= LostInAdds(a4 + s[4], s[5..]);
  }

  lemma BadTermT()
    ensures |BAD_PRODUCT| == 16 && Val(BAD_PRODUCT[..8])
        == 0xffffffff_80000000_00000000_00000000_00000000_00000000_00000000_00000000
  {
    hide Val, Pow;
    Known8(BAD_PRODUCT[..8], 0, 0, 0, 0, 0, 0, 0x80000000, 0xffffffff);
  }

  lemma BadTermS1()
    ensures |BAD_PRODUCT| == 16 && Val(S1(BAD_PRODUCT)) == 0xffffffff_00000000_00000000_00000000_00000000_00000000
  {
    hide Val, Pow;
    Known8(S1(BAD_PRODUCT), 0, 0, 0, 0, 0, 0xffffffff, 0, 0);
  }

  lemma BadTermS2()
    ensures |BAD_PRODUCT| == 16 && Val(S2(BAD_PRODUCT)) == 0xffffffff_00000000_00000000_00000000_00000000
  {
    hide Val, Pow;
    Known8(S2(BAD_PRODUCT), 0, 0, 0, 0, 0xffffffff, 0, 0, 0);
  }

  lemma BadTermS3()
    ensures |BAD_PRODUCT| == 16 && Val(S3(BAD_PRODUCT)) == 0xffffffff
  {
    hide Val, Pow;
    Known8(S3(BAD_PRODUCT), 0xffffffff, 0, 0, 0, 0, 0, 0, 0);
  }

  lemma BadTermS4()
    ensures |BAD_PRODUCT| == 16 && Val(S4(BAD_PRODUCT))
        == 0xffffffff_ffffffff_00000000_00000000_ffffffff_00000000_00000000_00000000
  {
    hide Val, Pow;
    Known8(S4(BAD_PRODUCT), 0, 0, 0, 0xffffffff, 0, 0, 0xffffffff, 0xffffffff);
  }

  lemma BadSubtrahends()
    ensures |BAD_PRODUCT| == 16
    ensures forall i | 0 <= i < |SubTerms(BAD_PRODUCT)| :: SubTerms(BAD_PRODUCT)[i] < P
  {
    hide Val, Pow;
    var b := BAD_PRODUCT;
    BelowP(D1(b));
    BelowP(D2(b));
    BelowP(D3(b));
    BelowP(D4(b));
  }

  lemma BadLoss(t: nat, s: seq<nat>)
    requires |s| == 6
    requires t == 0xffffffff_80000000_00000000_00000000_00000000_00000000_00000000_00000000
    requires s[0] == s[1] == 0xffffffff_00000000_00000000_00000000_00000000_00000000
    requires s[2] == s[3] == 0xffffffff_00000000_00000000_00000000_00000000
    requires s[4] == 0xffffffff
    requires s[5] == 0xffffffff_ffffffff_00000000_00000000_ffffffff_00000000_00000000_00000000
    ensures LostInAdds(t, s) >= 1
  {
    hide LostInAdds;
    LastAddition(t, s);
  }

  /** A carry lost while adding is never made up for by subtrahends below P. */
  lemma LossShowsUp(b: seq<Word>)
    requires |b| == 16
    requires LostInAdds(Val(b[..8]), AddTerms(b)) >= 1
    requires forall i | 0 <= i < |SubTerms(b)| :: SubTerms(b)[i] < P
    ensures ModP(b) != Val(b) % P
  {
    hide *;
    TermsInRange(b);
    AddAllExact(Val(b[..8]), AddTerms(b));
    NothingLost(AddAll(Val(b[..8]), AddTerms(b)), SubTerms(b));
    AccumulatedParts(b);
    ModPCorrectIff(b);
  }

  lemma BadAddTerms(b: seq<Word>)
    requires |b| == 16
    ensures AddTerms(b) == [Val(S1(b)), Val(S1(b)), Val(S2(b)), Val(S2(b)), Val(S3(b)), Val(S4(b))]
  {
  }

  /** Reduced factors do not suffice: fieldModP drops a carry on this product. */
  lemma ReducedProductFails()
    ensures BAD_X < P && BAD_Y < P
    ensures |BAD_PRODUCT| == 16 && Val(BAD_PRODUCT) == BAD_X * BAD_Y
    ensures ModP(BAD_PRODUCT) != (BAD_X * BAD_Y) % P
  {
    hide *;
    BadFactors();
    BadProductValue();
    BadTermT();
    BadTermS1();
    BadTermS2();
    BadTermS3();
    BadTermS4();
    BadSubtrahends();
    BadAddTerms(BAD_PRODUCT);
    BadLoss(Val(BAD_PRODUCT[..8]), AddTerms(BAD_PRODUCT));
    LossShowsUp(BAD_PRODUCT);
  }
}
