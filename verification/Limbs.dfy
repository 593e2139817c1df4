/**
 Multi-word arithmetic on little-endian arrays of 32-bit words, as the elliptic
 curve code uses it: every routine works in place through a result array.
 */
module Limbs {

  const BASE: int := 0x1_0000_0000
  const WIDE: int := 0x1_0000_0000_0000_0000

  /** A 32-bit word (uint32_t). */
  type Word = w: int | 0 <= w < 0x1_0000_0000

  /** A 64-bit accumulator (uint64_t). */
  type Wide = w: int | 0 <= w < 0x1_0000_0000_0000_0000

  /** (uint32_t)d */
  function Low32(d: Wide): Word {
    d % 0x1_0000_0000
  }

  /** d >> 32 */
  function High32(d: Wide): Word {
    d / 0x1_0000_0000
  }

  //////////////////////////////////////////////////////////////////////////////
  // The number a word sequence stands for
  //////////////////////////////////////////////////////////////////////////////

  function Pow(n: nat): (p: nat)
    ensures p > 0
  {
    if n == 0 then 1 else 0x1_0000_0000 * Pow(n - 1)
  }

  /** Least significant word first. */
  function Val(s: seq<Word>): (v: nat)
    ensures v < Pow(|s|)
  {
    if |s| == 0 then 0 else s[0] as int + 0x1_0000_0000 * Val(s[1..])
  }

  lemma {:induction false} PowAdd(m: nat, n: nat)
    ensures Pow(m + n) == Pow(m) * Pow(n)
  {
    if m > 0 {
      PowAdd(m - 1, n);
      Associate(Pow(n), BASE, Pow(m - 1));
    }
  }

  lemma PowMonotone(m: nat, n: nat)
    requires m <= n
    ensures Pow(m) <= Pow(n)
  {
    PowAdd(m, n - m);
    MulMonotone(1, Pow(n - m), Pow(m));
  }

  lemma Commute(a: int, b: int)
    ensures a * b == b * a
  {
  }

  lemma Associate(p: int, w: int, q: int)
    ensures w * (p * q) == p * (w * q)
    ensures w * (p * q) == (w * p) * q
  {
  }

  lemma MulMonotone(a: int, b: int, c: nat)
    requires a <= b
    ensures a * c <= b * c
  {
  }

  lemma {:induction false} ValSplit(a: seq<Word>, b: seq<Word>)
    ensures Val(a + b) == Val(a) + Pow(|a|) * Val(b)
  {
    if |a| == 0 {
      assert a + b == b;
    } else {
      assert (a + b)[1..] == a[1..] + b;
      ValSplit(a[1..], b);
      Associate(BASE, Pow(|a| - 1), Val(b));
    }
  }

  lemma ValPush(s: seq<Word>, w: Word)
    ensures Val(s + [w]) == Val(s) + w * Pow(|s|)
  {
    ValSplit(s, [w]);
    assert [w][1..] == [];
    assert Val([w]) == w;
    Commute(Pow(|s|), w);
  }

  /** Unfolds the value of a prefix by its last word. */
  lemma ValPrefixStep(s: seq<Word>, k: nat)
    requires k < |s|
    ensures Val(s[..k + 1]) == Val(s[..k]) + s[k] * Pow(k)
  {
    assert s[..k + 1] == s[..k] + [s[k]];
    ValPush(s[..k], s[k]);
  }

  lemma ValAt(s: seq<Word>, k: nat)
    requires k <= |s|
    ensures Val(s) == Val(s[..k]) + Pow(k) * Val(s[k..])
  {
    assert s == s[..k] + s[k..];
    ValSplit(s[..k], s[k..]);
  }

  lemma {:induction false} ValZero(s: seq<Word>)
    requires forall i | 0 <= i < |s| :: s[i] == 0
    ensures Val(s) == 0
  {
    if |s| > 0 {
      ValZero(s[1..]);
    }
  }

  /** Words of equal length are determined by their value. */
  lemma {:induction false} ValInjective(s: seq<Word>, t: seq<Word>)
    requires |s| == |t| && Val(s) == Val(t)
    ensures s == t
  {
    if |s| > 0 {
      ValInjective(s[1..], t[1..]);
      assert s == [s[0]] + s[1..] && t == [t[0]] + t[1..];
    }
  }

  /** The order of two numbers is decided at the highest word that differs. */
  lemma ValCompareAt(s: seq<Word>, t: seq<Word>, i: nat)
    requires |s| == |t| && i < |s|
    requires s[i] < t[i]
    requires forall j | i < j < |s| :: s[j] == t[j]
    ensures Val(s) < Val(t)
  {
    hide Val, Pow;
    assert s[i + 1..] == t[i + 1..];
    ValAt(s, i + 1);
    ValAt(t, i + 1);
    ValPrefixStep(s, i);
    ValPrefixStep(t, i);
    MulMonotone(s[i] + 1, t[i], Pow(i));
    AddOne(s[i], Pow(i));
  }

  lemma AddOne(w: int, p: int)
    ensures (w + 1) * p == w * p + p
  {
  }

  lemma PowValues()
    ensures Pow(0) == 1
    ensures Pow(1) == 0x1_00000000
    ensures Pow(2) == 0x1_00000000_00000000
    ensures Pow(3) == 0x1_00000000_00000000_00000000
    ensures Pow(4) == 0x1_00000000_00000000_00000000_00000000
    ensures Pow(5) == 0x1_00000000_00000000_00000000_00000000_00000000
    ensures Pow(6) == 0x1_00000000_00000000_00000000_00000000_00000000_00000000
    ensures Pow(7) == 0x1_00000000_00000000_00000000_00000000_00000000_00000000_00000000
    ensures Pow(8) == 0x1_00000000_00000000_00000000_00000000_00000000_00000000_00000000_00000000
    ensures Pow(9) == 0x1_00000000_00000000_00000000_00000000_00000000_00000000_00000000_00000000_00000000
  {
    assert Pow(1) == 0x1_00000000;
    assert Pow(2) == BASE * Pow(1);
    assert Pow(3) == BASE * Pow(2);
    assert Pow(4) == BASE * Pow(3);
    assert Pow(5) == BASE * Pow(4);
    assert Pow(6) == BASE * Pow(5);
    assert Pow(7) == BASE * Pow(6);
    assert Pow(8) == BASE * Pow(7);
  }

  /** The number with eight given words. */
  function Num8(w0: int, w1: int, w2: int, w3: int, w4: int, w5: int, w6: int, w7: int): int {
    w0
    + w1 * 0x1_00000000
    + w2 * 0x1_00000000_00000000
    + w3 * 0x1_00000000_00000000_00000000
    + w4 * 0x1_00000000_00000000_00000000_00000000
    + w5 * 0x1_00000000_00000000_00000000_00000000_00000000
    + w6 * 0x1_00000000_00000000_00000000_00000000_00000000_00000000
    + w7 * 0x1_00000000_00000000_00000000_00000000_00000000_00000000_00000000
  }

  /** The value of eight words, written out. */
  lemma Val8(s: seq<Word>)
    requires |s| == 8
    ensures Pow(8) == 0x1_00000000_00000000_00000000_00000000_00000000_00000000_00000000_00000000
    ensures Val(s) == Num8(s[0], s[1], s[2], s[3], s[4], s[5], s[6], s[7])
  {
    PowValues();
    assert s[1..][1..] == s[2..];
    assert s[2..][1..] == s[3..];
    assert s[3..][1..] == s[4..];
    assert s[4..][1..] == s[5..];
    assert s[5..][1..] == s[6..];
    assert s[6..][1..] == s[7..];
    assert s[7..][1..] == [];
    assert Val(s[7..]) == s[7];
    assert Val(s[6..]) == s[6] as int + 0x1_0000_0000 * Val(s[7..]);
    assert Val(s[5..]) == s[5] as int + 0x1_0000_0000 * Val(s[6..]);
    assert Val(s[4..]) == s[4] as int + 0x1_0000_0000 * Val(s[5..]);
    assert Val(s[3..]) == s[3] as int + 0x1_0000_0000 * Val(s[4..]);
    assert Val(s[2..]) == s[2] as int + 0x1_0000_0000 * Val(s[3..]);
    assert Val(s[1..]) == s[1] as int + 0x1_0000_0000 * Val(s[2..]);
  }

  //////////////////////////////////////////////////////////////////////////////
  // In-place routines
  //////////////////////////////////////////////////////////////////////////////

  /** Everything outside the window [from, from + length) is as it was. */
  ghost predicate SameOutside(was: seq<Word>, now: seq<Word>, from: nat, length: nat)
  {
    |was| == |now| && forall i | 0 <= i < |was| && !(from <= i < from + length) :: now[i] == was[i]
  }

  lemma OutsideStep(first: seq<Word>, was: seq<Word>, now: seq<Word>, from: nat, v: nat)
    requires SameOutside(first, was, from, v)
    requires from + v < |was| == |now| && now == was[from + v := now[from + v]]
    ensures SameOutside(first, now, from, v + 1)
  {
  }

  /** r and carry d are the sum of the first |r| words of xs and ys. */
  ghost predicate Summed(xs: seq<Word>, ys: seq<Word>, r: seq<Word>, d: int)
    requires |r| <= |xs| && |r| <= |ys|
  {
    Val(r) + d * Pow(|r|) == Val(xs[..|r|]) + Val(ys[..|r|])
  }

  lemma SummedStep(xs: seq<Word>, ys: seq<Word>, r: seq<Word>, d: int, w: Word, d': int)
    requires |r| < |xs| && |r| < |ys|
    requires Summed(xs, ys, r, d)
    requires d + xs[|r|] as int + ys[|r|] as int == w as int + d' * BASE
    ensures Summed(xs, ys, r + [w], d')
  {
    var v := |r|;
    assert Pow(v + 1) == BASE * Pow(v);
    ValPush(r, w);
    ValPrefixStep(xs, v);
    ValPrefixStep(ys, v);
    AddArith(Val(r), d, w, d', Val(xs[..v]), Val(ys[..v]), xs[v], ys[v], Pow(v));
  }

  lemma AddArith(r: int, d: int, w: int, d': int, a: int, b: int, x: int, y: int, p: int)
    requires r + d * p == a + b
    requires d + x + y == w + d' * BASE
    ensures r + w * p + d' * (BASE * p) == a + x * p + (b + y * p)
  {
    assert (d + x + y) * p == d * p + x * p + y * p;
    assert (w + d' * BASE) * p == w * p + d' * (BASE * p);
  }

  lemma CarryStep(d: int, x: Word, y: Word, w: Word, d': int)
    requires 0 <= d <= 1
    requires w == Low32(d + x as int + y as int) && d' == High32(d + x as int + y as int)
    ensures d' <= 1
    ensures d + x as int + y as int == w as int + d' * BASE
  {
  }

  /** result := x + y over words [o, o + length), returning the carry. */
  method Add(x: array<Word>, y: array<Word>, result: array<Word>, o: nat, length: nat) returns (carry: Word)
    requires o + length <= x.Length && o + length <= y.Length && o + length <= result.Length
    modifies result
    ensures Val(result[o..o + length]) + carry * Pow(length)
            == old(Val(x[o..o + length])) + old(Val(y[o..o + length]))
    ensures carry <= 1
    ensures SameOutside(old(result[..]), result[..], o, length)
  {
    ghost var xs, ys := x[o..o + length], y[o..o + length];
    var d: Wide := 0;
    ghost var r: seq<Word> := [];
    assert Summed(xs, ys, r, 0) by { assert xs[..0] == [] && ys[..0] == []; }
    for v := 0 to length
      invariant d <= 1
      invariant |r| == v && result[o..o + v] == r && Summed(xs, ys, r, d)
      invariant forall i | o + v <= i < x.Length :: x[i] == old(x[i])
      invariant forall i | o + v <= i < y.Length :: y[i] == old(y[i])
      invariant SameOutside(old(result[..]), result[..], o, v)
    {
      hide *;
      ghost var d0, was := d, result[..];
      assert x[o + v] == xs[v] && y[o + v] == ys[v];
      d := d + (x[o + v] as int) + (y[o + v] as int);
      result[o + v] := Low32(d);
      d := High32(d);
      CarryStep(d0, xs[v], ys[v], result[o + v], d);
      OutsideStep(old(result[..]), was, result[..], o, v);
      SummedStep(xs, ys, r, d0, result[o + v], d);
      r := r + [result[o + v]];
    }
    SummedAll(xs, ys, result[o..o + length], d);
    carry := d;
  }

  lemma SummedAll(xs: seq<Word>, ys: seq<Word>, r: seq<Word>, d: int)
    requires |xs| == |ys| == |r| && Summed(xs, ys, r, d)
    ensures Val(r) + d * Pow(|r|) == Val(xs) + Val(ys)
  {
    assert xs[..|r|] == xs && ys[..|r|] == ys;
  }

  /** r and borrow d are the difference of the first |r| words of xs and ys. */
  ghost predicate Subtracted(xs: seq<Word>, ys: seq<Word>, r: seq<Word>, d: int)
    requires |r| <= |xs| && |r| <= |ys|
  {
    Val(r) == Val(xs[..|r|]) - Val(ys[..|r|]) + d * Pow(|r|)
  }

  lemma SubtractedStep(xs: seq<Word>, ys: seq<Word>, r: seq<Word>, d: int, w: Word, d': int)
    requires |r| < |xs| && |r| < |ys|
    requires Subtracted(xs, ys, r, d)
    requires w as int == xs[|r|] - ys[|r|] - d + d' * BASE
    ensures Subtracted(xs, ys, r + [w], d')
  {
    var v := |r|;
    assert Pow(v + 1) == BASE * Pow(v);
    ValPush(r, w);
    ValPrefixStep(xs, v);
    ValPrefixStep(ys, v);
    SubArith(Val(r), d, w, d', Val(xs[..v]), Val(ys[..v]), xs[v], ys[v], Pow(v));
  }

  lemma SubArith(r: int, d: int, w: int, d': int, a: int, b: int, x: int, y: int, p: int)
    requires r == a - b + d * p
    requires w == x - y - d + d' * BASE
    ensures r + w * p == a + x * p - (b + y * p) + d' * (BASE * p)
  {
    assert (x - y - d + d' * BASE) * p == x * p - y * p - d * p + d' * (BASE * p);
  }

  lemma BorrowStep(d: int, x: Word, y: Word, w: Word, d': int)
    requires 0 <= d <= 1
    requires w == Low32((x - y - d) % WIDE) && d' == High32((x - y - d) % WIDE) % 2
    ensures 0 <= d' <= 1
    ensures w as int == x - y - d + d' * BASE
  {
  }

  /** result := x - y over words [o, o + length), returning the borrow. */
  method Sub(x: array<Word>, y: array<Word>, result: array<Word>, o: nat, length: nat) returns (borrow: Word)
    requires o + length <= x.Length && o + length <= y.Length && o + length <= result.Length
    modifies result
    ensures Val(result[o..o + length])
            == old(Val(x[o..o + length])) - old(Val(y[o..o + length])) + borrow * Pow(length)
    ensures borrow <= 1
    ensures SameOutside(old(result[..]), result[..], o, length)
  {
    ghost var xs, ys := x[o..o + length], y[o..o + length];
    var d: Wide := 0;
    ghost var r: seq<Word> := [];
    assert Subtracted(xs, ys, r, 0) by { assert xs[..0] == [] && ys[..0] == []; }
    for v := 0 to length
      invariant d <= 1
      invariant |r| == v && result[o..o + v] == r && Subtracted(xs, ys, r, d)
      invariant forall i | o + v <= i < x.Length :: x[i] == old(x[i])
      invariant forall i | o + v <= i < y.Length :: y[i] == old(y[i])
      invariant SameOutside(old(result[..]), result[..], o, v)
    {
      hide *;
      ghost var d0, was := d, result[..];
      assert x[o + v] == xs[v] && y[o + v] == ys[v];
      // unsigned 64-bit subtraction wraps around
      d := (x[o + v] - y[o + v] - d) % 0x1_0000_0000_0000_0000;
      result[o + v] := Low32(d);
      d := High32(d);
      d := d % 2;
      BorrowStep(d0, xs[v], ys[v], result[o + v], d);
      OutsideStep(old(result[..]), was, result[..], o, v);
      SubtractedStep(xs, ys, r, d0, result[o + v], d);
      r := r + [result[o + v]];
    }
    SubtractedAll(xs, ys, result[o..o + length], d);
    borrow := d;
  }

  lemma SubtractedAll(xs: seq<Word>, ys: seq<Word>, r: seq<Word>, d: int)
    requires |xs| == |ys| == |r| && Subtracted(xs, ys, r, d)
    ensures Val(r) == Val(xs) - Val(ys) + d * Pow(|r|)
  {
    assert xs[..|r|] == xs && ys[..|r|] == ys;
  }

  lemma DivModUnique(low: int, p: int, high: int)
    requires 0 <= low < p && 0 <= high
    ensures (low + p * high) / p == high && (low + p * high) % p == low
  {
    var v := low + p * high;
    var q, r := v / p, v % p;
    assert v == p * q + r;
    Difference(high, q, p);
    Commute(p, high);
    Commute(p, q);
    if high - q >= 1 {
      MulMonotone(1, high - q, p);
      assert false;
    } else if high - q <= -1 {
      MulMonotone(high - q, -1, p);
      assert false;
    }
  }

  lemma Difference(w: int, v: int, p: int)
    ensures (w - v) * p == w * p - v * p
  {
  }

  /** Dropping low words divides; keeping them takes the remainder. */
  lemma ValDropTake(s: seq<Word>, k: nat)
    requires k <= |s|
    ensures Val(s[k..]) == Val(s) / Pow(k)
    ensures Val(s[..k]) == Val(s) % Pow(k)
  {
    hide *;
    ValAt(s, k);
    ValBound(s[..k]);
    DivModUnique(Val(s[..k]), Pow(k), Val(s[k..]));
  }

  lemma ValBound(s: seq<Word>)
    ensures 0 <= Val(s) < Pow(|s|)
  {
  }

  lemma SmallMod(v: int, p: int)
    requires 0 <= v < p
    ensures v % p == v
  {
  }

  /** High zero words do not change the value. */
  lemma ValZeroExtend(s: seq<Word>, t: seq<Word>)
    requires |s| <= |t| && t[..|s|] == s
    requires forall i | |s| <= i < |t| :: t[i] == 0
    ensures Val(t) == Val(s)
  {
    hide *;
    ValAt(t, |s|);
    ValZero(t[|s|..]);
    assert Pow(|s|) * 0 == 0;
  }

  lemma ShiftedValue(s: seq<Word>, k: nat, out: seq<Word>)
    requires k <= |s|
    requires forall i | 0 <= i < |out| :: out[i] == if i + k < |s| then s[i + k] else 0
    ensures Val(out) == Val(s) / Pow(k) % Pow(|out|)
  {
    hide *;
    ValDropTake(s, k);
    var high := s[k..];
    if |high| <= |out| {
      assert out[..|high|] == high;
      ValZeroExtend(high, out);
      ValBound(high);
      PowMonotone(|high|, |out|);
      SmallMod(Val(high), Pow(|out|));
    } else {
      assert out == high[..|out|];
      ValDropTake(high, |out|);
    }
  }

  /** out := in shifted right by shift whole words, cut or filled to outSize words. */
  method RShiftBy(input: array<Word>, inSize: nat, out: array<Word>, outSize: nat, shift: nat)
    requires shift <= inSize <= input.Length && outSize <= out.Length
    requires input != out
    modifies out
    ensures Val(out[..outSize]) == Val(input[..inSize]) / Pow(shift) % Pow(outSize)
    ensures SameOutside(old(out[..]), out[..], 0, outSize)
  {
    hide Val, Pow;
    var i := 0;
    while i < inSize - shift && i < outSize
      invariant 0 <= i <= outSize && i <= inSize - shift
      invariant forall j | 0 <= j < i :: out[j] == input[j + shift]
      invariant SameOutside(old(out[..]), out[..], 0, i)
    {
      out[i] := input[i + shift];
      i := i + 1;
    }
    ghost var cut := i;
    while i < outSize
      invariant cut <= i <= outSize
      invariant forall j | 0 <= j < cut :: out[j] == input[j + shift]
      invariant forall j | cut <= j < i :: out[j] == 0
      invariant SameOutside(old(out[..]), out[..], 0, i)
    {
      out[i] := 0;
      i := i + 1;
    }
    ShiftedValue(input[..inSize], shift, out[..outSize]);
  }

  method SetZero(a: array<Word>, length: nat)
    requires length <= a.Length
    modifies a
    ensures forall i | 0 <= i < length :: a[i] == 0
    ensures Val(a[..length]) == 0
    ensures SameOutside(old(a[..]), a[..], 0, length)
  {
    forall i | 0 <= i < length {
      a[i] := 0;
    }
    ValZero(a[..length]);
  }

  method Copy(from: array<Word>, to: array<Word>, length: nat)
    requires length <= from.Length && length <= to.Length
    modifies to
    ensures to[..length] == old(from[..length])
    ensures SameOutside(old(to[..]), to[..], 0, length)
  {
    forall i | 0 <= i < length {
      to[i] := from[i];
    }
  }

  method IsSame(a: array<Word>, b: array<Word>, length: nat) returns (same: bool)
    requires length <= a.Length && length <= b.Length
    ensures same <==> Val(a[..length]) == Val(b[..length])
  {
    same := true;
    for i := 0 to length
      invariant same <==> a[..i] == b[..i]
    {
      same := same && a[i] == b[i];
    }
    if Val(a[..length]) == Val(b[..length]) {
      ValInjective(a[..length], b[..length]);
    }
  }

  /** Compares from the most significant word down: 1, -1 or 0. */
  method IsGreater(a: array<Word>, b: array<Word>, length: nat) returns (r: int)
    requires length <= a.Length && length <= b.Length
    ensures r == Compare(Val(a[..length]), Val(b[..length]))
  {
    hide Val, Pow;
    ghost var s, t := a[..length], b[..length];
    var i := length - 1;
    while i >= 0
      invariant -1 <= i < length
      invariant forall j | i < j < length :: s[j] == t[j]
    {
      assert a[i] == s[i] && b[i] == t[i];
      if a[i] > b[i] {
        ValCompareAt(t, s, i);
        return 1;
      }
      if a[i] < b[i] {
        ValCompareAt(s, t, i);
        return -1;
      }
      i := i - 1;
    }
    assert s == t;
    return 0;
  }

  /** The three-way result the comparison reports. */
  function Compare(v: int, w: int): int {
    if v > w then 1 else if v < w then -1 else 0
  }

  lemma MulBound(x: int, y: int, a: int, b: int)
    requires 0 <= x <= a && 0 <= y <= b
    ensures 0 <= x * y <= a * b
  {
    MulMonotone(0, x, y);
    MulMonotone(x, a, y);
    MulMonotone(y, b, a);
  }

  /** A two-word number in a field of zeros. */
  lemma ValTwoWords(s: seq<Word>, l: Wide)
    requires |s| >= 2
    requires s[0] == Low32(l) && s[1] == High32(l)
    requires forall i | 2 <= i < |s| :: s[i] == 0
    ensures Val(s) == l
  {
    ValAt(s, 2);
    ValZero(s[2..]);
    assert Val(s[2..]) == 0;
    assert s[..2] == [s[0], s[1]];
    assert s[..2][..1] == [s[0]];
    assert Pow(1) == BASE;
    assert Val(s[..2]) == Val([s[0]]) + s[1] * BASE;
    assert Val([s[0]]) == s[0];
  }

  /** A partial product, taken word by word, never outgrows the two factors together. */
  lemma MulCellBound(xs: seq<Word>, ys: seq<Word>, n: nat, k: nat)
    requires n < |xs| && k < |ys| && |xs| == |ys|
    ensures Val(xs) * Val(ys[..k]) + Val(xs[..n + 1]) * ys[k] * Pow(k) < Pow(2 * |xs|)
  {
    hide Val, Pow;
    PrefixAtMost(xs, n + 1);
    PrefixAtMost(ys, k + 1);
    ValPrefixStep(ys, k);
    PowAdd(|xs|, |ys|);
    CellBound(Val(xs), Val(ys), Val(xs[..n + 1]), Val(ys[..k]), ys[k], Pow(k), Pow(|xs|), Pow(|ys|));
  }

  lemma PrefixAtMost(s: seq<Word>, k: nat)
    requires k <= |s|
    ensures Val(s[..k]) <= Val(s)
  {
    ValAt(s, k);
    MulMonotone(0, Pow(k), Val(s[k..]));
  }

  lemma CellBound(X: int, Y: int, x: int, y: int, w: int, p: int, a: int, b: int)
    requires 0 <= x <= X < a && 0 <= y && 0 <= w && 0 <= p
    requires y + w * p <= Y < b
    ensures X * y + x * w * p < a * b
  {
    MulMonotone(0, w, p);
    MulMonotone(x, X, w * p);
    Associate(w, x, p);
    assert X * y + X * (w * p) == X * (y + w * p);
    MulMonotone(y + w * p, Y, X);
    Commute(X, y + w * p);
    MulMonotone(Y, b - 1, X);
    MulMonotone(X, a - 1, b - 1);
    Commute(X, b - 1);
    assert (a - 1) * (b - 1) == a * b - a - b + 1;
  }

  /** Adding l at word j of a number adds l * Pow(j), and a total that still fits produces no carry. */
  lemma MulCellStep(was: seq<Word>, now: seq<Word>, j: nat, l: nat, c: Word)
    requires |was| == |now| && j <= |was|
    requires now[..j] == was[..j]
    requires Val(now[j..]) + c * Pow(|was| - j) == l + Val(was[j..])
    requires Val(was) + l * Pow(j) < Pow(|was|)
    ensures Val(now) == Val(was) + l * Pow(j)
  {
    hide Val, Pow;
    ValAt(was, j);
    ValAt(now, j);
    PowAdd(j, |was| - j);
    CellStep(Val(was[..j]), Pow(j), Val(now[j..]), c, Pow(|was| - j), l, Val(was[j..]));
  }

  lemma CellStep(low: int, p: int, now: int, c: int, q: int, l: int, was: int)
    requires 0 <= low && 0 < p && 0 < q && 0 <= now && 0 <= c
    requires now + c * q == l + was
    requires low + p * was + l * p < p * q
    ensures low + p * now == low + p * was + l * p
  {
    assert p * (now + c * q) == p * now + p * (c * q);
    assert p * (l + was) == l * p + p * was;
    Associate(p, c, q);
    MulMonotone(0, now, p);
    Commute(now, p);
    if c >= 1 {
      MulMonotone(0, p, q);
      MulMonotone(1, c, p * q);
      assert false;
    }
  }

  lemma MulRegroup(c: int, x: int, w: int, y: int, p: int, q: int)
    ensures c + x * y * q + w * y * (p * q) == c + (x + w * p) * y * q
  {
    assert (x + w * p) * y == x * y + w * p * y;
    assert (x * y + w * p * y) * q == x * y * q + w * p * y * q;
    assert w * p * y * q == w * y * (p * q);
  }

  /** r is the product of xs with the first k words of ys. */
  ghost predicate Rows(xs: seq<Word>, ys: seq<Word>, k: nat, r: seq<Word>)
    requires k <= |ys|
  {
    Val(r) == Val(xs) * Val(ys[..k])
  }

  /** Rows, and on top the first n words of xs times word k of ys. */
  ghost predicate Cells(xs: seq<Word>, ys: seq<Word>, k: nat, n: nat, r: seq<Word>)
    requires k < |ys| && n <= |xs|
  {
    Val(r) == Val(xs) * Val(ys[..k]) + Val(xs[..n]) * ys[k] * Pow(k)
  }

  lemma RowBegins(xs: seq<Word>, ys: seq<Word>, k: nat, r: seq<Word>)
    requires k < |ys| && Rows(xs, ys, k, r)
    ensures Cells(xs, ys, k, 0, r)
  {
    assert xs[..0] == [];
  }

  lemma RowEnds(xs: seq<Word>, ys: seq<Word>, k: nat, r: seq<Word>)
    requires k < |ys| && Cells(xs, ys, k, |xs|, r)
    ensures Rows(xs, ys, k + 1, r)
  {
    hide Val, Pow;
    assert xs[..|xs|] == xs;
    ValPrefixStep(ys, k);
    Distribute(Val(xs), Val(ys[..k]), ys[k], Pow(k));
  }

  lemma Distribute(x: int, y: int, w: int, p: int)
    ensures x * (y + w * p) == x * y + x * w * p
  {
    assert x * (w * p) == x * w * p;
  }

  lemma CellAdded(xs: seq<Word>, ys: seq<Word>, k: nat, n: nat, l: nat, carry: Word, was: seq<Word>, now: seq<Word>)
    requires |xs| == |ys| && n < |xs| && k < |ys|
    requires |was| == |now| == 2 * |xs|
    requires l == (xs[n] as int) * (ys[k] as int)
    requires Cells(xs, ys, k, n, was)
    requires SameOutside(was, now, n + k, 2 * |xs| - (n + k))
    requires Val(now[n + k..]) + carry * Pow(2 * |xs| - (n + k)) == l + Val(was[n + k..])
    ensures Cells(xs, ys, k, n + 1, now)
  {
    hide Val, Pow;
    PowAdd(n, k);
    ValPrefixStep(xs, n);
    MulRegroup(Val(xs) * Val(ys[..k]), Val(xs[..n]), xs[n], ys[k], Pow(n), Pow(k));
    MulCellBound(xs, ys, n, k);
    MulCellStep(was, now, n + k, l, carry);
  }

  /** Adds the two-word product l into result at word k, through the zeroed scratch array temp. */
  method AddProduct(l: Wide, k: nat, temp: array<Word>, result: array<Word>, size: nat)
    returns (carry: Word)
    requires k + 1 < size <= temp.Length && size <= result.Length && temp != result
    requires forall i | 0 <= i < size :: temp[i] == 0
    modifies temp, result
    ensures forall i | 0 <= i < size :: temp[i] == 0
    ensures Val(result[k..size]) + carry * Pow(size - k) == l + old(Val(result[k..size]))
    ensures SameOutside(old(result[..]), result[..], k, size - k)
  {
    hide Val, Pow;
    temp[k] := Low32(l);
    temp[k + 1] := High32(l);
    ValTwoWords(temp[k..size], l);
    carry := Add(temp, result, result, k, size - k);
    SetZero(temp, size);
  }

  /** Adds x * y[k] into result from word k on: one pass of the inner loop. */
  method AddRow(x: array<Word>, y: array<Word>, k: nat, temp: array<Word>, result: array<Word>, length: nat)
    requires k < length <= x.Length && length <= y.Length
    requires 2 * length <= temp.Length && 2 * length <= result.Length
    requires temp != result && temp != x && temp != y && result != x && result != y
    requires forall i | 0 <= i < 2 * length :: temp[i] == 0
    requires Rows(x[..length], y[..length], k, result[..2 * length])
    modifies temp, result
    ensures forall i | 0 <= i < 2 * length :: temp[i] == 0
    ensures Rows(x[..length], y[..length], k + 1, result[..2 * length])
    ensures SameOutside(old(result[..]), result[..], 0, 2 * length)
  {
    hide *;
    ghost var xs, ys := x[..length], y[..length];
    OutsideRefl(result[..], 2 * length);
    RowBegins(xs, ys, k, result[..2 * length]);
    for n := 0 to length
      invariant Cells(xs, ys, k, n, result[..2 * length])
      invariant forall i | 0 <= i < 2 * length :: temp[i] == 0
      invariant SameOutside(old(result[..]), result[..], 0, 2 * length)
    {
      ghost var whole := result[..];
      MulBound(x[n], y[k], 0xFFFF_FFFF, 0xFFFF_FFFF);
      var l: Wide := (x[n] as int) * (y[k] as int);
      var carry := AddProduct(l, n + k, temp, result, length * 2);
      WindowChanged(old(result[..]), whole, result[..], n + k, 2 * length);
      CellAdded(xs, ys, k, n, l, carry, whole[..2 * length], result[..2 * length]);
    }
    RowEnds(xs, ys, k, result[..2 * length]);
  }

  /** Schoolbook multiplication: result (2 * length words) := x * y. */
  method FieldMult(x: array<Word>, y: array<Word>, result: array<Word>, length: nat)
    requires length <= 9
    requires length <= x.Length && length <= y.Length && 2 * length <= result.Length
    requires result != x && result != y
    modifies result
    ensures Val(result[..2 * length]) == Val(x[..length]) * Val(y[..length])
    ensures SameOutside(old(result[..]), result[..], 0, 2 * length)
  {
    var temp := new Word[18];
    SetZero(temp, length * 2);
    SetZero(result, length * 2);
    RowsStart(x[..length], y[..length], result[..2 * length]);
    for k := 0 to length
      invariant Rows(x[..length], y[..length], k, result[..2 * length])
      invariant forall i | 0 <= i < 2 * length :: temp[i] == 0
      invariant SameOutside(old(result[..]), result[..], 0, 2 * length)
    {
      hide Rows, Val;
      AddRow(x, y, k, temp, result, length);
    }
    RowsDone(x[..length], y[..length], result[..2 * length]);
  }

  lemma RowsStart(xs: seq<Word>, ys: seq<Word>, r: seq<Word>)
    requires Val(r) == 0
    ensures Rows(xs, ys, 0, r)
  {
    assert ys[..0] == [];
  }

  lemma OutsideRefl(s: seq<Word>, size: nat)
    ensures SameOutside(s, s, 0, size)
  {
  }

  lemma RowsDone(xs: seq<Word>, ys: seq<Word>, r: seq<Word>)
    requires Rows(xs, ys, |ys|, r)
    ensures Val(r) == Val(xs) * Val(ys)
  {
    assert ys[..|ys|] == ys;
  }

  lemma WindowChanged(first: seq<Word>, was: seq<Word>, now: seq<Word>, from: nat, size: nat)
    requires from <= size <= |was|
    requires SameOutside(first, was, 0, size)
    requires SameOutside(was, now, from, size - from)
    ensures SameOutside(first, now, 0, size)
    ensures SameOutside(was[..size], now[..size], from, size - from)
    ensures was[..size][from..] == was[from..size] && now[..size][from..] == now[from..size]
  {
  }
}
