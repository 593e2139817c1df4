/** FIPS 197 over any S-box with an inverse: the cipher, its inverse, and the equivalent inverse. */
module AesSpec {
  import opened Bytes

  //////////////////////////////////////////////////////////////////////////////
  // Columns and states
  //////////////////////////////////////////////////////////////////////////////

  datatype Col = Col(b0: Byte, b1: Byte, b2: Byte, b3: Byte)

  datatype State = State(c0: Col, c1: Col, c2: Col, c3: Col)

  /** Addition in the field, section 4.1. */
  function Plus(a: Byte, b: Byte): Byte {
    a ^ b
  }

  function Plus4(a: Byte, b: Byte, c: Byte, d: Byte): Byte {
    Plus(Plus(Plus(a, b), c), d)
  }

  function ColPlus(a: Col, b: Col): Col {
    Col(Plus(a.b0, b.b0), Plus(a.b1, b.b1), Plus(a.b2, b.b2), Plus(a.b3, b.b3))
  }

  /** AddRoundKey, section 5.1.4. */
  function AddRoundKey(s: State, k: State): State {
    State(ColPlus(s.c0, k.c0), ColPlus(s.c1, k.c1), ColPlus(s.c2, k.c2), ColPlus(s.c3, k.c3))
  }

  /** The S-box and its inverse. */
  datatype Box = Box(s: Byte -> Byte, si: Byte -> Byte)

  ghost predicate Inverse(box: Box) {
    forall x: Byte :: box.si(box.s(x)) == x
  }

  function SubCol(f: Byte -> Byte, c: Col): Col {
    Col(f(c.b0), f(c.b1), f(c.b2), f(c.b3))
  }

  /** SubBytes, section 5.1.1, and InvSubBytes, section 5.3.2, by the box they are given. */
  function SubBytes(f: Byte -> Byte, s: State): State {
    State(SubCol(f, s.c0), SubCol(f, s.c1), SubCol(f, s.c2), SubCol(f, s.c3))
  }

  /** ShiftRows, section 5.1.2: row r moves r places to the left. */
  function ShiftRows(s: State): State {
    State(Col(s.c0.b0, s.c1.b1, s.c2.b2, s.c3.b3), Col(s.c1.b0, s.c2.b1, s.c3.b2, s.c0.b3),
          Col(s.c2.b0, s.c3.b1, s.c0.b2, s.c1.b3), Col(s.c3.b0, s.c0.b1, s.c1.b2, s.c2.b3))
  }

  /** InvShiftRows, section 5.3.1. */
  function InvShiftRows(s: State): State {
    State(Col(s.c0.b0, s.c3.b1, s.c2.b2, s.c1.b3), Col(s.c1.b0, s.c0.b1, s.c3.b2, s.c2.b3),
          Col(s.c2.b0, s.c1.b1, s.c0.b2, s.c3.b3), Col(s.c3.b0, s.c2.b1, s.c1.b2, s.c0.b3))
  }

  //////////////////////////////////////////////////////////////////////////////
  // Multiplication in the field, section 4.2
  //////////////////////////////////////////////////////////////////////////////

  function Xtime(b: Byte): Byte {
    (b << 1) ^ (if b & 0x80 != 0 then 0x1b else 0)
  }

  function By3(x: Byte): Byte {
    Plus(Xtime(x), x)
  }

  function By9(x: Byte): Byte {
    Plus(Xtime(Xtime(Xtime(x))), x)
  }

  function ByB(x: Byte): Byte {
    Plus(Xtime(Plus(Xtime(Xtime(x)), x)), x)
  }

  function ByD(x: Byte): Byte {
    Plus(Xtime(Xtime(Plus(Xtime(x), x))), x)
  }

  function ByE(x: Byte): Byte {
    Xtime(Plus(Xtime(Plus(Xtime(x), x)), x))
  }

  /** One column of MixColumns, section 5.1.3. */
  function Mix(c: Col): Col {
    Col(Plus4(Xtime(c.b0), By3(c.b1), c.b2, c.b3), Plus4(c.b0, Xtime(c.b1), By3(c.b2), c.b3),
        Plus4(c.b0, c.b1, Xtime(c.b2), By3(c.b3)), Plus4(By3(c.b0), c.b1, c.b2, Xtime(c.b3)))
  }

  /** One column of InvMixColumns, section 5.3.3. */
  function InvMix(c: Col): Col {
    Col(Plus4(ByE(c.b0), ByB(c.b1), ByD(c.b2), By9(c.b3)), Plus4(By9(c.b0), ByE(c.b1), ByB(c.b2), ByD(c.b3)),
        Plus4(ByD(c.b0), By9(c.b1), ByE(c.b2), ByB(c.b3)), Plus4(ByB(c.b0), ByD(c.b1), By9(c.b2), ByE(c.b3)))
  }

  function MixColumns(s: State): State {
    State(Mix(s.c0), Mix(s.c1), Mix(s.c2), Mix(s.c3))
  }

  function InvMixColumns(s: State): State {
    State(InvMix(s.c0), InvMix(s.c1), InvMix(s.c2), InvMix(s.c3))
  }

  lemma PlusLaws(a: Byte, b: Byte, c: Byte)
    ensures Plus(a, b) == Plus(b, a)
    ensures Plus(Plus(a, b), c) == Plus(a, Plus(b, c))
    ensures Plus(a, 0) == a && Plus(a, a) == 0
  {
  }

  lemma PlusSwap(p: Byte, q: Byte, a: Byte, b: Byte)
    ensures Plus(Plus(p, q), Plus(a, b)) == Plus(Plus(p, a), Plus(q, b))
  {
    hide Plus;
    PlusLaws(Plus(p, q), a, b);
    PlusLaws(p, q, a);
    PlusLaws(q, a, b);
    PlusLaws(a, q, b);
    PlusLaws(p, a, q);
    PlusLaws(Plus(p, a), q, b);
  }

  function Sum(c: Col): Byte {
    Plus4(c.b0, c.b1, c.b2, c.b3)
  }

  lemma SumPlus(a: Col, b: Col)
    ensures Sum(ColPlus(a, b)) == Plus(Sum(a), Sum(b))
  {
    hide Plus;
    PlusSwap(a.b0, b.b0, a.b1, b.b1);
    PlusSwap(Plus(a.b0, a.b1), Plus(b.b0, b.b1), a.b2, b.b2);
    PlusSwap(Plus(Plus(a.b0, a.b1), a.b2), Plus(Plus(b.b0, b.b1), b.b2), a.b3, b.b3);
  }

  lemma XtimePlus(a: Byte, b: Byte)
    ensures Xtime(Plus(a, b)) == Plus(Xtime(a), Xtime(b))
  {
    assert (a ^ b) & 0x80 == (a & 0x80) ^ (b & 0x80);
    assert (a ^ b) << 1 == (a << 1) ^ (b << 1);
    assert a & 0x80 == 0 || a & 0x80 == 0x80;
    assert b & 0x80 == 0 || b & 0x80 == 0x80;
  }

  lemma By9Plus(a: Byte, b: Byte)
    ensures By9(Plus(a, b)) == Plus(By9(a), By9(b))
  {
    hide Plus, Xtime;
    XtimePlus(a, b);
    XtimePlus(Xtime(a), Xtime(b));
    XtimePlus(Xtime(Xtime(a)), Xtime(Xtime(b)));
    PlusSwap(Xtime(Xtime(Xtime(a))), Xtime(Xtime(Xtime(b))), a, b);
  }

  lemma ByBPlus(a: Byte, b: Byte)
    ensures ByB(Plus(a, b)) == Plus(ByB(a), ByB(b))
  {
    hide Plus, Xtime;
    XtimePlus(a, b);
    XtimePlus(Xtime(a), Xtime(b));
    PlusSwap(Xtime(Xtime(a)), Xtime(Xtime(b)), a, b);
    XtimePlus(Plus(Xtime(Xtime(a)), a), Plus(Xtime(Xtime(b)), b));
    PlusSwap(Xtime(Plus(Xtime(Xtime(a)), a)), Xtime(Plus(Xtime(Xtime(b)), b)), a, b);
  }

  lemma By3Plus(a: Byte, b: Byte)
    ensures By3(Plus(a, b)) == Plus(By3(a), By3(b))
  {
    hide Plus, Xtime;
    XtimePlus(a, b);
    PlusSwap(Xtime(a), Xtime(b), a, b);
  }

  lemma ByDPlus(a: Byte, b: Byte)
    ensures ByD(Plus(a, b)) == Plus(ByD(a), ByD(b))
  {
    hide Plus, Xtime;
    By3Plus(a, b);
    XtimePlus(By3(a), By3(b));
    XtimePlus(Xtime(By3(a)), Xtime(By3(b)));
    PlusSwap(Xtime(Xtime(By3(a))), Xtime(Xtime(By3(b))), a, b);
  }

  lemma ByEPlus(a: Byte, b: Byte)
    ensures ByE(Plus(a, b)) == Plus(ByE(a), ByE(b))
  {
    hide Plus, Xtime;
    By3Plus(a, b);
    XtimePlus(By3(a), By3(b));
    PlusSwap(Xtime(By3(a)), Xtime(By3(b)), a, b);
    XtimePlus(Plus(Xtime(By3(a)), a), Plus(Xtime(By3(b)), b));
  }

  lemma MultiplesPlus(a: Byte, b: Byte)
    ensures By9(Plus(a, b)) == Plus(By9(a), By9(b)) && ByB(Plus(a, b)) == Plus(ByB(a), ByB(b))
    ensures ByD(Plus(a, b)) == Plus(ByD(a), ByD(b)) && ByE(Plus(a, b)) == Plus(ByE(a), ByE(b))
  {
    hide *;
    By9Plus(a, b);
    ByBPlus(a, b);
    ByDPlus(a, b);
    ByEPlus(a, b);
  }

  function Row0(c: Col): Col {
    Col(ByE(c.b0), ByB(c.b1), ByD(c.b2), By9(c.b3))
  }

  function Row1(c: Col): Col {
    Col(By9(c.b0), ByE(c.b1), ByB(c.b2), ByD(c.b3))
  }

  function Row2(c: Col): Col {
    Col(ByD(c.b0), By9(c.b1), ByE(c.b2), ByB(c.b3))
  }

  function Row3(c: Col): Col {
    Col(ByB(c.b0), ByD(c.b1), By9(c.b2), ByE(c.b3))
  }

  lemma RowsPlus(x: Col, y: Col)
    ensures Row0(ColPlus(x, y)) == ColPlus(Row0(x), Row0(y)) && Row1(ColPlus(x, y)) == ColPlus(Row1(x), Row1(y))
    ensures Row2(ColPlus(x, y)) == ColPlus(Row2(x), Row2(y)) && Row3(ColPlus(x, y)) == ColPlus(Row3(x), Row3(y))
  {
    hide Plus, By9, ByB, ByD, ByE;
    MultiplesPlus(x.b0, y.b0);
    MultiplesPlus(x.b1, y.b1);
    MultiplesPlus(x.b2, y.b2);
    MultiplesPlus(x.b3, y.b3);
  }

  lemma InvMixRows(c: Col)
    ensures InvMix(c) == Col(Sum(Row0(c)), Sum(Row1(c)), Sum(Row2(c)), Sum(Row3(c)))
  {
    hide Plus4, By9, ByB, ByD, ByE;
  }

  /** InvMixColumns is linear. */
  lemma InvMixPlus(x: Col, y: Col)
    ensures InvMix(ColPlus(x, y)) == ColPlus(InvMix(x), InvMix(y))
  {
    InvMixRows(x);
    InvMixRows(y);
    InvMixRows(ColPlus(x, y));
    RowsPlus(x, y);
    SumPlus(Row0(x), Row0(y));
    SumPlus(Row1(x), Row1(y));
    SumPlus(Row2(x), Row2(y));
    SumPlus(Row3(x), Row3(y));
    hide Plus, Sum, Row0, Row1, Row2, Row3, InvMix;
  }

  //////////////////////////////////////////////////////////////////////////////
  // InvMixColumns undoes MixColumns
  //////////////////////////////////////////////////////////////////////////////

  /** What each byte of a column contributes to the mixed column. */
  function Mix0(x: Byte): Col {
    Col(Xtime(x), x, x, By3(x))
  }

  function Mix1(x: Byte): Col {
    Col(By3(x), Xtime(x), x, x)
  }

  function Mix2(x: Byte): Col {
    Col(x, By3(x), Xtime(x), x)
  }

  function Mix3(x: Byte): Col {
    Col(x, x, By3(x), Xtime(x))
  }

  function ColPlus4(a: Col, b: Col, c: Col, d: Col): Col {
    ColPlus(ColPlus(ColPlus(a, b), c), d)
  }

  lemma MixParts(c: Col)
    ensures Mix(c) == ColPlus4(Mix0(c.b0), Mix1(c.b1), Mix2(c.b2), Mix3(c.b3))
  {
    hide Plus, Xtime, By3;
  }

  lemma Unmix0(x: Byte)
    ensures InvMix(Mix0(x)) == Col(x, 0, 0, 0)
  {
  }

  lemma Unmix1(x: Byte)
    ensures InvMix(Mix1(x)) == Col(0, x, 0, 0)
  {
  }

  lemma Unmix2(x: Byte)
    ensures InvMix(Mix2(x)) == Col(0, 0, x, 0)
  {
  }

  lemma Unmix3(x: Byte)
    ensures InvMix(Mix3(x)) == Col(0, 0, 0, x)
  {
  }

  lemma UnmixParts(c: Col)
    ensures ColPlus4(Col(c.b0, 0, 0, 0), Col(0, c.b1, 0, 0), Col(0, 0, c.b2, 0), Col(0, 0, 0, c.b3)) == c
  {
    hide Plus;
    PlusLaws(0, 0, 0);
    PlusLaws(c.b0, 0, 0);
    PlusLaws(c.b1, 0, 0);
    PlusLaws(c.b2, 0, 0);
    PlusLaws(c.b3, 0, 0);
  }

  /** InvMixColumns undoes MixColumns. */
  lemma InvMixMix(c: Col)
    ensures InvMix(Mix(c)) == c
  {
    var a, b, d, e := Mix0(c.b0), Mix1(c.b1), Mix2(c.b2), Mix3(c.b3);
    MixParts(c);
    InvMixPlus(ColPlus(ColPlus(a, b), d), e);
    InvMixPlus(ColPlus(a, b), d);
    InvMixPlus(a, b);
    Unmix0(c.b0);
    Unmix1(c.b1);
    Unmix2(c.b2);
    Unmix3(c.b3);
    UnmixParts(c);
    hide Mix, InvMix, Mix0, Mix1, Mix2, Mix3, ColPlus;
  }

  //////////////////////////////////////////////////////////////////////////////
  // The cipher and its inverses
  //////////////////////////////////////////////////////////////////////////////

  /** The state after a number of full rounds of section 5.1. */
  function Rounds(box: Box, keys: seq<State>, s: State, n: nat): State
    requires n < |keys|
  {
    if n == 0 then AddRoundKey(s, keys[0])
    else AddRoundKey(MixColumns(ShiftRows(SubBytes(box.s, Rounds(box, keys, s, n - 1)))), keys[n])
  }

  /** The cipher of section 5.1; the last round has no MixColumns. */
  function Cipher(box: Box, keys: seq<State>, s: State): State
    requires |keys| >= 2
  {
    var last := |keys| - 1;
    AddRoundKey(ShiftRows(SubBytes(box.s, Rounds(box, keys, s, last - 1))), keys[last])
  }

  /** The state after a number of rounds of the inverse cipher of section 5.3. */
  function InvRounds(box: Box, keys: seq<State>, s: State, n: nat): State
    requires n < |keys|
  {
    var last := |keys| - 1;
    if n == 0 then AddRoundKey(s, keys[last])
    else InvMixColumns(AddRoundKey(SubBytes(box.si, InvShiftRows(InvRounds(box, keys, s, n - 1))), keys[last - n]))
  }

  function InvCipher(box: Box, keys: seq<State>, s: State): State
    requires |keys| >= 2
  {
    AddRoundKey(SubBytes(box.si, InvShiftRows(InvRounds(box, keys, s, |keys| - 2))), keys[0])
  }

  /** The state after a number of rounds of the equivalent inverse cipher of section 5.3.5. */
  function EqInvRounds(box: Box, keys: seq<State>, s: State, n: nat): State
    requires n < |keys|
  {
    if n == 0 then AddRoundKey(s, keys[0])
    else AddRoundKey(InvMixColumns(InvShiftRows(SubBytes(box.si, EqInvRounds(box, keys, s, n - 1)))), keys[n])
  }

  function EqInvCipher(box: Box, keys: seq<State>, s: State): State
    requires |keys| >= 2
  {
    var last := |keys| - 1;
    AddRoundKey(InvShiftRows(SubBytes(box.si, EqInvRounds(box, keys, s, last - 1))), keys[last])
  }

  /** The decryption keys: the encryption keys backwards, all but the outer two through InvMixColumns. */
  function DecKeys(keys: seq<State>): (d: seq<State>)
    requires |keys| >= 2
    ensures |d| == |keys|
  {
    seq(|keys|, i requires 0 <= i < |keys| =>
      if i == 0 || i == |keys| - 1 then keys[|keys| - 1 - i] else InvMixColumns(keys[|keys| - 1 - i]))
  }

  lemma ColCancel(c: Col, k: Col)
    ensures ColPlus(ColPlus(c, k), k) == c
  {
    hide Plus;
    ByteCancel(c.b0, k.b0);
    ByteCancel(c.b1, k.b1);
    ByteCancel(c.b2, k.b2);
    ByteCancel(c.b3, k.b3);
  }

  lemma ByteCancel(c: Byte, k: Byte)
    ensures Plus(Plus(c, k), k) == c
  {
  }

  /** Adding a round key twice changes nothing. */
  lemma KeyCancels(s: State, k: State)
    ensures AddRoundKey(AddRoundKey(s, k), k) == s
  {
    hide ColPlus;
    ColCancel(s.c0, k.c0);
    ColCancel(s.c1, k.c1);
    ColCancel(s.c2, k.c2);
    ColCancel(s.c3, k.c3);
  }

  lemma MixCancels(s: State)
    ensures InvMixColumns(MixColumns(s)) == s
  {
    hide Mix, InvMix;
    InvMixMix(s.c0);
    InvMixMix(s.c1);
    InvMixMix(s.c2);
    InvMixMix(s.c3);
  }

  lemma MixOverKey(s: State, k: State)
    ensures InvMixColumns(AddRoundKey(s, k)) == AddRoundKey(InvMixColumns(s), InvMixColumns(k))
  {
    hide InvMix, ColPlus;
    InvMixPlus(s.c0, k.c0);
    InvMixPlus(s.c1, k.c1);
    InvMixPlus(s.c2, k.c2);
    InvMixPlus(s.c3, k.c3);
  }

  lemma SubColCancels(box: Box, c: Col)
    requires Inverse(box)
    ensures SubCol(box.si, SubCol(box.s, c)) == c
  {
  }

  /** Substitution and shifting back, in either order, undo substitution and shifting. */
  lemma SubShiftCancels(box: Box, s: State)
    requires Inverse(box)
    ensures SubBytes(box.si, InvShiftRows(ShiftRows(SubBytes(box.s, s)))) == s
    ensures InvShiftRows(SubBytes(box.si, ShiftRows(SubBytes(box.s, s)))) == s
  {
    SubColCancels(box, s.c0);
    SubColCancels(box, s.c1);
    SubColCancels(box, s.c2);
    SubColCancels(box, s.c3);
    hide Inverse;
    assert InvShiftRows(ShiftRows(SubBytes(box.s, s))) == SubBytes(box.s, s);
  }

  lemma SubShiftSwap(f: Byte -> Byte, s: State)
    ensures SubBytes(f, InvShiftRows(s)) == InvShiftRows(SubBytes(f, s))
  {
  }

  lemma DecKeyAt(keys: seq<State>, i: nat)
    requires 2 <= |keys| && i < |keys|
    ensures DecKeys(keys)[i]
         == if i == 0 || i == |keys| - 1 then keys[|keys| - 1 - i] else InvMixColumns(keys[|keys| - 1 - i])
  {
  }

  /** Working backwards meets the state that follows the substitution and shift of the matching round. */
  lemma {:induction false} InvRoundsMeet(box: Box, keys: seq<State>, s: State, n: nat)
    requires Inverse(box) && |keys| >= 2 && n <= |keys| - 2
    ensures InvRounds(box, keys, Cipher(box, keys, s), n)
         == ShiftRows(SubBytes(box.s, Rounds(box, keys, s, |keys| - 2 - n)))
  {
    hide Inverse, AddRoundKey, ShiftRows, InvShiftRows, SubBytes, MixColumns, InvMixColumns;
    var last := |keys| - 1;
    if n == 0 {
      KeyCancels(ShiftRows(SubBytes(box.s, Rounds(box, keys, s, last - 1))), keys[last]);
    } else {
      InvRoundsMeet(box, keys, s, n - 1);
      hide Cipher;
      var before := Rounds(box, keys, s, last - n);
      var deeper := ShiftRows(SubBytes(box.s, Rounds(box, keys, s, last - 1 - n)));
      SubShiftCancels(box, before);
      KeyCancels(MixColumns(deeper), keys[last - n]);
      MixCancels(deeper);
    }
  }

  /** The inverse cipher undoes the cipher. */
  lemma InvCipherUndoes(box: Box, keys: seq<State>, s: State)
    requires Inverse(box) && |keys| >= 2
    ensures InvCipher(box, keys, Cipher(box, keys, s)) == s
  {
    InvRoundsMeet(box, keys, s, |keys| - 2);
    SubShiftCancels(box, AddRoundKey(s, keys[0]));
    KeyCancels(s, keys[0]);
    hide Inverse, AddRoundKey, ShiftRows, InvShiftRows, SubBytes, Cipher, InvRounds;
  }

  lemma {:induction false} EquivalentRounds(box: Box, keys: seq<State>, s: State, n: nat)
    requires |keys| >= 2 && n <= |keys| - 2
    ensures EqInvRounds(box, DecKeys(keys), s, n) == InvRounds(box, keys, s, n)
  {
    hide AddRoundKey, InvShiftRows, SubBytes, InvMixColumns, DecKeys;
    DecKeyAt(keys, n);
    if n > 0 {
      EquivalentRounds(box, keys, s, n - 1);
      var t := InvRounds(box, keys, s, n - 1);
      SubShiftSwap(box.si, t);
      MixOverKey(SubBytes(box.si, InvShiftRows(t)), keys[|keys| - 1 - n]);
    }
  }

  /** The equivalent inverse cipher under the decryption keys is the inverse cipher. */
  lemma EquivalentInverse(box: Box, keys: seq<State>, s: State)
    requires |keys| >= 2
    ensures EqInvCipher(box, DecKeys(keys), s) == InvCipher(box, keys, s)
  {
    EquivalentRounds(box, keys, s, |keys| - 2);
    SubShiftSwap(box.si, InvRounds(box, keys, s, |keys| - 2));
    DecKeyAt(keys, |keys| - 1);
    hide AddRoundKey, InvShiftRows, SubBytes, DecKeys, InvRounds, EqInvRounds;
  }

  //////////////////////////////////////////////////////////////////////////////
  // Key expansion, section 5.2, for four key words
  //////////////////////////////////////////////////////////////////////////////

  function RotWord(c: Col): Col {
    Col(c.b1, c.b2, c.b3, c.b0)
  }

  /** The round constant's first byte: the powers of x. */
  function RconByte(j: nat): Byte {
    if j == 0 then 1 else Xtime(RconByte(j - 1))
  }

  /** The i-th word of the key schedule. */
  function Expand(box: Box, key: seq<Col>, i: nat): Col
    requires |key| == 4
  {
    if i < 4 then key[i]
    else
      var temp := Expand(box, key, i - 1);
      ColPlus(Expand(box, key, i - 4),
              if i % 4 == 0 then ColPlus(SubCol(box.s, RotWord(temp)), Col(RconByte(i / 4 - 1), 0, 0, 0)) else temp)
  }

  function RoundKey(box: Box, key: seq<Col>, r: nat): State
    requires |key| == 4
  {
    State(Expand(box, key, 4 * r), Expand(box, key, 4 * r + 1), Expand(box, key, 4 * r + 2), Expand(box, key,
        4 * r + 3))
  }

  function RoundKeys(box: Box, key: seq<Col>): (keys: seq<State>)
    requires |key| == 4
    ensures |keys| == 11
  {
    seq(11, r requires 0 <= r => RoundKey(box, key, r))
  }
}
