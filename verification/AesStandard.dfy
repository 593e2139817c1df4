/** FIPS 197 cell by cell: what the transformations of AES do to the byte in a given row and column. */
module AesStandard {
  import opened Bytes
  import opened AesSpec
  import opened Aes
  import opened AesKeys

  //////////////////////////////////////////////////////////////////////////////
  // Rows
  //////////////////////////////////////////////////////////////////////////////

  function InColumn(c: Col, r: nat): Byte
    requires r < 4
  {
    if r == 0 then c.b0 else if r == 1 then c.b1 else if r == 2 then c.b2 else c.b3
  }

  /** A row of a state. */
  function Row(s: State, r: nat): (row: seq<Byte>)
    requires r < 4
    ensures |row| == 4
  {
    [InColumn(s.c0, r), InColumn(s.c1, r), InColumn(s.c2, r), InColumn(s.c3, r)]
  }

  /** Section 3.4: the input runs down the columns, and so does the output. */
  lemma RowsOfBlock(b: Block)
    ensures Row(StateOf(b), 0) == [b[0], b[4], b[8], b[12]] && Row(StateOf(b), 1) == [b[1], b[5], b[9], b[13]]
    ensures Row(StateOf(b), 2) == [b[2], b[6], b[10], b[14]] && Row(StateOf(b), 3) == [b[3], b[7], b[11], b[15]]
  {
  }

  /** ShiftRows turns row r by r places to the left, and its inverse turns it back. */
  lemma ShiftedRow(s: State, r: nat)
    requires r < 4
    ensures Row(ShiftRows(s), r) == Row(s, r)[r..] + Row(s, r)[..r]
    ensures Row(InvShiftRows(s), r) == Row(s, r)[4 - r..] + Row(s, r)[..4 - r]
  {
    if r == 0 {
    } else if r == 1 {
    } else if r == 2 {
    } else {
    }
  }

  /** SubBytes replaces every byte by its image. */
  lemma SubstitutedRow(f: Byte -> Byte, s: State, r: nat)
    requires r < 4
    ensures Row(SubBytes(f, s), r) == [f(Row(s, r)[0]), f(Row(s, r)[1]), f(Row(s, r)[2]), f(Row(s, r)[3])]
  {
  }

  //////////////////////////////////////////////////////////////////////////////
  // Multiplication in the field
  //////////////////////////////////////////////////////////////////////////////

  /** Multiplication by x, section 4.2.1: a shift, reduced by the polynomial 0x11b. */
  lemma XtimeReduces(b: Byte)
    ensures Xtime(b) as bv16 == ((b as bv16) << 1) ^ (if b & 0x80 != 0 then 0x11b else 0)
  {
  }

  function Term(a: Byte, bit: Byte, x: Byte): Byte {
    if a & bit != 0 then x else 0
  }

  /** Multiplication by a polynomial of degree at most 3: the sum of the multiples by its powers of x. */
  function Times(a: Byte, x: Byte): Byte {
    Term(a, 1, x) ^ Term(a, 2, Xtime(x)) ^ Term(a, 4, Xtime(Xtime(x))) ^ Term(a, 8, Xtime(Xtime(Xtime(x))))
  }

  lemma SmallMultiples(x: Byte)
    ensures Xtime(x) == Times(2, x) && By3(x) == Times(3, x) && x == Times(1, x)
  {
    hide Xtime;
  }

  lemma TwoFactors(x: Byte)
    ensures By9(x) == Times(9, x)
  {
    hide Xtime;
  }

  lemma MultipleB(x: Byte)
    ensures ByB(x) == Times(0xb, x)
  {
    XtimePlus(Xtime(Xtime(x)), x);
    hide Xtime;
  }

  lemma MultipleD(x: Byte)
    ensures ByD(x) == Times(0xd, x)
  {
    XtimePlus(Xtime(x), x);
    XtimePlus(Xtime(Xtime(x)), Xtime(x));
    hide Xtime;
  }

  lemma MultipleE(x: Byte)
    ensures ByE(x) == Times(0xe, x)
  {
    XtimePlus(Xtime(x), x);
    XtimePlus(Xtime(Xtime(x)), Xtime(x));
    XtimePlus(Xtime(Plus(Xtime(x), x)), x);
    XtimePlus(Plus(Xtime(Xtime(x)), Xtime(x)), x);
    hide Xtime;
  }

  /** MixColumns by the matrix of section 5.1.3. */
  lemma MixMatrix(c: Col)
    ensures Mix(c).b0 == Plus4(Times(2, c.b0), Times(3, c.b1), Times(1, c.b2), Times(1, c.b3))
    ensures Mix(c).b1 == Plus4(Times(1, c.b0), Times(2, c.b1), Times(3, c.b2), Times(1, c.b3))
    ensures Mix(c).b2 == Plus4(Times(1, c.b0), Times(1, c.b1), Times(2, c.b2), Times(3, c.b3))
    ensures Mix(c).b3 == Plus4(Times(3, c.b0), Times(1, c.b1), Times(1, c.b2), Times(2, c.b3))
  {
    SmallMultiples(c.b0);
    SmallMultiples(c.b1);
    SmallMultiples(c.b2);
    SmallMultiples(c.b3);
    hide Times, Xtime, By3, Plus4;
  }

  lemma Multiples(x: Byte)
    ensures By9(x) == Times(9, x) && ByB(x) == Times(0xb, x) && ByD(x) == Times(0xd, x) && ByE(x) == Times(0xe, x)
  {
    hide *;
    TwoFactors(x);
    MultipleB(x);
    MultipleD(x);
    MultipleE(x);
  }

  /** InvMixColumns by the matrix of section 5.3.3. */
  lemma UnmixMatrix(c: Col)
    ensures InvMix(c).b0 == Plus4(Times(0xe, c.b0), Times(0xb, c.b1), Times(0xd, c.b2), Times(9, c.b3))
    ensures InvMix(c).b1 == Plus4(Times(9, c.b0), Times(0xe, c.b1), Times(0xb, c.b2), Times(0xd, c.b3))
    ensures InvMix(c).b2 == Plus4(Times(0xd, c.b0), Times(9, c.b1), Times(0xe, c.b2), Times(0xb, c.b3))
    ensures InvMix(c).b3 == Plus4(Times(0xb, c.b0), Times(0xd, c.b1), Times(9, c.b2), Times(0xe, c.b3))
  {
    Multiples(c.b0);
    Multiples(c.b1);
    Multiples(c.b2);
    Multiples(c.b3);
    hide Times, By9, ByB, ByD, ByE, Plus4;
  }

  //////////////////////////////////////////////////////////////////////////////
  // Tables and keys
  //////////////////////////////////////////////////////////////////////////////

  /** What the tables are: each byte's share of a mixed column, by the place it is looked up for. */
  lemma TablesAreShares(t: Tables, box: Box, x: Byte)
    requires Encrypts(t, box)
    ensures ColOf(t.te0(x)) == Mix(Col(box.s(x), 0, 0, 0)) && ColOf(t.te1(x)) == Mix(Col(0, box.s(x), 0, 0))
    ensures ColOf(t.te2(x)) == Mix(Col(0, 0, box.s(x), 0)) && ColOf(t.te3(x)) == Mix(Col(0, 0, 0, box.s(x)))
    ensures ColOf(t.te4(x)) == Col(box.s(x), box.s(x), box.s(x), box.s(x))
  {
    assert TeAt(t, box, x);
    ZeroShares(box.s(x));
    hide Mix, Mix0, Mix1, Mix2, Mix3, ColOf;
  }

  lemma ZeroShares(s: Byte)
    ensures Mix(Col(s, 0, 0, 0)) == Mix0(s) && Mix(Col(0, s, 0, 0)) == Mix1(s)
    ensures Mix(Col(0, 0, s, 0)) == Mix2(s) && Mix(Col(0, 0, 0, s)) == Mix3(s)
  {
  }

  lemma InverseTablesAreShares(t: Tables, box: Box, x: Byte)
    requires Decrypts(t, box)
    ensures ColOf(t.td0(x)) == InvMix(Col(box.si(x), 0, 0, 0)) && ColOf(t.td1(x)) == InvMix(Col(0, box.si(x), 0, 0))
    ensures ColOf(t.td2(x)) == InvMix(Col(0, 0, box.si(x), 0)) && ColOf(t.td3(x)) == InvMix(Col(0, 0, 0, box.si(x)))
    ensures ColOf(t.td4(x)) == Col(box.si(x), box.si(x), box.si(x), box.si(x))
  {
    assert TdAt(t, box, x);
    ZeroUnmixed(box.si(x));
    hide InvMix, Unmix0Of, Unmix1Of, Unmix2Of, Unmix3Of, ColOf;
  }

  lemma ZeroMultiples()
    ensures By9(0) == 0 && ByB(0) == 0 && ByD(0) == 0 && ByE(0) == 0
  {
  }

  lemma ZeroUnmixed(s: Byte)
    ensures InvMix(Col(s, 0, 0, 0)) == Unmix0Of(s) && InvMix(Col(0, s, 0, 0)) == Unmix1Of(s)
    ensures InvMix(Col(0, 0, s, 0)) == Unmix2Of(s) && InvMix(Col(0, 0, 0, s)) == Unmix3Of(s)
  {
    ZeroMultiples();
    hide By9, ByB, ByD, ByE;
  }

  lemma FirstColumnPlus(four: Col, last: Col, f: Byte -> Byte, rc: Byte)
    ensures ColPlus(four, ColPlus(SubCol(f, RotWord(last)), Col(rc, 0, 0, 0)))
         == Col(Plus(four.b0, Plus(f(last.b1), rc)), Plus(four.b1, f(last.b2)), Plus(four.b2, f(last.b3)),
                Plus(four.b3, f(last.b0)))
  {
    PlusLaws(f(last.b2), 0, 0);
    PlusLaws(f(last.b3), 0, 0);
    PlusLaws(f(last.b0), 0, 0);
    hide Plus;
  }

  /** Section 5.2: each word of the schedule, byte by byte, from the one before and the one four back. */
  lemma KeyWordBytes(box: Box, key: seq<Col>, i: nat)
    requires |key| == 4
    ensures var four, last := Expand(box, key, i), Expand(box, key, i + 3);
            Expand(box, key, i + 4)
            == if i % 4 != 0 then ColPlus(four, last)
               else Col(Plus(four.b0, Plus(box.s(last.b1), RconByte(i / 4))), Plus(four.b1, box.s(last.b2)),
                        Plus(four.b2, box.s(last.b3)), Plus(four.b3, box.s(last.b0)))
  {
    ExpandStep(box, key, i + 4);
    FirstColumnPlus(Expand(box, key, i), Expand(box, key, i + 3), box.s, RconByte(i / 4));
    hide Expand, RconByte, ColPlus, SubCol, RotWord, Plus;
  }

  /** The first four words are the key itself. */
  lemma FirstKeyWords(box: Box, key: Block)
    ensures Expand(box, KeyCols(key), 0) == Col(key[0], key[1], key[2], key[3])
    ensures Expand(box, KeyCols(key), 1) == Col(key[4], key[5], key[6], key[7])
    ensures Expand(box, KeyCols(key), 2) == Col(key[8], key[9], key[10], key[11])
    ensures Expand(box, KeyCols(key), 3) == Col(key[12], key[13], key[14], key[15])
  {
  }
}
