/** The table-driven cipher of aes.c, for tables that meet the equations the file documents. */
module Aes {
  import opened Bytes
  import opened AesSpec

  type Word = bv32

  //////////////////////////////////////////////////////////////////////////////
  // Words as columns
  //////////////////////////////////////////////////////////////////////////////

  function Byte0(w: Word): Byte {
    (w >> 24) as Byte
  }

  function Byte1(w: Word): Byte {
    ((w >> 16) & 0xff) as Byte
  }

  function Byte2(w: Word): Byte {
    ((w >> 8) & 0xff) as Byte
  }

  function Byte3(w: Word): Byte {
    (w & 0xff) as Byte
  }

  function ColOf(w: Word): Col {
    Col(Byte0(w), Byte1(w), Byte2(w), Byte3(w))
  }

  /** The word of four bytes, as GETU32 puts it together. */
  function WordOf(c: Col): Word {
    ((c.b0 as Word) << 24) ^ ((c.b1 as Word) << 16) ^ ((c.b2 as Word) << 8) ^ (c.b3 as Word)
  }

  function XorWords(a: Word, b: Word): Word {
    a ^ b
  }

  function Xor5(a: Word, b: Word, c: Word, d: Word, k: Word): Word {
    XorWords(XorWords(XorWords(XorWords(a, b), c), d), k)
  }

  lemma WordOfColumn(c: Col)
    ensures ColOf(WordOf(c)) == c
  {
  }

  lemma XorColumns(a: Word, b: Word)
    ensures ColOf(XorWords(a, b)) == ColPlus(ColOf(a), ColOf(b))
  {
  }

  lemma Xor5Columns(a: Word, b: Word, c: Word, d: Word, k: Word)
    ensures ColOf(Xor5(a, b, c, d, k)) == ColPlus(ColPlus4(ColOf(a), ColOf(b), ColOf(c), ColOf(d)), ColOf(k))
  {
    XorColumns(a, b);
    XorColumns(XorWords(a, b), c);
    XorColumns(XorWords(XorWords(a, b), c), d);
    XorColumns(XorWords(XorWords(XorWords(a, b), c), d), k);
    hide ColOf, ColPlus, XorWords;
  }

  /** The parts of a word that the masks of the last round keep. */
  lemma Masked(w: Word)
    ensures ColOf(w & 0xff000000) == Col(Byte0(w), 0, 0, 0) && ColOf(w & 0x00ff0000) == Col(0, Byte1(w), 0, 0)
    ensures ColOf(w & 0x0000ff00) == Col(0, 0, Byte2(w), 0) && ColOf(w & 0x000000ff) == Col(0, 0, 0, Byte3(w))
  {
  }

  function Four(w0: Word, w1: Word, w2: Word, w3: Word): State {
    State(ColOf(w0), ColOf(w1), ColOf(w2), ColOf(w3))
  }

  //////////////////////////////////////////////////////////////////////////////
  // Tables
  //////////////////////////////////////////////////////////////////////////////

  type Table = Byte -> Word

  datatype Tables = Tables(te0: Table, te1: Table, te2: Table, te3: Table, te4: Table,
                           td0: Table, td1: Table, td2: Table, td3: Table, td4: Table)

  /** What each byte of a column contributes to the column of InvMixColumns. */
  function Unmix0Of(x: Byte): Col {
    Col(ByE(x), By9(x), ByD(x), ByB(x))
  }

  function Unmix1Of(x: Byte): Col {
    Col(ByB(x), ByE(x), By9(x), ByD(x))
  }

  function Unmix2Of(x: Byte): Col {
    Col(ByD(x), ByB(x), ByE(x), By9(x))
  }

  function Unmix3Of(x: Byte): Col {
    Col(By9(x), ByD(x), ByB(x), ByE(x))
  }

  lemma InvMixParts(c: Col)
    ensures InvMix(c) == ColPlus4(Unmix0Of(c.b0), Unmix1Of(c.b1), Unmix2Of(c.b2), Unmix3Of(c.b3))
  {
    hide Plus, By9, ByB, ByD, ByE;
  }

  /** The documented equations of the encryption tables. */
  ghost predicate Encrypts(t: Tables, box: Box) {
    forall x: Byte :: TeAt(t, box, x)
  }

  predicate TeAt(t: Tables, box: Box, x: Byte) {
    var s := box.s(x);
    ColOf(t.te0(x)) == Mix0(s) && ColOf(t.te1(x)) == Mix1(s) && ColOf(t.te2(x)) == Mix2(s)
    && ColOf(t.te3(x)) == Mix3(s) && ColOf(t.te4(x)) == Col(s, s, s, s)
  }

  /** The documented equations of the decryption tables. */
  ghost predicate Decrypts(t: Tables, box: Box) {
    forall x: Byte :: TdAt(t, box, x)
  }

  predicate TdAt(t: Tables, box: Box, x: Byte) {
    var s := box.si(x);
    ColOf(t.td0(x)) == Unmix0Of(s) && ColOf(t.td1(x)) == Unmix1Of(s) && ColOf(t.td2(x)) == Unmix2Of(s)
    && ColOf(t.td3(x)) == Unmix3Of(s) && ColOf(t.td4(x)) == Col(s, s, s, s)
  }

  //////////////////////////////////////////////////////////////////////////////
  // One column of a round
  //////////////////////////////////////////////////////////////////////////////

  /** A table lookup per byte and the key word. */
  function Lookup(t0: Table, t1: Table, t2: Table, t3: Table, a: Word, b: Word, c: Word, d: Word, k: Word): Word {
    Xor5(t0(Byte0(a)), t1(Byte1(b)), t2(Byte2(c)), t3(Byte3(d)), k)
  }

  function LastLookup(t: Table, a: Word, b: Word, c: Word, d: Word, k: Word): Word {
    Xor5(t(Byte0(a)) & 0xff000000, t(Byte1(b)) & 0x00ff0000, t(Byte2(c)) & 0x0000ff00, t(Byte3(d)) & 0x000000ff, k)
  }

  lemma LookupMixes(t: Tables, box: Box, a: Word, b: Word, c: Word, d: Word, k: Word)
    requires Encrypts(t, box)
    ensures ColOf(Lookup(t.te0, t.te1, t.te2, t.te3, a, b, c, d, k))
         == ColPlus(Mix(SubCol(box.s, Col(Byte0(a), Byte1(b), Byte2(c), Byte3(d)))), ColOf(k))
  {
    assert TeAt(t, box, Byte0(a)) && TeAt(t, box, Byte1(b)) && TeAt(t, box, Byte2(c)) && TeAt(t, box, Byte3(d));
    Xor5Columns(t.te0(Byte0(a)), t.te1(Byte1(b)), t.te2(Byte2(c)), t.te3(Byte3(d)), k);
    MixParts(SubCol(box.s, Col(Byte0(a), Byte1(b), Byte2(c), Byte3(d))));
    hide Encrypts, ColOf, ColPlus4, ColPlus, Mix, Mix0, Mix1, Mix2, Mix3, Xor5, Byte0, Byte1, Byte2, Byte3;
  }

  lemma LookupUnmixes(t: Tables, box: Box, a: Word, b: Word, c: Word, d: Word, k: Word)
    requires Decrypts(t, box)
    ensures ColOf(Lookup(t.td0, t.td1, t.td2, t.td3, a, b, c, d, k))
         == ColPlus(InvMix(SubCol(box.si, Col(Byte0(a), Byte1(b), Byte2(c), Byte3(d)))), ColOf(k))
  {
    assert TdAt(t, box, Byte0(a)) && TdAt(t, box, Byte1(b)) && TdAt(t, box, Byte2(c)) && TdAt(t, box, Byte3(d));
    Xor5Columns(t.td0(Byte0(a)), t.td1(Byte1(b)), t.td2(Byte2(c)), t.td3(Byte3(d)), k);
    InvMixParts(SubCol(box.si, Col(Byte0(a), Byte1(b), Byte2(c), Byte3(d))));
    hide Decrypts, ColOf, ColPlus4, ColPlus, InvMix, Unmix0Of, Unmix1Of, Unmix2Of, Unmix3Of, Xor5, Byte0, Byte1,
        Byte2, Byte3;
  }

  /** A table whose words repeat one byte. */
  predicate Repeats(w: Word, s: Byte) {
    ColOf(w) == Col(s, s, s, s)
  }

  lemma LastLookupSubstitutes(t: Table, f: Byte -> Byte, a: Word, b: Word, c: Word, d: Word, k: Word)
    requires Repeats(t(Byte0(a)), f(Byte0(a))) && Repeats(t(Byte1(b)), f(Byte1(b)))
    requires Repeats(t(Byte2(c)), f(Byte2(c))) && Repeats(t(Byte3(d)), f(Byte3(d)))
    ensures ColOf(LastLookup(t, a, b, c, d, k))
         == ColPlus(SubCol(f, Col(Byte0(a), Byte1(b), Byte2(c), Byte3(d))), ColOf(k))
  {
    Masked(t(Byte0(a)));
    Masked(t(Byte1(b)));
    Masked(t(Byte2(c)));
    Masked(t(Byte3(d)));
    var u := SubCol(f, Col(Byte0(a), Byte1(b), Byte2(c), Byte3(d)));
    UnmixParts(u);
    Xor5Columns(t(Byte0(a)) & 0xff000000, t(Byte1(b)) & 0x00ff0000, t(Byte2(c)) & 0x0000ff00,
        t(Byte3(d)) & 0x000000ff, k);
    hide ColPlus4, ColPlus, Xor5, Byte0, Byte1, Byte2, Byte3;
  }

  /** A full round of the cipher, column by column. */
  lemma RoundLookups(t: Tables, box: Box, a: Word, b: Word, c: Word, d: Word, k0: Word, k1: Word, k2: Word, k3: Word)
    requires Encrypts(t, box)
    ensures Four(Lookup(t.te0, t.te1, t.te2, t.te3, a, b, c, d, k0), Lookup(t.te0, t.te1, t.te2, t.te3, b, c, d, a, k1),
                 Lookup(t.te0, t.te1, t.te2, t.te3, c, d, a, b, k2), Lookup(t.te0, t.te1, t.te2, t.te3, d, a, b, c, k3))
         == AddRoundKey(MixColumns(ShiftRows(SubBytes(box.s, Four(a, b, c, d)))), Four(k0, k1, k2, k3))
  {
    LookupMixes(t, box, a, b, c, d, k0);
    LookupMixes(t, box, b, c, d, a, k1);
    LookupMixes(t, box, c, d, a, b, k2);
    LookupMixes(t, box, d, a, b, c, k3);
    hide Encrypts, Lookup, Mix, ColPlus, Byte0, Byte1, Byte2, Byte3;
  }

  /** A full round of the equivalent inverse cipher. */
  lemma InvRoundLookups(t: Tables, box: Box, a: Word, b: Word, c: Word, d: Word, k0: Word, k1: Word, k2: Word, k3: Word)
    requires Decrypts(t, box)
    ensures Four(Lookup(t.td0, t.td1, t.td2, t.td3, a, d, c, b, k0), Lookup(t.td0, t.td1, t.td2, t.td3, b, a, d, c, k1),
                 Lookup(t.td0, t.td1, t.td2, t.td3, c, b, a, d, k2), Lookup(t.td0, t.td1, t.td2, t.td3, d, c, b, a, k3))
         == AddRoundKey(InvMixColumns(InvShiftRows(SubBytes(box.si, Four(a, b, c, d)))), Four(k0, k1, k2, k3))
  {
    LookupUnmixes(t, box, a, d, c, b, k0);
    LookupUnmixes(t, box, b, a, d, c, k1);
    LookupUnmixes(t, box, c, b, a, d, k2);
    LookupUnmixes(t, box, d, c, b, a, k3);
    hide Decrypts, Lookup, InvMix, ColPlus, Byte0, Byte1, Byte2, Byte3;
  }

  /** A table all of whose words repeat the byte a box gives. */
  ghost predicate RepeatsAll(t: Table, f: Byte -> Byte) {
    forall x: Byte :: Repeats(t(x), f(x))
  }

  lemma TablesRepeat(t: Tables, box: Box)
    ensures Encrypts(t, box) ==> RepeatsAll(t.te4, box.s)
    ensures Decrypts(t, box) ==> RepeatsAll(t.td4, box.si)
  {
    hide ColOf;
    if Encrypts(t, box) {
      forall x: Byte
        ensures Repeats(t.te4(x), box.s(x))
      {
        assert TeAt(t, box, x);
      }
    }
    if Decrypts(t, box) {
      forall x: Byte
        ensures Repeats(t.td4(x), box.si(x))
      {
        assert TdAt(t, box, x);
      }
    }
  }

  lemma LastColumn(t: Table, f: Byte -> Byte, a: Word, b: Word, c: Word, d: Word, k: Word)
    requires RepeatsAll(t, f)
    ensures ColOf(LastLookup(t, a, b, c, d, k))
         == ColPlus(SubCol(f, Col(Byte0(a), Byte1(b), Byte2(c), Byte3(d))), ColOf(k))
  {
    hide ColOf, LastLookup, SubCol, ColPlus, Byte0, Byte1, Byte2, Byte3, Repeats;
    LastLookupSubstitutes(t, f, a, b, c, d, k);
  }

  lemma LastLookups(t: Table, f: Byte -> Byte, a: Word, b: Word, c: Word, d: Word, k0: Word, k1: Word, k2: Word,
      k3: Word)
    requires RepeatsAll(t, f)
    ensures Four(LastLookup(t, a, b, c, d, k0), LastLookup(t, b, c, d, a, k1),
                 LastLookup(t, c, d, a, b, k2), LastLookup(t, d, a, b, c, k3))
         == AddRoundKey(ShiftRows(SubBytes(f, Four(a, b, c, d))), Four(k0, k1, k2, k3))
  {
    hide RepeatsAll, LastLookup, ColPlus, Byte0, Byte1, Byte2, Byte3;
    LastColumn(t, f, a, b, c, d, k0);
    LastColumn(t, f, b, c, d, a, k1);
    LastColumn(t, f, c, d, a, b, k2);
    LastColumn(t, f, d, a, b, c, k3);
  }

  lemma InvLastLookups(t: Table, f: Byte -> Byte, a: Word, b: Word, c: Word, d: Word, k0: Word, k1: Word, k2: Word,
      k3: Word)
    requires RepeatsAll(t, f)
    ensures Four(LastLookup(t, a, d, c, b, k0), LastLookup(t, b, a, d, c, k1),
                 LastLookup(t, c, b, a, d, k2), LastLookup(t, d, c, b, a, k3))
         == AddRoundKey(InvShiftRows(SubBytes(f, Four(a, b, c, d))), Four(k0, k1, k2, k3))
  {
    hide RepeatsAll, LastLookup, ColPlus, Byte0, Byte1, Byte2, Byte3;
    LastColumn(t, f, a, d, c, b, k0);
    LastColumn(t, f, b, a, d, c, k1);
    LastColumn(t, f, c, b, a, d, k2);
    LastColumn(t, f, d, c, b, a, k3);
  }

  //////////////////////////////////////////////////////////////////////////////
  // Blocks and key schedules
  //////////////////////////////////////////////////////////////////////////////

  function StateOf(b: Block): State {
    State(Col(b[0], b[1], b[2], b[3]), Col(b[4], b[5], b[6], b[7]),
          Col(b[8], b[9], b[10], b[11]), Col(b[12], b[13], b[14], b[15]))
  }

  function BytesOfCol(c: Col): (s: seq<Byte>)
    ensures |s| == 4
  {
    [c.b0, c.b1, c.b2, c.b3]
  }

  function BlockOf(s: State): (b: Block)
    ensures StateOf(b) == s
  {
    BytesOfCol(s.c0) + BytesOfCol(s.c1) + BytesOfCol(s.c2) + BytesOfCol(s.c3)
  }

  /** The round key at a position of a key schedule. */
  function KeyAt(rk: seq<Word>, at: nat): State
    requires at + 4 <= |rk|
  {
    Four(rk[at], rk[at + 1], rk[at + 2], rk[at + 3])
  }

  /** The round keys of a key schedule. */
  function Keys(rk: seq<Word>, nr: nat): (keys: seq<State>)
    requires 4 * nr + 4 <= |rk|
    ensures |keys| == nr + 1
  {
    seq(nr + 1, r requires 0 <= r <= nr => KeyAt(rk, 4 * r))
  }

  lemma KeysAt(rk: seq<Word>, nr: nat, r: nat)
    requires 4 * nr + 4 <= |rk| && r <= nr
    ensures Keys(rk, nr)[r] == KeyAt(rk, 4 * r)
  {
  }

  method GetU32(b: array<Byte>, at: nat) returns (w: Word)
    requires at + 4 <= b.Length
    ensures ColOf(w) == Col(b[at], b[at + 1], b[at + 2], b[at + 3])
  {
    w := WordOf(Col(b[at], b[at + 1], b[at + 2], b[at + 3]));
    WordOfColumn(Col(b[at], b[at + 1], b[at + 2], b[at + 3]));
  }

  method PutU32(b: array<Byte>, at: nat, w: Word)
    requires at + 4 <= b.Length
    modifies b
    ensures b[..] == old(b[..at]) + BytesOfCol(ColOf(w)) + old(b[at + 4..])
  {
    hide Byte0, Byte1, Byte2, Byte3;
    b[at], b[at + 1], b[at + 2], b[at + 3] := Byte0(w), Byte1(w), Byte2(w), Byte3(w);
  }

  /** Reads a block and adds a round key. */
  method LoadBlock(b: array<Byte>, rk: array<Word>) returns (s0: Word, s1: Word, s2: Word, s3: Word)
    requires b.Length == 16 && rk.Length >= 4
    ensures Four(s0, s1, s2, s3) == AddRoundKey(StateOf(b[..]), KeyAt(rk[..], 0))
  {
    hide ColOf, ColPlus, XorWords;
    s0 := GetU32(b, 0);
    s1 := GetU32(b, 4);
    s2 := GetU32(b, 8);
    s3 := GetU32(b, 12);
    XorColumns(s0, rk[0]);
    XorColumns(s1, rk[1]);
    XorColumns(s2, rk[2]);
    XorColumns(s3, rk[3]);
    s0, s1, s2, s3 := XorWords(s0, rk[0]), XorWords(s1, rk[1]), XorWords(s2, rk[2]), XorWords(s3, rk[3]);
  }

  method StoreBlock(b: array<Byte>, s0: Word, s1: Word, s2: Word, s3: Word)
    requires b.Length == 16
    modifies b
    ensures b[..] == BlockOf(Four(s0, s1, s2, s3))
  {
    hide ColOf, BytesOfCol;
    PutU32(b, 0, s0);
    PutU32(b, 4, s1);
    PutU32(b, 8, s2);
    PutU32(b, 12, s3);
  }

  //////////////////////////////////////////////////////////////////////////////
  // The block cipher
  //////////////////////////////////////////////////////////////////////////////

  /** A full round under the round key at a position. */
  method EncRound(t: Tables, ghost box: Box, rk: array<Word>, at: nat, a: Word, b: Word, c: Word, d: Word)
    returns (w0: Word, w1: Word, w2: Word, w3: Word)
    requires Encrypts(t, box) && at + 4 <= rk.Length
    ensures Four(w0, w1, w2, w3)
         == AddRoundKey(MixColumns(ShiftRows(SubBytes(box.s, Four(a, b, c, d)))), KeyAt(rk[..], at))
  {
    RoundLookups(t, box, a, b, c, d, rk[at], rk[at + 1], rk[at + 2], rk[at + 3]);
    hide Encrypts, Lookup, AddRoundKey, MixColumns, ShiftRows, SubBytes, Four;
    w0 := Lookup(t.te0, t.te1, t.te2, t.te3, a, b, c, d, rk[at]);
    w1 := Lookup(t.te0, t.te1, t.te2, t.te3, b, c, d, a, rk[at + 1]);
    w2 := Lookup(t.te0, t.te1, t.te2, t.te3, c, d, a, b, rk[at + 2]);
    w3 := Lookup(t.te0, t.te1, t.te2, t.te3, d, a, b, c, rk[at + 3]);
  }

  method DecRound(t: Tables, ghost box: Box, rk: array<Word>, at: nat, a: Word, b: Word, c: Word, d: Word)
    returns (w0: Word, w1: Word, w2: Word, w3: Word)
    requires Decrypts(t, box) && at + 4 <= rk.Length
    ensures Four(w0, w1, w2, w3)
         == AddRoundKey(InvMixColumns(InvShiftRows(SubBytes(box.si, Four(a, b, c, d)))), KeyAt(rk[..], at))
  {
    InvRoundLookups(t, box, a, b, c, d, rk[at], rk[at + 1], rk[at + 2], rk[at + 3]);
    hide Decrypts, Lookup, AddRoundKey, InvMixColumns, InvShiftRows, SubBytes, Four;
    w0 := Lookup(t.td0, t.td1, t.td2, t.td3, a, d, c, b, rk[at]);
    w1 := Lookup(t.td0, t.td1, t.td2, t.td3, b, a, d, c, rk[at + 1]);
    w2 := Lookup(t.td0, t.td1, t.td2, t.td3, c, b, a, d, rk[at + 2]);
    w3 := Lookup(t.td0, t.td1, t.td2, t.td3, d, c, b, a, rk[at + 3]);
  }

  lemma RoundsStep(box: Box, keys: seq<State>, s: State, n: nat)
    requires 0 < n < |keys|
    ensures Rounds(box, keys, s, n)
         == AddRoundKey(MixColumns(ShiftRows(SubBytes(box.s, Rounds(box, keys, s, n - 1)))), keys[n])
    ensures EqInvRounds(box, keys, s, n)
         == AddRoundKey(InvMixColumns(InvShiftRows(SubBytes(box.si, EqInvRounds(box, keys, s, n - 1)))), keys[n])
  {
  }

  lemma RoundsStart(box: Box, rk: seq<Word>, nr: nat, s: State)
    requires 4 * nr + 4 <= |rk|
    ensures Rounds(box, Keys(rk, nr), s, 0) == AddRoundKey(s, KeyAt(rk, 0))
    ensures EqInvRounds(box, Keys(rk, nr), s, 0) == AddRoundKey(s, KeyAt(rk, 0))
  {
    hide AddRoundKey, KeyAt;
  }

  /** The full rounds, two to a turn of the loop, which is left in the middle. */
  method EncRounds(t: Tables, ghost box: Box, rk: array<Word>, nr: nat, ghost s: State,
                   a: Word, b: Word, c: Word, d: Word) returns (t0: Word, t1: Word, t2: Word, t3: Word, at: nat)
    requires Encrypts(t, box) && nr >= 2 && nr % 2 == 0 && rk.Length >= 4 * nr + 4
    requires Four(a, b, c, d) == Rounds(box, Keys(rk[..], nr), s, 0)
    ensures at == 4 * nr && Four(t0, t1, t2, t3) == Rounds(box, Keys(rk[..], nr), s, nr - 1)
  {
    hide *;
    ghost var keys := Keys(rk[..], nr);
    var s0, s1, s2, s3 := a, b, c, d;
    var r := nr / 2;
    at := 0;
    while true
      invariant 1 <= r && at == 4 * (nr - 2 * r) && nr - 2 * r >= 0
      invariant Four(s0, s1, s2, s3) == Rounds(box, keys, s, nr - 2 * r)
      decreases r
    {
      ghost var n := nr - 2 * r;
      KeysAt(rk[..], nr, n + 1);
      RoundsStep(box, keys, s, n + 1);
      t0, t1, t2, t3 := EncRound(t, box, rk, at + 4, s0, s1, s2, s3);
      at := at + 8;
      r := r - 1;
      if r == 0 {
        break;
      }
      KeysAt(rk[..], nr, n + 2);
      RoundsStep(box, keys, s, n + 2);
      s0, s1, s2, s3 := EncRound(t, box, rk, at, t0, t1, t2, t3);
    }
  }

  method DecRounds(t: Tables, ghost box: Box, rk: array<Word>, nr: nat, ghost s: State,
                   a: Word, b: Word, c: Word, d: Word) returns (t0: Word, t1: Word, t2: Word, t3: Word, at: nat)
    requires Decrypts(t, box) && nr >= 2 && nr % 2 == 0 && rk.Length >= 4 * nr + 4
    requires Four(a, b, c, d) == EqInvRounds(box, Keys(rk[..], nr), s, 0)
    ensures at == 4 * nr && Four(t0, t1, t2, t3) == EqInvRounds(box, Keys(rk[..], nr), s, nr - 1)
  {
    hide *;
    ghost var keys := Keys(rk[..], nr);
    var s0, s1, s2, s3 := a, b, c, d;
    var r := nr / 2;
    at := 0;
    while true
      invariant 1 <= r && at == 4 * (nr - 2 * r) && nr - 2 * r >= 0
      invariant Four(s0, s1, s2, s3) == EqInvRounds(box, keys, s, nr - 2 * r)
      decreases r
    {
      ghost var n := nr - 2 * r;
      KeysAt(rk[..], nr, n + 1);
      RoundsStep(box, keys, s, n + 1);
      t0, t1, t2, t3 := DecRound(t, box, rk, at + 4, s0, s1, s2, s3);
      at := at + 8;
      r := r - 1;
      if r == 0 {
        break;
      }
      KeysAt(rk[..], nr, n + 2);
      RoundsStep(box, keys, s, n + 2);
      s0, s1, s2, s3 := DecRound(t, box, rk, at, t0, t1, t2, t3);
    }
  }

  lemma CipherEnds(box: Box, rk: seq<Word>, nr: nat, s: State, w: State)
    requires nr >= 1 && 4 * nr + 4 <= |rk| && w == Rounds(box, Keys(rk, nr), s, nr - 1)
    ensures Cipher(box, Keys(rk, nr), s) == AddRoundKey(ShiftRows(SubBytes(box.s, w)), KeyAt(rk, 4 * nr))
  {
    KeysAt(rk, nr, nr);
    hide Keys, KeyAt, AddRoundKey, ShiftRows, SubBytes, Rounds;
  }

  lemma EqInvCipherEnds(box: Box, rk: seq<Word>, nr: nat, s: State, w: State)
    requires nr >= 1 && 4 * nr + 4 <= |rk| && w == EqInvRounds(box, Keys(rk, nr), s, nr - 1)
    ensures EqInvCipher(box, Keys(rk, nr), s) == AddRoundKey(InvShiftRows(SubBytes(box.si, w)), KeyAt(rk, 4 * nr))
  {
    KeysAt(rk, nr, nr);
    hide Keys, KeyAt, AddRoundKey, InvShiftRows, SubBytes, EqInvRounds;
  }

  lemma KeyWords(rk: array<Word>, at: nat)
    requires at + 4 <= rk.Length
    ensures KeyAt(rk[..], at) == Four(rk[at], rk[at + 1], rk[at + 2], rk[at + 3])
  {
    hide Four;
  }

  /** Enciphers a block, which may be overwritten in place. */
  method Encrypt(t: Tables, ghost box: Box, rk: array<Word>, nr: nat, pt: array<Byte>, ct: array<Byte>)
    requires Encrypts(t, box) && nr >= 2 && nr % 2 == 0 && rk.Length >= 4 * nr + 4
    requires pt.Length == 16 && ct.Length == 16
    modifies ct
    ensures ct[..] == BlockOf(Cipher(box, Keys(rk[..], nr), StateOf(old(pt[..]))))
  {
    hide *;
    ghost var s := StateOf(pt[..]);
    var s0, s1, s2, s3 := LoadBlock(pt, rk);
    RoundsStart(box, rk[..], nr, s);
    var t0, t1, t2, t3, at := EncRounds(t, box, rk, nr, s, s0, s1, s2, s3);
    CipherEnds(box, rk[..], nr, s, Four(t0, t1, t2, t3));
    TablesRepeat(t, box);
    KeyWords(rk, at);
    LastLookups(t.te4, box.s, t0, t1, t2, t3, rk[at], rk[at + 1], rk[at + 2], rk[at + 3]);
    s0 := LastLookup(t.te4, t0, t1, t2, t3, rk[at]);
    s1 := LastLookup(t.te4, t1, t2, t3, t0, rk[at + 1]);
    s2 := LastLookup(t.te4, t2, t3, t0, t1, rk[at + 2]);
    s3 := LastLookup(t.te4, t3, t0, t1, t2, rk[at + 3]);
    StoreBlock(ct, s0, s1, s2, s3);
  }

  /** Deciphers a block, which may be overwritten in place. */
  method Decrypt(t: Tables, ghost box: Box, rk: array<Word>, nr: nat, ct: array<Byte>, pt: array<Byte>)
    requires Decrypts(t, box) && nr >= 2 && nr % 2 == 0 && rk.Length >= 4 * nr + 4
    requires pt.Length == 16 && ct.Length == 16
    modifies pt
    ensures pt[..] == BlockOf(EqInvCipher(box, Keys(rk[..], nr), StateOf(old(ct[..]))))
  {
    hide *;
    ghost var s := StateOf(ct[..]);
    var s0, s1, s2, s3 := LoadBlock(ct, rk);
    RoundsStart(box, rk[..], nr, s);
    var t0, t1, t2, t3, at := DecRounds(t, box, rk, nr, s, s0, s1, s2, s3);
    EqInvCipherEnds(box, rk[..], nr, s, Four(t0, t1, t2, t3));
    TablesRepeat(t, box);
    KeyWords(rk, at);
    InvLastLookups(t.td4, box.si, t0, t1, t2, t3, rk[at], rk[at + 1], rk[at + 2], rk[at + 3]);
    s0 := LastLookup(t.td4, t0, t3, t2, t1, rk[at]);
    s1 := LastLookup(t.td4, t1, t0, t3, t2, rk[at + 1]);
    s2 := LastLookup(t.td4, t2, t1, t0, t3, rk[at + 2]);
    s3 := LastLookup(t.td4, t3, t2, t1, t0, rk[at + 3]);
    StoreBlock(pt, s0, s1, s2, s3);
  }
}
