/** The key schedules of aes.c for 128-bit keys, and what they make of the cipher. */
module AesKeys {
  import opened Bytes
  import opened AesSpec
  import opened Aes

  //////////////////////////////////////////////////////////////////////////////
  // Encryption
  //////////////////////////////////////////////////////////////////////////////

  /** The key's four columns. */
  function KeyCols(key: Block): (k: seq<Col>)
    ensures |k| == 4
  {
    var s := StateOf(key);
    [s.c0, s.c1, s.c2, s.c3]
  }

  const RCON: seq<Word> := [0x01000000, 0x02000000, 0x04000000, 0x08000000, 0x10000000,
                            0x20000000, 0x40000000, 0x80000000, 0x1B000000, 0x36000000]

  lemma RconPowers()
    ensures RconByte(0) == 0x01 && RconByte(1) == 0x02 && RconByte(2) == 0x04 && RconByte(3) == 0x08
    ensures RconByte(4) == 0x10 && RconByte(5) == 0x20 && RconByte(6) == 0x40 && RconByte(7) == 0x80
    ensures RconByte(8) == 0x1b && RconByte(9) == 0x36
  {
    assert Xtime(0x01) == 0x02 && Xtime(0x02) == 0x04 && Xtime(0x04) == 0x08 && Xtime(0x08) == 0x10;
    assert Xtime(0x10) == 0x20 && Xtime(0x20) == 0x40 && Xtime(0x40) == 0x80;
    assert Xtime(0x80) == 0x1b && Xtime(0x1b) == 0x36;
    hide Xtime;
    assert RconByte(1) == Xtime(RconByte(0));
    assert RconByte(2) == Xtime(RconByte(1));
    assert RconByte(3) == Xtime(RconByte(2));
    assert RconByte(4) == Xtime(RconByte(3));
    assert RconByte(5) == Xtime(RconByte(4));
    assert RconByte(6) == Xtime(RconByte(5));
    assert RconByte(7) == Xtime(RconByte(6));
    assert RconByte(8) == Xtime(RconByte(7));
    assert RconByte(9) == Xtime(RconByte(8));
  }

  /** The table of round constants holds the powers of x in the top byte. */
  lemma RconTable(i: nat)
    requires i < 10
    ensures ColOf(RCON[i]) == Col(RconByte(i), 0, 0, 0)
  {
    RconPowers();
    RconColumns();
    hide RconByte, ColOf;
  }

  lemma RconColumns()
    ensures ColOf(0x01000000) == Col(0x01, 0, 0, 0) && ColOf(0x02000000) == Col(0x02, 0, 0, 0)
    ensures ColOf(0x04000000) == Col(0x04, 0, 0, 0) && ColOf(0x08000000) == Col(0x08, 0, 0, 0)
    ensures ColOf(0x10000000) == Col(0x10, 0, 0, 0) && ColOf(0x20000000) == Col(0x20, 0, 0, 0)
    ensures ColOf(0x40000000) == Col(0x40, 0, 0, 0) && ColOf(0x80000000) == Col(0x80, 0, 0, 0)
    ensures ColOf(0x1B000000) == Col(0x1b, 0, 0, 0) && ColOf(0x36000000) == Col(0x36, 0, 0, 0)
  {
  }

  lemma ColPlusAssoc(a: Col, b: Col, c: Col)
    ensures ColPlus(ColPlus(a, b), c) == ColPlus(a, ColPlus(b, c))
  {
    PlusLaws(a.b0, b.b0, c.b0);
    PlusLaws(a.b1, b.b1, c.b1);
    PlusLaws(a.b2, b.b2, c.b2);
    PlusLaws(a.b3, b.b3, c.b3);
    hide Plus;
  }

  /** The first word of a round key, from the word four before and the word before. */
  function ScheduleWord(t: Table, k: Word, temp: Word, rc: Word): Word {
    XorWords(Xor5(k, t(Byte1(temp)) & 0xff000000, t(Byte2(temp)) & 0x00ff0000,
                  t(Byte3(temp)) & 0x0000ff00, t(Byte0(temp)) & 0x000000ff), rc)
  }

  lemma MaskedColumns(t: Table, f: Byte -> Byte, temp: Word)
    requires RepeatsAll(t, f)
    ensures ColPlus4(ColOf(t(Byte1(temp)) & 0xff000000), ColOf(t(Byte2(temp)) & 0x00ff0000),
                     ColOf(t(Byte3(temp)) & 0x0000ff00), ColOf(t(Byte0(temp)) & 0x000000ff))
         == SubCol(f, RotWord(ColOf(temp)))
  {
    var a, b, c, d := Byte1(temp), Byte2(temp), Byte3(temp), Byte0(temp);
    assert Repeats(t(a), f(a)) && Repeats(t(b), f(b)) && Repeats(t(c), f(c)) && Repeats(t(d), f(d));
    Masked(t(a));
    Masked(t(b));
    Masked(t(c));
    Masked(t(d));
    UnmixParts(SubCol(f, RotWord(ColOf(temp))));
    hide ColPlus4, Byte0, Byte1, Byte2, Byte3;
  }

  lemma ScheduleColumn(t: Table, f: Byte -> Byte, k: Word, temp: Word, rc: Word)
    requires RepeatsAll(t, f)
    ensures ColOf(ScheduleWord(t, k, temp, rc))
         == ColPlus(ColOf(k), ColPlus(SubCol(f, RotWord(ColOf(temp))), ColOf(rc)))
  {
    MaskedColumns(t, f, temp);
    var a, b := t(Byte1(temp)) & 0xff000000, t(Byte2(temp)) & 0x00ff0000;
    var c, d := t(Byte3(temp)) & 0x0000ff00, t(Byte0(temp)) & 0x000000ff;
    XorColumns(Xor5(k, a, b, c, d), rc);
    Xor5Columns(k, a, b, c, d);
    FiveRegroup(ColOf(k), ColOf(a), ColOf(b), ColOf(c), ColOf(d), ColOf(rc));
    hide ColOf, ColPlus, ColPlus4, SubCol, Xor5, XorWords, RepeatsAll, RotWord;
  }

  lemma FiveRegroup(k: Col, a: Col, b: Col, c: Col, d: Col, r: Col)
    ensures ColPlus(ColPlus(ColPlus4(k, a, b, c), d), r) == ColPlus(k, ColPlus(ColPlus4(a, b, c, d), r))
  {
    hide ColPlus;
    ColPlusAssoc(k, a, b);
    ColPlusAssoc(k, ColPlus(a, b), c);
    ColPlusAssoc(k, ColPlus(ColPlus(a, b), c), d);
    ColPlusAssoc(k, ColPlus4(a, b, c, d), r);
  }

  /** The first n words of a key schedule. */
  ghost predicate Expanded(box: Box, key: seq<Col>, rk: seq<Word>, n: nat)
    requires |key| == 4
  {
    n <= |rk| && forall i | 0 <= i < n :: ColOf(rk[i]) == Expand(box, key, i)
  }

  lemma ExpandStep(box: Box, key: seq<Col>, i: nat)
    requires |key| == 4 && i >= 4
    ensures Expand(box, key, i)
         == ColPlus(Expand(box, key, i - 4),
                    if i % 4 == 0
                    then ColPlus(SubCol(box.s, RotWord(Expand(box, key, i - 1))), Col(RconByte(i / 4 - 1), 0, 0, 0))
                    else Expand(box, key, i - 1))
  {
    hide ColPlus, SubCol, RconByte;
  }

  lemma WordExpanded(box: Box, key: seq<Col>, rk: seq<Word>, n: nat, w: Word)
    requires |key| == 4 && Expanded(box, key, rk, n) && n < |rk| && ColOf(w) == Expand(box, key, n)
    ensures Expanded(box, key, rk[n := w], n + 1)
  {
    hide ColOf, Expand;
  }

  lemma KeyColumn(box: Box, key: seq<Col>, rk: seq<Word>, n: nat, k: nat)
    requires |key| == 4 && Expanded(box, key, rk, n) && k < n
    ensures n <= |rk| && ColOf(rk[k]) == Expand(box, key, k)
  {
    hide ColOf, Expand;
  }

  /** The first word of a round key, from the two words of the schedule it depends on. */
  lemma FirstColumn(t: Tables, box: Box, key: seq<Col>, i: nat, k: Word, temp: Word)
    requires Encrypts(t, box) && |key| == 4 && i < |RCON| == 10
    requires ColOf(k) == Expand(box, key, 4 * i) && ColOf(temp) == Expand(box, key, 4 * i + 3)
    ensures ColOf(ScheduleWord(t.te4, k, temp, RCON[i])) == Expand(box, key, 4 * i + 4)
  {
    hide *;
    TablesRepeat(t, box);
    RconTable(i);
    ScheduleColumn(t.te4, box.s, k, temp, RCON[i]);
    ExpandStep(box, key, 4 * i + 4);
    Quarter(i);
  }

  lemma Quarter(i: nat)
    ensures (4 * i + 4) % 4 == 0 && (4 * i + 4) / 4 - 1 == i
  {
  }

  lemma FirstWord(t: Tables, box: Box, key: seq<Col>, rk: seq<Word>, i: nat)
    requires Encrypts(t, box) && |key| == 4 && i < 10 && |rk| >= 44 && Expanded(box, key, rk, 4 * i + 4)
    ensures |RCON| == 10
    ensures ColOf(ScheduleWord(t.te4, rk[4 * i], rk[4 * i + 3], RCON[i])) == Expand(box, key, 4 * i + 4)
  {
    assert |RCON| == 10;
    hide *;
    KeyColumn(box, key, rk, 4 * i + 4, 4 * i);
    KeyColumn(box, key, rk, 4 * i + 4, 4 * i + 3);
    FirstColumn(t, box, key, i, rk[4 * i], rk[4 * i + 3]);
  }

  /** The words of one round key. */
  method ExpandRound(t: Tables, ghost box: Box, ghost key: seq<Col>, rk: array<Word>, i: nat)
    requires Encrypts(t, box) && |key| == 4 && i < 10 && rk.Length >= 44
    requires Expanded(box, key, rk[..], 4 * i + 4)
    modifies rk
    ensures Expanded(box, key, rk[..], 4 * i + 8)
  {
    hide *;
    FirstWord(t, box, key, rk[..], i);
    PlaceWord(box, key, rk, 4 * i + 4, ScheduleWord(t.te4, rk[4 * i], rk[4 * i + 3], RCON[i]));
    NextWord(box, key, rk, i, 5);
    NextWord(box, key, rk, i, 6);
    NextWord(box, key, rk, i, 7);
  }

  method PlaceWord(ghost box: Box, ghost key: seq<Col>, rk: array<Word>, at: nat, w: Word)
    requires |key| == 4 && at < rk.Length && Expanded(box, key, rk[..], at) && ColOf(w) == Expand(box, key, at)
    modifies rk
    ensures Expanded(box, key, rk[..], at + 1)
  {
    hide *;
    WordExpanded(box, key, rk[..], at, w);
    ghost var was := rk[..];
    rk[at] := w;
    assert rk[..] == was[at := w];
  }

  /** The second to fourth words of a round key. */
  method NextWord(ghost box: Box, ghost key: seq<Col>, rk: array<Word>, i: nat, j: nat)
    requires |key| == 4 && i < 10 && rk.Length >= 44 && 5 <= j <= 7
    requires Expanded(box, key, rk[..], 4 * i + j)
    modifies rk
    ensures Expanded(box, key, rk[..], 4 * i + j + 1)
  {
    var at := 4 * i;
    XorColumns(rk[at + j - 4], rk[at + j - 1]);
    ExpandStep(box, key, at + j);
    hide ColOf, ColPlus, Expand, XorWords;
    PlaceWord(box, key, rk, at + j, XorWords(rk[at + j - 4], rk[at + j - 1]));
  }

  lemma ExpandedKeys(box: Box, key: seq<Col>, rk: seq<Word>)
    requires |key| == 4 && |rk| >= 44 && Expanded(box, key, rk, 44)
    ensures Keys(rk, 10) == RoundKeys(box, key)
  {
    hide ColOf, Expand;
    forall r | 0 <= r <= 10
      ensures Keys(rk, 10)[r] == RoundKeys(box, key)[r]
    {
    }
  }

  lemma FirstKey(box: Box, key: Block, rk: seq<Word>)
    requires |rk| >= 4 && KeyAt(rk, 0) == StateOf(key)
    ensures Expanded(box, KeyCols(key), rk, 4)
  {
    hide ColOf;
  }

  /** Expands a 128-bit key into the words of eleven round keys. */
  method KeySetupEnc(t: Tables, ghost box: Box, rk: array<Word>, key: array<Byte>) returns (rounds: nat)
    requires Encrypts(t, box) && rk.Length >= 44 && key.Length == 16
    modifies rk
    ensures rounds == 10 && Keys(rk[..], 10) == RoundKeys(box, KeyCols(key[..]))
  {
    hide *;
    LoadKey(rk, key);
    FirstKey(box, key[..], rk[..]);
    var i := 0;
    while true
      invariant i < 10 && Expanded(box, KeyCols(key[..]), rk[..], 4 * i + 4)
      decreases 10 - i
    {
      ExpandRound(t, box, KeyCols(key[..]), rk, i);
      i := i + 1;
      if i == 10 {
        ExpandedKeys(box, KeyCols(key[..]), rk[..]);
        return 10;
      }
    }
  }

  method LoadKey(rk: array<Word>, key: array<Byte>)
    requires rk.Length >= 4 && key.Length == 16
    modifies rk
    ensures KeyAt(rk[..], 0) == StateOf(key[..])
  {
    hide ColOf;
    var w0 := GetU32(key, 0);
    var w1 := GetU32(key, 4);
    var w2 := GetU32(key, 8);
    var w3 := GetU32(key, 12);
    rk[0], rk[1], rk[2], rk[3] := w0, w1, w2, w3;
  }

  //////////////////////////////////////////////////////////////////////////////
  // Decryption
  //////////////////////////////////////////////////////////////////////////////

  /** The words with those at two positions exchanged. */
  function Swapped(s: seq<Word>, a: nat, b: nat): (t: seq<Word>)
    requires a < |s| && b < |s|
    ensures |t| == |s|
  {
    s[a := s[b]][b := s[a]]
  }

  function SwappedKeys(s: seq<Word>, a: nat, b: nat): (t: seq<Word>)
    requires a + 4 <= b && b + 4 <= |s|
    ensures |t| == |s|
  {
    Swapped(Swapped(Swapped(Swapped(s, a, b), a + 1, b + 1), a + 2, b + 2), a + 3, b + 3)
  }

  /** The r-th round key. */
  function KeyNo(rk: seq<Word>, r: nat): State
    requires 4 * r + 4 <= |rk|
  {
    KeyAt(rk, 4 * r)
  }

  lemma SwappedKeysAt(s: seq<Word>, i: nat, j: nat, r: nat)
    requires i < j && 4 * j + 4 <= |s| && 4 * r + 4 <= |s|
    ensures KeyNo(SwappedKeys(s, 4 * i, 4 * j), r) == KeyNo(s, if r == i then j else if r == j then i else r)
  {
    hide Four;
    assert r < i ==> 4 * r + 4 <= 4 * i;
    assert i < r ==> 4 * i + 4 <= 4 * r;
    assert r < j ==> 4 * r + 4 <= 4 * j;
  }

  /** The keys with those before i, and as many at the end, exchanged. */
  ghost predicate Turned(now: seq<Word>, was: seq<Word>, i: nat) {
    |now| == |was| && |was| >= 44
    && forall r | 0 <= r <= 10 :: KeyNo(now, r) == KeyNo(was, if r < i || r > 10 - i then 10 - r else r)
  }

  lemma TurnedMore(now: seq<Word>, was: seq<Word>, i: nat)
    requires Turned(now, was, i) && i < 5
    ensures Turned(SwappedKeys(now, 4 * i, 40 - 4 * i), was, i + 1)
  {
    hide KeyNo, SwappedKeys;
    var j := 10 - i;
    assert 4 * j == 40 - 4 * i;
    var next := SwappedKeys(now, 4 * i, 4 * j);
    forall r | 0 <= r <= 10
      ensures KeyNo(next, r) == KeyNo(was, if r < i + 1 || r > 10 - (i + 1) then 10 - r else r)
    {
      SwappedKeysAt(now, i, j, r);
      var from := if r == i then j else if r == j then i else r;
      assert KeyNo(now, from) == KeyNo(was, if from < i || from > 10 - i then 10 - from else from);
    }
  }

  lemma TurnedNone(was: seq<Word>)
    requires |was| >= 44
    ensures Turned(was, was, 0)
  {
    hide KeyNo;
  }

  method SwapWords(rk: array<Word>, a: nat, b: nat)
    requires a < b < rk.Length
    modifies rk
    ensures rk[..] == Swapped(old(rk[..]), a, b)
  {
    var temp := rk[a];
    rk[a] := rk[b];
    rk[b] := temp;
  }

  /** Puts the round keys in the opposite order. */
  method TurnKeys(rk: array<Word>)
    requires rk.Length >= 44
    modifies rk
    ensures Turned(rk[..], old(rk[..]), 5)
  {
    hide *;
    ghost var was := rk[..];
    TurnedNone(was);
    var i, j := 0, 40;
    ghost var n := 0;
    while i < j
      invariant i == 4 * n && j == 40 - 4 * n && n <= 5 && Turned(rk[..], was, n)
    {
      TurnedMore(rk[..], was, n);
      SwapFour(rk, i, j);
      i, j, n := i + 4, j - 4, n + 1;
    }
  }

  method SwapFour(rk: array<Word>, i: nat, j: nat)
    requires i + 4 <= j && j + 4 <= rk.Length
    modifies rk
    ensures rk[..] == SwappedKeys(old(rk[..]), i, j)
  {
    hide Swapped;
    SwapWords(rk, i, j);
    SwapWords(rk, i + 1, j + 1);
    SwapWords(rk, i + 2, j + 2);
    SwapWords(rk, i + 3, j + 3);
  }

  /** InvMixColumns of one word, by way of the substitution tables. */
  function UnmixWord(t: Tables, w: Word): Word {
    XorWords(XorWords(XorWords(t.td0(Byte3(t.te4(Byte0(w)))), t.td1(Byte3(t.te4(Byte1(w))))),
                      t.td2(Byte3(t.te4(Byte2(w))))), t.td3(Byte3(t.te4(Byte3(w)))))
  }

  lemma UnmixLookup(t: Tables, box: Box, x: Byte)
    requires Encrypts(t, box) && Decrypts(t, box) && Inverse(box)
    ensures ColOf(t.td0(Byte3(t.te4(x)))) == Unmix0Of(x) && ColOf(t.td1(Byte3(t.te4(x)))) == Unmix1Of(x)
    ensures ColOf(t.td2(Byte3(t.te4(x)))) == Unmix2Of(x) && ColOf(t.td3(Byte3(t.te4(x)))) == Unmix3Of(x)
  {
    assert TeAt(t, box, x) && TdAt(t, box, box.s(x)) && box.si(box.s(x)) == x;
    assert Byte3(t.te4(x)) == box.s(x);
    hide Encrypts, Decrypts, Inverse, Byte0, Byte1, Byte2, Byte3, Unmix0Of, Unmix1Of, Unmix2Of, Unmix3Of;
  }

  lemma UnmixWordUnmixes(t: Tables, box: Box, w: Word)
    requires Encrypts(t, box) && Decrypts(t, box) && Inverse(box)
    ensures ColOf(UnmixWord(t, w)) == InvMix(ColOf(w))
  {
    UnmixLookup(t, box, Byte0(w));
    UnmixLookup(t, box, Byte1(w));
    UnmixLookup(t, box, Byte2(w));
    UnmixLookup(t, box, Byte3(w));
    var a, b := t.td0(Byte3(t.te4(Byte0(w)))), t.td1(Byte3(t.te4(Byte1(w))));
    var c, d := t.td2(Byte3(t.te4(Byte2(w)))), t.td3(Byte3(t.te4(Byte3(w))));
    XorColumns(a, b);
    XorColumns(XorWords(a, b), c);
    XorColumns(XorWords(XorWords(a, b), c), d);
    InvMixParts(ColOf(w));
    assert ColOf(w) == Col(Byte0(w), Byte1(w), Byte2(w), Byte3(w));
    hide Encrypts, Decrypts, Inverse, ColOf, Byte0, Byte1, Byte2, Byte3, Unmix0Of, Unmix1Of, Unmix2Of, Unmix3Of,
         InvMix, XorWords, ColPlus;
  }

  function UnmixedWords(t: Tables, s: seq<Word>, a: nat): (u: seq<Word>)
    requires a + 4 <= |s|
    ensures |u| == |s|
  {
    s[a := UnmixWord(t, s[a])][a + 1 := UnmixWord(t, s[a + 1])][a + 2 := UnmixWord(t, s[a + 2])]
     [a + 3 := UnmixWord(t, s[a + 3])]
  }

  lemma UnmixedWordsAt(t: Tables, box: Box, s: seq<Word>, i: nat, r: nat)
    requires Encrypts(t, box) && Decrypts(t, box) && Inverse(box)
    requires 4 * i + 4 <= |s| && 4 * r + 4 <= |s|
    ensures KeyNo(UnmixedWords(t, s, 4 * i), r) == if r == i then InvMixColumns(KeyNo(s, r)) else KeyNo(s, r)
  {
    var a := 4 * i;
    UnmixWordUnmixes(t, box, s[a]);
    UnmixWordUnmixes(t, box, s[a + 1]);
    UnmixWordUnmixes(t, box, s[a + 2]);
    UnmixWordUnmixes(t, box, s[a + 3]);
    hide ColOf, UnmixWord, InvMix, Encrypts, Decrypts, Inverse;
    assert r < i ==> 4 * r + 4 <= a;
    assert i < r ==> a + 4 <= 4 * r;
  }

  /** The keys from the second on, up to the i-th, unmixed. */
  ghost predicate Unmixed(now: seq<Word>, was: seq<Word>, i: nat) {
    |now| == |was| && |was| >= 44
    && forall r | 0 <= r <= 10 ::
         KeyNo(now, r) == if 1 <= r < i then InvMixColumns(KeyNo(was, r)) else KeyNo(was, r)
  }

  lemma UnmixedMore(t: Tables, box: Box, now: seq<Word>, was: seq<Word>, i: nat)
    requires Encrypts(t, box) && Decrypts(t, box) && Inverse(box)
    requires Unmixed(now, was, i) && 1 <= i < 10
    ensures Unmixed(UnmixedWords(t, now, 4 * i), was, i + 1)
  {
    hide KeyNo, UnmixedWords, InvMixColumns, Encrypts, Decrypts, Inverse;
    var next := UnmixedWords(t, now, 4 * i);
    forall r | 0 <= r <= 10
      ensures KeyNo(next, r) == if 1 <= r < i + 1 then InvMixColumns(KeyNo(was, r)) else KeyNo(was, r)
    {
      UnmixedWordsAt(t, box, now, i, r);
    }
  }

  lemma UnmixedNone(was: seq<Word>)
    requires |was| >= 44
    ensures Unmixed(was, was, 1)
  {
    hide KeyNo, InvMixColumns;
  }

  method UnmixRound(t: Tables, rk: array<Word>, a: nat)
    requires a + 4 <= rk.Length
    modifies rk
    ensures rk[..] == UnmixedWords(t, old(rk[..]), a)
  {
    hide UnmixWord;
    rk[a] := UnmixWord(t, rk[a]);
    rk[a + 1] := UnmixWord(t, rk[a + 1]);
    rk[a + 2] := UnmixWord(t, rk[a + 2]);
    rk[a + 3] := UnmixWord(t, rk[a + 3]);
  }

  /** Applies InvMixColumns to all round keys but the first and the last. */
  method UnmixKeys(t: Tables, ghost box: Box, rk: array<Word>)
    requires Encrypts(t, box) && Decrypts(t, box) && Inverse(box) && rk.Length >= 44
    modifies rk
    ensures Unmixed(rk[..], old(rk[..]), 10)
  {
    hide *;
    ghost var was := rk[..];
    UnmixedNone(was);
    for i := 1 to 10
      invariant Unmixed(rk[..], was, i)
    {
      UnmixedMore(t, box, rk[..], was, i);
      UnmixRound(t, rk, 4 * i);
    }
  }

  lemma DecKeysMade(rk0: seq<Word>, rk1: seq<Word>, rk2: seq<Word>)
    requires Turned(rk1, rk0, 5) && Unmixed(rk2, rk1, 10)
    ensures |rk0| == |rk2| >= 44 && Keys(rk2, 10) == DecKeys(Keys(rk0, 10))
  {
    var d := DecKeys(Keys(rk0, 10));
    forall r | 0 <= r <= 10
      ensures Keys(rk2, 10)[r] == d[r]
    {
      KeysAt(rk2, 10, r);
      KeysAt(rk0, 10, 10 - r);
      DecKeyAt(Keys(rk0, 10), r);
      assert KeyNo(rk1, r) == KeyNo(rk0, 10 - r);
      hide DecKeys, Keys, InvMixColumns, KeyAt;
    }
  }

  /** Expands a 128-bit key into the round keys of the equivalent inverse cipher. */
  method KeySetupDec(t: Tables, ghost box: Box, rk: array<Word>, key: array<Byte>) returns (rounds: nat)
    requires Encrypts(t, box) && Decrypts(t, box) && Inverse(box) && rk.Length >= 44 && key.Length == 16
    modifies rk
    ensures rounds == 10 && Keys(rk[..], 10) == DecKeys(RoundKeys(box, KeyCols(key[..])))
  {
    hide *;
    rounds := KeySetupEnc(t, box, rk, key);
    ghost var rk0 := rk[..];
    TurnKeys(rk);
    ghost var rk1 := rk[..];
    UnmixKeys(t, box, rk);
    DecKeysMade(rk0, rk1, rk[..]);
  }

  //////////////////////////////////////////////////////////////////////////////
  // The cipher under a key
  //////////////////////////////////////////////////////////////////////////////

  /** AES-128 of one block. */
  function Aes128(box: Box, key: Block, b: Block): Block {
    Aes.BlockOf(Cipher(box, RoundKeys(box, KeyCols(key)), StateOf(b)))
  }

  /** The inverse of AES-128 as section 5.3 of FIPS 197 gives it. */
  function InvAes128(box: Box, key: Block, b: Block): Block {
    Aes.BlockOf(InvCipher(box, RoundKeys(box, KeyCols(key)), StateOf(b)))
  }

  lemma SameState(a: Block, b: Block)
    requires StateOf(a) == StateOf(b)
    ensures a == b
  {
    var s := StateOf(a);
    assert s.c0 == StateOf(b).c0 && s.c1 == StateOf(b).c1 && s.c2 == StateOf(b).c2 && s.c3 == StateOf(b).c3;
  }

  /** Deciphering gives back the block that was enciphered. */
  lemma AesRoundTrip(box: Box, key: Block, b: Block)
    requires Inverse(box)
    ensures InvAes128(box, key, Aes128(box, key, b)) == b
  {
    InvCipherUndoes(box, RoundKeys(box, KeyCols(key)), StateOf(b));
    SameState(b, InvAes128(box, key, Aes128(box, key, b)));
    hide Inverse, InvCipher, Cipher, RoundKeys, KeyCols, StateOf;
  }

  /** The key context: schedules for both directions. */
  class Context {
    const ek: array<Word>
    const dk: array<Word>
    var rounds: nat

    constructor ()
      ensures fresh(ek) && fresh(dk) && ek.Length == 44 && dk.Length == 44 && ek != dk
    {
      ek := new Word[44](_ => 0);
      dk := new Word[44](_ => 0);
      rounds := 0;
    }

    /** Whether the schedules are those of a key. */
    ghost predicate Holds(box: Box, key: Block)
      reads this, ek, dk
    {
      ek.Length == 44 && dk.Length == 44 && ek != dk && rounds == 10
      && Keys(ek[..], 10) == RoundKeys(box, KeyCols(key))
      && Keys(dk[..], 10) == DecKeys(RoundKeys(box, KeyCols(key)))
    }

    method SetKey(t: Tables, ghost box: Box, key: array<Byte>)
      requires Encrypts(t, box) && Decrypts(t, box) && Inverse(box) && key.Length == 16
      requires ek.Length == 44 && dk.Length == 44 && ek != dk
      modifies this`rounds, ek, dk
      ensures Holds(box, key[..])
    {
      hide Encrypts, Decrypts, Inverse, Keys, RoundKeys, KeyCols, DecKeys;
      rounds := KeySetupEnc(t, box, ek, key);
      var same := KeySetupDec(t, box, dk, key);
    }

    method EncryptBlock(t: Tables, ghost box: Box, ghost key: Block, src: array<Byte>, dst: array<Byte>)
      requires Encrypts(t, box) && Holds(box, key) && src.Length == 16 && dst.Length == 16
      modifies dst
      ensures dst[..] == Aes128(box, key, old(src[..]))
    {
      hide Encrypts, Keys, RoundKeys, KeyCols, Cipher, DecKeys;
      Encrypt(t, box, ek, rounds, src, dst);
    }

    method DecryptBlock(t: Tables, ghost box: Box, ghost key: Block, src: array<Byte>, dst: array<Byte>)
      requires Decrypts(t, box) && Holds(box, key) && src.Length == 16 && dst.Length == 16
      modifies dst
      ensures dst[..] == InvAes128(box, key, old(src[..]))
    {
      hide Decrypts, Keys, RoundKeys, KeyCols, EqInvCipher, InvCipher, DecKeys;
      EquivalentInverse(box, RoundKeys(box, KeyCols(key)), StateOf(src[..]));
      Decrypt(t, box, dk, rounds, src, dst);
    }
  }
}
