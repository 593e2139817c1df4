/**
 SHA-256 over an arbitrary sequence of updates: a context with a 64-byte buffer that
 doubles as the 16-word message schedule. The specification is FIPS 180-4.
 */
module Sha256 {
  import opened Bytes

  type Word32 = bv32

  //////////////////////////////////////////////////////////////////////////////
  // FIPS 180-4
  //////////////////////////////////////////////////////////////////////////////

  /** The round constants, in rows of eight. */
  const K_ROW0: seq<Word32> :=
    [0x428a2f98, 0x71374491, 0xb5c0fbcf, 0xe9b5dba5, 0x3956c25b, 0x59f111f1, 0x923f82a4, 0xab1c5ed5]

  const K_ROW1: seq<Word32> :=
    [0xd807aa98, 0x12835b01, 0x243185be, 0x550c7dc3, 0x72be5d74, 0x80deb1fe, 0x9bdc06a7, 0xc19bf174]

  const K_ROW2: seq<Word32> :=
    [0xe49b69c1, 0xefbe4786, 0x0fc19dc6, 0x240ca1cc, 0x2de92c6f, 0x4a7484aa, 0x5cb0a9dc, 0x76f988da]

  const K_ROW3: seq<Word32> :=
    [0x983e5152, 0xa831c66d, 0xb00327c8, 0xbf597fc7, 0xc6e00bf3, 0xd5a79147, 0x06ca6351, 0x14292967]

  const K_ROW4: seq<Word32> :=
    [0x27b70a85, 0x2e1b2138, 0x4d2c6dfc, 0x53380d13, 0x650a7354, 0x766a0abb, 0x81c2c92e, 0x92722c85]

  const K_ROW5: seq<Word32> :=
    [0xa2bfe8a1, 0xa81a664b, 0xc24b8b70, 0xc76c51a3, 0xd192e819, 0xd6990624, 0xf40e3585, 0x106aa070]

  const K_ROW6: seq<Word32> :=
    [0x19a4c116, 0x1e376c08, 0x2748774c, 0x34b0bcb5, 0x391c0cb3, 0x4ed8aa4a, 0x5b9cca4f, 0x682e6ff3]

  const K_ROW7: seq<Word32> :=
    [0x748f82ee, 0x78a5636f, 0x84c87814, 0x8cc70208, 0x90befffa, 0xa4506ceb, 0xbef9a3f7, 0xc67178f2]

  const K256: seq<Word32> := K_ROW0 + K_ROW1 + K_ROW2 + K_ROW3 + K_ROW4 + K_ROW5 + K_ROW6 + K_ROW7

  const INITIAL_HASH: seq<Word32> :=
    [0x6a09e667, 0xbb67ae85, 0x3c6ef372, 0xa54ff53a, 0x510e527f, 0x9b05688c, 0x1f83d9ab, 0x5be0cd19]

  function RotR(n: nat, x: Word32): Word32
    requires 0 < n < 32
  {
    (x >> n) | (x << (32 - n))
  }

  function Ch(x: Word32, y: Word32, z: Word32): Word32 {
    (x & y) ^ (!x & z)
  }

  function Maj(x: Word32, y: Word32, z: Word32): Word32 {
    (x & y) ^ (x & z) ^ (y & z)
  }

  function BigSigma0(x: Word32): Word32 {
    RotR(2, x) ^ RotR(13, x) ^ RotR(22, x)
  }

  function BigSigma1(x: Word32): Word32 {
    RotR(6, x) ^ RotR(11, x) ^ RotR(25, x)
  }

  function SmallSigma0(x: Word32): Word32 {
    RotR(7, x) ^ RotR(18, x) ^ (x >> 3)
  }

  function SmallSigma1(x: Word32): Word32 {
    RotR(17, x) ^ RotR(19, x) ^ (x >> 10)
  }

  /** Four bytes as a word, most significant first. */
  function WordBE(b0: Byte, b1: Byte, b2: Byte, b3: Byte): Word32 {
    (b0 as Word32 << 24) | (b1 as Word32 << 16) | (b2 as Word32 << 8) | (b3 as Word32)
  }

  /** A 64-byte block as sixteen words. */
  function BlockWords(block: seq<Byte>): (m: seq<Word32>)
    requires |block| == 64
    ensures |m| == 16
  {
    seq(16, i requires 0 <= i < 16 => WordBE(block[4 * i], block[4 * i + 1], block[4 * i + 2], block[4 * i + 3]))
  }

  /** The next word of the schedule from the words 2, 7, 15 and 16 places back. */
  function Expand(w2: Word32, w7: Word32, w15: Word32, w16: Word32): Word32 {
    SmallSigma1(w2) + w7 + SmallSigma0(w15) + w16
  }

  /** The message schedule W_t. */
  function Schedule(m: seq<Word32>, t: nat): Word32
    requires |m| == 16
  {
    if t < 16 then m[t]
    else Expand(Schedule(m, t - 2), Schedule(m, t - 7), Schedule(m, t - 15), Schedule(m, t - 16))
  }

  datatype Regs = Regs(a: Word32, b: Word32, c: Word32, d: Word32, e: Word32, f: Word32, g: Word32, h: Word32)

  function Temp1(e: Word32, f: Word32, g: Word32, h: Word32, k: Word32, w: Word32): Word32 {
    h + BigSigma1(e) + Ch(e, f, g) + k + w
  }

  function Temp2(a: Word32, b: Word32, c: Word32): Word32 {
    BigSigma0(a) + Maj(a, b, c)
  }

  /** Addition modulo 2^32. */
  function Add32(x: Word32, y: Word32): Word32 {
    x + y
  }

  /** One round of the compression function. */
  function Round(r: Regs, k: Word32, w: Word32): Regs {
    var t1, t2 := Temp1(r.e, r.f, r.g, r.h, k, w), Temp2(r.a, r.b, r.c);
    Regs(Add32(t1, t2), r.a, r.b, r.c, Add32(r.d, t1), r.e, r.f, r.g)
  }

  /** The first t rounds. */
  function Rounds(r: Regs, m: seq<Word32>, t: nat): Regs
    requires |m| == 16 && t <= 64
  {
    if t == 0 then r else Round(Rounds(r, m, t - 1), K256[t - 1], Schedule(m, t - 1))
  }

  function RegsOf(h: seq<Word32>): Regs
    requires |h| == 8
  {
    Regs(h[0], h[1], h[2], h[3], h[4], h[5], h[6], h[7])
  }

  /** The hash value after one more block. */
  function Compress(h: seq<Word32>, block: seq<Byte>): (h': seq<Word32>)
    requires |h| == 8 && |block| == 64
    ensures |h'| == 8
  {
    var r := Rounds(RegsOf(h), BlockWords(block), 64);
    [Add32(h[0], r.a), Add32(h[1], r.b), Add32(h[2], r.c), Add32(h[3], r.d),
     Add32(h[4], r.e), Add32(h[5], r.f), Add32(h[6], r.g), Add32(h[7], r.h)]
  }

  /** The hash value after whole blocks of data. */
  function Absorb(h: seq<Word32>, data: seq<Byte>): (h': seq<Word32>)
    requires |h| == 8 && |data| % 64 == 0
    ensures |h'| == 8
    decreases |data|
  {
    if |data| == 0 then h else Absorb(Compress(h, data[..64]), data[64..])
  }

  /** The message followed by a one bit, zeros, and its length in bits. */
  function Padded(msg: seq<Byte>): (p: seq<Byte>)
    ensures |p| % 64 == 0
  {
    PadLength(|msg|);
    msg + [0x80] + Zeros(PadZeros(|msg|)) + BigEndian(8 * |msg|, 8)
  }

  /** The zero bytes between the one bit and the length: the fewest that fill a block. */
  function PadZeros(n: nat): nat {
    (119 - n % 64) % 64
  }

  lemma PadLength(n: nat)
    ensures (n + 1 + PadZeros(n) + 8) % 64 == 0
  {
    var r := n % 64;
    assert n == 64 * (n / 64) + r;
    if r <= 55 {
      assert (119 - r) % 64 == 55 - r;
    } else {
      assert (119 - r) % 64 == 119 - r;
    }
  }

  /** A word as four bytes, most significant first. */
  function BytesBE(w: Word32): seq<Byte> {
    [((w >> 24) & 0xff) as Byte, ((w >> 16) & 0xff) as Byte, ((w >> 8) & 0xff) as Byte, (w & 0xff) as Byte]
  }

  function DigestBytes(h: seq<Word32>): (s: seq<Byte>)
    ensures |s| == 4 * |h|
  {
    if |h| == 0 then [] else BytesBE(h[0]) + DigestBytes(h[1..])
  }

  /** The digest of a message. */
  function Digest(msg: seq<Byte>): (d: seq<Byte>)
    ensures |d| == 32
  {
    DigestBytes(Absorb(INITIAL_HASH, Padded(msg)))
  }

  lemma {:induction false} AbsorbSplit(h: seq<Word32>, a: seq<Byte>, b: seq<Byte>)
    requires |h| == 8 && |a| % 64 == 0 && |b| % 64 == 0
    ensures Absorb(h, a + b) == Absorb(Absorb(h, a), b)
    decreases |a|
  {
    if |a| == 0 {
      assert a + b == b;
    } else {
      hide Compress;
      assert (a + b)[..64] == a[..64] && (a + b)[64..] == a[64..] + b;
      AbsorbSplit(Compress(h, a[..64]), a[64..], b);
    }
  }

  lemma AbsorbOne(h: seq<Word32>, block: seq<Byte>)
    requires |h| == 8 && |block| == 64
    ensures Absorb(h, block) == Compress(h, block)
  {
    hide Compress;
    assert block[..64] == block && block[64..] == [];
  }

  //////////////////////////////////////////////////////////////////////////////
  // The buffer as sixteen machine words (little-endian host)
  //////////////////////////////////////////////////////////////////////////////

  function WordLE(b0: Byte, b1: Byte, b2: Byte, b3: Byte): Word32 {
    WordBE(b3, b2, b1, b0)
  }

  /** Reverses the byte order of a word with two half-word swaps. */
  function Reverse32(w: Word32): Word32 {
    var tmp := (w >> 16) | (w << 16);
    ((tmp & 0xff00ff00) >> 8) | ((tmp & 0x00ff00ff) << 8)
  }

  lemma ReverseLE(b0: Byte, b1: Byte, b2: Byte, b3: Byte)
    ensures Reverse32(WordLE(b0, b1, b2, b3)) == WordBE(b0, b1, b2, b3)
  {
  }

  lemma SplitWord(w: Word32)
    ensures var s := BytesBE(w); |s| == 4 && WordBE(s[0], s[1], s[2], s[3]) == w
  {
  }

  /** Machine word j of a byte string. */
  function WordAt(s: seq<Byte>, j: nat): Word32
    requires 4 * j + 4 <= |s|
  {
    WordLE(s[4 * j], s[4 * j + 1], s[4 * j + 2], s[4 * j + 3])
  }

  /** All machine words of a 64-byte buffer. */
  function MachineWords(s: seq<Byte>): (w: seq<Word32>)
    requires |s| == 64
    ensures |w| == 16
  {
    seq(16, j requires 0 <= j < 16 => WordAt(s, j))
  }

  lemma StoredWord(was: seq<Byte>, now: seq<Byte>, j: nat, w: Word32)
    requires |was| == |now| == 64 && j < 16
    requires forall i | 0 <= i < 64 && !(4 * j <= i < 4 * j + 4) :: now[i] == was[i]
    requires WordAt(now, j) == w
    ensures MachineWords(now) == MachineWords(was)[j := w]
  {
    hide WordLE;
    forall i | 0 <= i < 16
      ensures MachineWords(now)[i] == MachineWords(was)[j := w][i]
    {
    }
  }

  /** Machine word j of buffer := w. */
  method StoreWord(buffer: array<Byte>, j: nat, w: Word32)
    requires buffer.Length == 64 && j < 16
    modifies buffer
    ensures MachineWords(buffer[..]) == old(MachineWords(buffer[..]))[j := w]
    ensures forall i | 0 <= i < 64 && !(4 * j <= i < 4 * j + 4) :: buffer[i] == old(buffer[i])
  {
    hide BytesBE, WordBE, MachineWords;
    ghost var was := buffer[..];
    var s := BytesBE(w);
    FourBytes(w);
    SplitWord(w);
    buffer[4 * j], buffer[4 * j + 1], buffer[4 * j + 2], buffer[4 * j + 3] := s[3], s[2], s[1], s[0];
    StoredWord(was, buffer[..], j, w);
  }

  lemma FourBytes(w: Word32)
    ensures |BytesBE(w)| == 4
  {
  }

  //////////////////////////////////////////////////////////////////////////////
  // The compression loops
  //////////////////////////////////////////////////////////////////////////////

  lemma RoundsStep(r: Regs, m: seq<Word32>, t: nat)
    requires |m| == 16 && t < 64
    ensures Rounds(r, m, t + 1) == Round(Rounds(r, m, t), K256[t], Schedule(m, t))
  {
    hide Round, Schedule;
  }

  /** The circular buffer holds the last sixteen words of the schedule before t. */
  ghost predicate Window(w: seq<Word32>, m: seq<Word32>, t: nat)
    requires |m| == 16
  {
    |w| == 16 && t >= 16 && forall i | t - 16 <= i < t :: w[i % 16] == Schedule(m, i)
  }

  lemma WindowStart(w: seq<Word32>, m: seq<Word32>)
    requires |m| == 16 && w == m
    ensures Window(w, m, 16)
  {
  }

  /** Replacing the oldest word by the next one moves the window on. */
  lemma WindowStep(w: seq<Word32>, m: seq<Word32>, t: nat, v: Word32)
    requires |m| == 16 && Window(w, m, t)
    requires v == Expand(w[(t + 14) % 16], w[(t + 9) % 16], w[(t + 1) % 16], w[t % 16])
    ensures v == Schedule(m, t)
    ensures Window(w[t % 16 := v], m, t + 1)
  {
    hide Expand, Schedule;
    assert (t - 16) % 16 == t % 16 && (t - 2) % 16 == (t + 14) % 16;
    assert (t - 7) % 16 == (t + 9) % 16 && (t - 15) % 16 == (t + 1) % 16;
    assert w[(t - 16) % 16] == Schedule(m, t - 16) && w[(t - 2) % 16] == Schedule(m, t - 2);
    assert w[(t - 7) % 16] == Schedule(m, t - 7) && w[(t - 15) % 16] == Schedule(m, t - 15);
    ScheduleAt(m, t);
    forall i | t + 1 - 16 <= i < t + 1
      ensures w[t % 16 := v][i % 16] == Schedule(m, i)
    {
      if i < t {
        DifferentSlots(i, t);
      }
    }
  }

  lemma ScheduleAt(m: seq<Word32>, t: nat)
    requires |m| == 16
    ensures Schedule(m, t) ==
            if t < 16 then m[t]
            else Expand(Schedule(m, t - 2), Schedule(m, t - 7), Schedule(m, t - 15), Schedule(m, t - 16))
  {
    hide Expand;
  }

  /** The order in which the code adds the four parts. */
  lemma SumOrder(w2: Word32, w7: Word32, w15: Word32, w16: Word32)
    ensures w16 + (SmallSigma1(w2) + w7 + SmallSigma0(w15)) == Expand(w2, w7, w15, w16)
  {
    hide SmallSigma0, SmallSigma1;
  }

  lemma DifferentSlots(i: int, t: int)
    requires t - 16 < i < t
    ensures i % 16 != t % 16
  {
  }

  /** Applies one round to the eight registers. */
  method RotateRegs(r: Regs, k: Word32, w: Word32) returns (r': Regs)
    ensures r' == Round(r, k, w)
  {
    hide Temp1, Temp2, Add32;
    var a, b, c, d, e, f, g, h := r.a, r.b, r.c, r.d, r.e, r.f, r.g, r.h;
    var t1 := Temp1(e, f, g, h, k, w);
    var t2 := Temp2(a, b, c);
    h := g;
    g := f;
    f := e;
    e := Add32(d, t1);
    d := c;
    c := b;
    b := a;
    a := Add32(t1, t2);
    return Regs(a, b, c, d, e, f, g, h);
  }

  lemma MachineWordsPrefix(was: seq<Word32>, m: seq<Word32>, j: nat)
    requires |was| == |m| == 16 && j < 16 && was[..j] == m[..j]
    ensures was[j := m[j]][..j + 1] == m[..j + 1]
  {
  }

  lemma KLength()
    ensures |K256| == 64
  {
  }

  /** The first sixteen rounds, while the block is copied into the buffer in machine order. */
  method FirstRounds(r0: Regs, data: array<Byte>, at: nat, buffer: array<Byte>) returns (r: Regs)
    requires buffer.Length == 64 && at + 64 <= data.Length
    requires data == buffer ==> at == 0
    modifies buffer
    ensures var m := BlockWords(old(data[at..at + 64]));
            r == Rounds(r0, m, 16) && MachineWords(buffer[..]) == m
  {
    hide *;
    ghost var block := data[at..at + 64];
    ghost var m := BlockWords(block);
    KLength();
    r := r0;
    RoundsNone(r0, m);
    var j := 0;
    while j < 16
      invariant 0 <= j <= 16
      invariant forall i | at + 4 * j <= i < at + 64 :: data[i] == block[i - at]
      invariant r == Rounds(r0, m, j)
      invariant MachineWords(buffer[..])[..j] == m[..j]
    {
      var w := Reverse32(WordLE(data[at + 4 * j], data[at + 4 * j + 1], data[at + 4 * j + 2], data[at + 4 * j + 3]));
      ReverseLE(data[at + 4 * j], data[at + 4 * j + 1], data[at + 4 * j + 2], data[at + 4 * j + 3]);
      BlockWord(block, j);
      ghost var was := MachineWords(buffer[..]);
      StoreWord(buffer, j, w);
      MachineWordsPrefix(was, m, j);
      ScheduleAt(m, j);
      RoundsStep(r0, m, j);
      r := RotateRegs(r, K256[j], w);
      j := j + 1;
    }
    assert MachineWords(buffer[..])[..16] == MachineWords(buffer[..]) && m[..16] == m;
  }

  lemma RoundsNone(r0: Regs, m: seq<Word32>)
    requires |m| == 16
    ensures Rounds(r0, m, 0) == r0
  {
  }

  lemma BlockWord(block: seq<Byte>, j: nat)
    requires |block| == 64 && j < 16
    ensures BlockWords(block)[j] == WordBE(block[4 * j], block[4 * j + 1], block[4 * j + 2], block[4 * j + 3])
  {
    hide WordBE;
  }

  lemma MachineWord(s: seq<Byte>, j: nat)
    requires |s| == 64 && j < 16
    ensures MachineWords(s)[j] == WordLE(s[4 * j], s[4 * j + 1], s[4 * j + 2], s[4 * j + 3])
  {
    hide WordLE;
  }

  /** W256[j] */
  method LoadWord(buffer: array<Byte>, j: nat) returns (w: Word32)
    requires buffer.Length == 64 && j < 16
    ensures w == MachineWords(buffer[..])[j]
  {
    hide *;
    MachineWord(buffer[..], j);
    w := WordLE(buffer[4 * j], buffer[4 * j + 1], buffer[4 * j + 2], buffer[4 * j + 3]);
  }

  /** The other forty-eight rounds, with the schedule continued in place. */
  method ExpandedRounds(r0: Regs, ghost m: seq<Word32>, buffer: array<Byte>, start: Regs) returns (r: Regs)
    requires buffer.Length == 64 && |m| == 16 && MachineWords(buffer[..]) == m && start == Rounds(r0, m, 16)
    modifies buffer
    ensures r == Rounds(r0, m, 64)
  {
    hide *;
    KLength();
    r := start;
    WindowStart(m, m);
    var j := 16;
    while j < 64
      invariant 16 <= j <= 64
      invariant r == Rounds(r0, m, j)
      invariant Window(MachineWords(buffer[..]), m, j)
    {
      ghost var was := MachineWords(buffer[..]);
      var w1 := LoadWord(buffer, (j + 1) % 16);
      var w14 := LoadWord(buffer, (j + 14) % 16);
      var w9 := LoadWord(buffer, (j + 9) % 16);
      var w := LoadWord(buffer, j % 16);
      SumOrder(w14, w9, w1, w);
      w := w + (SmallSigma1(w14) + w9 + SmallSigma0(w1));
      StoreWord(buffer, j % 16, w);
      WindowStep(was, m, j, w);
      RoundsStep(r0, m, j);
      r := RotateRegs(r, K256[j], w);
      j := j + 1;
    }
  }

  lemma CompressIs(h: seq<Word32>, block: seq<Byte>, r: Regs, h': seq<Word32>)
    requires |h| == 8 && |block| == 64 && r == Rounds(RegsOf(h), BlockWords(block), 64)
    requires |h'| == 8 && h'[0] == Add32(h[0], r.a) && h'[1] == Add32(h[1], r.b) && h'[2] == Add32(h[2], r.c)
    requires h'[3] == Add32(h[3], r.d) && h'[4] == Add32(h[4], r.e) && h'[5] == Add32(h[5], r.f)
    requires h'[6] == Add32(h[6], r.g) && h'[7] == Add32(h[7], r.h)
    ensures Compress(h, block) == h'
  {
    hide Rounds, BlockWords, RegsOf, Add32;
  }

  lemma RegsIs(h: seq<Word32>)
    requires |h| == 8
    ensures RegsOf(h) == Regs(h[0], h[1], h[2], h[3], h[4], h[5], h[6], h[7])
  {
  }

  /** Adds the registers to the hash value. */
  method AddRegs(state: array<Word32>, r: Regs)
    requires state.Length == 8
    modifies state
    ensures state[0] == Add32(old(state[0]), r.a) && state[1] == Add32(old(state[1]), r.b)
    ensures state[2] == Add32(old(state[2]), r.c) && state[3] == Add32(old(state[3]), r.d)
    ensures state[4] == Add32(old(state[4]), r.e) && state[5] == Add32(old(state[5]), r.f)
    ensures state[6] == Add32(old(state[6]), r.g) && state[7] == Add32(old(state[7]), r.h)
  {
    hide *;
    state[0] := Add32(state[0], r.a);
    state[1] := Add32(state[1], r.b);
    state[2] := Add32(state[2], r.c);
    state[3] := Add32(state[3], r.d);
    state[4] := Add32(state[4], r.e);
    state[5] := Add32(state[5], r.f);
    state[6] := Add32(state[6], r.g);
    state[7] := Add32(state[7], r.h);
  }

  /** state := state after the 64-byte block of data at at; the block may be the buffer itself. */
  method Transform(state: array<Word32>, buffer: array<Byte>, data: array<Byte>, at: nat)
    requires state.Length == 8 && buffer.Length == 64 && at + 64 <= data.Length
    requires data == buffer ==> at == 0
    modifies state, buffer
    ensures state[..] == Compress(old(state[..]), old(data[at..at + 64]))
  {
    hide *;
    ghost var h, block := state[..], data[at..at + 64];
    RegsIs(h);
    var r0 := Regs(state[0], state[1], state[2], state[3], state[4], state[5], state[6], state[7]);
    var r := FirstRounds(r0, data, at, buffer);
    r := ExpandedRounds(r0, BlockWords(block), buffer, r);
    AddRegs(state, r);
    CompressIs(h, block, r, state[..]);
  }

  //////////////////////////////////////////////////////////////////////////////
  // The streaming context
  //////////////////////////////////////////////////////////////////////////////

  /** The part of a message that fills whole blocks. */
  function Whole(n: nat): (w: nat)
    ensures w <= n < w + 64 && w % 64 == 0 && n - w == n % 64
  {
    n / 64 * 64
  }

  /** The context fields stand for the message msg. */
  ghost predicate Tracks(msg: seq<Byte>, state: seq<Word32>, buffer: seq<Byte>, bitcount: nat)
    requires |state| == 8 && |buffer| == 64
  {
    && bitcount == 8 * |msg|
    && state == Absorb(INITIAL_HASH, msg[..Whole(|msg|)])
    && buffer[..|msg| % 64] == msg[Whole(|msg|)..]
  }

  lemma TracksStart(buffer: seq<Byte>)
    requires |buffer| == 64
    ensures |INITIAL_HASH| == 8 && Tracks([], INITIAL_HASH, buffer, 0)
  {
  }

  /** Completing the block in the buffer. */
  lemma TracksFilled(msg: seq<Byte>, state: seq<Word32>, buffer: seq<Byte>, bitcount: nat, d: seq<Byte>,
                     full: seq<Byte>, buffer': seq<Byte>)
    requires |state| == 8 && |buffer| == |buffer'| == |full| == 64 && Tracks(msg, state, buffer, bitcount)
    requires |d| == 64 - |msg| % 64 && full == buffer[..|msg| % 64] + d
    ensures Tracks(msg + d, Compress(state, full), buffer', bitcount + 8 * |d|)
    ensures |msg + d| % 64 == 0
  {
    hide Absorb, Compress;
    var w := Whole(|msg|);
    assert |msg + d| == w + 64;
    WholeIs(w + 64);
    assert (msg + d)[..w + 64] == msg[..w] + full;
    AbsorbSplit(INITIAL_HASH, msg[..w], full);
    AbsorbOne(state, full);
    assert (msg + d)[w + 64..] == [] && buffer'[..0] == [];
  }

  lemma WholeIs(n: nat)
    requires n % 64 == 0
    ensures Whole(n) == n
  {
  }

  /** Adding bytes that leave the buffer unfilled. */
  lemma TracksBuffered(msg: seq<Byte>, state: seq<Word32>, buffer: seq<Byte>, bitcount: nat, d: seq<Byte>,
                       buffer': seq<Byte>)
    requires |state| == 8 && |buffer| == |buffer'| == 64 && Tracks(msg, state, buffer, bitcount)
    requires |msg| % 64 + |d| < 64 && buffer'[..|msg| % 64 + |d|] == buffer[..|msg| % 64] + d
    ensures Tracks(msg + d, state, buffer', bitcount + 8 * |d|)
  {
    hide Absorb;
    var w := Whole(|msg|);
    SameWhole(|msg|, |d|);
    assert (msg + d)[..w] == msg[..w];
    assert (msg + d)[w..] == msg[w..] + d;
  }

  lemma SameWhole(n: nat, d: nat)
    requires n % 64 + d < 64
    ensures Whole(n + d) == Whole(n) && (n + d) % 64 == n % 64 + d
  {
  }

  /** The blocks that close a message, when its length still fits the last one. */
  lemma FinalOneBlock(msg: seq<Byte>, state: seq<Word32>, buffer: seq<Byte>, bitcount: nat, last: seq<Byte>)
    requires |state| == 8 && |buffer| == 64 && Tracks(msg, state, buffer, bitcount) && |msg| % 64 <= 55
    requires last == buffer[..|msg| % 64] + [0x80] + Zeros(55 - |msg| % 64) + BigEndian(bitcount, 8)
    ensures Compress(state, last) == Absorb(INITIAL_HASH, Padded(msg))
  {
    hide Absorb, Compress, BigEndian;
    var w := Whole(|msg|);
    assert PadZeros(|msg|) == 55 - |msg| % 64;
    assert Padded(msg) == msg[..w] + last by {
      assert msg == msg[..w] + msg[w..];
    }
    AbsorbSplit(INITIAL_HASH, msg[..w], last);
    AbsorbOne(state, last);
  }

  /** The blocks that close a message, when its length needs another one. */
  lemma FinalTwoBlocks(msg: seq<Byte>, state: seq<Word32>, buffer: seq<Byte>, bitcount: nat,
                       first: seq<Byte>, last: seq<Byte>)
    requires |state| == 8 && |buffer| == 64 && Tracks(msg, state, buffer, bitcount) && |msg| % 64 >= 56
    requires first == buffer[..|msg| % 64] + [0x80] + Zeros(63 - |msg| % 64)
    requires last == Zeros(56) + BigEndian(bitcount, 8)
    ensures Compress(Compress(state, first), last) == Absorb(INITIAL_HASH, Padded(msg))
  {
    hide Absorb, Compress, BigEndian;
    var w := Whole(|msg|);
    assert PadZeros(|msg|) == 119 - |msg| % 64;
    assert Padded(msg) == msg[..w] + first + last by {
      assert msg == msg[..w] + msg[w..];
      assert Zeros(119 - |msg| % 64) == Zeros(63 - |msg| % 64) + Zeros(56);
    }
    AbsorbSplit(INITIAL_HASH, msg[..w] + first, last);
    AbsorbSplit(INITIAL_HASH, msg[..w], first);
    AbsorbOne(state, first);
    AbsorbOne(Compress(state, first), last);
  }

  /** 2^61 bytes: the longest message whose bit count fits 64 bits. */
  const MAX_BYTES: nat := 0x2000_0000_0000_0000

  class Context {
    const state: array<Word32>
    const buffer: array<Byte>
    var bitcount: nat
    ghost var message: seq<Byte>

    ghost predicate Shape() {
      state.Length == 8 && buffer.Length == 64
    }

    /** The fields stand for the bytes absorbed since Init. */
    ghost predicate Valid()
      reads this, state, buffer
    {
      Shape() && |message| < MAX_BYTES && Tracks(message, state[..], buffer[..], bitcount)
    }

    constructor ()
      ensures Shape() && fresh(state) && fresh(buffer)
    {
      state := new Word32[8];
      buffer := new Byte[64];
    }

    method Init()
      requires Shape()
      modifies this, state, buffer
      ensures Valid() && message == []
    {
      hide Tracks;
      TracksStart(buffer[..]);
      forall i | 0 <= i < 8 {
        state[i] := INITIAL_HASH[i];
      }
      assert state[..] == INITIAL_HASH;
      MemSetZero(buffer, 0, 64);
      TracksStart(buffer[..]);
      bitcount := 0;
      message := [];
    }

    /** Completes the block in the buffer and processes it. */
    method FillBuffer(data: array<Byte>, from: nat, usedspace: nat)
      requires Valid() && usedspace == |message| % 64 && from + (64 - usedspace) <= data.Length && data != buffer
      requires |message| + (64 - usedspace) < MAX_BYTES
      modifies this, state, buffer
      ensures Valid() && message == old(message) + data[from..from + (64 - usedspace)] && |message| % 64 == 0
    {
      hide Tracks, Compress;
      var freespace := 64 - usedspace;
      ghost var d, s0, b0, n0 := data[from..from + freespace], state[..], buffer[..], bitcount;
      MemMove(buffer, usedspace, data, from, freespace);
      ghost var full := buffer[..];
      assert full == b0[..usedspace] + d;
      bitcount := bitcount + 8 * freespace;
      assert buffer[0..64] == full;
      Transform(state, buffer, buffer, 0);
      TracksFilled(message, s0, b0, n0, d, full, buffer[..]);
      message := message + d;
    }

    /** Keeps bytes that do not complete the block. */
    method Append(data: array<Byte>, from: nat, len: nat, usedspace: nat)
      requires Valid() && usedspace == |message| % 64 && usedspace + len < 64
      requires from + len <= data.Length && data != buffer && |message| + len < MAX_BYTES
      modifies this, buffer
      ensures Valid() && message == old(message) + data[from..from + len]
    {
      hide Tracks;
      ghost var d, b0 := data[from..from + len], buffer[..];
      MemMove(buffer, usedspace, data, from, len);
      assert buffer[..usedspace + len] == b0[..usedspace] + d;
      TracksBuffered(message, state[..], b0, bitcount, d, buffer[..]);
      bitcount := bitcount + 8 * len;
      message := message + d;
    }

    /** Processes one whole block straight from the data. */
    method AbsorbBlock(data: array<Byte>, from: nat)
      requires Valid() && |message| % 64 == 0 && from + 64 <= data.Length && data != buffer
      requires |message| + 64 < MAX_BYTES
      modifies this, state, buffer
      ensures Valid() && message == old(message) + data[from..from + 64] && |message| % 64 == 0
    {
      hide Tracks, Compress;
      ghost var d, s0, b0 := data[from..from + 64], state[..], buffer[..];
      Transform(state, buffer, data, from);
      assert d == b0[..0] + d;
      TracksFilled(message, s0, b0, bitcount, d, d, buffer[..]);
      bitcount := bitcount + 512;
      message := message + d;
    }

    /** Processes the whole blocks of data[from..end] and keeps the rest. */
    method AbsorbBlocks(data: array<Byte>, from: nat, end: nat)
      requires Valid() && |message| % 64 == 0 && from <= end <= data.Length && data != buffer
      requires |message| + (end - from) < MAX_BYTES
      modifies this, state, buffer
      ensures Valid() && message == old(message) + data[from..end]
    {
      hide Valid;
      var i := from;
      ValidShape();
      while end - i >= 64
        invariant from <= i <= end
        invariant Valid() && |message| % 64 == 0
        invariant message == old(message) + data[from..i]
      {
        AbsorbBlock(data, i);
        assert data[from..i + 64] == data[from..i] + data[i..i + 64];
        i := i + 64;
      }
      if end - i > 0 {
        Append(data, i, end - i, 0);
        assert data[from..end] == data[from..i] + data[i..end];
      }
    }

    lemma ValidShape()
      requires Valid()
      ensures Shape() && bitcount == 8 * |message| && |message| < MAX_BYTES
    {
    }

    /** Absorbs len bytes of data from at. */
    method Update(data: array<Byte>, at: nat, len: nat)
      requires Valid() && at + len <= data.Length && data != buffer
      requires |message| + len < MAX_BYTES
      modifies this, state, buffer
      ensures Valid() && message == old(message) + data[at..at + len]
    {
      hide Valid;
      if len == 0 {
        return;
      }
      ValidShape();
      var usedspace := bitcount / 8 % 64;
      var from := at;
      if usedspace > 0 {
        var freespace := 64 - usedspace;
        if len >= freespace {
          FillBuffer(data, from, usedspace);
          from := from + freespace;
        } else {
          Append(data, from, len, usedspace);
          return;
        }
      }
      AbsorbBlocks(data, from, at + len);
      assert data[at..at + len] == data[at..from] + data[from..at + len];
    }

    /** Closes the message and writes its digest. */
    method Finish(digest: array<Byte>)
      requires Valid() && digest.Length >= 32 && digest != buffer
      modifies state, buffer, digest
      ensures digest[..] == Digest(message) + old(digest[32..])
    {
      hide *;
      DigestIs(message);
      ValidShape();
      ghost var was := digest[..];
      PadAndFinish();
      WriteDigest(state, digest);
    }

    /** Overwrites the context with zeros. */
    method Clear()
      requires Shape()
      modifies this`bitcount, state, buffer
      ensures Cleared()
    {
      hide Zeros;
      forall i | 0 <= i < 8 {
        state[i] := 0;
      }
      MemSetZero(buffer, 0, 64);
      bitcount := 0;
    }

    ghost predicate Cleared()
      reads this, state, buffer
    {
      Shape() && bitcount == 0 && buffer[..] == Zeros(64) && forall i | 0 <= i < 8 :: state[i] == 0
    }

    /** Closes the message; a digest array, if there is one, receives the digest; the context is cleared. */
    method Final(digest: array?<Byte>)
      requires Valid() && (digest != null ==> digest.Length >= 32 && digest != buffer)
      modifies this, state, buffer, digest
      ensures digest != null ==> digest[..] == Digest(old(message)) + old(digest[32..])
      ensures Shape() && Cleared()
    {
      hide *;
      ValidShape();
      if digest != null {
        Finish(digest);
      }
      Clear();
    }

    /** The padding up to the length field; a block too full for that field is processed on its own. */
    method PadBuffer(used: nat)
      requires Shape() && used < 64
      modifies state, buffer
      ensures used <= 55 ==> state[..] == old(state[..])
      ensures used <= 55 ==> buffer[..56] == old(buffer[..used]) + [0x80] + Zeros(55 - used)
      ensures used >= 56 ==> state[..] == Compress(old(state[..]), old(buffer[..used]) + [0x80] + Zeros(63 - used))
      ensures used >= 56 ==> buffer[..56] == Zeros(56)
    {
      hide Compress;
      ghost var b0 := buffer[..];
      var usedspace := used;
      if usedspace > 0 {
        buffer[usedspace] := 0x80;
        usedspace := usedspace + 1;
        if usedspace <= 56 {
          MemSetZero(buffer, usedspace, 56 - usedspace);
        } else {
          if usedspace < 64 {
            MemSetZero(buffer, usedspace, 64 - usedspace);
          }
          assert buffer[0..64] == b0[..used] + [0x80] + Zeros(63 - used);
          Transform(state, buffer, buffer, 0);
          MemSetZero(buffer, 0, 56);
        }
      } else {
        MemSetZero(buffer, 0, 56);
        buffer[0] := 0x80;
      }
    }

    /** Pads the message in the buffer and processes the closing blocks. */
    method PadAndFinish()
      requires Valid()
      modifies state, buffer
      ensures state[..] == Absorb(INITIAL_HASH, Padded(message))
    {
      hide *;
      ValidShape();
      ValidTracks();
      var usedspace := bitcount / 8 % 64;
      ghost var s0, b0, s1 := state[..], buffer[..], state[..];
      PadBuffer(usedspace);
      s1 := state[..];
      ghost var front := buffer[..56];
      StoreInt(buffer, 56, bitcount, 8);
      ghost var last := buffer[..];
      assert last == front + BigEndian(bitcount, 8);
      assert buffer[0..64] == last;
      Transform(state, buffer, buffer, 0);
      if usedspace <= 55 {
        FinalOneBlock(message, s0, b0, bitcount, last);
      } else {
        FinalTwoBlocks(message, s0, b0, bitcount, b0[..usedspace] + [0x80] + Zeros(63 - usedspace), last);
      }
    }

    lemma ValidTracks()
      requires Valid()
      ensures Shape() && Tracks(message, state[..], buffer[..], bitcount)
    {
    }
  }

  lemma DigestIs(msg: seq<Byte>)
    ensures Digest(msg) == DigestBytes(Absorb(INITIAL_HASH, Padded(msg)))
  {
  }

  lemma DigestBytesPush(h: seq<Word32>, j: nat)
    requires j < |h|
    ensures DigestBytes(h[..j + 1]) == DigestBytes(h[..j]) + BytesBE(h[j])
  {
    hide BytesBE;
    if j == 0 {
      assert h[..1][1..] == [] && h[..0] == [];
    } else {
      DigestBytesPush(h[1..], j - 1);
      assert h[..j + 1][1..] == h[1..][..j] && h[..j][1..] == h[1..][..j - 1];
    }
  }

  /** The words of the hash value in the byte order of the digest. */
  method WriteDigest(state: array<Word32>, digest: array<Byte>)
    requires state.Length == 8 && digest.Length >= 32
    modifies state, digest
    ensures digest[..] == DigestBytes(old(state[..])) + old(digest[32..])
  {
    hide *;
    ghost var h := state[..];
    DigestBytesNone(h);
    for j := 0 to 8
      invariant forall i | j <= i < 8 :: state[i] == h[i]
      invariant digest[..4 * j] == DigestBytes(h[..j]) && digest[32..] == old(digest[32..])
    {
      ghost var done := digest[..4 * j];
      DigestBytesPush(h, j);
      state[j] := Reverse32(state[j]);
      StoreMachineWord(digest, 4 * j, state[j], h[j]);
      assert digest[..4 * j + 4] == done + BytesBE(h[j]);
    }
    assert h[..8] == h;
  }

  lemma DigestBytesNone(h: seq<Word32>)
    ensures DigestBytes(h[..0]) == []
  {
  }

  lemma ReverseBytes(w: Word32)
    ensures |BytesBE(w)| == |BytesBE(Reverse32(w))| == 4
    ensures var s, t := BytesBE(w), BytesBE(Reverse32(w)); t[3] == s[0] && t[2] == s[1] && t[1] == s[2] && t[0] == s[3]
  {
  }

  /** Stores a reversed word in machine order, which puts the bytes of the original most significant first. */
  method StoreMachineWord(digest: array<Byte>, at: nat, w: Word32, ghost original: Word32)
    requires at + 4 <= digest.Length && w == Reverse32(original)
    modifies digest
    ensures |BytesBE(original)| == 4
    ensures digest[..] == old(digest[..at]) + BytesBE(original) + old(digest[at + 4..])
  {
    ReverseBytes(original);
    hide *;
    var s := BytesBE(w);
    digest[at], digest[at + 1], digest[at + 2], digest[at + 3] := s[3], s[2], s[1], s[0];
  }
}
