/**
 What RFC 7252 and its companions say of single options, said of the parser and the serializer: the numbers, what is
 done with an unknown one, and how headers, options, numbers and blocks are laid out in bytes.
 */
module CoapRules {
  import opened Octets
  import opened CoapOptions
  import opened CoapMessage
  import opened CoapRoundTrip

  //////////////////////////////////////////////////////////////////////////////
  // Unknown options (section 5.4.1 of RFC 7252)
  //////////////////////////////////////////////////////////////////////////////

  /** The option numbers of RFC 7252, RFC 7641 (6) and RFC 7959 (23, 27, 28) that the parser has a case for. */
  predicate IsKnown(n: nat) {
    n in {1, 3, 4, 5, 6, 7, 8, 11, 12, 14, 15, 17, 20, 23, 27, 28, 35}
  }

  predicate Critical(n: nat) {
    n % 2 == 1
  }

  function WithBit(m: Message, n: nat): Message {
    m.(options := m.options + {n})
  }

  lemma StatusIs(n: nat)
    ensures StatusOf(n) == if n == 35 then 0xA5 else if !IsKnown(n) && Critical(n) then 0x82 else 0
  {
  }

  lemma UnknownStored(m: Message, n: nat, v: seq<Octet>)
    requires !IsKnown(n)
    ensures Seen(m, n, v) == WithBit(m, n)
  {
    hide IntOf, BlockOf, Segment, Front;
  }

  /** One option in front, its header written for it: how the parser goes on. */
  lemma ParseFront(m: Message, prev: nat, n: nat, v: seq<Octet>, rest: seq<Octet>)
    requires prev <= n < 40 && |v| <= 65804
    ensures ParseFrom(m, prev, (Header(n - prev, |v|) + v) + rest)
         == if StatusOf(n) != 0 then Parsed(StatusOf(n), Seen(m, n, v)) else ParseFrom(Seen(m, n, v), n, rest)
  {
    var h := Header(n - prev, |v|);
    var s := (h + v) + rest;
    HeaderReadsBack(n - prev, |v|, v + rest);
    hide *;
    ThreeParts(h, v, rest);
    ParseUnfolds(m, prev, s, Head(n - prev, |v|, |h|));
  }

  lemma ParseUnfolds(m: Message, number: nat, s: seq<Octet>, h: Head)
    requires s != [] && s[0] < 240 && h == ReadHead(s)
    requires h.Head? && h.size + h.length <= |s| && number + h.delta < 40
    ensures var n, next := number + h.delta, Seen(m, number + h.delta, s[h.size..h.size + h.length]);
            ParseFrom(m, number, s)
            == if StatusOf(n) != 0 then Parsed(StatusOf(n), next) else ParseFrom(next, n, s[h.size + h.length..])
  {
    hide ReadHead, StatusOf, Seen;
  }

  /** An unknown critical option ends parsing with 4.02, and an unknown elective one is passed over. */
  lemma UnknownOption(m: Message, prev: nat, n: nat, v: seq<Octet>, rest: seq<Octet>)
    requires prev <= n < 40 && !IsKnown(n) && |v| <= 65804
    ensures ParseFrom(m, prev, (Header(n - prev, |v|) + v) + rest)
         == if Critical(n) then Parsed(0x82, WithBit(m, n)) else ParseFrom(WithBit(m, n), n, rest)
  {
    ParseFront(m, prev, n, v, rest);
    StatusIs(n);
    UnknownStored(m, n, v);
    hide *;
    KnownProxy();
  }

  lemma KnownProxy()
    ensures IsKnown(35) && Critical(35)
  {
  }

  /** Proxy-Uri is kept and refused with 5.05. */
  lemma ProxyUriRefused(m: Message, prev: nat, v: seq<Octet>, rest: seq<Octet>)
    requires prev <= 35 && |v| <= 65804
    ensures ParseFrom(m, prev, (Header(35 - prev, |v|) + v) + rest) == Parsed(0xA5, WithBit(m, 35).(proxyUri := v))
  {
    StoredProxy(m, v);
    StatusIs(35);
    hide *;
    ParseFront(m, prev, 35, v, rest);
  }

  lemma StoredProxy(m: Message, v: seq<Octet>)
    ensures Seen(m, 35, v) == WithBit(m, 35).(proxyUri := v)
  {
    hide IntOf, BlockOf, Segment, Front;
  }

  //////////////////////////////////////////////////////////////////////////////
  // Known options (section 5.10 of RFC 7252)
  //////////////////////////////////////////////////////////////////////////////

  lemma StoredBytes(m: Message, n: nat, v: seq<Octet>)
    ensures n == 1 && |v| <= 8 ==> Seen(m, n, v) == WithBit(m, n).(ifMatch := v)
    ensures n == 3 ==> Seen(m, n, v) == WithBit(m, n).(uriHost := v)
    ensures n == 4 && |v| <= 8 ==> Seen(m, n, v) == WithBit(m, n).(etag := v)
    ensures n == 5 ==> Seen(m, n, v) == WithBit(m, n).(ifNoneMatch := true)
  {
    hide IntOf, BlockOf, Segment;
  }

  lemma StoredNumbers(m: Message, n: nat, v: seq<Octet>)
    ensures n == 6 ==> Seen(m, n, v) == WithBit(m, n).(observe := IntOf(v))
    ensures n == 7 && IntOf(v) < 0x1_0000 ==> Seen(m, n, v) == WithBit(m, n).(uriPort := IntOf(v))
    ensures n == 12 ==> Seen(m, n, v) == WithBit(m, n).(contentType := IntOf(v))
    ensures n == 14 ==> Seen(m, n, v) == WithBit(m, n).(maxAge := IntOf(v))
    ensures n == 17 && |m.accept| < 2 && IntOf(v) < 0x1_0000 ==>
              Seen(m, n, v) == WithBit(m, n).(accept := m.accept + [IntOf(v)])
    ensures n == 28 ==> Seen(m, n, v) == WithBit(m, n).(size := IntOf(v))
  {
    hide IntOf, BlockOf, Segment, Front;
  }

  lemma StoredLists(m: Message, n: nat, v: seq<Octet>)
    ensures n == 8 && |v| < 256 ==> Seen(m, n, v) == WithBit(m, n).(locationPath := m.locationPath + [v])
    ensures n == 11 && |v| < 256 ==> Seen(m, n, v) == WithBit(m, n).(uriPath := m.uriPath + [v])
    ensures n == 15 && |v| < 256 ==> Seen(m, n, v) == WithBit(m, n).(uriQuery := m.uriQuery + [v])
    ensures n == 20 && m.locationQuery == [] ==> Seen(m, n, v) == WithBit(m, n).(locationQuery := v)
    ensures n == 20 && m.locationQuery != [] ==>
              Seen(m, n, v) == WithBit(m, n).(locationQuery := m.locationQuery + [38] + v)
  {
    hide IntOf, BlockOf, Front;
    assert |v| < 256 ==> Segment(v) == v;
  }

  lemma StoredBlocks(m: Message, n: nat, v: seq<Octet>)
    ensures n == 23 ==> Seen(m, n, v) == WithBit(m, n).(block2 := BlockOf(IntOf(v)))
    ensures n == 27 ==> Seen(m, n, v) == WithBit(m, n).(block1 := BlockOf(IntOf(v)))
  {
    hide IntOf, BlockOf, Segment, Front;
  }

  /** What a known option leaves in a packet, for values within the limits of its field. */
  function Assigned(m: Message, n: nat, v: seq<Octet>): Message {
    var b := WithBit(m, n);
    match n
    case 1 => b.(ifMatch := v)
    case 3 => b.(uriHost := v)
    case 4 => b.(etag := v)
    case 5 => b.(ifNoneMatch := true)
    case 6 => b.(observe := IntOf(v))
    case 7 => b.(uriPort := IntOf(v))
    case 8 => b.(locationPath := m.locationPath + [v])
    case 11 => b.(uriPath := m.uriPath + [v])
    case 12 => b.(contentType := IntOf(v))
    case 14 => b.(maxAge := IntOf(v))
    case 15 => b.(uriQuery := m.uriQuery + [v])
    case 17 => b.(accept := m.accept + [IntOf(v)])
    case 20 => b.(locationQuery := if m.locationQuery == [] then v else m.locationQuery + [38] + v)
    case 23 => b.(block2 := BlockOf(IntOf(v)))
    case 27 => b.(block1 := BlockOf(IntOf(v)))
    case 28 => b.(size := IntOf(v))
    case _ => b
  }

  /** The limits of the fields: 8 bytes, a byte for a segment's length, 16 bits, and two Accept options. */
  predicate Fitting(m: Message, n: nat, v: seq<Octet>) {
    && (n == 1 || n == 4 ==> |v| <= 8)
    && (n == 8 || n == 11 || n == 15 ==> |v| < 256)
    && (n == 7 || n == 17 ==> IntOf(v) < 0x1_0000)
    && (n == 17 ==> |m.accept| < 2)
    && |v| <= 65804
  }

  lemma StoredIsAssigned(m: Message, n: nat, v: seq<Octet>)
    requires IsKnown(n) && n != 35 && Fitting(m, n, v)
    ensures Seen(m, n, v) == Assigned(m, n, v)
  {
    StoredBytes(m, n, v);
    StoredNumbers(m, n, v);
    StoredLists(m, n, v);
    StoredBlocks(m, n, v);
    hide Seen, IntOf, BlockOf, WithBit;
  }

  /** An option with a known number sets its bit and the field of that number, and parsing goes on behind it. */
  lemma KnownOption(m: Message, prev: nat, n: nat, v: seq<Octet>, rest: seq<Octet>)
    requires prev <= n && IsKnown(n) && n != 35 && Fitting(m, n, v)
    ensures ParseFrom(m, prev, (Header(n - prev, |v|) + v) + rest) == ParseFrom(Assigned(m, n, v), n, rest)
  {
    KnownInMap(n);
    StatusIs(n);
    StoredIsAssigned(m, n, v);
    FittingShort(m, n, v);
    hide *;
    ParseFront(m, prev, n, v, rest);
  }

  lemma KnownInMap(n: nat)
    requires IsKnown(n)
    ensures n < 40
  {
  }

  lemma FittingShort(m: Message, n: nat, v: seq<Octet>)
    requires Fitting(m, n, v)
    ensures |v| <= 65804
  {
  }

  //////////////////////////////////////////////////////////////////////////////
  // When a datagram is refused
  //////////////////////////////////////////////////////////////////////////////

  predicate Refusing(n: nat) {
    n == 35 || (!IsKnown(n) && Critical(n))
  }

  /** Of the numbers the parser comes to, only the last can be one that is refused. */
  lemma {:induction false} StatusByNumbers(m: Message, number: nat, s: seq<Octet>)
    requires ParseFrom(m, number, s).Parsed?
    ensures ParseFrom(m, number, s).status == 0 <==> forall n | n in NumbersReached(number, s) :: !Refusing(n)
    ensures ParseFrom(m, number, s).status == 0xA5 <==> 35 in NumbersReached(number, s)
    ensures ParseFrom(m, number, s).status in {0, 0x82, 0xA5}
    decreases |s|
  {
    hide ReadHead, Seen, StatusOf, IsKnown, Refusing;
    if s != [] && s[0] < 240 {
      var h := ReadHead(s);
      var n := number + h.delta;
      StatusOfRefusing(n);
      if StatusOf(n) == 0 {
        StatusByNumbers(Seen(m, n, s[h.size..h.size + h.length]), n, s[h.size + h.length..]);
      }
    }
  }

  lemma StatusOfRefusing(n: nat)
    ensures StatusOf(n) == 0 <==> !Refusing(n)
    ensures StatusOf(n) == 0xA5 <==> n == 35
    ensures StatusOf(n) in {0, 0x82, 0xA5}
  {
    StatusIs(n);
  }

  /** Whether a datagram has a good header and is no duplicate, so that its options are looked at. */
  predicate Examined(latest: Memory, data: seq<Octet>) {
    |data| >= 4 && data[0] / 64 == 1 && |data| >= 4 + TokenLength(data[0])
    && !IsDuplicate(latest, ReadHeader(data).mid, data[4..4 + TokenLength(data[0])])
  }

  /**
   A datagram that is examined and parsed is accepted exactly if none of its options has to be refused, refused with
   5.05 exactly for Proxy-Uri, and with 4.02 otherwise.
   */
  lemma DatagramStatus(latest: Memory, data: seq<Octet>)
    requires Examined(latest, data) && Decode(latest, data).Parsed?
    ensures var numbers, status := NumbersReached(0, data[4 + TokenLength(data[0])..]), Decode(latest, data).status;
            && (status == 0 <==> forall n | n in numbers :: !Refusing(n))
            && (status == 0xA5 <==> 35 in numbers)
            && status in {0, 0x82, 0xA5}
  {
    hide ParseFrom, TokenLength, IsDuplicate, NumbersReached, Refusing;
    var token := data[4..4 + TokenLength(data[0])];
    var named := ReadHeader(data).(token := token, options := TokenBit(token));
    StatusByNumbers(named, 0, data[4 + TokenLength(data[0])..]);
  }

  lemma HeaderOfFront(head: seq<Octet>, rest: seq<Octet>)
    requires |head| == 4
    ensures (head + rest)[0] == head[0] && ReadHeader(head + rest) == ReadHeader(head)
  {
    hide TokenLength;
  }

  /** A datagram put together from its parts is read part by part. */
  lemma DecodeParts(latest: Memory, head: seq<Octet>, token: seq<Octet>, options: seq<Octet>)
    requires |head| == 4 && head[0] / 64 == 1 && TokenLength(head[0]) == |token|
    requires !IsDuplicate(latest, ReadHeader(head).mid, token)
    ensures Decode(latest, head + (token + options))
         == ParseFrom(ReadHeader(head).(token := token, options := TokenBit(token)), 0, options)
  {
    HeaderOfFront(head, token + options);
    PartsAgain(head, token, options);
    TokenRoom(head);
    hide ParseFrom, TokenLength, IsDuplicate, ReadHeader, TokenBit;
  }

  lemma PartsAgain(a: seq<Octet>, b: seq<Octet>, c: seq<Octet>)
    ensures (a + (b + c))[|a|..|a| + |b|] == b && (a + (b + c))[|a| + |b|..] == c
  {
  }

  lemma TokenRoom(head: seq<Octet>)
    requires |head| == 4
    ensures |ReadHeader(head).token| == TokenLength(head[0]) && ReadHeader(head).version == head[0] / 64
  {
    hide TokenLength;
  }

  /** The first option of a datagram, unknown and critical, gets the datagram refused with 4.02. */
  lemma CriticalDatagram(latest: Memory, head: seq<Octet>, token: seq<Octet>, n: nat, v: seq<Octet>, rest: seq<Octet>)
    requires |head| == 4 && head[0] / 64 == 1 && TokenLength(head[0]) == |token|
    requires !IsDuplicate(latest, ReadHeader(head).mid, token)
    requires n < 40 && !IsKnown(n) && Critical(n) && |v| <= 65804
    ensures Decode(latest, head + (token + ((Header(n, |v|) + v) + rest)))
         == Parsed(0x82, WithBit(ReadHeader(head).(token := token, options := TokenBit(token)), n))
  {
    hide *;
    DecodeParts(latest, head, token, (Header(n, |v|) + v) + rest);
    UnknownOption(ReadHeader(head).(token := token, options := TokenBit(token)), 0, n, v, rest);
  }

  //////////////////////////////////////////////////////////////////////////////
  // Bytes
  //////////////////////////////////////////////////////////////////////////////

  /** How section 3.1 codes a delta or length: in the nibble, or with one or two bytes behind 13 and 14. */
  predicate Coded(value: nat, nibble: nat, ext: seq<Octet>) {
    (value < 13 && nibble == value && ext == [])
    || (13 <= value < 269 && nibble == 13 && |ext| == 1 && 13 + ext[0] as nat == value)
    || (269 <= value && nibble == 14 && |ext| == 2 && 269 + 256 * (ext[0] as nat) + ext[1] as nat == value)
  }

  lemma CodedIs(value: nat)
    requires value <= 65804
    ensures Coded(value, Nibble(value), Extension(value))
  {
    if value > 268 {
      TwoBytes(value - 269);
    }
  }

  /** An option header: the delta in the high nibble, the length in the low one, and their extensions in this order. */
  lemma HeaderCoded(delta: nat, length: nat)
    requires delta <= 65804 && length <= 65804
    ensures var h, d := Header(delta, length), |Extension(delta)|;
            Coded(delta, h[0] / 16, h[1..1 + d]) && Coded(length, h[0] % 16, h[1 + d..])
  {
    CodedIs(delta);
    CodedIs(length);
    NibblesReadBack(Nibble(delta), Nibble(length));
    hide Coded, Low8, Extension, Nibble;
    assert Header(delta, length)[1..1 + |Extension(delta)|] == Extension(delta);
    assert Header(delta, length)[1 + |Extension(delta)|..] == Extension(length);
  }

  /** A number option has its most significant byte first. */
  lemma {:induction false} IntOfFront(b: Octet, rest: seq<Octet>)
    requires |rest| <= 3
    ensures IntOf([b] + rest) == b as nat * Power256(|rest|) + IntOf(rest)
  {
    hide *;
    if rest == [] {
      IntOfOne(b);
      assert [b] + rest == [b];
    } else {
      var k, front, last := |rest|, rest[..|rest| - 1], rest[|rest| - 1];
      IntOfFront(b, front);
      IntOfSnoc([b] + front, last);
      IntOfSnoc(front, last);
      IntOfBound(front);
      PowersTo(k);
      PowersTo(k + 1);
      assert [b] + rest == ([b] + front) + [last] && rest == front + [last];
      Carry(b as nat, Power256(k - 1), IntOf(front), last as nat);
    }
  }

  lemma IntOfOne(b: Octet)
    ensures IntOf([b]) == b as nat && IntOf([]) == 0 && Power256(0) == 1
  {
  }

  lemma Carry(b: nat, p: nat, f: nat, l: nat)
    requires b < 256 && f < p && l < 256 && 256 * (256 * p) <= 0x1_0000_0000
    ensures (256 * (b * p + f) + l) % 0x1_0000_0000 == b * (256 * p) + (256 * f + l) % 0x1_0000_0000
  {
    AtMost(b, p);
    NoCarry(b * p, p, f, l);
  }

  lemma AtMost(b: nat, p: nat)
    requires b < 256
    ensures 0 <= b * p <= 255 * p && b * (256 * p) == 256 * (b * p)
  {
    assert (255 - b) * p == 255 * p - b * p;
  }

  lemma NoCarry(q: nat, p: nat, f: nat, l: nat)
    requires q <= 255 * p && f < p && l < 256 && 256 * (256 * p) <= 0x1_0000_0000
    ensures (256 * (q + f) + l) % 0x1_0000_0000 == 256 * q + (256 * f + l) % 0x1_0000_0000
  {
    assert 256 * (q + f) + l < 0x1_0000_0000;
  }

  /** A block option's number: the block number, the more flag and the exponent of the size, from the left. */
  lemma BlockFields(num: nat, more: bool, szx: nat)
    requires szx < 8
    ensures var b := BlockOf(16 * num + (if more then 8 else 0) + szx);
            b.num == num && b.more == more && b.size == Pow2(szx + 4)
            && b.offset == num * b.size % 0x1_0000_0000
  {
    BlockNumber(num, if more then 1 else 0, szx);
    PowerFour(szx);
    Regroup(num, Pow2(szx));
  }

  lemma PowerFour(k: nat)
    ensures Pow2(k + 4) == 16 * Pow2(k)
  {
    assert Pow2(k + 4) == 2 * Pow2(k + 3);
    assert Pow2(k + 3) == 2 * Pow2(k + 2);
    assert Pow2(k + 2) == 2 * Pow2(k + 1);
  }

  /** And it is written so. */
  lemma BlockWritten(b: BlockOption, szx: nat)
    requires b.num < 0x1000_0000 && szx < 8 && b.size == Pow2(szx + 4)
    ensures BlockValue(b) == 16 * b.num + (if b.more then 8 else 0) + szx
  {
    PowerFour(szx);
    LogOfPower(szx);
    hide BlockValue;
    BlockValueOf(b, if b.more then 1 else 0, szx);
  }

  /** The fixed header, section 3: version, type, token length, code and message id. Longer tokens are cut to 8. */
  lemma HeaderFields(version: nat, kind: nat, length: nat, code: Octet, high: Octet, low: Octet, rest: seq<Octet>)
    requires version < 4 && kind < 4 && length < 16
    ensures var data := [64 * version + 16 * kind + length, code, high, low] + rest;
            && ReadHeader(data).version == version && ReadHeader(data).kind == kind
            && TokenLength(data[0]) == (if length <= 8 then length else 8)
            && ReadHeader(data).code == code && ReadHeader(data).mid == 256 * (high as nat) + low as nat
  {
    var first := 64 * version + 16 * kind + length;
    assert first / 16 == 4 * version + kind && first % 16 == length;
    assert first / 64 == version && (4 * version + kind) % 4 == kind;
  }

  /** A datagram of another version is refused with 4.00. */
  lemma OtherVersionRefused(latest: Memory, data: seq<Octet>)
    requires |data| >= 4 && data[0] / 64 != 1
    ensures Decode(latest, data).Parsed? && Decode(latest, data).status == 0x80
  {
    hide TokenLength;
  }

  /** Nothing behind the token: a packet without options or payload, but with the bit of number 19 for its token. */
  lemma BareDatagram(latest: Memory, kind: nat, code: Octet, high: Octet, low: Octet, token: seq<Octet>)
    requires kind < 4 && |token| <= 8 && !IsDuplicate(latest, 256 * (high as nat) + low as nat, token)
    ensures Decode(latest, [64 + 16 * kind + |token|, code, high, low] + (token + []))
         == Parsed(0, Blank(1, kind, code, 256 * (high as nat) + low as nat, token, if token == [] then {} else {19}))
  {
    var head: seq<Octet> := [64 + 16 * kind + |token|, code, high, low];
    HeaderFields(1, kind, |token|, code, high, low, []);
    assert head + [] == head;
    DecodeParts(latest, head, token, []);
    hide TokenLength, IsDuplicate, Decode;
  }

  lemma FirstByteIs(kind: nat, length: nat)
    requires kind < 4 && length <= 8
    ensures Low8(64 + 16 * (kind % 4) + length % 16) as nat == 64 + 16 * kind + length
  {
  }

  lemma HeaderBytesAre(m: Message)
    requires Serializable(m)
    ensures HeaderBytes(m)[0] as nat == 64 + 16 * m.kind + |m.token| && HeaderBytes(m)[1] == m.code
    ensures 256 * (HeaderBytes(m)[2] as nat) + HeaderBytes(m)[3] as nat == m.mid && HeaderBytes(m)[4..] == m.token
  {
    assert m.kind < 4 && |m.token| <= 8 && m.mid < 0x1_0000;
    hide Serializable, Low8;
    FirstByteIs(m.kind, |m.token|);
    MidBytes(m.mid);
  }

  lemma WireStarts(m: Message)
    ensures |Wire(m)| >= |HeaderBytes(m)| && Wire(m)[..|HeaderBytes(m)|] == HeaderBytes(m)
  {
    hide Encode, Groups, Tail, HeaderBytes;
  }

  /** And as it is written, for version 1. */
  lemma HeaderWritten(m: Message)
    requires Serializable(m)
    ensures |Wire(m)| >= 4 + |m.token| && Wire(m)[4..4 + |m.token|] == m.token
    ensures Wire(m)[0] as nat == 64 + 16 * m.kind + |m.token| && Wire(m)[1] == m.code
    ensures 256 * (Wire(m)[2] as nat) + Wire(m)[3] as nat == m.mid
  {
    hide *;
    HeaderBytesAre(m);
    WireStarts(m);
    var h, w := HeaderBytes(m), Wire(m);
    assert forall i | 0 <= i < |h| :: w[i] == w[..|h|][i];
    assert w[4..4 + |m.token|] == w[..|h|][4..];
  }

  /** The payload comes last, behind the byte 0xFF; without one there is no such byte. */
  lemma PayloadWritten(m: Message)
    requires Serializable(m)
    ensures var w, n := Wire(m), |m.payload|;
            if n == 0 then w == HeaderBytes(m) + Encode(Groups(m, 28))
            else |w| > n && w[|w| - n - 1] == 0xFF && w[|w| - n..] == m.payload
                 && w[..|w| - n - 1] == HeaderBytes(m) + Encode(Groups(m, 28))
  {
    hide Encode, Groups, HeaderBytes;
  }

  //////////////////////////////////////////////////////////////////////////////
  // Reserved values
  //////////////////////////////////////////////////////////////////////////////

  /** The bytes section 3.1 reserves: a delta nibble of 15 that is not the payload marker, and a length nibble of 15. */
  predicate Reserved(b: Octet) {
    (b / 16 == 15 && b != 0xFF) || (b % 16 == 15 && b != 0xFF)
  }

  /**
   Section 3.1 wants a format error for reserved values; the parser knows none. Every byte from 0xF0 on is a payload
   marker, and a length nibble of 15 means fifteen bytes.
   */
  lemma ReservedTaken(m: Message, number: nat, b: Octet, rest: seq<Octet>)
    requires Reserved(b)
    ensures b >= 0xF0 ==> ParseFrom(m, number, [b] + rest) == Parsed(0, m.(payload := rest))
    ensures b < 0xF0 && b / 16 < 13 ==> ReadHead([b] + rest) == Head(b / 16, 15, 1)
  {
    assert ([b] + rest)[1..] == rest;
  }

  //////////////////////////////////////////////////////////////////////////////
  // Duplicates and logarithms
  //////////////////////////////////////////////////////////////////////////////

  /** A datagram with a whole header of version 1. */
  predicate Headed(data: seq<Octet>) {
    |data| >= 4 && data[0] / 64 == 1 && |data| >= 4 + TokenLength(data[0])
  }

  function TokenOf(data: seq<Octet>): (t: seq<Octet>)
    requires Headed(data)
    ensures |t| == TokenLength(data[0])
  {
    data[4..4 + TokenLength(data[0])]
  }

  function MidOf(data: seq<Octet>): nat
    requires Headed(data)
  {
    256 * (data[2] as nat) + data[3] as nat
  }

  lemma StatusOneIff(latest: Memory, data: seq<Octet>)
    requires Headed(data) && Decode(latest, data).Parsed?
    ensures Decode(latest, data).status == 1 <==> IsDuplicate(latest, MidOf(data), TokenOf(data))
  {
    var token := TokenOf(data);
    if !IsDuplicate(latest, MidOf(data), token) {
      StatusByNumbers(ReadHeader(data).(token := token, options := TokenBit(token)), 0, data[4 + |token|..]);
    }
    hide ParseFrom, TokenLength, IsDuplicate;
  }

  lemma RememberedIs(latest: Memory, data: seq<Octet>)
    requires Headed(data) && !IsDuplicate(latest, MidOf(data), TokenOf(data))
    ensures Remembered(latest, data).mid == MidOf(data)
    ensures Remembered(latest, data).token[..|TokenOf(data)|] == TokenOf(data)
  {
    hide TokenLength;
  }

  /**
   Of two datagrams with tokens of one length, the second is ignored exactly if it has the message id and the token
   of the first.
   */
  lemma IgnoredIff(latest: Memory, first: seq<Octet>, second: seq<Octet>)
    requires Headed(first) && Headed(second) && |TokenOf(first)| == |TokenOf(second)|
    requires !IsDuplicate(latest, MidOf(first), TokenOf(first))
    requires Decode(Remembered(latest, first), second).Parsed?
    ensures Decode(Remembered(latest, first), second).status == 1
       <==> MidOf(first) == MidOf(second) && TokenOf(first) == TokenOf(second)
  {
    RememberedIs(latest, first);
    StatusOneIff(Remembered(latest, first), second);
    hide Decode, Remembered, TokenOf, MidOf, Headed;
  }

  /** The logarithm is the exponent of the largest power of two that is not above. */
  lemma {:induction false} LogBounds(n: nat)
    requires n > 0
    ensures Pow2(Log2(n)) <= n < 2 * Pow2(Log2(n))
  {
    if n >= 2 {
      LogBounds(n / 2);
    }
  }
}
