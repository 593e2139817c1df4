/** Parsing undoes serializing, exactly for the packets whose set options all have something to send. */
module CoapRoundTrip {
  import opened Octets
  import opened CoapOptions
  import opened CoapMessage

  //////////////////////////////////////////////////////////////////////////////
  // Parsing encoded options
  //////////////////////////////////////////////////////////////////////////////

  predicate ShortValues(values: seq<seq<Octet>>) {
    forall v | v in values :: |v| <= 65804
  }

  lemma ParseStep(m: Message, number: nat, s: seq<Octet>, h: Head)
    requires s != [] && s[0] < 240 && h == ReadHead(s)
    requires h.Head? && h.size + h.length <= |s| && InMap(number + h.delta) && StatusOf(number + h.delta) == 0
    ensures ParseFrom(m, number, s)
         == ParseFrom(Seen(m, number + h.delta, s[h.size..h.size + h.length]), number + h.delta, s[h.size + h.length..])
  {
    hide ReadHead, StatusOf, Seen;
  }

  lemma ThreeParts(a: seq<Octet>, b: seq<Octet>, c: seq<Octet>)
    ensures (a + b) + c == a + (b + c)
    ensures ((a + b) + c)[|a|..|a| + |b|] == b && ((a + b) + c)[|a| + |b|..] == c
  {
  }

  lemma ParseOne(m: Message, prev: nat, delta: nat, v: seq<Octet>, rest: seq<Octet>)
    requires |v| <= 65804 && InMap(prev + delta) && StatusOf(prev + delta) == 0
    ensures ParseFrom(m, prev, (Header(delta, |v|) + v) + rest)
         == ParseFrom(Seen(m, prev + delta, v), prev + delta, rest)
  {
    var h := Header(delta, |v|);
    var s := (h + v) + rest;
    HeaderReadsBack(delta, |v|, v + rest);
    hide *;
    ThreeParts(h, v, rest);
    ParseStep(m, prev, s, Head(delta, |v|, |h|));
  }

  lemma {:induction false} ParseGroup(m: Message, prev: nat, number: nat, values: seq<seq<Octet>>, rest: seq<Octet>)
    requires prev <= number && InMap(number) && StatusOf(number) == 0 && ShortValues(values)
    ensures ParseFrom(m, prev, EncodeGroup(prev, number, values) + rest)
         == ParseFrom(SeenAll(m, number, values), if values == [] then prev else number, rest)
    decreases |values|
  {
    hide StatusOf, Seen, ParseFrom, Header;
    if values == [] {
      assert EncodeGroup(prev, number, values) + rest == rest;
    } else {
      var front, v := values[..|values| - 1], values[|values| - 1];
      var from := if front == [] then prev else number;
      var last := Header(number - from, |v|) + v;
      ParseGroup(m, prev, number, front, last + rest);
      assert EncodeGroup(prev, number, values) + rest == EncodeGroup(prev, number, front) + (last + rest);
      ParseOne(SeenAll(m, number, front), from, number - from, v, rest);
    }
  }

  /** Groups a parser can follow: none empty, no value too long, every number taken. */
  predicate Sendable(g: Group) {
    g.values != [] && InMap(g.number) && StatusOf(g.number) == 0 && ShortValues(g.values)
  }

  lemma {:induction false} ParseGroups(m: Message, groups: seq<Group>, rest: seq<Octet>)
    requires Ascending(groups)
    requires forall g | g in groups :: Sendable(g)
    ensures ParseFrom(m, 0, Encode(groups) + rest)
         == ParseFrom(SeenGroups(m, groups), LastNumber(groups), rest)
    decreases |groups|
  {
    hide ParseFrom, EncodeGroup, SeenAll;
    if groups == [] {
      assert Encode(groups) + rest == rest;
    } else {
      var front, g := groups[..|groups| - 1], groups[|groups| - 1];
      assert Sendable(g);
      var last := EncodeGroup(LastNumber(front), g.number, g.values);
      ParseGroups(m, front, last + rest);
      assert Encode(groups) + rest == Encode(front) + (last + rest);
      ParseGroup(SeenGroups(m, front), LastNumber(front), g.number, g.values, rest);
    }
  }

  //////////////////////////////////////////////////////////////////////////////
  // Storing what was sent
  //////////////////////////////////////////////////////////////////////////////

  /** A packet with segments appended to one of its lists, and the bit set if there are any. */
  function WithSegments(m: Message, number: nat, list: seq<seq<Octet>>): Message {
    if list == [] then m
    else if number == 8 then m.(options := m.options + {number}, locationPath := m.locationPath + list)
    else if number == 11 then m.(options := m.options + {number}, uriPath := m.uriPath + list)
    else m.(options := m.options + {number}, uriQuery := m.uriQuery + list)
  }

  lemma SeenSegment(m: Message, number: nat, list: seq<seq<Octet>>, v: seq<Octet>)
    requires IsList(number) && |v| < 256
    ensures Seen(WithSegments(m, number, list), number, v) == WithSegments(m, number, list + [v])
  {
    assert Segment(v) == v;
    assert (m.options + {number}) + {number} == m.options + {number};
    if number == 8 {
      assert m.locationPath + (list + [v]) == (m.locationPath + list) + [v];
    } else if number == 11 {
      assert m.uriPath + (list + [v]) == (m.uriPath + list) + [v];
    } else {
      assert m.uriQuery + (list + [v]) == (m.uriQuery + list) + [v];
    }
  }

  lemma {:induction false} SeenSegments(m: Message, number: nat, list: seq<seq<Octet>>)
    requires IsList(number) && Segments(list)
    ensures SeenAll(m, number, list) == WithSegments(m, number, list)
    decreases |list|
  {
    hide Seen, IsList;
    if list != [] {
      var front, v := list[..|list| - 1], list[|list| - 1];
      SeenSegments(m, number, front);
      SeenSegment(m, number, front, v);
      hide WithSegments;
      assert front + [v] == list;
    }
  }

  function WithAccept(m: Message, list: seq<nat>): Message {
    if list == [] then m else m.(options := m.options + {17}, accept := m.accept + list)
  }

  lemma SeenAcceptOne(m: Message, list: seq<nat>, v: seq<Octet>, n: nat)
    requires IntOf(v) == n < 0x1_0000 && |m.accept| + |list| < 2
    ensures Seen(WithAccept(m, list), 17, v) == WithAccept(m, list + [n])
  {
    hide IntOf;
    assert n % 0x1_0000 == n;
    assert (m.options + {17}) + {17} == m.options + {17};
    assert m.accept + (list + [n]) == (m.accept + list) + [n];
  }

  lemma SmallFront(list: seq<nat>)
    requires Numbers16(list) && list != []
    ensures Numbers16(list[..|list| - 1]) && list[|list| - 1] < 0x1_0000
  {
    var front := list[..|list| - 1];
    assert list[|list| - 1] in list;
    forall x | x in front
      ensures x < 0x1_0000
    {
      assert x in list;
    }
  }

  lemma {:induction false} SeenAccept(m: Message, list: seq<nat>)
    requires Numbers16(list) && |m.accept| + |list| <= 2
    ensures SeenAll(m, 17, NumberValues(list)) == WithAccept(m, list)
    decreases |list|
  {
    if list == [] {
      assert SeenAll(m, 17, []) == m;
    } else {
      hide *;
      var front, n := list[..|list| - 1], list[|list| - 1];
      SmallFront(list);
      SeenAccept(m, front);
      IntRoundTrip(n);
      SeenAcceptOne(m, front, IntBytes(n), n);
      assert list == front + [n];
      NumberValuesSnoc(front, n);
      SeenAllSnoc(m, 17, NumberValues(front), IntBytes(n));
    }
  }

  lemma NumberValuesSnoc(list: seq<nat>, n: nat)
    ensures NumberValues(list + [n]) == NumberValues(list) + [IntBytes(n)]
  {
    assert (list + [n])[..|list|] == list;
  }

  lemma SeenAllSnoc(m: Message, number: nat, values: seq<seq<Octet>>, v: seq<Octet>)
    ensures SeenAll(m, number, values + [v]) == Seen(SeenAll(m, number, values), number, v)
  {
    hide Seen;
    assert (values + [v])[..|values|] == values;
  }

  lemma SeenSingle(m: Message, number: nat, v: seq<Octet>)
    ensures SeenAll(m, number, [v]) == Seen(m, number, v)
  {
    SeenAllSnoc(m, number, [], v);
    assert [] + [v] == [v];
  }

  //////////////////////////////////////////////////////////////////////////////
  // Block options
  //////////////////////////////////////////////////////////////////////////////

  lemma {:induction false} LogOfPower(k: nat)
    ensures Log2(Pow2(k)) == k
  {
    if k > 0 {
      LogOfPower(k - 1);
    }
  }

  lemma BlockNumber(num: nat, h: nat, k: nat)
    requires h < 2 && k < 8
    ensures var value := 16 * num + 8 * h + k; value / 16 == num && value % 8 == k && value / 8 % 2 == h
  {
    assert 16 * num + 8 * h + k == 8 * (2 * num + h) + k;
    assert (16 * num + 8 * h + k) / 8 == 2 * num + h;
  }

  lemma Regroup(a: nat, p: nat)
    ensures a * 16 * p == a * (16 * p)
  {
  }

  /** A block option that fits comes back with the offset its number and size give. */
  lemma BlockRoundTrip(b: BlockOption)
    requires FitsBlock(b)
    ensures BlockOf(BlockValue(b)) == WithOffset(b)
  {
    var k :| 0 <= k < 8 && b.size == 16 * Pow2(k);
    var h := if b.more then 1 else 0;
    LogOfPower(k);
    BlockNumber(b.num, h, k);
    BlockValueOf(b, h, k);
    BlockOfParts(b, k, 16 * b.num + 8 * h + k);
  }

  lemma BlockValueOf(b: BlockOption, h: nat, k: nat)
    requires b.num < 0x1000_0000 && k < 8 && b.size == 16 * Pow2(k) && Log2(Pow2(k)) == k
    requires h == if b.more then 1 else 0
    ensures BlockValue(b) == 16 * b.num + 8 * h + k
  {
    hide Log2, Pow2;
    assert b.size / 16 == Pow2(k);
  }

  lemma BlockOfParts(b: BlockOption, k: nat, value: nat)
    requires value / 16 == b.num && value % 8 == k && (value / 8 % 2 == 1 <==> b.more) && b.size == 16 * Pow2(k)
    ensures BlockOf(value) == WithOffset(b)
  {
    hide Pow2;
    Regroup(b.num, Pow2(k));
  }

  /** What the parser makes of any number is a block option that fits. */
  lemma ParsedBlockFits(value: nat)
    requires value < 0x1_0000_0000
    ensures FitsBlock(BlockOf(value))
  {
    assert BlockOf(value).size == 16 * Pow2(value % 8);
  }

  //////////////////////////////////////////////////////////////////////////////
  // Storing what was sent
  //////////////////////////////////////////////////////////////////////////////

  lemma SentNumbersGrow(m: Message, limit: nat)
    requires limit > 0
    ensures SentNumbers(m, limit)
         == if limit in m.options && IsWritten(limit) then SentNumbers(m, limit - 1) + {limit}
            else SentNumbers(m, limit - 1)
  {
    hide IsWritten;
    var next := if limit in m.options && IsWritten(limit) then SentNumbers(m, limit - 1) + {limit}
                else SentNumbers(m, limit - 1);
    assert forall n :: n in SentNumbers(m, limit) <==> n in next;
  }

  /** A number that is not sent leaves the received packet as it is. */
  lemma NotSent(m: Message, limit: nat)
    requires limit > 0 && !(limit in m.options && IsWritten(limit))
    ensures Received(m, limit) == Received(m, limit - 1)
  {
    SentNumbersGrow(m, limit);
    hide SentNumbers, WithOffset;
  }

  lemma BitsGrow(m: Message, limit: nat)
    requires 0 < limit && limit in m.options && IsWritten(limit)
    ensures Received(m, limit - 1).options + {limit} == Received(m, limit).options
  {
    SentNumbersGrow(m, limit);
    hide SentNumbers, IsWritten, WithOffset;
    var t := TokenBit(m.token);
    assert (t + SentNumbers(m, limit - 1)) + {limit} == t + (SentNumbers(m, limit - 1) + {limit});
  }

  lemma BytesStep(m: Message, limit: nat)
    requires limit == 1 || limit == 3 || limit == 4 || limit == 5
    requires limit in m.options && |m.ifMatch| <= 8 && |m.etag| <= 8
    ensures Seen(Received(m, limit - 1), limit, ValuesOf(m, limit)[0]) == Received(m, limit)
  {
    BitsGrow(m, limit);
    hide SentNumbers, WithOffset, TokenBit;
    assert m.ifMatch[..|m.ifMatch|] == m.ifMatch && m.etag[..|m.etag|] == m.etag;
  }

  lemma ObserveStep(m: Message)
    requires 6 in m.options && m.observe < 0x1_0000_0000
    ensures Seen(Received(m, 5), 6, ValuesOf(m, 6)[0]) == Received(m, 6)
  {
    BitsGrow(m, 6);
    IntRoundTrip(m.observe);
    hide SentNumbers, WithOffset, TokenBit, IntBytes, IntOf, IsWritten, BlockValue;
  }

  lemma UriPortStep(m: Message)
    requires 7 in m.options && m.uriPort < 0x1_0000
    ensures Seen(Received(m, 6), 7, ValuesOf(m, 7)[0]) == Received(m, 7)
  {
    BitsGrow(m, 7);
    IntRoundTrip(m.uriPort);
    hide SentNumbers, WithOffset, TokenBit, IntBytes, IntOf, IsWritten, BlockValue;
  }

  lemma ContentTypeStep(m: Message)
    requires 12 in m.options && m.contentType < 0x1_0000_0000
    ensures Seen(Received(m, 11), 12, ValuesOf(m, 12)[0]) == Received(m, 12)
  {
    BitsGrow(m, 12);
    IntRoundTrip(m.contentType);
    hide SentNumbers, WithOffset, TokenBit, IntBytes, IntOf, IsWritten, BlockValue;
  }

  lemma MaxAgeStep(m: Message)
    requires 14 in m.options && m.maxAge < 0x1_0000_0000
    ensures Seen(Received(m, 13), 14, ValuesOf(m, 14)[0]) == Received(m, 14)
  {
    BitsGrow(m, 14);
    IntRoundTrip(m.maxAge);
    hide SentNumbers, WithOffset, TokenBit, IntBytes, IntOf, IsWritten, BlockValue;
  }

  lemma SizeStep(m: Message)
    requires 28 in m.options && m.size < 0x1_0000_0000
    ensures Seen(Received(m, 27), 28, ValuesOf(m, 28)[0]) == Received(m, 28)
  {
    BitsGrow(m, 28);
    IntRoundTrip(m.size);
    hide SentNumbers, WithOffset, TokenBit, IntBytes, IntOf, IsWritten, BlockValue;
  }

  lemma Block2Step(m: Message)
    requires 23 in m.options && FitsBlock(m.block2)
    ensures Seen(Received(m, 22), 23, ValuesOf(m, 23)[0]) == Received(m, 23)
  {
    BitsGrow(m, 23);
    BlockRoundTrip(m.block2);
    IntRoundTrip(BlockValue(m.block2));
    hide SentNumbers, WithOffset, TokenBit, IntBytes, IntOf, BlockOf, BlockValue, IsWritten;
  }

  lemma Block1Step(m: Message)
    requires 27 in m.options && FitsBlock(m.block1)
    ensures Seen(Received(m, 26), 27, ValuesOf(m, 27)[0]) == Received(m, 27)
  {
    BitsGrow(m, 27);
    BlockRoundTrip(m.block1);
    IntRoundTrip(BlockValue(m.block1));
    hide SentNumbers, WithOffset, TokenBit, IntBytes, IntOf, BlockOf, BlockValue, IsWritten;
  }

  lemma LocationPathStep(m: Message)
    requires 8 in m.options && Segments(m.locationPath) && m.locationPath != []
    ensures SeenAll(Received(m, 7), 8, m.locationPath) == Received(m, 8)
  {
    BitsGrow(m, 8);
    SeenSegments(Received(m, 7), 8, m.locationPath);
    hide SentNumbers, WithOffset, TokenBit, SeenAll, IsWritten, IsList, Segments;
    assert [] + m.locationPath == m.locationPath;
  }

  lemma UriPathStep(m: Message)
    requires 11 in m.options && Segments(m.uriPath) && m.uriPath != []
    ensures SeenAll(Received(m, 10), 11, m.uriPath) == Received(m, 11)
  {
    BitsGrow(m, 11);
    SeenSegments(Received(m, 10), 11, m.uriPath);
    hide SentNumbers, WithOffset, TokenBit, SeenAll, IsWritten, IsList, Segments;
    assert [] + m.uriPath == m.uriPath;
  }

  lemma UriQueryStep(m: Message)
    requires 15 in m.options && Segments(m.uriQuery) && m.uriQuery != []
    ensures SeenAll(Received(m, 14), 15, m.uriQuery) == Received(m, 15)
  {
    BitsGrow(m, 15);
    SeenSegments(Received(m, 14), 15, m.uriQuery);
    hide SentNumbers, WithOffset, TokenBit, SeenAll, IsWritten, IsList, Segments;
    assert [] + m.uriQuery == m.uriQuery;
  }

  lemma AcceptStep(m: Message)
    requires 17 in m.options && Numbers16(m.accept) && 0 < |m.accept| <= 2
    ensures SeenAll(Received(m, 16), 17, ValuesOf(m, 17)) == Received(m, 17)
  {
    BitsGrow(m, 17);
    SeenAccept(Received(m, 16), m.accept);
    hide SentNumbers, WithOffset, TokenBit, SeenAll;
    assert [] + m.accept == m.accept;
  }

  //////////////////////////////////////////////////////////////////////////////
  // The whole packet
  //////////////////////////////////////////////////////////////////////////////

  /** The received packet grows by exactly the group that is written. */
  lemma GroupStep(m: Message, limit: nat)
    requires Serializable(m) && Consistent(m) && 0 < limit && HasGroup(m, limit)
    ensures SeenAll(Received(m, limit - 1), limit, ValuesOf(m, limit)) == Received(m, limit)
  {
    if limit == 8 {
      LocationPathStep(m);
    } else if limit == 11 {
      UriPathStep(m);
    } else if limit == 15 {
      UriQueryStep(m);
    } else if limit == 17 {
      AcceptStep(m);
    } else {
      SeenSingle(Received(m, limit - 1), limit, ValuesOf(m, limit)[0]);
      if limit <= 5 {
        BytesStep(m, limit);
      } else if limit == 6 {
        ObserveStep(m);
      } else if limit == 7 {
        UriPortStep(m);
      } else if limit == 12 {
        ContentTypeStep(m);
      } else if limit == 14 {
        MaxAgeStep(m);
      } else if limit == 23 {
        Block2Step(m);
      } else if limit == 27 {
        Block1Step(m);
      } else {
        SizeStep(m);
      }
    }
  }

  lemma {:induction false} GroupsReceived(m: Message, limit: nat)
    requires Serializable(m) && Consistent(m)
    ensures SeenGroups(Received(m, 0), Groups(m, limit)) == Received(m, limit)
  {
    if limit > 0 {
      GroupsReceived(m, limit - 1);
      var front, g := Groups(m, limit - 1), Group(limit, ValuesOf(m, limit));
      if HasGroup(m, limit) {
        GroupStep(m, limit);
        hide Received, ValuesOf, HasGroup;
        assert (front + [g])[..|front|] == front;
      } else {
        NotSent(m, limit);
      }
    }
  }

  lemma ValuesSendable(m: Message, number: nat)
    requires Serializable(m) && Consistent(m) && HasGroup(m, number)
    ensures Sendable(Group(number, ValuesOf(m, number)))
  {
    hide IntBytes, BlockValue, FitsBlock;
    var values := ValuesOf(m, number);
    forall v | v in values
      ensures |v| <= 65804
    {
    }
  }

  lemma {:induction false} AllSendable(m: Message, limit: nat)
    requires Serializable(m) && Consistent(m)
    ensures forall g | g in Groups(m, limit) :: Sendable(g)
  {
    hide Sendable, HasGroup, ValuesOf, Serializable, Consistent;
    if limit > 0 {
      AllSendable(m, limit - 1);
      if HasGroup(m, limit) {
        ValuesSendable(m, limit);
      }
    }
  }

  /** What the receiver of a packet should hold. */
  function Carried(m: Message): Message {
    Received(m, 28).(payload := m.payload)
  }

  lemma ParseTail(m: Message, number: nat, payload: seq<Octet>)
    requires m.payload == []
    ensures ParseFrom(m, number, Tail(payload)) == Parsed(0, m.(payload := payload))
  {
    if payload != [] {
      assert Tail(payload)[1..] == payload;
    }
  }

  lemma OptionsReadBack(m: Message)
    requires Serializable(m) && Consistent(m)
    ensures ParseFrom(Received(m, 0), 0, Encode(Groups(m, 28)) + Tail(m.payload)) == Parsed(0, Carried(m))
  {
    AllSendable(m, 28);
    hide ParseFrom, Encode, Groups, SeenGroups, LastNumber, Serializable, Consistent, Sendable, SentNumbers, Tail;
    ParseGroups(Received(m, 0), Groups(m, 28), Tail(m.payload));
    GroupsReceived(m, 28);
    ParseTail(Received(m, 28), LastNumber(Groups(m, 28)), m.payload);
  }

  lemma FirstByteParts(kind: nat, length: nat)
    requires kind < 4 && length <= 8
    ensures var b := 64 + 16 * kind + length; 64 <= b < 128 && b / 16 == 4 + kind && b % 16 == length
  {
  }

  lemma FirstByte(kind: nat, length: nat)
    requires kind < 4 && length <= 8
    ensures var b := Low8(64 + 16 * (kind % 4) + length % 16);
            b / 64 == 1 && b / 16 % 4 == kind && TokenLength(b) == length
  {
    FirstByteParts(kind, length);
    assert Low8(64 + 16 * (kind % 4) + length % 16) == 64 + 16 * kind + length;
    assert (4 + kind) % 4 == kind;
  }

  lemma MidBytes(mid: nat)
    requires mid < 0x1_0000
    ensures 256 * (Low8(mid / 256) as nat) + Low8(mid) as nat == mid
  {
  }

  lemma NothingSent(m: Message)
    requires m.kind < 4
    ensures Received(m, 0) == Blank(1, m.kind, m.code, m.mid, m.token, TokenBit(m.token))
  {
    assert SentNumbers(m, 0) == {} by {
      assert forall n :: n !in SentNumbers(m, 0);
    }
    hide SentNumbers, TokenBit;
    assert TokenBit(m.token) + {} == TokenBit(m.token);
  }

  lemma HeaderReads(m: Message, body: seq<Octet>)
    requires Serializable(m)
    ensures var s := HeaderBytes(m) + body;
            ReadHeader(s) == Blank(1, m.kind, m.code, m.mid, Zeros(|m.token|), {})
            && s[4..4 + |m.token|] == m.token && s[4 + |m.token|..] == body
  {
    FirstByte(m.kind, |m.token|);
    MidBytes(m.mid);
    hide Low8, TokenLength;
  }

  /** The header and the token read back; the rest is read as options. */
  lemma DecodeWire(latest: Memory, m: Message)
    requires Serializable(m)
    ensures Decode(latest, Wire(m))
         == if IsDuplicate(latest, m.mid, m.token) then Parsed(1, Received(m, 0))
            else ParseFrom(Received(m, 0), 0, Encode(Groups(m, 28)) + Tail(m.payload))
  {
    HeaderReads(m, Encode(Groups(m, 28)) + Tail(m.payload));
    NothingSent(m);
    hide HeaderBytes, ReadHeader, ParseFrom, Encode, Groups, Tail, IsDuplicate, Received, TokenBit;
  }

  //////////////////////////////////////////////////////////////////////////////
  // Everything the parser fills in is consistent
  //////////////////////////////////////////////////////////////////////////////

  lemma SeenLocationPath(m: Message, number: nat, v: seq<Octet>)
    requires 8 in m.options ==> m.locationPath != []
    ensures 8 in Seen(m, number, v).options ==> Seen(m, number, v).locationPath != []
  {
    hide BlockOf, IntOf, Segment, Front;
  }

  lemma SeenUriPath(m: Message, number: nat, v: seq<Octet>)
    requires 11 in m.options ==> m.uriPath != []
    ensures 11 in Seen(m, number, v).options ==> Seen(m, number, v).uriPath != []
  {
    hide BlockOf, IntOf, Segment, Front;
  }

  lemma SeenUriQuery(m: Message, number: nat, v: seq<Octet>)
    requires 15 in m.options ==> m.uriQuery != []
    ensures 15 in Seen(m, number, v).options ==> Seen(m, number, v).uriQuery != []
  {
    hide BlockOf, IntOf, Segment, Front;
  }

  lemma SeenAcceptList(m: Message, number: nat, v: seq<Octet>)
    requires 17 in m.options ==> m.accept != []
    ensures 17 in Seen(m, number, v).options ==> Seen(m, number, v).accept != []
  {
    hide BlockOf, IntOf, Segment, Front;
  }

  lemma SeenLists(m: Message, number: nat, v: seq<Octet>)
    requires ListsConsistent(m)
    ensures ListsConsistent(Seen(m, number, v))
  {
    SeenLocationPath(m, number, v);
    SeenUriPath(m, number, v);
    SeenUriQuery(m, number, v);
    SeenAcceptList(m, number, v);
    hide Seen;
  }

  lemma SeenBlock2(m: Message, number: nat, v: seq<Octet>)
    ensures 23 in Seen(m, number, v).options <==> 23 in m.options || number == 23
    ensures Seen(m, number, v).block2 == if number == 23 then BlockOf(IntOf(v)) else m.block2
  {
    hide BlockOf, IntOf, Segment, Front;
  }

  lemma SeenBlock1(m: Message, number: nat, v: seq<Octet>)
    ensures 27 in Seen(m, number, v).options <==> 27 in m.options || number == 27
    ensures Seen(m, number, v).block1 == if number == 27 then BlockOf(IntOf(v)) else m.block1
  {
    hide BlockOf, IntOf, Segment, Front;
  }

  lemma SeenBlocks(m: Message, number: nat, v: seq<Octet>)
    requires BlocksConsistent(m)
    ensures BlocksConsistent(Seen(m, number, v))
  {
    ParsedBlockFits(IntOf(v));
    SeenBlock2(m, number, v);
    SeenBlock1(m, number, v);
    hide FitsBlock, BlockOf, IntOf, Seen;
  }

  lemma SeenConsistent(m: Message, number: nat, v: seq<Octet>)
    requires Consistent(m)
    ensures Consistent(Seen(m, number, v))
  {
    SeenLists(m, number, v);
    SeenBlocks(m, number, v);
    hide Seen, ListsConsistent, BlocksConsistent;
  }

  lemma {:induction false} ParsedConsistent(m: Message, number: nat, s: seq<Octet>)
    requires Consistent(m)
    ensures ParseFrom(m, number, s).Parsed? ==> Consistent(ParseFrom(m, number, s).message)
    decreases |s|
  {
    hide ReadHead, Seen, StatusOf;
    if s != [] && s[0] < 240 {
      var h := ReadHead(s);
      if h.Head? && h.size + h.length <= |s| {
        var n, v := number + h.delta, s[h.size..h.size + h.length];
        SeenConsistent(m, n, v);
        hide Consistent;
        ParsedConsistent(Seen(m, n, v), n, s[h.size + h.length..]);
      }
    }
  }

  /** Bits set in the map lie in the map. */
  predicate BitsInMap(m: Message) {
    forall n | n in m.options :: InMap(n)
  }

  lemma SeenBits(m: Message, number: nat, v: seq<Octet>)
    ensures Seen(m, number, v).options == m.options + {number}
  {
    hide BlockOf, IntOf, Segment, Front;
  }

  /** A packet that was parsed has bits in its five-byte map only. */
  lemma {:induction false} ParsedInMap(m: Message, number: nat, s: seq<Octet>)
    requires BitsInMap(m)
    ensures ParseFrom(m, number, s).Parsed? ==> BitsInMap(ParseFrom(m, number, s).message)
    decreases |s|
  {
    hide ReadHead, Seen, StatusOf;
    if s != [] && s[0] < 240 {
      var h := ReadHead(s);
      if h.Head? && h.size + h.length <= |s| && InMap(number + h.delta) {
        var n, v := number + h.delta, s[h.size..h.size + h.length];
        SeenBits(m, n, v);
        ParsedInMap(Seen(m, n, v), n, s[h.size + h.length..]);
      }
    }
  }

  ghost predicate LeavesMap(numbers: seq<nat>) {
    exists n :: n in numbers && !InMap(n)
  }

  lemma LeavesMapHead(n: nat, rest: seq<nat>)
    ensures LeavesMap([n]) <==> !InMap(n)
    ensures LeavesMap([n] + rest) <==> !InMap(n) || LeavesMap(rest)
  {
    assert n in [n] && n in [n] + rest;
    if LeavesMap(rest) {
      var k :| k in rest && !InMap(k);
      assert k in [n] + rest;
    }
  }

  /** The parser sets a bit outside the map if and only if it reaches an option number from 40 on. */
  lemma {:induction false} OutsideMapIff(m: Message, number: nat, s: seq<Octet>)
    ensures ParseFrom(m, number, s).OutsideMap? <==> LeavesMap(NumbersReached(number, s))
    decreases |s|
  {
    hide ReadHead, Seen, StatusOf, LeavesMap;
    if s == [] || s[0] >= 240 || ReadHead(s).CutHead? {
      NothingLeavesMap();
    } else {
      var h := ReadHead(s);
      var n := number + h.delta;
      if h.size + h.length > |s| || StatusOf(n) != 0 {
        LeavesMapHead(n, []);
      } else {
        var rest := s[h.size + h.length..];
        LeavesMapHead(n, NumbersReached(n, rest));
        OutsideMapIff(Seen(m, n, s[h.size..h.size + h.length]), n, rest);
      }
    }
  }

  lemma NothingLeavesMap()
    ensures !LeavesMap([])
  {
  }

  /** For a whole datagram: it has a good header, is no duplicate, and its options reach a number from 40 on. */
  lemma DatagramOutsideMapIff(latest: Memory, data: seq<Octet>)
    ensures Decode(latest, data).OutsideMap?
      <==> |data| >= 4 && data[0] / 64 == 1 && |data| >= 4 + TokenLength(data[0])
           && !IsDuplicate(latest, ReadHeader(data).mid, data[4..4 + TokenLength(data[0])])
           && LeavesMap(NumbersReached(0, data[4 + TokenLength(data[0])..]))
  {
    hide ParseFrom, TokenLength, NumbersReached, LeavesMap, IsDuplicate;
    if |data| >= 4 && |data| >= 4 + TokenLength(data[0]) {
      var token := data[4..4 + TokenLength(data[0])];
      OutsideMapIff(ReadHeader(data).(token := token, options := TokenBit(token)), 0, data[4 + TokenLength(data[0])..]);
    }
  }

  /** A request with one empty option numbered 64, which a receiver may ignore. */
  lemma ElectiveOptionOutsideMap(latest: Memory)
    requires !IsDuplicate(latest, 1, [])
    ensures Decode(latest, [0x40, 1, 0, 1, 0xD0, 51]) == OutsideMap
  {
    var data: seq<Octet> := [0x40, 1, 0, 1, 0xD0, 51];
    ElectiveHead();
    hide IsDuplicate, ParseFrom;
    assert data[4..4] == [] && data[4..] == [0xD0, 51];
    assert Decode(latest, data) == ParseFrom(Blank(1, 0, 1, 1, [], {}), 0, [0xD0, 51]);
  }

  lemma ElectiveHead()
    ensures ParseFrom(Blank(1, 0, 1, 1, [], {}), 0, [0xD0, 51]) == OutsideMap
  {
    var s: seq<Octet> := [0xD0, 51];
    assert s[1..] == [51];
    assert ReadExtension(13, s[1..]) == Extended(64, 1);
    assert ReadHead(s) == Head(64, 0, 2);
    hide ReadHead;
  }

  /** Every datagram that is parsed to a status fills a packet that is consistent and has bits in its map only. */
  lemma DatagramConsistent(latest: Memory, data: seq<Octet>)
    ensures Decode(latest, data).Parsed? ==>
      Consistent(Decode(latest, data).message) && BitsInMap(Decode(latest, data).message)
  {
    hide ParseFrom, TokenLength, IsDuplicate;
    if |data| >= 4 && |data| >= 4 + TokenLength(data[0]) {
      var token := data[4..4 + TokenLength(data[0])];
      var named := ReadHeader(data).(token := token, options := TokenBit(token));
      ParsedConsistent(named, 0, data[4 + TokenLength(data[0])..]);
      ParsedInMap(named, 0, data[4 + TokenLength(data[0])..]);
    }
  }

  /** Zero in a number option, and with it If-None-Match, takes one byte. */
  lemma ZeroTakesOneByte(m: Message)
    ensures IntBytes(0) == [0] && ValuesOf(m, 5) == [[0]]
  {
    BigEndianUnfold(0, 1);
    assert BigEndian(0, 0) == [];
  }

  /**
   Parsing undoes serializing for a packet exactly when each of its set options has something to send. The parser
   takes the length of a datagram in 16 bits.
   */
  lemma RoundTripIff(latest: Memory, m: Message)
    requires Serializable(m) && |Wire(m)| < 0x1_0000 && !IsDuplicate(latest, m.mid, m.token)
    ensures Decode(latest, Wire(m)) == Parsed(0, Carried(m)) <==> Consistent(m)
  {
    hide *;
    DecodeWire(latest, m);
    CarriedConsistent(m);
    ParsedConsistent(Received(m, 0), 0, Encode(Groups(m, 28)) + Tail(m.payload));
    if Consistent(m) {
      OptionsReadBack(m);
    }
  }

  lemma CarriedConsistent(m: Message)
    ensures Consistent(Received(m, 0))
    ensures Consistent(Carried(m)) ==> Consistent(m)
  {
    OffsetFits(m.block2);
    OffsetFits(m.block1);
    hide FitsBlock, WithOffset;
    assert forall n | IsWritten(n) && n in m.options :: n in SentNumbers(m, 28);
  }

  lemma OffsetFits(b: BlockOption)
    ensures FitsBlock(WithOffset(b)) <==> FitsBlock(b)
  {
  }

  /** A message parsed twice in a row is ignored the second time, whatever was remembered before. */
  lemma SecondCopyIgnored(latest: Memory, data: seq<Octet>)
    requires |data| >= 4 && data[0] / 64 == 1 && |data| >= 4 + TokenLength(data[0])
    ensures Decode(Remembered(latest, data), data).Parsed? && Decode(Remembered(latest, data), data).status == 1
  {
    hide ParseFrom, TokenLength;
    var token := data[4..4 + TokenLength(data[0])];
    assert (token + latest.token[|token|..])[..|token|] == token;
  }

  /** A packet with the Location-Path bit set, no segments, and a Content-Format after it. */
  function EmptyPath(): Message {
    Blank(1, 0, 1, 1, [], {8, 12}).(contentType := 50)
  }

  /** What its receiver gets: an ETag. */
  function Misread(): Message {
    Blank(1, 0, 1, 1, [], {4}).(etag := [50])
  }

  lemma MisreadOption()
    ensures ParseFrom(Blank(1, 0, 1, 1, [], {}), 0, Header(4, 1) + [50]) == Parsed(0, Misread())
  {
    var m := Blank(1, 0, 1, 1, [], {});
    assert StatusOf(4) == 0;
    MisreadStored();
    hide *;
    ParseOne(m, 0, 4, [50], []);
    assert (Header(4, 1) + [50]) + [] == Header(4, 1) + [50];
  }

  lemma MisreadStored()
    ensures Seen(Blank(1, 0, 1, 1, [], {}), 0 + 4, [50]) == Misread()
    ensures ParseFrom(Misread(), 4, []) == Parsed(0, Misread())
  {
    hide IntOf, BlockOf, Segment, ReadHead;
    assert {} + {4} == {4};
  }

  /** Serializing this packet and parsing the bytes yields no error and a different packet. */
  lemma EmptyListMisread(latest: Memory)
    requires !IsDuplicate(latest, 1, [])
    ensures Serializable(EmptyPath()) && Decode(latest, Wire(EmptyPath())) == Parsed(0, Misread())
  {
    var m := EmptyPath();
    EmptyPathFields();
    DecodeWire(latest, m);
    NothingSent(m);
    MisreadGroups(m);
    MisreadOption();
    hide *;
    assert (Header(4, 1) + [50]) + [] == Header(4, 1) + [50];
  }

  lemma EmptyPathFields()
    ensures var m := EmptyPath();
            Serializable(m) && m.kind == 0 && m.mid == 1 && m.token == [] && m.payload == [] && m.code == 1
            && m.options == {8, 12} && m.locationPath == [] && m.contentType == 50
            && TokenBit(m.token) == {} && Tail(m.payload) == []
  {
  }

  lemma OneGroup(m: Message, limit: nat)
    requires 0 < limit && HasGroup(m, limit)
    ensures Groups(m, limit) == Groups(m, limit - 1) + [Group(limit, ValuesOf(m, limit))]
  {
    hide HasGroup, ValuesOf;
  }

  lemma FiftyBytes()
    ensures IntBytes(50) == [50]
  {
    BigEndianUnfold(50, 1);
    assert BigEndian(0, 0) == [];
  }

  lemma MisreadValues(m: Message)
    requires m.options == {8, 12} && m.locationPath == [] && m.contentType == 50
    ensures forall n | n != 8 && n != 12 :: !HasGroup(m, n)
    ensures HasGroup(m, 8) && ValuesOf(m, 8) == [] && HasGroup(m, 12) && ValuesOf(m, 12) == [[50]]
  {
    FiftyBytes();
    hide IntBytes;
  }

  lemma MisreadGroups(m: Message)
    requires m.options == {8, 12} && m.locationPath == [] && m.contentType == 50
    ensures Encode(Groups(m, 28)) == Header(4, 1) + [50]
  {
    var path, format := Group(8, []), Group(12, [[50]]);
    MisreadValues(m);
    assert Groups(m, 0) == [];
    hide *;
    NoGroups(m, 0, 7);
    OneGroup(m, 8);
    NoGroups(m, 8, 11);
    OneGroup(m, 12);
    NoGroups(m, 12, 28);
    MisreadEncoded(path, format);
    assert [] + [path] == [path];
  }

  lemma MisreadEncoded(path: Group, format: Group)
    requires path == Group(8, []) && format == Group(12, [[50]])
    ensures Ascending([path] + [format]) && Encode([path] + [format]) == Header(4, 1) + [50]
  {
    PathAlone(path);
    SingleValue(8, 12, [50]);
    hide *;
    EncodeSnoc([path], format);
    assert [] + (Header(4, 1) + [50]) == Header(4, 1) + [50];
  }

  lemma PathAlone(path: Group)
    requires path == Group(8, [])
    ensures Ascending([path]) && LastNumber([path]) == 8 && Encode([path]) == []
  {
    assert [path][..0] == [];
    assert Ascending([]) && LastNumber([]) == 0 && Encode([]) == [];
    assert EncodeGroup(0, 8, []) == [];
  }

  lemma SingleValue(prev: nat, number: nat, v: seq<Octet>)
    requires prev <= number
    ensures EncodeGroup(prev, number, [v]) == Header(number - prev, |v|) + v
  {
    hide Header;
    EncodeGroupSnoc(prev, number, [], v);
    assert [] + [v] == [v];
  }
}
