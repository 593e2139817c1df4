/** CoAP messages: the packet as a value, its wire form, and what the parser makes of a wire form. */
module CoapMessage {
  import opened Octets
  import opened CoapOptions

  //////////////////////////////////////////////////////////////////////////////
  // Messages
  //////////////////////////////////////////////////////////////////////////////

  datatype BlockOption = BlockOption(num: nat, more: bool, size: nat, offset: nat)

  datatype Message = Message(
    version: nat,
    kind: nat,
    code: Octet,
    mid: nat,
    token: seq<Octet>,
    options: set<nat>,
    ifMatch: seq<Octet>,
    uriHost: seq<Octet>,
    etag: seq<Octet>,
    ifNoneMatch: bool,
    observe: nat,
    uriPort: nat,
    locationPath: seq<seq<Octet>>,
    uriPath: seq<seq<Octet>>,
    contentType: nat,
    maxAge: nat,
    uriQuery: seq<seq<Octet>>,
    accept: seq<nat>,
    locationQuery: seq<Octet>,
    block2: BlockOption,
    block1: BlockOption,
    size: nat,
    proxyUri: seq<Octet>,
    payload: seq<Octet>)

  /** A packet holding nothing but what its header says. */
  function Blank(version: nat, kind: nat, code: Octet, mid: nat, token: seq<Octet>, options: set<nat>): Message {
    Message(version, kind, code, mid, token, options, [], [], [], false, 0, 0, [], [], 0, 0, [], [], [],
            BlockOption(0, false, 0, 0), BlockOption(0, false, 0, 0), 0, [], [])
  }

  //////////////////////////////////////////////////////////////////////////////
  // Block options
  //////////////////////////////////////////////////////////////////////////////

  function Pow2(k: nat): (p: nat)
    ensures p > 0
  {
    if k == 0 then 1 else 2 * Pow2(k - 1)
  }

  /** The base-two logarithm, rounded down; zero for zero. */
  function Log2(n: nat): nat {
    if n < 2 then 0 else 1 + Log2(n / 2)
  }

  /** A block option as the parser reads its number: block number, more flag, size exponent. */
  function BlockOf(value: nat): BlockOption {
    BlockOption(value / 16, value / 8 % 2 == 1, 16 * Pow2(value % 8),
                (value / 16 * 16 * Pow2(value % 8)) % 0x1_0000_0000)
  }

  /** The number the serializer writes for a block option. Exponents from 8 on run into the more flag. */
  function BlockValue(b: BlockOption): (n: nat)
    ensures n < 0x1_0000_0000
  {
    var exponent := Log2(b.size / 16) % 16;
    (16 * b.num) % 0x1_0000_0000 + (if b.more && exponent < 8 then exponent + 8 else exponent)
  }

  /** A block number of 28 bits and a size of 16 to 2048 bytes that is a power of two. */
  predicate FitsBlock(b: BlockOption) {
    b.num < 0x1000_0000 && exists k :: 0 <= k < 8 && b.size == 16 * Pow2(k)
  }

  //////////////////////////////////////////////////////////////////////////////
  // Serializing
  //////////////////////////////////////////////////////////////////////////////

  predicate IsList(number: nat) {
    number == 8 || number == 11 || number == 15
  }

  /** The options this model serializes; Location-Query and Proxy-Uri are left out. */
  predicate IsWritten(number: nat) {
    number == 1 || number == 3 || number == 4 || number == 5 || number == 6 || number == 7 || IsList(number)
    || number == 12 || number == 14 || number == 17 || number == 23 || number == 27 || number == 28
  }

  function NumberValues(numbers: seq<nat>): (s: seq<seq<Octet>>)
    ensures |s| == |numbers|
    ensures forall v | v in s :: |v| <= 4
  {
    if numbers == [] then [] else NumberValues(numbers[..|numbers| - 1]) + [IntBytes(numbers[|numbers| - 1])]
  }

  /** The option values a packet holds under a number. */
  function ValuesOf(m: Message, number: nat): seq<seq<Octet>> {
    if number == 1 then [m.ifMatch]
    else if number == 3 then [m.uriHost]
    else if number == 4 then [m.etag]
    else if number == 5 then [IntBytes(0)]
    else if number == 6 then [IntBytes(m.observe)]
    else if number == 7 then [IntBytes(m.uriPort)]
    else if number == 8 then m.locationPath
    else if number == 11 then m.uriPath
    else if number == 12 then [IntBytes(m.contentType)]
    else if number == 14 then [IntBytes(m.maxAge)]
    else if number == 15 then m.uriQuery
    else if number == 17 then NumberValues(m.accept)
    else if number == 23 then [IntBytes(BlockValue(m.block2))]
    else if number == 27 then [IntBytes(BlockValue(m.block1))]
    else if number == 28 then [IntBytes(m.size)]
    else []
  }

  /** Whether the serializer moves its option number to this one. An empty Accept list leaves it alone. */
  predicate HasGroup(m: Message, number: nat) {
    number in m.options && IsWritten(number) && (number == 17 ==> m.accept != [])
  }

  /** The groups of options numbered up to limit. */
  function Groups(m: Message, limit: nat): (groups: seq<Group>)
    ensures Ascending(groups) && LastNumber(groups) <= limit
  {
    if limit == 0 then []
    else
      var front := Groups(m, limit - 1);
      if HasGroup(m, limit) then
        EncodeSnoc(front, Group(limit, ValuesOf(m, limit)));
        front + [Group(limit, ValuesOf(m, limit))]
      else
        front
  }

  /** Numbers without a group in between add nothing. */
  lemma {:induction false} NoGroups(m: Message, from: nat, to: nat)
    requires from <= to && forall n | from < n <= to :: !HasGroup(m, n)
    ensures Groups(m, to) == Groups(m, from)
  {
    if from < to {
      NoGroups(m, from, to - 1);
    }
  }

  function HeaderBytes(m: Message): (s: seq<Octet>)
    ensures |s| == 4 + |m.token|
  {
    [Low8(64 + 16 * (m.kind % 4) + |m.token| % 16), m.code, Low8(m.mid / 256), Low8(m.mid)] + m.token
  }

  function Tail(payload: seq<Octet>): seq<Octet> {
    if payload == [] then [] else [0xFF] + payload
  }

  /** The bytes of a packet. */
  function Wire(m: Message): seq<Octet> {
    HeaderBytes(m) + (Encode(Groups(m, 28)) + Tail(m.payload))
  }

  //////////////////////////////////////////////////////////////////////////////
  // Parsing
  //////////////////////////////////////////////////////////////////////////////

  /** A status (0 for no error, 1 for ignored, else a CoAP error code) with the packet as far as it was
    filled, bytes that end inside an option, or an option number whose bit lies outside the packet's map. */
  datatype Outcome = Parsed(status: nat, message: Message) | Overrun | OutsideMap

  /** A list segment keeps its length in one byte. */
  function Segment(v: seq<Octet>): seq<Octet> {
    v[..|v| % 256]
  }

  function Front(v: seq<Octet>, n: nat): seq<Octet> {
    if |v| < n then v else v[..n]
  }

  /** The packet after an option was stored. */
  function Stored(m: Message, number: nat, v: seq<Octet>): Message {
    if number == 1 then m.(ifMatch := Front(v, 8))
    else if number == 3 then m.(uriHost := v)
    else if number == 4 then m.(etag := Front(v, 8))
    else if number == 5 then m.(ifNoneMatch := true)
    else if number == 6 then m.(observe := IntOf(v))
    else if number == 7 then m.(uriPort := IntOf(v) % 0x1_0000)
    else if number == 8 then m.(locationPath := m.locationPath + [Segment(v)])
    else if number == 11 then m.(uriPath := m.uriPath + [Segment(v)])
    else if number == 12 then m.(contentType := IntOf(v))
    else if number == 14 then m.(maxAge := IntOf(v))
    else if number == 15 then m.(uriQuery := m.uriQuery + [Segment(v)])
    else if number == 17 then
      if |m.accept| < 2 then m.(accept := m.accept + [IntOf(v) % 0x1_0000]) else m
    else if number == 20 then
      m.(locationQuery := if m.locationQuery == [] then v else m.locationQuery + ['&' as nat] + v)
    else if number == 23 then m.(block2 := BlockOf(IntOf(v)))
    else if number == 27 then m.(block1 := BlockOf(IntOf(v)))
    else if number == 28 then m.(size := IntOf(v))
    else if number == 35 then m.(proxyUri := v)
    else m
  }

  /** Proxy-Uri is refused with 5.05, and every odd (critical) number without a meaning here with 4.02. */
  function StatusOf(number: nat): nat {
    if number == 35 then 0xA5
    else if IsWritten(number) || number == 20 || number % 2 == 0 then 0
    else 0x82
  }

  /** The option map of the packet has five bytes. */
  predicate InMap(number: nat) {
    number < 40
  }

  /** The packet after an option was seen: its bit is set whatever comes of it. */
  function Seen(m: Message, number: nat, v: seq<Octet>): Message {
    Stored(m.(options := m.options + {number}), number, v)
  }

  /** Reads options, the last of which had this number, until a payload marker or the end. */
  function ParseFrom(m: Message, number: nat, s: seq<Octet>): Outcome
    decreases |s|
  {
    if s == [] then Parsed(0, m)
    else if s[0] >= 240 then Parsed(0, m.(payload := s[1..]))
    else
      var h := ReadHead(s);
      if h.CutHead? then Overrun
      else if !InMap(number + h.delta) then OutsideMap
      else if h.size + h.length > |s| then Overrun
      else
        var n := number + h.delta;
        var next := Seen(m, n, s[h.size..h.size + h.length]);
        if StatusOf(n) != 0 then Parsed(StatusOf(n), next)
        else ParseFrom(next, n, s[h.size + h.length..])
  }

  /**
   The option numbers a reader of the framing comes to: up to the payload marker, the end of the bytes, or the
   first option that is cut or refused, that one included.
   */
  function NumbersReached(number: nat, s: seq<Octet>): seq<nat>
    decreases |s|
  {
    if s == [] || s[0] >= 240 || ReadHead(s).CutHead? then []
    else
      var h := ReadHead(s);
      var n := number + h.delta;
      if h.size + h.length > |s| || StatusOf(n) != 0 then [n]
      else [n] + NumbersReached(n, s[h.size + h.length..])
  }

  /** Message id and token of the last message that was not a duplicate. */
  datatype Latest = Latest(mid: nat, token: seq<Octet>)

  type Memory = l: Latest | |l.token| == 8 witness Latest(0, [0, 0, 0, 0, 0, 0, 0, 0])

  predicate IsDuplicate(latest: Memory, mid: nat, token: seq<Octet>)
    requires |token| <= 8
  {
    latest.mid == mid && latest.token[..|token|] == token
  }

  function Remember(mid: nat, token: seq<Octet>, latest: Memory): Memory
    requires |token| <= 8
  {
    Latest(mid, token + latest.token[|token|..])
  }

  function TokenLength(first: Octet): (n: nat)
    ensures n <= 8
  {
    if first % 16 < 8 then first % 16 else 8
  }

  /** What is remembered after a datagram was parsed. */
  function Remembered(latest: Memory, data: seq<Octet>): Memory {
    if |data| < 4 || data[0] / 64 != 1 || |data| < 4 + TokenLength(data[0]) then latest
    else
      var mid, token := ReadHeader(data).mid, data[4..4 + TokenLength(data[0])];
      if IsDuplicate(latest, mid, token) then latest else Remember(mid, token, latest)
  }

  function Zeros(n: nat): (s: seq<Octet>)
    ensures |s| == n
  {
    seq(n, _ => 0)
  }

  /** The header fields, with no token bytes yet. */
  function ReadHeader(data: seq<Octet>): Message
    requires |data| >= 4
  {
    Blank(data[0] / 64, data[0] / 16 % 4, data[1], 256 * (data[2] as nat) + data[3] as nat,
          Zeros(TokenLength(data[0])), {})
  }

  function TokenBit(token: seq<Octet>): set<nat> {
    if token == [] then {} else {19}
  }

  /** What parsing a datagram gives. */
  function Decode(latest: Memory, data: seq<Octet>): Outcome {
    if |data| < 4 then Overrun
    else
      var m := ReadHeader(data);
      var from := 4 + |m.token|;
      if m.version != 1 then Parsed(0x80, m)
      else if |data| < from then Overrun
      else
        var token := data[4..from];
        var named := m.(token := token, options := TokenBit(token));
        if IsDuplicate(latest, m.mid, token) then Parsed(0x01, named)
        else ParseFrom(named, 0, data[from..])
  }

  //////////////////////////////////////////////////////////////////////////////
  // The round trip
  //////////////////////////////////////////////////////////////////////////////

  /** What the C types of the packet allow, without the two options that are left out. */
  predicate Serializable(m: Message) {
    m.kind < 4 && m.mid < 0x1_0000 && |m.token| <= 8
    && |m.ifMatch| <= 8 && |m.etag| <= 8 && |m.uriHost| < 0x1_0000
    && |m.payload| < 0x1_0000 && m.observe < 0x1_0000_0000 && m.uriPort < 0x1_0000 && m.contentType < 0x1_0000_0000
    && m.maxAge < 0x1_0000_0000 && m.size < 0x1_0000_0000
    && Segments(m.locationPath) && Segments(m.uriPath) && Segments(m.uriQuery)
    && Numbers16(m.accept) && |m.accept| <= 2
    && m.block2.num < 0x1_0000_0000 && m.block2.size < 0x1_0000
    && m.block1.num < 0x1_0000_0000 && m.block1.size < 0x1_0000
    && 20 !in m.options && 35 !in m.options
  }

  predicate Segments(list: seq<seq<Octet>>) {
    forall s | s in list :: |s| < 256
  }

  predicate Numbers16(list: seq<nat>) {
    forall n | n in list :: n < 0x1_0000
  }

  /** Every option whose bit is set has something to send that the wire can hold. */
  predicate Consistent(m: Message) {
    ListsConsistent(m) && BlocksConsistent(m)
  }

  predicate ListsConsistent(m: Message) {
    (8 in m.options ==> m.locationPath != [])
    && (11 in m.options ==> m.uriPath != [])
    && (15 in m.options ==> m.uriQuery != [])
    && (17 in m.options ==> m.accept != [])
  }

  predicate BlocksConsistent(m: Message) {
    (23 in m.options ==> FitsBlock(m.block2)) && (27 in m.options ==> FitsBlock(m.block1))
  }

  function WithOffset(b: BlockOption): BlockOption {
    b.(offset := (b.num * b.size) % 0x1_0000_0000)
  }

  function NoBlock(): BlockOption {
    BlockOption(0, false, 0, 0)
  }

  function SentNumbers(m: Message, limit: nat): set<nat> {
    set n | n in m.options && IsWritten(n) && n <= limit
  }

  /** Whether the option's bit is set and its number is within the limit. */
  predicate Sent(m: Message, limit: nat, number: nat) {
    number in m.options && number <= limit
  }

  /** What a receiver should hold of a packet after its options up to a limit. */
  function Received(m: Message, limit: nat): Message {
    Message(
      1, m.kind, m.code, m.mid, m.token, TokenBit(m.token) + SentNumbers(m, limit),
      if Sent(m, limit, 1) then m.ifMatch else [],
      if Sent(m, limit, 3) then m.uriHost else [],
      if Sent(m, limit, 4) then m.etag else [],
      Sent(m, limit, 5),
      if Sent(m, limit, 6) then m.observe else 0,
      if Sent(m, limit, 7) then m.uriPort else 0,
      if Sent(m, limit, 8) then m.locationPath else [],
      if Sent(m, limit, 11) then m.uriPath else [],
      if Sent(m, limit, 12) then m.contentType else 0,
      if Sent(m, limit, 14) then m.maxAge else 0,
      if Sent(m, limit, 15) then m.uriQuery else [],
      if Sent(m, limit, 17) then m.accept else [],
      [],
      if Sent(m, limit, 23) then WithOffset(m.block2) else NoBlock(),
      if Sent(m, limit, 27) then WithOffset(m.block1) else NoBlock(),
      if Sent(m, limit, 28) then m.size else 0,
      [],
      [])
  }

  /** Every value seen under one number, in order. */
  function SeenAll(m: Message, number: nat, values: seq<seq<Octet>>): Message {
    if values == [] then m
    else Seen(SeenAll(m, number, values[..|values| - 1]), number, values[|values| - 1])
  }

  function SeenGroups(m: Message, groups: seq<Group>): Message {
    if groups == [] then m
    else
      var g := groups[|groups| - 1];
      SeenAll(SeenGroups(m, groups[..|groups| - 1]), g.number, g.values)
  }
}
