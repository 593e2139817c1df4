/** The parsing half of er-coap.c: a datagram read into a packet struct, duplicates ignored. */
module CoapParser {
  import opened Octets
  import opened CoapOptions
  import opened CoapMessage
  import opened CoapWriter

  method ParseIntOption(data: array<Octet>, from: nat, length: nat) returns (value: nat)
    requires from + length <= data.Length
    ensures value == IntOf(data[from..from + length])
  {
    value := 0;
    var i := 0;
    while i < length
      invariant i <= length && value == IntOf(data[from..from + i])
    {
      IntOfSnoc(data[from..from + i], data[from + i]);
      assert data[from..from + i + 1] == data[from..from + i] + [data[from + i]];
      value := (256 * value + data[from + i] as nat) % 0x1_0000_0000;
      i := i + 1;
    }
  }

  method ParseExtension(nibble: nat, data: array<Octet>, at: nat, end: nat) returns (value: nat, next: nat)
    requires at <= end <= data.Length && ReadExtension(nibble, data[at..end]).Extended?
    ensures at <= next <= end && ReadExtension(nibble, data[at..end]) == Extended(value, next - at)
  {
    value, next := nibble, at;
    if value == 13 {
      value := value + data[next] as nat;
      next := next + 1;
    } else if value == 14 {
      value := value + 255;
      value := value + 256 * (data[next] as nat);
      next := next + 1;
      value := value + data[next] as nat;
      next := next + 1;
    }
  }

  /** The header of the option at a position. */
  method ParseHead(data: array<Octet>, at: nat, end: nat) returns (delta: nat, length: nat, next: nat)
    requires at < end <= data.Length && ReadHead(data[at..end]).Head?
    ensures at < next <= end && ReadHead(data[at..end]) == Head(delta, length, next - at)
  {
    ghost var s := data[at..end];
    assert s[1..] == data[at + 1..end];
    hide ReadExtension;
    delta, next := ParseExtension(data[at] as nat / 16, data, at + 1, end);
    assert s[next - at..] == data[next..end];
    length, next := ParseExtension(data[at] as nat % 16, data, next, end);
  }

  /** The options that hold one number. */
  method StoreNumber(packet: Packet, number: nat, data: array<Octet>, from: nat, length: nat)
    requires number in {6, 7, 12, 14, 17, 28} && from + length <= data.Length
    modifies packet
    ensures packet.fields == Stored(old(packet.fields), number, data[from..from + length])
  {
    var value := ParseIntOption(data, from, length);
    hide IntOf, BlockOf, Segment, Front;
    if number == 12 {
      packet.fields := packet.fields.(contentType := value);
    } else if number == 14 {
      packet.fields := packet.fields.(maxAge := value);
    } else if number == 17 {
      if |packet.fields.accept| < 2 {
        packet.fields := packet.fields.(accept := packet.fields.accept + [value % 0x1_0000]);
      }
    } else if number == 7 {
      packet.fields := packet.fields.(uriPort := value % 0x1_0000);
    } else if number == 6 {
      packet.fields := packet.fields.(observe := value);
    } else {
      packet.fields := packet.fields.(size := value);
    }
  }

  /** Two to the power of a size exponent, by shifting. */
  method ShiftLeft(value: nat, count: nat) returns (shifted: nat)
    ensures shifted == value * Pow2(count)
  {
    shifted := value;
    var i := 0;
    while i < count
      invariant i <= count && shifted == value * Pow2(i)
    {
      Doubled(value, Pow2(i));
      shifted := 2 * shifted;
      i := i + 1;
    }
  }

  lemma Doubled(a: nat, p: nat)
    ensures 2 * (a * p) == a * (2 * p)
  {
  }

  method ParseBlock(data: array<Octet>, from: nat, length: nat) returns (b: BlockOption)
    requires from + length <= data.Length
    ensures b == BlockOf(IntOf(data[from..from + length]))
  {
    hide IntOf, Pow2;
    var value := ParseIntOption(data, from, length);
    var size := ShiftLeft(16, value % 8);
    var offset := ShiftLeft(value / 16 * 16, value % 8);
    b := BlockOption(value / 16, value / 8 % 2 == 1, size, offset % 0x1_0000_0000);
  }

  /** The options that hold bytes, and the two block options. */
  method StoreValue(packet: Packet, number: nat, data: array<Octet>, from: nat, length: nat)
    requires number in {1, 3, 4, 20, 23, 27, 35} && from + length <= data.Length
    modifies packet
    ensures packet.fields == Stored(old(packet.fields), number, data[from..from + length])
  {
    hide IntOf, BlockOf, Segment;
    var v := data[from..from + length];
    if number == 4 {
      packet.fields := packet.fields.(etag := data[from..from + if length < 8 then length else 8]);
    } else if number == 1 {
      packet.fields := packet.fields.(ifMatch := data[from..from + if length < 8 then length else 8]);
    } else if number == 3 {
      packet.fields := packet.fields.(uriHost := v);
    } else if number == 20 {
      if |packet.fields.locationQuery| > 0 {
        packet.fields := packet.fields.(locationQuery := packet.fields.locationQuery + ['&' as nat] + v);
      } else {
        packet.fields := packet.fields.(locationQuery := v);
      }
    } else if number == 35 {
      packet.fields := packet.fields.(proxyUri := v);
    } else {
      var b := ParseBlock(data, from, length);
      if number == 23 {
        packet.fields := packet.fields.(block2 := b);
      } else {
        packet.fields := packet.fields.(block1 := b);
      }
    }
  }

  /** A segment put at the end of one of the lists, its length cut to one byte. */
  method AddMultiOption(packet: Packet, number: nat, data: array<Octet>, from: nat, length: nat)
    requires IsList(number) && from + length <= data.Length
    modifies packet
    ensures packet.fields == Stored(old(packet.fields), number, data[from..from + length])
  {
    hide IntOf, BlockOf, Front;
    var kept := length % 256;
    var segment := data[from..from + kept];
    assert segment == Segment(data[from..from + length]);
    if number == 8 {
      packet.fields := packet.fields.(locationPath := packet.fields.locationPath + [segment]);
    } else if number == 11 {
      packet.fields := packet.fields.(uriPath := packet.fields.uriPath + [segment]);
    } else {
      packet.fields := packet.fields.(uriQuery := packet.fields.uriQuery + [segment]);
    }
  }

  /** Sets the bit of an option number, which has to lie in the map, and takes the switch over the numbers. */
  method StoreOption(packet: Packet, number: nat, data: array<Octet>, from: nat, length: nat) returns (status: nat)
    requires InMap(number) && from + length <= data.Length
    modifies packet
    ensures packet.fields == Seen(old(packet.fields), number, data[from..from + length])
    ensures status == StatusOf(number)
  {
    packet.fields := packet.fields.(options := packet.fields.options + {number});
    status := 0;
    if number in {6, 7, 12, 14, 17, 28} {
      hide Stored;
      StoreNumber(packet, number, data, from, length);
    } else if number in {1, 3, 4, 20, 23, 27, 35} {
      hide Stored;
      StoreValue(packet, number, data, from, length);
      if number == 35 {
        status := 0xA5;
      }
    } else if number == 8 || number == 11 || number == 15 {
      hide Stored;
      AddMultiOption(packet, number, data, from, length);
    } else if number == 5 {
      packet.fields := packet.fields.(ifNoneMatch := true);
    } else if number % 2 == 1 {
      status := 0x82;
    }
  }

  /** The reader's recursion, one step. */
  lemma ParseUnfold(m: Message, number: nat, s: seq<Octet>)
    requires s != [] && ParseFrom(m, number, s).Parsed?
    ensures s[0] >= 240 ==> ParseFrom(m, number, s) == Parsed(0, m.(payload := s[1..]))
    ensures s[0] < 240 ==>
      var h := ReadHead(s);
      h.Head? && h.size + h.length <= |s| && InMap(number + h.delta)
      && var n, next := number + h.delta, Seen(m, number + h.delta, s[h.size..h.size + h.length]);
         ParseFrom(m, number, s)
         == if StatusOf(n) != 0 then Parsed(StatusOf(n), next) else ParseFrom(next, n, s[h.size + h.length..])
  {
    hide ReadHead, Seen, StatusOf;
  }

  lemma TailOf(data: array<Octet>, at: nat, end: nat)
    requires at < end <= data.Length
    ensures data[at..end][0] == data[at] && data[at..end][1..] == data[at + 1..end]
  {
  }

  lemma PartsOf(data: array<Octet>, at: nat, end: nat, next: nat, length: nat)
    requires at <= next && next + length <= end <= data.Length
    ensures data[at..end][next - at..next - at + length] == data[next..next + length]
    ensures data[at..end][next - at + length..] == data[next + length..end]
  {
    var value := data[at..end][next - at..next - at + length];
    assert forall i | 0 <= i < length :: value[i] == data[next + i];
  }

  /** One turn of the option loop; done says the loop is left. */
  method ParseOption(packet: Packet, number: nat, data: array<Octet>, at: nat, end: nat)
    returns (done: bool, status: nat, option: nat, next: nat)
    requires at < end <= data.Length && ParseFrom(packet.fields, number, data[at..end]).Parsed?
    modifies packet
    ensures done ==> ParseFrom(old(packet.fields), number, data[at..end]) == Parsed(status, packet.fields)
    ensures !done ==> at < next <= end
                      && ParseFrom(old(packet.fields), number, data[at..end])
                      == ParseFrom(packet.fields, option, data[next..end])
  {
    hide *;
    ParseUnfold(packet.fields, number, data[at..end]);
    done, status, option, next := true, 0, number, at;
    if data[at] >= 240 {
      TailOf(data, at, end);
      packet.fields := packet.fields.(payload := data[at + 1..end]);
    } else {
      var delta, length;
      delta, length, next := ParseHead(data, at, end);
      PartsOf(data, at, end, next, length);
      option := number + delta;
      status := StoreOption(packet, option, data, next, length);
      next := next + length;
      done := status != 0;
    }
  }

  method ParseOptions(packet: Packet, data: array<Octet>, from: nat, end: nat) returns (status: nat)
    requires from <= end <= data.Length && ParseFrom(packet.fields, 0, data[from..end]).Parsed?
    modifies packet
    ensures ParseFrom(old(packet.fields), 0, data[from..end]) == Parsed(status, packet.fields)
  {
    hide ParseFrom;
    ghost var target := ParseFrom(packet.fields, 0, data[from..end]);
    var number, at := 0, from;
    status := 0;
    while at < end
      invariant from <= at <= end && target == ParseFrom(packet.fields, number, data[at..end])
    {
      var done;
      done, status, number, at := ParseOption(packet, number, data, at, end);
      if done {
        return;
      }
    }
    assert data[at..end] == [];
    NoBytesLeft(packet.fields, number);
    status := 0;
  }

  lemma NoBytesLeft(m: Message, number: nat)
    ensures ParseFrom(m, number, []) == Parsed(0, m)
  {
  }

  /** The parser, with the two statics that remember the latest message. */
  class Parser {
    var latestMid: nat
    const latestToken: array<Octet>

    ghost predicate Valid()
      reads latestToken
    {
      latestToken.Length == 8
    }

    ghost function Latest(): Memory
      reads this, latestToken
      requires Valid()
    {
      CoapMessage.Latest(latestMid, latestToken[..])
    }

    constructor ()
      ensures Valid() && fresh(latestToken)
      ensures latestMid == 0 && latestToken[..] == Zeros(8)
    {
      latestMid := 0;
      latestToken := new Octet[8](_ => 0);
    }

    method Parse(packet: Packet, data: array<Octet>, length: nat) returns (status: nat)
      requires Valid() && data != latestToken && length <= data.Length
      requires Decode(Latest(), data[..length]).Parsed?
      modifies this`latestMid, latestToken, packet
      ensures Valid() && Decode(old(Latest()), data[..length]) == Parsed(status, packet.fields)
      ensures Latest() == Remembered(old(Latest()), data[..length])
    {
      hide ParseFrom, TokenLength, Spliced;
      ghost var s, before := data[..length], Latest();
      packet.fields := ReadHeader(data[..4]);
      assert ReadHeader(data[..4]) == ReadHeader(s);
      var mid, from := packet.fields.mid, 4 + |packet.fields.token|;
      if packet.fields.version != 1 {
        return 0x80;
      }
      var token := data[4..from];
      assert token == s[4..from];
      packet.fields := packet.fields.(token := token, options := TokenBit(token));
      if latestMid == mid && latestToken[..|token|] == token {
        return 0x01;
      }
      latestMid := mid;
      CopyIn(latestToken, 0, token);
      TokenCopied(before, token, mid);
      assert data[from..length] == s[from..];
      status := ParseOptions(packet, data, from, length);
    }
  }

  lemma TokenCopied(latest: Memory, token: seq<Octet>, mid: nat)
    requires |token| <= 8
    ensures CoapMessage.Latest(mid, Spliced(latest.token, 0, token)) == Remember(mid, token, latest)
  {
  }
}
