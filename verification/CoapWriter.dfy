/** The serializing half of er-coap.c: a packet struct written into a byte buffer option by option. */
module CoapWriter {
  import opened Octets
  import opened CoapOptions
  import opened CoapMessage

  //////////////////////////////////////////////////////////////////////////////
  // Writing into a buffer
  //////////////////////////////////////////////////////////////////////////////

  /** The bytes with a stretch from at replaced. */
  function Spliced(b: seq<Octet>, at: nat, x: seq<Octet>): (s: seq<Octet>)
    requires at + |x| <= |b|
    ensures |s| == |b|
  {
    b[..at] + x + b[at + |x|..]
  }

  lemma SplicedTwice(b: seq<Octet>, at: nat, x: seq<Octet>, y: seq<Octet>)
    requires at + |x| + |y| <= |b|
    ensures Spliced(Spliced(b, at, x), at + |x|, y) == Spliced(b, at, x + y)
  {
    var c := Spliced(b, at, x);
    assert c[..at + |x|] == b[..at] + x;
    assert c[at + |x| + |y|..] == b[at + |x| + |y|..];
  }

  method CopyIn(buffer: array<Octet>, at: nat, x: seq<Octet>)
    requires at + |x| <= buffer.Length
    modifies buffer
    ensures buffer[..] == Spliced(old(buffer[..]), at, x)
  {
    forall i | 0 <= i < |x| {
      buffer[at + i] := x[i];
    }
  }

  method WriteExtension(value: nat, buffer: array<Octet>, at: nat) returns (end: nat)
    requires at + |Extension(value)| <= buffer.Length
    modifies buffer
    ensures end == at + |Extension(value)| && buffer[..] == Spliced(old(buffer[..]), at, Extension(value))
  {
    end := at;
    if value > 268 {
      buffer[end], buffer[end + 1] := Low8((value - 269) / 256), Low8(value - 269);
      end := end + 2;
    } else if value > 12 {
      buffer[end] := Low8(value - 13);
      end := end + 1;
    }
  }

  method SetOptionHeader(delta: nat, length: nat, buffer: array<Octet>, at: nat) returns (end: nat)
    requires at + |Header(delta, length)| <= buffer.Length
    modifies buffer
    ensures end == at + |Header(delta, length)| && buffer[..] == Spliced(old(buffer[..]), at, Header(delta, length))
  {
    ghost var b := buffer[..];
    var nibbles := Low8(16 * Nibble(delta) + Nibble(length));
    buffer[at] := nibbles;
    assert buffer[..] == Spliced(b, at, [nibbles]);
    hide Spliced, Extension, Low8, Nibble;
    end := WriteExtension(delta, buffer, at + 1);
    SplicedTwice(b, at, [nibbles], Extension(delta));
    end := WriteExtension(length, buffer, end);
    SplicedTwice(b, at, [nibbles] + Extension(delta), Extension(length));
  }

  /** An option with its header. */
  function OptionBytes(delta: nat, v: seq<Octet>): seq<Octet> {
    Header(delta, |v|) + v
  }

  method SerializeArrayOption(number: nat, current: nat, buffer: array<Octet>, at: nat,
      v: seq<Octet>) returns (end: nat)
    requires current <= number && at + |OptionBytes(number - current, v)| <= buffer.Length
    modifies buffer
    ensures end == at + |OptionBytes(number - current, v)|
    ensures buffer[..] == Spliced(old(buffer[..]), at, OptionBytes(number - current, v))
  {
    hide Spliced, Header;
    ghost var b := buffer[..];
    end := SetOptionHeader(number - current, |v|, buffer, at);
    CopyIn(buffer, end, v);
    SplicedTwice(b, at, Header(number - current, |v|), v);
    end := end + |v|;
  }

  /** The bytes of a number, the leading zero bytes left out but for the last. */
  method StoreNumber(value: nat, buffer: array<Octet>, at: nat) returns (end: nat)
    requires value < 0x1_0000_0000 && at + |IntBytes(value)| <= buffer.Length
    modifies buffer
    ensures end == at + |IntBytes(value)| && buffer[..] == Spliced(old(buffer[..]), at, IntBytes(value))
  {
    end := at;
    if value == 0 {
      buffer[end] := 0;
      end := end + 1;
    } else {
      if value >= 0x100_0000 {
        buffer[end] := Low8(value / 0x100_0000);
        end := end + 1;
      }
      if value >= 0x1_0000 {
        buffer[end] := Low8(value / 0x1_0000);
        end := end + 1;
      }
      if value >= 0x100 {
        buffer[end] := Low8(value / 0x100);
        end := end + 1;
      }
      buffer[end] := Low8(value);
      end := end + 1;
    }
    NumberBytes(value);
    hide BigEndian, Low8;
  }

  lemma NumberBytes(value: nat)
    ensures IntBytes(value)
         == (if value >= 0x100_0000 then [Low8(value / 0x100_0000)] else [])
            + (if value >= 0x1_0000 then [Low8(value / 0x1_0000)] else [])
            + (if value >= 0x100 then [Low8(value / 0x100)] else [])
            + [Low8(value)]
  {
    var a, b, c := value / 0x100, value / 0x1_0000, value / 0x100_0000;
    assert a / 0x100 == b && b / 0x100 == c;
    var n := IntLength(value);
    hide Low8;
    BigEndianUnfold(value, n);
    if n > 1 {
      BigEndianUnfold(a, n - 1);
    }
    if n > 2 {
      BigEndianUnfold(b, n - 2);
    }
    if n > 3 {
      BigEndianUnfold(c, 1);
    }
    assert forall v :: BigEndian(v, 0) == [];
    hide BigEndian;
  }

  /** The number of bytes a number option is announced with. */
  method CountBytes(value: nat) returns (count: nat)
    requires value < 0x1_0000_0000
    ensures count == |IntBytes(value)|
  {
    count := 0;
    if value == 0 {
      count := 1;
    } else {
      if value >= 0x100_0000 {
        count := count + 1;
      }
      if value >= 0x1_0000 {
        count := count + 1;
      }
      if value >= 0x100 {
        count := count + 1;
      }
      count := count + 1;
    }
  }

  method SerializeIntOption(number: nat, current: nat, buffer: array<Octet>, at: nat, value: nat) returns (end: nat)
    requires current <= number && value < 0x1_0000_0000
    requires at + |OptionBytes(number - current, IntBytes(value))| <= buffer.Length
    modifies buffer
    ensures end == at + |OptionBytes(number - current, IntBytes(value))|
    ensures buffer[..] == Spliced(old(buffer[..]), at, OptionBytes(number - current, IntBytes(value)))
  {
    hide Spliced, Header, IntBytes;
    ghost var b := buffer[..];
    var count := CountBytes(value);
    end := SetOptionHeader(number - current, count, buffer, at);
    end := StoreNumber(value, buffer, end);
    SplicedTwice(b, at, Header(number - current, count), IntBytes(value));
  }

  method SerializeMultiOption(number: nat, current: nat, buffer: array<Octet>, at: nat, list: seq<seq<Octet>>)
    returns (end: nat)
    requires current <= number && at + |EncodeGroup(current, number, list)| <= buffer.Length
    modifies buffer
    ensures end == at + |EncodeGroup(current, number, list)|
    ensures buffer[..] == Spliced(old(buffer[..]), at, EncodeGroup(current, number, list))
  {
    hide Spliced, EncodeGroup;
    ghost var b := buffer[..];
    end := at;
    var last, j := current, 0;
    NoneYet(b, at, current, number);
    while j < |list|
      invariant j <= |list| && last == (if j == 0 then current else number)
      invariant end == at + |EncodeGroup(current, number, list[..j])| <= buffer.Length
      invariant buffer[..] == Spliced(b, at, EncodeGroup(current, number, list[..j]))
    {
      OneMore(current, number, list, j);
      end := SerializeArrayOption(number, last, buffer, end, list[j]);
      SplicedTwice(b, at, EncodeGroup(current, number, list[..j]), OptionBytes(number - last, list[j]));
      last := number;
      j := j + 1;
    }
    assert list[..j] == list;
  }

  lemma NoneYet(b: seq<Octet>, at: nat, current: nat, number: nat)
    requires at <= |b| && current <= number
    ensures forall list: seq<seq<Octet>> :: list[..0] == []
    ensures EncodeGroup(current, number, []) == [] && Spliced(b, at, []) == b
  {
  }

  /** The first j + 1 values take the bytes of the first j and one option more, and no more than all of them. */
  lemma OneMore(current: nat, number: nat, list: seq<seq<Octet>>, j: nat)
    requires current <= number && j < |list|
    ensures EncodeGroup(current, number, list[..j + 1])
         == EncodeGroup(current, number, list[..j]) + OptionBytes(if j == 0 then number - current else 0, list[j])
    ensures |EncodeGroup(current, number, list[..j + 1])| <= |EncodeGroup(current, number, list)|
  {
    hide EncodeGroup, Header;
    assert list[..j + 1] == list[..j] + [list[j]];
    EncodeGroupSnoc(current, number, list[..j], list[j]);
    PartOfGroup(current, number, list, j + 1);
  }

  lemma {:induction false} PartOfGroup(current: nat, number: nat, list: seq<seq<Octet>>, j: nat)
    requires current <= number && j <= |list|
    ensures |EncodeGroup(current, number, list[..j])| <= |EncodeGroup(current, number, list)|
    decreases |list|
  {
    if j == |list| {
      assert list[..j] == list;
    } else {
      var front := list[..|list| - 1];
      assert front[..j] == list[..j];
      PartOfGroup(current, number, front, j);
    }
  }

  method SerializeAcceptOption(number: nat, current: nat, buffer: array<Octet>, at: nat, list: seq<nat>)
    returns (end: nat, last: nat)
    requires current <= number && Numbers16(list)
    requires at + |EncodeGroup(current, number, NumberValues(list))| <= buffer.Length
    modifies buffer
    ensures end == at + |EncodeGroup(current, number, NumberValues(list))|
    ensures last == if list == [] then current else number
    ensures buffer[..] == Spliced(old(buffer[..]), at, EncodeGroup(current, number, NumberValues(list)))
  {
    hide Spliced, EncodeGroup, NumberValues;
    ghost var b, values := buffer[..], NumberValues(list);
    end := at;
    last := current;
    var i := 0;
    NoneYet(b, at, current, number);
    while i < |list|
      invariant i <= |list| == |values| && last == (if i == 0 then current else number)
      invariant end == at + |EncodeGroup(current, number, values[..i])| <= buffer.Length
      invariant buffer[..] == Spliced(b, at, EncodeGroup(current, number, values[..i]))
    {
      assert list[i] in list;
      ValueAt(list, i);
      OneMore(current, number, values, i);
      end := SerializeIntOption(number, last, buffer, end, list[i]);
      SplicedTwice(b, at, EncodeGroup(current, number, values[..i]), OptionBytes(number - last, values[i]));
      last := number;
      i := i + 1;
    }
    assert values[..i] == values;
  }

  lemma {:induction false} ValueAt(list: seq<nat>, i: nat)
    requires i < |list|
    ensures NumberValues(list)[i] == IntBytes(list[i])
    decreases |list|
  {
    hide IntBytes;
    if i < |list| - 1 {
      ValueAt(list[..|list| - 1], i);
    }
  }

  method CoapLog2(value: nat) returns (result: nat)
    ensures result == Log2(value)
  {
    var v: nat := value / 2;
    result := 1;
    while v != 0
      invariant Log2(value) == if v == 0 then result - 1 else result + Log2(v)
    {
      v := v / 2;
      result := result + 1;
    }
    result := result - 1;
  }

  /** The number of a block option; the exponent is or-ed into the bits below the block number. */
  method BlockNumber(b: BlockOption) returns (block: nat)
    ensures block == BlockValue(b)
  {
    hide Log2;
    var exponent := CoapLog2(b.size / 16);
    exponent := exponent % 16;
    block := (16 * b.num) % 0x1_0000_0000;
    block := block + if b.more && exponent < 8 then exponent + 8 else exponent;
  }

  //////////////////////////////////////////////////////////////////////////////
  // The packet
  //////////////////////////////////////////////////////////////////////////////

  /** The buffer after the header, the token and the options numbered up to limit. */
  ghost predicate Written(base: seq<Octet>, now: seq<Octet>, m: Message, limit: nat, option: nat, current: nat) {
    var x := HeaderBytes(m) + Encode(Groups(m, limit));
    |x| <= |base| && now == Spliced(base, 0, x) && option == |x| && current == LastNumber(Groups(m, limit))
  }

  /** The buffer takes the whole packet. */
  ghost predicate Fits(base: seq<Octet>, m: Message) {
    |Wire(m)| <= |base|
  }

  lemma {:induction false} GroupsGrow(m: Message, a: nat, b: nat)
    requires a <= b
    ensures |Encode(Groups(m, a))| <= |Encode(Groups(m, b))|
  {
    if a < b {
      GroupsGrow(m, a, b - 1);
      hide Encode, ValuesOf, HasGroup;
      if HasGroup(m, b) {
        EncodeSnoc(Groups(m, b - 1), Group(b, ValuesOf(m, b)));
      }
    }
  }

  /** The group to write next, and that there is room for it. */
  lemma NextGroup(base: seq<Octet>, now: seq<Octet>, m: Message, limit: nat, option: nat, current: nat)
    requires 0 < limit <= 28 && HasGroup(m, limit) && Fits(base, m)
    requires Written(base, now, m, limit - 1, option, current)
    ensures current <= limit && |now| == |base|
    ensures option + |EncodeGroup(current, limit, ValuesOf(m, limit))| <= |base|
  {
    hide HeaderBytes, Encode, ValuesOf, HasGroup, EncodeGroup;
    EncodeSnoc(Groups(m, limit - 1), Group(limit, ValuesOf(m, limit)));
    GroupsGrow(m, limit, 28);
  }

  lemma GroupWritten(base: seq<Octet>, before: seq<Octet>, now: seq<Octet>, m: Message, limit: nat,
                     option: nat, current: nat)
    requires 0 < limit <= 28 && HasGroup(m, limit) && Fits(base, m)
    requires Written(base, before, m, limit - 1, option, current)
    requires current <= limit && option + |EncodeGroup(current, limit, ValuesOf(m, limit))| <= |before|
    requires now == Spliced(before, option, EncodeGroup(current, limit, ValuesOf(m, limit)))
    ensures Written(base, now, m, limit, option + |EncodeGroup(current, limit, ValuesOf(m, limit))|, limit)
  {
    hide HeaderBytes, Encode, ValuesOf, HasGroup, EncodeGroup, Spliced;
    var g := EncodeGroup(current, limit, ValuesOf(m, limit));
    var x := HeaderBytes(m) + Encode(Groups(m, limit - 1));
    EncodeSnoc(Groups(m, limit - 1), Group(limit, ValuesOf(m, limit)));
    SplicedTwice(base, 0, x, g);
    assert HeaderBytes(m) + Encode(Groups(m, limit)) == x + g;
  }

  lemma NothingWritten(base: seq<Octet>, now: seq<Octet>, m: Message, from: nat, to: nat, option: nat, current: nat)
    requires from <= to && forall n | from < n <= to :: !HasGroup(m, n)
    requires Written(base, now, m, from, option, current)
    ensures Written(base, now, m, to, option, current)
  {
    hide HeaderBytes, Encode, HasGroup, Spliced;
    NoGroups(m, from, to);
  }

  lemma GroupIffSet(m: Message, number: nat)
    requires IsWritten(number) && number != 17
    ensures 0 < number <= 28
    ensures HasGroup(m, number) <==> number in m.options
  {
  }

  lemma OneValue(prev: nat, number: nat, v: seq<Octet>)
    requires prev <= number
    ensures EncodeGroup(prev, number, [v]) == OptionBytes(number - prev, v)
  {
    EncodeGroupSnoc(prev, number, [], v);
    assert [] + [v] == [v];
  }

  /** A byte-string option, if its bit is set. */
  method PutBytes(m: Message, number: nat, v: seq<Octet>, buffer: array<Octet>, option: nat, current: nat,
                  ghost base: seq<Octet>) returns (end: nat, last: nat)
    requires IsWritten(number) && number != 17 && ValuesOf(m, number) == [v] && Fits(base, m)
    requires Written(base, buffer[..], m, number - 1, option, current)
    modifies buffer
    ensures Written(base, buffer[..], m, number, end, last)
  {
    hide *;
    ghost var before := buffer[..];
    GroupIffSet(m, number);
    end, last := option, current;
    if number in m.options {
      NextGroup(base, before, m, number, option, current);
      OneValue(current, number, v);
      end := SerializeArrayOption(number, current, buffer, option, v);
      last := number;
      GroupWritten(base, before, buffer[..], m, number, option, current);
    } else {
      NothingWritten(base, before, m, number - 1, number, option, current);
    }
  }

  /** A number option, if its bit is set. */
  method PutInt(m: Message, number: nat, value: nat, buffer: array<Octet>, option: nat, current: nat,
                ghost base: seq<Octet>) returns (end: nat, last: nat)
    requires IsWritten(number) && number != 17 && ValuesOf(m, number) == [IntBytes(value)] && Fits(base, m)
    requires value < 0x1_0000_0000 && Written(base, buffer[..], m, number - 1, option, current)
    modifies buffer
    ensures Written(base, buffer[..], m, number, end, last)
  {
    hide *;
    ghost var before := buffer[..];
    GroupIffSet(m, number);
    end, last := option, current;
    if number in m.options {
      NextGroup(base, before, m, number, option, current);
      OneValue(current, number, IntBytes(value));
      end := SerializeIntOption(number, current, buffer, option, value);
      last := number;
      GroupWritten(base, before, buffer[..], m, number, option, current);
    } else {
      NothingWritten(base, before, m, number - 1, number, option, current);
    }
  }

  /** A block option, if its bit is set. */
  method PutBlock(m: Message, number: nat, b: BlockOption, buffer: array<Octet>, option: nat, current: nat,
                  ghost base: seq<Octet>) returns (end: nat, last: nat)
    requires IsWritten(number) && number != 17 && ValuesOf(m, number) == [IntBytes(BlockValue(b))] && Fits(base, m)
    requires Written(base, buffer[..], m, number - 1, option, current)
    modifies buffer
    ensures Written(base, buffer[..], m, number, end, last)
  {
    hide *;
    var block := BlockNumber(b);
    end, last := PutInt(m, number, block, buffer, option, current, base);
  }

  /** A list option, if its bit is set; the current number moves on even when the list is empty. */
  method PutList(m: Message, number: nat, list: seq<seq<Octet>>, buffer: array<Octet>, option: nat, current: nat,
                 ghost base: seq<Octet>) returns (end: nat, last: nat)
    requires IsWritten(number) && number != 17 && ValuesOf(m, number) == list && Fits(base, m)
    requires Written(base, buffer[..], m, number - 1, option, current)
    modifies buffer
    ensures Written(base, buffer[..], m, number, end, last)
  {
    hide *;
    ghost var before := buffer[..];
    GroupIffSet(m, number);
    end, last := option, current;
    if number in m.options {
      NextGroup(base, before, m, number, option, current);
      end := SerializeMultiOption(number, current, buffer, option, list);
      last := number;
      GroupWritten(base, before, buffer[..], m, number, option, current);
    } else {
      NothingWritten(base, before, m, number - 1, number, option, current);
    }
  }

  lemma AcceptGroup(m: Message)
    ensures HasGroup(m, 17) <==> 17 in m.options && m.accept != []
    ensures ValuesOf(m, 17) == NumberValues(m.accept)
  {
  }

  /** The Accept options, if their bit is set; with none the current number stays. */
  method PutAccept(m: Message, buffer: array<Octet>, option: nat, current: nat, ghost base: seq<Octet>)
    returns (end: nat, last: nat)
    requires Numbers16(m.accept) && Fits(base, m) && Written(base, buffer[..], m, 16, option, current)
    modifies buffer
    ensures Written(base, buffer[..], m, 17, end, last)
  {
    hide *;
    ghost var before := buffer[..];
    AcceptGroup(m);
    end, last := option, current;
    if 17 in m.options && m.accept != [] {
      NextGroup(base, before, m, 17, option, current);
      end, last := SerializeAcceptOption(17, current, buffer, option, m.accept);
      GroupWritten(base, before, buffer[..], m, 17, option, current);
    } else {
      NothingWritten(base, before, m, 16, 17, option, current);
    }
  }

  /** The header and the token. */
  method PutHeader(m: Message, buffer: array<Octet>) returns (option: nat)
    requires |m.token| <= 8 && Fits(buffer[..], m)
    modifies buffer
    ensures Written(old(buffer[..]), buffer[..], m, 0, option, 0)
  {
    ghost var base := buffer[..];
    HeaderFits(base, m);
    hide Wire, Low8, Encode, Groups, Written;
    buffer[0] := Low8(64 + 16 * (m.kind % 4) + |m.token| % 16);
    buffer[1], buffer[2], buffer[3] := m.code, Low8(m.mid / 256), Low8(m.mid);
    CopyIn(buffer, 4, m.token);
    option := 4 + |m.token|;
    assert buffer[..] == Spliced(base, 0, HeaderBytes(m));
    HeaderWritten(base, buffer[..], m);
  }

  lemma HeaderFits(base: seq<Octet>, m: Message)
    requires Fits(base, m)
    ensures 4 + |m.token| <= |base|
  {
    hide HeaderBytes, Encode, Groups;
  }

  lemma HeaderWritten(base: seq<Octet>, now: seq<Octet>, m: Message)
    requires |HeaderBytes(m)| <= |base| && now == Spliced(base, 0, HeaderBytes(m))
    ensures Written(base, now, m, 0, |HeaderBytes(m)|, 0)
  {
    hide HeaderBytes, Spliced;
    assert HeaderBytes(m) + [] == HeaderBytes(m);
  }

  /** Skips to the number before the next one the serializer knows. */
  lemma Skip(base: seq<Octet>, now: seq<Octet>, m: Message, from: nat, to: nat, option: nat, current: nat)
    requires from <= to && forall n | from < n <= to :: !IsWritten(n)
    requires Written(base, now, m, from, option, current)
    ensures Written(base, now, m, to, option, current)
  {
    hide Written, IsWritten;
    NothingWritten(base, now, m, from, to, option, current);
  }

  lemma Gaps()
    ensures !IsWritten(2) && !IsWritten(9) && !IsWritten(10) && !IsWritten(13) && !IsWritten(16)
    ensures forall n | 17 < n <= 22 :: !IsWritten(n)
    ensures forall n | 23 < n <= 26 :: !IsWritten(n)
    ensures forall number | number in {1, 3, 4, 5, 6, 7, 8, 11, 12, 14, 15, 23, 27, 28} :: IsWritten(number)
  {
  }

  lemma EarlyValues(m: Message)
    ensures ValuesOf(m, 1) == [m.ifMatch] && ValuesOf(m, 3) == [m.uriHost] && ValuesOf(m, 4) == [m.etag]
    ensures ValuesOf(m, 5) == [IntBytes(0)] && ValuesOf(m, 6) == [IntBytes(m.observe)]
    ensures ValuesOf(m, 7) == [IntBytes(m.uriPort)]
    ensures ValuesOf(m, 8) == m.locationPath && ValuesOf(m, 11) == m.uriPath
  {
    hide IntBytes;
  }

  lemma LateValues(m: Message)
    ensures ValuesOf(m, 12) == [IntBytes(m.contentType)] && ValuesOf(m, 14) == [IntBytes(m.maxAge)]
    ensures ValuesOf(m, 15) == m.uriQuery && ValuesOf(m, 28) == [IntBytes(m.size)]
    ensures ValuesOf(m, 23) == [IntBytes(BlockValue(m.block2))] && ValuesOf(m, 27) == [IntBytes(BlockValue(m.block1))]
  {
    hide IntBytes, BlockValue;
  }

  lemma FieldWidths(m: Message)
    requires Serializable(m)
    ensures m.observe < 0x1_0000_0000 && m.uriPort < 0x1_0000_0000 && m.contentType < 0x1_0000_0000
    ensures m.maxAge < 0x1_0000_0000 && m.size < 0x1_0000_0000 && Numbers16(m.accept) && |m.token| <= 8
  {
  }

  /** The options from If-Match to Uri-Path. */
  method PutEarlyOptions(m: Message, buffer: array<Octet>, start: nat, ghost base: seq<Octet>)
    returns (option: nat, current: nat)
    requires Serializable(m) && Fits(base, m) && Written(base, buffer[..], m, 0, start, 0)
    modifies buffer
    ensures Written(base, buffer[..], m, 11, option, current)
  {
    hide *;
    FieldWidths(m);
    EarlyValues(m);
    Gaps();
    option, current := PutBytes(m, 1, m.ifMatch, buffer, start, 0, base);
    Skip(base, buffer[..], m, 1, 2, option, current);
    option, current := PutBytes(m, 3, m.uriHost, buffer, option, current, base);
    option, current := PutBytes(m, 4, m.etag, buffer, option, current, base);
    option, current := PutInt(m, 5, m.contentType - m.contentType, buffer, option, current, base);
    option, current := PutInt(m, 6, m.observe, buffer, option, current, base);
    option, current := PutInt(m, 7, m.uriPort, buffer, option, current, base);
    option, current := PutList(m, 8, m.locationPath, buffer, option, current, base);
    Skip(base, buffer[..], m, 8, 10, option, current);
    option, current := PutList(m, 11, m.uriPath, buffer, option, current, base);
  }

  /** The options from Content-Format to Size. */
  method PutLateOptions(m: Message, buffer: array<Octet>, start: nat, last: nat, ghost base: seq<Octet>)
    returns (option: nat, current: nat)
    requires Serializable(m) && Fits(base, m) && Written(base, buffer[..], m, 11, start, last)
    modifies buffer
    ensures Written(base, buffer[..], m, 28, option, current)
  {
    hide *;
    FieldWidths(m);
    LateValues(m);
    Gaps();
    option, current := PutInt(m, 12, m.contentType, buffer, start, last, base);
    Skip(base, buffer[..], m, 12, 13, option, current);
    option, current := PutInt(m, 14, m.maxAge, buffer, option, current, base);
    option, current := PutList(m, 15, m.uriQuery, buffer, option, current, base);
    Skip(base, buffer[..], m, 15, 16, option, current);
    option, current := PutAccept(m, buffer, option, current, base);
    Skip(base, buffer[..], m, 17, 22, option, current);
    option, current := PutBlock(m, 23, m.block2, buffer, option, current, base);
    Skip(base, buffer[..], m, 23, 26, option, current);
    option, current := PutBlock(m, 27, m.block1, buffer, option, current, base);
    option, current := PutInt(m, 28, m.size, buffer, option, current, base);
  }

  /** The payload marker, if there is a payload, and the payload. */
  method PutPayload(m: Message, buffer: array<Octet>, option: nat, ghost current: nat, ghost base: seq<Octet>)
    returns (length: nat)
    requires Fits(base, m) && Written(base, buffer[..], m, 28, option, current)
    modifies buffer
    ensures length == |Wire(m)| && Fits(base, m) && buffer[..] == Spliced(base, 0, Wire(m))
  {
    hide *;
    ghost var x := Written28(m, base, buffer[..], option, current);
    length := option;
    if m.payload != [] {
      PayloadSpliced(base, x, m.payload);
      CopyIn(buffer, length, [0xFF]);
      length := length + 1;
      CopyIn(buffer, length, m.payload);
      length := length + |m.payload|;
    }
  }

  /** What is in the buffer when the options are done, and what is missing to the wire form. */
  lemma Written28(m: Message, base: seq<Octet>, now: seq<Octet>, option: nat, current: nat) returns (x: seq<Octet>)
    requires Fits(base, m) && Written(base, now, m, 28, option, current)
    ensures option == |x| <= |base| == |now| && now == Spliced(base, 0, x) && |Wire(m)| <= |base|
    ensures Wire(m) == if m.payload == [] then x else (x + [0xFF]) + m.payload
  {
    x := HeaderBytes(m) + Encode(Groups(m, 28));
    WireEnds(m);
    hide HeaderBytes, Encode, Groups, Wire;
  }

  /** The marker and the payload, put behind what is written. */
  lemma PayloadSpliced(base: seq<Octet>, x: seq<Octet>, payload: seq<Octet>)
    requires |x| + 1 + |payload| <= |base|
    ensures Spliced(Spliced(Spliced(base, 0, x), |x|, [0xFF]), |x| + 1, payload)
         == Spliced(base, 0, (x + [0xFF]) + payload)
  {
    hide Spliced;
    SplicedTwice(base, 0, x, [0xFF]);
    SplicedTwice(base, 0, x + [0xFF], payload);
  }

  lemma WireEnds(m: Message)
    ensures var x := HeaderBytes(m) + Encode(Groups(m, 28));
            Wire(m) == x + Tail(m.payload) && (m.payload == [] ==> Wire(m) == x)
            && (m.payload != [] ==> Wire(m) == (x + [0xFF]) + m.payload)
  {
    hide HeaderBytes, Encode, Groups;
    var h, e, t := HeaderBytes(m), Encode(Groups(m, 28)), Tail(m.payload);
    assert h + (e + t) == (h + e) + t;
    if t == [] {
      assert (h + e) + t == h + e;
    } else {
      assert (h + e) + ([0xFF] + m.payload) == ((h + e) + [0xFF]) + m.payload;
    }
  }

  /** The packet struct. */
  class Packet {
    var fields: Message

    constructor (m: Message)
      ensures fields == m
    {
      fields := m;
    }

    /** Writes the packet to the buffer and gives up the option lists. */
    method Serialize(buffer: array<Octet>) returns (length: nat)
      requires Serializable(fields) && |Wire(fields)| <= buffer.Length
      modifies this, buffer
      ensures length == |Wire(old(fields))| && |Wire(old(fields))| <= buffer.Length
      ensures buffer[..] == Spliced(old(buffer[..]), 0, Wire(old(fields)))
      ensures fields == old(fields).(version := 1, uriPath := [], uriQuery := [], locationPath := [])
    {
      hide Serializable, Wire, Written, Spliced;
      ghost var m, base := fields, buffer[..];
      fields := fields.(version := 1);
      SameWire(m);
      TokenFits(m);
      var option := PutHeader(fields, buffer);
      var current := 0;
      option, current := PutEarlyOptions(fields, buffer, option, base);
      option, current := PutLateOptions(fields, buffer, option, current, base);
      length := PutPayload(fields, buffer, option, current, base);
      fields := fields.(uriPath := [], uriQuery := [], locationPath := []);
    }
  }

  lemma TokenFits(m: Message)
    requires Serializable(m)
    ensures |m.token| <= 8
  {
  }

  lemma {:induction false} SameGroups(m: Message, limit: nat)
    ensures Groups(m.(version := 1), limit) == Groups(m, limit)
  {
    hide IntBytes, BlockValue, NumberValues;
    if limit > 0 {
      SameGroups(m, limit - 1);
    }
  }

  /** The version field plays no part in what is written. */
  lemma SameWire(m: Message)
    ensures Wire(m.(version := 1)) == Wire(m)
    ensures Serializable(m) ==> Serializable(m.(version := 1))
  {
    SameGroups(m, 28);
    hide Encode, Groups, Low8;
  }
}
