/** The two-level receive ring of the RS485 driver (App/uart.c): a byte buffer and a ring of segments in it. */
module Rs485 {
  import opened Bytes

  //////////////////////////////////////////////////////////////////////////////
  // The control block
  //////////////////////////////////////////////////////////////////////////////

  /** Where a segment starts, and the position of its last byte, one before its start when it is empty. */
  datatype Slot = Slot(start: nat, end: int)

  /** The buffer, the slots, the slot to receive into, the slot to take from, and the bytes received since the wrap. */
  datatype State = State(buf: seq<Byte>, slots: seq<Slot>, inAt: nat, outAt: nat, counter: nat)

  /** The slot after a slot; the hundredth is only a mark and never used. */
  function After(i: nat): nat {
    if i + 1 == 99 then 0 else i + 1
  }

  /** The k-th slot from a slot. */
  function SlotAt(i: nat, k: nat): nat {
    if i + k < 99 then i + k else i + k - 99
  }

  predicate Shape(s: State) {
    |s.buf| == 2048 && |s.slots| == 100 && s.inAt < 99 && s.outAt < 99
    && s.counter <= 1792 && s.slots[s.inAt].start == s.counter
  }

  function Unread(s: State): (n: nat)
    requires Shape(s)
    ensures n < 99
  {
    if s.outAt <= s.inAt then s.inAt - s.outAt else s.inAt + 99 - s.outAt
  }

  predicate InBuffer(slot: Slot) {
    slot.start <= slot.end + 1 <= 2048
  }

  /** The window of the next read lies in the buffer, and so does every unread segment. */
  predicate Valid(s: State) {
    Shape(s) && forall k | 0 <= k < Unread(s) :: InBuffer(s.slots[SlotAt(s.outAt, k)])
  }

  function Segment(buf: seq<Byte>, slot: Slot): seq<Byte>
    requires |buf| == 2048 && InBuffer(slot)
  {
    buf[slot.start..slot.end + 1]
  }

  /** The chunks received and not yet taken, oldest first. */
  function Pending(s: State): (chunks: seq<seq<Byte>>)
    requires Valid(s)
    ensures |chunks| == Unread(s)
  {
    seq(Unread(s), k requires 0 <= k < Unread(s) => Segment(s.buf, s.slots[SlotAt(s.outAt, k)]))
  }

  /** A read of n bytes would overwrite nothing unread. */
  predicate Clear(s: State, n: nat)
    requires Valid(s)
  {
    forall k | 0 <= k < Unread(s) ::
      var slot := s.slots[SlotAt(s.outAt, k)];
      slot.end + 1 == slot.start || slot.end < s.counter || s.counter + n <= slot.start
  }

  //////////////////////////////////////////////////////////////////////////////
  // The two steps
  //////////////////////////////////////////////////////////////////////////////

  /** The ring as it starts. */
  function Fresh(): (s: State)
    ensures Valid(s) && Pending(s) == []
  {
    State(Zeros(2048), seq(100, _ => Slot(0, 0)), 0, 0, 0)
  }

  /** After a chunk arrived. */
  function Received(s: State, chunk: seq<Byte>): State
    requires Shape(s) && |chunk| <= 256
  {
    var counter := s.counter + |chunk|;
    var filled := s.slots[s.inAt := Slot(s.counter, counter - 1)];
    var next := After(s.inAt);
    var wraps := 2048 - counter < 256;
    State(s.buf[..s.counter] + chunk + s.buf[counter..],
          filled[next := if wraps then filled[next].(start := 0) else Slot(counter, counter)],
          next, s.outAt, if wraps then 0 else counter)
  }

  /** After the detection step, which takes the oldest segment if there is one. */
  function Detected(s: State): State
    requires Shape(s)
  {
    if s.outAt == s.inAt then s else s.(outAt := After(s.outAt))
  }

  lemma StoredIs(b: seq<Byte>, at: nat, chunk: seq<Byte>, stored: seq<Byte>)
    requires at + |chunk| <= |b| && stored == b[..at] + chunk[0..|chunk|] + b[at + |chunk|..]
    ensures stored == b[..at] + chunk + b[at + |chunk|..]
  {
    assert chunk[0..|chunk|] == chunk;
  }

  /** The ring as the driver has it. */
  class Ring {
    const buf: array<Byte>
    const slots: array<Slot>
    var inAt: nat
    var outAt: nat
    var counter: nat

    ghost function Value(): State
      reads this, buf, slots
    {
      State(buf[..], slots[..], inAt, outAt, counter)
    }

    constructor ()
      ensures fresh(buf) && fresh(slots) && Value() == Fresh()
    {
      buf := new Byte[2048](_ => 0);
      slots := new Slot[100](_ => Slot(0, 0));
      inAt, outAt, counter := 0, 0, 0;
    }

    /** Reads what the line holds, at most 256 bytes, to the place the input slot names. */
    method Receive(chunk: array<Byte>)
      requires Shape(Value()) && chunk.Length <= 256 && chunk != buf
      modifies this, buf, slots
      ensures Value() == Received(old(Value()), old(chunk[..]))
    {
      ghost var before, bytes := Value(), chunk[..];
      MemMove(buf, slots[inAt].start, chunk, 0, chunk.Length);
      ghost var stored := buf[..];
      StoredIs(before.buf, before.counter, bytes, stored);
      counter := counter + chunk.Length;
      slots[inAt] := slots[inAt].(end := counter - 1);
      ghost var filled := slots[..];
      assert filled == before.slots[before.inAt := Slot(before.counter, counter - 1)];
      inAt := inAt + 1;
      if inAt == 99 {
        inAt := 0;
      }
      if 2048 - counter >= 256 {
        slots[inAt] := Slot(counter, counter);
      } else {
        slots[inAt] := slots[inAt].(start := 0);
        counter := 0;
      }
      assert slots[..] == filled[inAt := slots[inAt]];
      assert buf[..] == stored;
    }

    /** Hands the oldest segment on, if there is one. */
    method Detect() returns (taken: bool, handled: seq<Byte>)
      requires Valid(Value())
      modifies this`outAt
      ensures Value() == Detected(old(Value()))
      ensures taken == (old(Pending(Value())) != [])
      ensures handled == if taken then old(Pending(Value()))[0] else []
    {
      taken, handled := false, [];
      if outAt != inAt {
        assert SlotAt(outAt, 0) == outAt && InBuffer(slots[SlotAt(outAt, 0)]);
        handled := buf[slots[outAt].start..slots[outAt].end + 1];
        taken := true;
        outAt := outAt + 1;
        if outAt == 99 {
          outAt := 0;
        }
      }
    }
  }

  //////////////////////////////////////////////////////////////////////////////
  // What the steps keep
  //////////////////////////////////////////////////////////////////////////////

  lemma ShapeKept(s: State, chunk: seq<Byte>)
    requires Shape(s) && |chunk| <= 256
    ensures Shape(Received(s, chunk)) && Shape(Detected(s))
  {
  }

  lemma UnreadGrows(s: State, chunk: seq<Byte>)
    requires Shape(s) && |chunk| <= 256
    ensures Shape(Received(s, chunk))
    ensures Unread(Received(s, chunk)) == if Unread(s) == 98 then 0 else Unread(s) + 1
    ensures SlotAt(s.outAt, Unread(s)) == s.inAt
  {
  }

  /** An unread slot is neither the one being filled nor the one after it. */
  lemma UnreadSlotKept(s: State, chunk: seq<Byte>, k: nat)
    requires Shape(s) && |chunk| <= 256 && k < Unread(s) < 98
    ensures Received(s, chunk).slots[SlotAt(s.outAt, k)] == s.slots[SlotAt(s.outAt, k)]
  {
  }

  lemma FilledSlot(s: State, chunk: seq<Byte>)
    requires Shape(s) && |chunk| <= 256
    ensures Received(s, chunk).slots[s.inAt] == Slot(s.counter, s.counter + |chunk| - 1)
  {
  }

  /** A chunk that overwrites nothing unread joins the end of the queue. */
  lemma ReceiveAppends(s: State, chunk: seq<Byte>)
    requires Valid(s) && |chunk| <= 256 && Unread(s) < 98 && (chunk == [] || Clear(s, |chunk|))
    ensures Valid(Received(s, chunk))
    ensures Pending(Received(s, chunk)) == Pending(s) + [chunk]
  {
    var r := Received(s, chunk);
    UnreadGrows(s, chunk);
    FilledSlot(s, chunk);
    forall k | 0 <= k < Unread(s) + 1
      ensures InBuffer(r.slots[SlotAt(s.outAt, k)])
      ensures Segment(r.buf, r.slots[SlotAt(s.outAt, k)]) == (Pending(s) + [chunk])[k]
    {
      if k < Unread(s) {
        UnreadSlotKept(s, chunk, k);
        SegmentKept(s, chunk, k);
      } else {
        assert Segment(r.buf, r.slots[s.inAt]) == chunk;
      }
    }
    hide Received, Segment;
    assert Pending(r) == Pending(s) + [chunk];
  }

  lemma SegmentKept(s: State, chunk: seq<Byte>, k: nat)
    requires Valid(s) && |chunk| <= 256 && (chunk == [] || Clear(s, |chunk|)) && k < Unread(s)
    ensures |Received(s, chunk).buf| == 2048
    ensures Segment(Received(s, chunk).buf, s.slots[SlotAt(s.outAt, k)]) == Pending(s)[k]
  {
    var slot := s.slots[SlotAt(s.outAt, k)];
    assert InBuffer(slot);
    var was, now := Segment(s.buf, slot), Segment(Received(s, chunk).buf, slot);
    forall i | 0 <= i < |was|
      ensures now[i] == was[i]
    {
      OutsideKept(s.buf, s.counter, chunk, slot.start + i);
    }
  }

  lemma OutsideKept(b: seq<Byte>, at: nat, chunk: seq<Byte>, j: nat)
    requires at + |chunk| <= |b| && (j < at || at + |chunk| <= j < |b|)
    ensures (b[..at] + chunk + b[at + |chunk|..])[j] == b[j]
  {
  }

  /** The chunk joins the end of the queue, and the queue before it stays as it is. */
  ghost predicate Appends(s: State, chunk: seq<Byte>)
    requires Valid(s) && |chunk| <= 256
  {
    Valid(Received(s, chunk)) && Pending(Received(s, chunk)) == Pending(s) + [chunk]
  }

  /** A position that a read of n bytes overwrites in an unread segment. */
  lemma OverwrittenAt(s: State, n: nat) returns (k: nat, j: nat)
    requires Valid(s) && 0 < n <= 256 && !Clear(s, n)
    ensures k < Unread(s) && s.counter <= j < s.counter + n
    ensures s.slots[SlotAt(s.outAt, k)].start <= j <= s.slots[SlotAt(s.outAt, k)].end
  {
    k :| 0 <= k < Unread(s)
         && var slot := s.slots[SlotAt(s.outAt, k)];
            slot.end + 1 != slot.start && slot.end >= s.counter && slot.start < s.counter + n;
    var slot := s.slots[SlotAt(s.outAt, k)];
    assert InBuffer(slot);
    j := if slot.start < s.counter then s.counter else slot.start;
  }

  lemma InsideReplaced(b: seq<Byte>, at: nat, chunk: seq<Byte>, j: nat)
    requires at + |chunk| <= |b| && at <= j < at + |chunk|
    ensures (b[..at] + chunk + b[at + |chunk|..])[j] == chunk[j - at]
  {
  }

  /** A chunk that changes a byte of an unread segment does not leave the queue as it is. */
  lemma OverwriteShows(s: State, chunk: seq<Byte>, k: nat, j: nat)
    requires Valid(s) && |chunk| <= 256 && k < Unread(s) < 98 && s.counter <= j < s.counter + |chunk|
    requires s.slots[SlotAt(s.outAt, k)].start <= j <= s.slots[SlotAt(s.outAt, k)].end < 2048
    requires chunk[j - s.counter] != s.buf[j]
    ensures !Appends(s, chunk)
  {
    var r, slot := Received(s, chunk), s.slots[SlotAt(s.outAt, k)];
    UnreadGrows(s, chunk);
    UnreadSlotKept(s, chunk, k);
    InsideReplaced(s.buf, s.counter, chunk, j);
    assert Pending(s)[k][j - slot.start] == s.buf[j];
    if Valid(r) {
      assert Pending(r)[k][j - slot.start] == r.buf[j];
    }
  }

  /**
   A read of n bytes keeps the queue, whatever they are, if and only if there are slots and the window is clear. An
   empty read needs a slot only.
   */
  lemma ReceiveAppendsIff(s: State, n: nat)
    requires Valid(s) && n <= 256
    ensures Unread(s) < 98 && (n == 0 || Clear(s, n)) <==> forall chunk: seq<Byte> | |chunk| == n :: Appends(s, chunk)
  {
    if Unread(s) < 98 && (n == 0 || Clear(s, n)) {
      forall chunk: seq<Byte> | |chunk| == n
        ensures Appends(s, chunk)
      {
        ReceiveAppends(s, chunk);
      }
    } else if Unread(s) == 98 {
      var chunk: seq<Byte> := Zeros(n);
      FullRingEmpties(s, chunk);
      hide Received, Pending;
      assert |Pending(s) + [chunk]| > 0;
      assert !Appends(s, chunk);
    } else {
      var k, j := OverwrittenAt(s, n);
      assert InBuffer(s.slots[SlotAt(s.outAt, k)]);
      var chunk: seq<Byte> := seq(n, _ => s.buf[j] ^ 0xff);
      Flipped(s.buf[j]);
      OverwriteShows(s, chunk, k, j);
    }
  }

  lemma Flipped(b: Byte)
    ensures b ^ 0xff != b
  {
  }

  /** With 98 segments unread, one more makes the ring look empty. */
  lemma FullRingEmpties(s: State, chunk: seq<Byte>)
    requires Valid(s) && |chunk| <= 256 && Unread(s) == 98
    ensures Valid(Received(s, chunk)) && Pending(Received(s, chunk)) == []
  {
    UnreadGrows(s, chunk);
    hide Received;
  }

  /** Detection takes the oldest chunk. */
  lemma DetectTakes(s: State)
    requires Valid(s)
    ensures Valid(Detected(s))
    ensures Pending(Detected(s)) == if Pending(s) == [] then [] else Pending(s)[1..]
  {
    if Unread(s) > 0 {
      var d := Detected(s);
      assert Unread(d) == Unread(s) - 1;
      forall k | 0 <= k < Unread(d)
        ensures SlotAt(d.outAt, k) == SlotAt(s.outAt, k + 1)
      {
      }
      assert forall k | 0 <= k < Unread(d) :: InBuffer(d.slots[SlotAt(d.outAt, k)]);
      hide Segment;
      assert Pending(d) == Pending(s)[1..];
    }
  }

  //////////////////////////////////////////////////////////////////////////////
  // Nine full reads in a row
  //////////////////////////////////////////////////////////////////////////////

  /** A fresh ring after full reads and no detection: what the slots and the queue hold. */
  ghost predicate Filled(s: State, chunks: seq<seq<Byte>>) {
    |chunks| <= 8 && Valid(s) && s.inAt == |chunks| && s.outAt == 0 && Pending(s) == chunks
    && s.counter == (if |chunks| == 8 then 0 else 256 * |chunks|)
    && forall i | 0 <= i < |chunks| :: s.slots[i] == Slot(256 * i, 256 * i + 255)
  }

  /** A ring after reads in a row. */
  function AllReceived(chunks: seq<seq<Byte>>): (s: State)
    requires Full(chunks)
    ensures Shape(s)
  {
    if chunks == [] then Fresh()
    else
      var front := AllReceived(chunks[..|chunks| - 1]);
      ShapeKept(front, chunks[|chunks| - 1]);
      Received(front, chunks[|chunks| - 1])
  }

  /** Chunks of 256 bytes. */
  predicate Full(chunks: seq<seq<Byte>>) {
    forall i | 0 <= i < |chunks| :: |chunks[i]| == 256
  }

  lemma FilledMore(s: State, chunks: seq<seq<Byte>>, c: seq<Byte>)
    requires Filled(s, chunks) && |chunks| < 8 && |c| == 256
    ensures Filled(Received(s, c), chunks + [c])
  {
    assert forall k | 0 <= k < Unread(s) :: SlotAt(s.outAt, k) == k;
    ReceiveAppends(s, c);
    hide Segment, Pending;
    var r := Received(s, c);
    assert r.inAt == |chunks| + 1;
    forall i | 0 <= i < |chunks| + 1
      ensures r.slots[i] == Slot(256 * i, 256 * i + 255)
    {
    }
  }

  lemma {:induction false} AllFilled(chunks: seq<seq<Byte>>)
    requires Full(chunks) && |chunks| <= 8
    ensures Filled(AllReceived(chunks), chunks)
  {
    if chunks != [] {
      var front, c := chunks[..|chunks| - 1], chunks[|chunks| - 1];
      AllFilled(front);
      FilledMore(AllReceived(front), front, c);
      hide Filled, Received;
      assert front + [c] == chunks;
    }
  }

  /**
   Nine full reads without a detection in between: the eighth fills the buffer and the ninth writes over the oldest
   unread chunk, with nine of the 98 slots in use.
   */
  lemma NinthReadOverwrites(chunks: seq<seq<Byte>>, c: seq<Byte>)
    requires Full(chunks) && |chunks| == 8 && |c| == 256
    ensures var s := AllReceived(chunks);
            Valid(s) && Pending(s) == chunks && !Clear(s, 256)
            && Valid(Received(s, c)) && Unread(Received(s, c)) == 9 && Pending(Received(s, c))[0] == c
  {
    AllFilled(chunks);
    var s := AllReceived(chunks);
    hide AllReceived, Full;
    assert SlotAt(s.outAt, 0) == 0 && s.slots[0] == Slot(0, 255);
    UnreadGrows(s, c);
    FilledSlot(s, c);
    var r := Received(s, c);
    assert s.inAt == 8 && r.inAt == 9;
    forall k | 0 <= k < Unread(r)
      ensures InBuffer(r.slots[SlotAt(r.outAt, k)])
    {
      if k < 8 {
        UnreadSlotKept(s, c, k);
        assert InBuffer(s.slots[SlotAt(s.outAt, k)]);
      }
    }
    UnreadSlotKept(s, c, 0);
    assert r.buf[0..256] == c;
  }

  //////////////////////////////////////////////////////////////////////////////
  // Runs
  //////////////////////////////////////////////////////////////////////////////

  datatype Event = Receive(chunk: seq<Byte>) | Detect

  /** A ring and the chunks handed on so far. */
  datatype Progress = Progress(ring: State, handled: seq<seq<Byte>>)

  function Step(p: Progress, e: Event): Progress
    requires Valid(p.ring) && (e.Receive? ==> |e.chunk| <= 256)
  {
    if e.Receive? then p.(ring := Received(p.ring, e.chunk))
    else Progress(Detected(p.ring), p.handled + if Pending(p.ring) == [] then [] else [Pending(p.ring)[0]])
  }

  /** The run's progress, defined as long as every read has room. */
  ghost predicate Runs(p: Progress, events: seq<Event>, q: Progress)
    decreases |events|
  {
    if events == [] then p == q
    else
      var e := events[0];
      Valid(p.ring) && (e.Receive? ==> |e.chunk| <= 256 && Unread(p.ring) < 98 && Clear(p.ring, |e.chunk|))
      && Runs(Step(p, e), events[1..], q)
  }

  function Chunks(events: seq<Event>): seq<seq<Byte>> {
    if events == [] then []
    else if events[0].Receive? then [events[0].chunk] + Chunks(events[1..])
    else Chunks(events[1..])
  }

  lemma RunsUnfold(p: Progress, events: seq<Event>, q: Progress)
    requires events != [] && Runs(p, events, q)
    ensures Valid(p.ring)
    ensures events[0].Receive? ==>
      |events[0].chunk| <= 256 && Unread(p.ring) < 98 && Clear(p.ring, |events[0].chunk|)
    ensures Runs(Step(p, events[0]), events[1..], q)
  {
    hide Step, Valid, Clear, Unread;
  }

  lemma Regroup(a: seq<seq<Byte>>, b: seq<seq<Byte>>, c: seq<seq<Byte>>)
    ensures (a + b) + c == a + (b + c)
  {
  }

  lemma ChunksUnfold(events: seq<Event>, p: seq<seq<Byte>>)
    requires events != []
    ensures (p + if events[0].Receive? then [events[0].chunk] else []) + Chunks(events[1..]) == p + Chunks(events)
  {
    var c := Chunks(events[1..]);
    if events[0].Receive? {
      Regroup(p, [events[0].chunk], c);
      assert Chunks(events) == [events[0].chunk] + c;
    } else {
      Regroup(p, [], c);
      assert [] + c == c && Chunks(events) == c;
    }
  }

  /** In a run with room for every read, nothing is lost, doubled, changed or reordered. */
  lemma {:induction false} NothingLost(p: Progress, events: seq<Event>, q: Progress)
    requires Valid(p.ring) && Runs(p, events, q)
    ensures Valid(q.ring)
    ensures q.handled + Pending(q.ring) == (p.handled + Pending(p.ring)) + Chunks(events)
    decreases |events|
  {
    if events == [] {
      hide Valid, Pending;
      assert (p.handled + Pending(p.ring)) + [] == p.handled + Pending(p.ring);
    } else {
      hide *;
      RunsUnfold(p, events, q);
      StepKeeps(p, events[0]);
      NothingLost(Step(p, events[0]), events[1..], q);
      ChunksUnfold(events, p.handled + Pending(p.ring));
    }
  }

  lemma StepKeeps(p: Progress, e: Event)
    requires Valid(p.ring)
    requires e.Receive? ==> |e.chunk| <= 256 && Unread(p.ring) < 98 && Clear(p.ring, |e.chunk|)
    ensures Valid(Step(p, e).ring)
    ensures Step(p, e).handled + Pending(Step(p, e).ring)
         == (p.handled + Pending(p.ring)) + if e.Receive? then [e.chunk] else []
  {
    if e.Receive? {
      ReceiveAppends(p.ring, e.chunk);
      hide Received, Pending, Clear;
      assert p.handled + (Pending(p.ring) + [e.chunk]) == (p.handled + Pending(p.ring)) + [e.chunk];
    } else {
      DetectTakes(p.ring);
      hide Detected, Pending, Valid;
      var c := Pending(p.ring);
      if c != [] {
        assert c == [c[0]] + c[1..];
        assert (p.handled + [c[0]]) + c[1..] == p.handled + c;
      }
      assert (p.handled + c) + [] == p.handled + c;
    }
  }

  /** The driver loop: each read is followed by one detection. */
  function Driver(chunks: seq<seq<Byte>>): seq<Event> {
    if chunks == [] then [] else [Receive(chunks[0]), Detect] + Driver(chunks[1..])
  }

  /** A read into an empty ring and the detection after it hand on just that chunk. */
  lemma OneTurn(p: Progress, c: seq<Byte>)
    requires Valid(p.ring) && Pending(p.ring) == [] && |c| <= 256
    ensures Unread(p.ring) == 0 && Clear(p.ring, |c|) && Valid(Step(p, Receive(c)).ring)
    ensures var next := Step(Step(p, Receive(c)), Detect);
            Valid(next.ring) && Pending(next.ring) == [] && next.handled == p.handled + [c]
  {
    assert Unread(p.ring) == |Pending(p.ring)|;
    ReceiveAppends(p.ring, c);
    DetectTakes(Received(p.ring, c));
    hide Received, Detected, Pending, Valid;
    assert [] + [c] == [c] && [c][1..] == [];
  }

  lemma RunsTurn(p: Progress, c: seq<Byte>, rest: seq<Event>, q: Progress)
    requires Valid(p.ring) && Unread(p.ring) == 0 && |c| <= 256 && Clear(p.ring, |c|)
    requires Valid(Step(p, Receive(c)).ring) && Runs(Step(Step(p, Receive(c)), Detect), rest, q)
    ensures Runs(p, [Receive(c), Detect] + rest, q)
  {
    var events := [Receive(c), Detect] + rest;
    hide Step, Pending, Valid, Clear, Unread;
    assert events[1..][0] == Detect && events[1..][1..] == rest;
    assert Runs(Step(p, Receive(c)), events[1..], q);
  }

  /** Chunks that one read can give. */
  predicate Readable(chunks: seq<seq<Byte>>) {
    forall i | 0 <= i < |chunks| :: |chunks[i]| <= 256
  }

  lemma DriverUnfold(chunks: seq<seq<Byte>>)
    requires chunks != [] && Readable(chunks)
    ensures Driver(chunks) == [Receive(chunks[0]), Detect] + Driver(chunks[1..])
    ensures |chunks[0]| <= 256 && Readable(chunks[1..])
  {
  }

  lemma FirstAndRest(handled: seq<seq<Byte>>, chunks: seq<seq<Byte>>)
    requires chunks != []
    ensures (handled + [chunks[0]]) + chunks[1..] == handled + chunks
  {
    Regroup(handled, [chunks[0]], chunks[1..]);
    assert [chunks[0]] + chunks[1..] == chunks;
  }

  /** The driver loop hands on every chunk it reads, in order and unchanged. */
  lemma {:induction false} DriverHandsOn(p: Progress, chunks: seq<seq<Byte>>) returns (q: Progress)
    requires Valid(p.ring) && Pending(p.ring) == [] && Readable(chunks)
    ensures Runs(p, Driver(chunks), q) && q.handled == p.handled + chunks
    ensures Valid(q.ring) && Pending(q.ring) == []
    decreases |chunks|
  {
    if chunks == [] {
      q := p;
      assert p.handled + [] == p.handled;
    } else {
      hide *;
      DriverUnfold(chunks);
      FirstAndRest(p.handled, chunks);
      var c := chunks[0];
      OneTurn(p, c);
      q := DriverHandsOn(Step(Step(p, Receive(c)), Detect), chunks[1..]);
      RunsTurn(p, c, Driver(chunks[1..]), q);
    }
  }
}
