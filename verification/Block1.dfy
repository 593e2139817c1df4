/** Reassembly of Block1 transfers (block1.c; section 2.5 of RFC 7959). */
module Block1 {
  import opened Bytes

  //////////////////////////////////////////////////////////////////////////////
  // One message
  //////////////////////////////////////////////////////////////////////////////

  /** A block as it arrives: message id, payload, block size, block number, more flag. */
  datatype Message = Message(mid: nat, payload: seq<Byte>, size: nat, num: nat, more: bool)

  /** What a server's transfer holds, if one was ever started. */
  datatype Transfer = NoTransfer | Transfer(buffer: seq<Byte>, lastMid: nat)

  /** Codes: 2.31 continue, 0 done, 4.08 incomplete, 4.13 too large. */
  datatype Reply = Continue | Done(output: seq<Byte>) | Incomplete | TooLarge

  /** A later block that is not the latest message again. */
  predicate IsLater(t: Transfer, m: Message) {
    m.num != 0 && t.Transfer? && t.lastMid != m.mid
  }

  /** Whether a block's place is the end of the buffer; the product wraps at 32 bits. */
  predicate Fits(buffer: seq<Byte>, m: Message) {
    |buffer| == m.size * m.num % 0x1_0000_0000
  }

  /** Whether the block goes into the buffer. */
  predicate Taken(t: Transfer, m: Message) {
    m.num == 0 || (IsLater(t, m) && Fits(t.buffer, m) && |t.buffer| + |m.payload| < 4096)
  }

  /** The transfer after a message. */
  function Next(t: Transfer, m: Message): Transfer {
    if m.num == 0 then Transfer(m.payload, m.mid)
    else if Taken(t, m) then Transfer(t.buffer + m.payload, m.mid)
    else t
  }

  /** The answer to a message. */
  function Answer(t: Transfer, m: Message): Reply {
    if m.num != 0 && t.NoTransfer? then Incomplete
    else if IsLater(t, m) && !Fits(t.buffer, m) then Incomplete
    else if IsLater(t, m) && |t.buffer| + |m.payload| >= 4096 then TooLarge
    else if m.more then Continue
    else Done(Next(t, m).buffer)
  }

  //////////////////////////////////////////////////////////////////////////////
  // The handler
  //////////////////////////////////////////////////////////////////////////////

  /** The per-server record; the buffer is replaced, never grown. */
  class Data {
    var buffer: array<Byte>
    var lastMid: nat

    constructor (payload: array<Byte>, mid: nat)
      ensures fresh(buffer) && buffer[..] == payload[..] && lastMid == mid
    {
      lastMid := mid;
      buffer := new Byte[payload.Length](i requires 0 <= i < payload.Length reads payload => payload[i]);
    }
  }

  /** A server with its transfer. */
  class Server {
    var block1: Data?

    constructor ()
      ensures block1 == null
    {
      block1 := null;
    }

    ghost function State(): Transfer
      reads this, block1, if block1 == null then {} else {block1.buffer}
    {
      if block1 == null then NoTransfer else Transfer(block1.buffer[..], block1.lastMid)
    }

    /** Takes a block; done says that output is the whole transfer. */
    method Handle(mid: nat, payload: array<Byte>, size: nat, num: nat, more: bool)
      returns (status: nat, output: array?<Byte>)
      modifies this, block1
      ensures State() == Next(old(State()), Message(mid, payload[..], size, num, more))
      ensures match Answer(old(State()), Message(mid, payload[..], size, num, more))
              case Continue => status == 0x5F && output == null
              case Done(bytes) => status == 0x00 && output != null && output[..] == bytes
              case Incomplete => status == 0x88 && output == null
              case TooLarge => status == 0x8F && output == null
    {
      ghost var before := State();
      output := null;
      if num == 0 {
        if block1 != null {
          block1.buffer := Copy(payload);
          block1.lastMid := mid;
        } else {
          block1 := new Data(payload, mid);
        }
      } else {
        if block1 == null {
          return 0x88, null;
        }
        if block1.lastMid != mid {
          if block1.buffer.Length != size * num % 0x1_0000_0000 {
            return 0x88, null;
          }
          if block1.buffer.Length + payload.Length >= 4096 {
            return 0x8F, null;
          }
          block1.buffer := Joined(block1.buffer, payload);
          block1.lastMid := mid;
        }
      }
      if more {
        status := 0x5F;
      } else {
        output := block1.buffer;
        status := 0x00;
      }
    }
  }

  method Copy(a: array<Byte>) returns (b: array<Byte>)
    ensures fresh(b) && b[..] == a[..]
  {
    b := new Byte[a.Length](i requires 0 <= i < a.Length reads a => a[i]);
  }

  /** A new buffer with the bytes of both. */
  method Joined(a: array<Byte>, b: array<Byte>) returns (c: array<Byte>)
    ensures fresh(c) && c[..] == a[..] + b[..]
  {
    c := new Byte[a.Length + b.Length];
    MemMove(c, 0, a, 0, a.Length);
    MemMove(c, a.Length, b, 0, b.Length);
  }

  //////////////////////////////////////////////////////////////////////////////
  // Runs
  //////////////////////////////////////////////////////////////////////////////

  /** The transfer after a sequence of messages. */
  function Run(msgs: seq<Message>): Transfer {
    if msgs == [] then NoTransfer else Next(Run(msgs[..|msgs| - 1]), msgs[|msgs| - 1])
  }

  /** The payloads that were taken since the latest block 0. */
  function Accepted(msgs: seq<Message>): seq<seq<Byte>> {
    if msgs == [] then []
    else
      var front, m := msgs[..|msgs| - 1], msgs[|msgs| - 1];
      if m.num == 0 then [m.payload]
      else if Taken(Run(front), m) then Accepted(front) + [m.payload]
      else Accepted(front)
  }

  function Concat(parts: seq<seq<Byte>>): seq<Byte> {
    if parts == [] then [] else Concat(parts[..|parts| - 1]) + parts[|parts| - 1]
  }

  lemma ConcatSnoc(parts: seq<seq<Byte>>, p: seq<Byte>)
    ensures Concat(parts + [p]) == Concat(parts) + p
  {
    assert (parts + [p])[..|parts|] == parts;
  }

  /** The buffer is always the accepted payloads, one after the other. */
  lemma {:induction false} BufferIsAccepted(msgs: seq<Message>)
    ensures Run(msgs).NoTransfer? ==> Accepted(msgs) == []
    ensures Run(msgs).Transfer? ==> Run(msgs).buffer == Concat(Accepted(msgs))
  {
    if msgs != [] {
      var front, m := msgs[..|msgs| - 1], msgs[|msgs| - 1];
      BufferIsAccepted(front);
      hide Fits;
      if m.num == 0 {
        ConcatSnoc([], m.payload);
        assert [] + [m.payload] == [m.payload] && [] + m.payload == m.payload;
      } else if Taken(Run(front), m) {
        ConcatSnoc(Accepted(front), m.payload);
      }
    }
  }

  /** A block answered with an error, or a later block that comes again. */
  predicate Refused(t: Transfer, m: Message) {
    Answer(t, m).Incomplete? || Answer(t, m).TooLarge? || (m.num != 0 && t.Transfer? && t.lastMid == m.mid)
  }

  lemma RefusedIsNotTaken(t: Transfer, m: Message)
    ensures Refused(t, m) <==> !Taken(t, m)
    ensures Refused(t, m) ==> Next(t, m) == t
  {
    hide Fits;
  }

  /** Refused blocks leave no trace: a run without one of them ends with the same transfer. */
  lemma {:induction false} RefusedLeavesNoTrace(before: seq<Message>, m: Message, after: seq<Message>)
    requires Refused(Run(before), m)
    ensures Run(before + [m] + after) == Run(before + after)
    decreases |after|
  {
    hide *;
    if after == [] {
      RefusedIsNotTaken(Run(before), m);
      RunSnoc(before, m);
      assert before + [m] + [] == before + [m] && before + [] == before;
    } else {
      var front, last := after[..|after| - 1], after[|after| - 1];
      RefusedLeavesNoTrace(before, m, front);
      RunSnoc(before + [m] + front, last);
      RunSnoc(before + front, last);
      Regroup(before + [m], front, last, after);
      Regroup(before, front, last, after);
    }
  }

  lemma Regroup(a: seq<Message>, front: seq<Message>, last: Message, after: seq<Message>)
    requires after == front + [last]
    ensures a + after == a + front + [last]
  {
  }

  lemma RunSnoc(msgs: seq<Message>, m: Message)
    ensures Run(msgs + [m]) == Next(Run(msgs), m)
  {
    hide Next;
    assert (msgs + [m])[..|msgs|] == msgs;
  }

  /** Over every run 4096 bytes or more are held only as the payload of a single block 0. */
  lemma {:induction false} LargeIsOneBlock(msgs: seq<Message>)
    ensures |Accepted(msgs)| > 1 ==> Run(msgs).Transfer? && |Run(msgs).buffer| < 4096
    ensures |Accepted(msgs)| == 1 ==> Run(msgs).Transfer? && Run(msgs).buffer == Accepted(msgs)[0]
    ensures Run(msgs).Transfer? <==> |Accepted(msgs)| > 0
  {
    hide Fits;
    if msgs != [] {
      LargeIsOneBlock(msgs[..|msgs| - 1]);
    }
  }

  /** A block that comes with a new id after block 0 was taken. */
  predicate Follows(t: Transfer, m: Message) {
    m.num != 0 && t.Transfer? && m.mid != t.lastMid
  }

  /**
   The answers, by section 2.9 of RFC 7959: 4.08 exactly for a later block without a transfer or out of place, 4.13
   exactly for one in place that would make 4096 bytes or more, 2.31 for all others with more to come, and the whole
   transfer for the last.
   */
  lemma AnswersIff(t: Transfer, m: Message)
    ensures Answer(t, m) == Incomplete
       <==> m.num != 0 && (t == NoTransfer || (Follows(t, m) && |t.buffer| != m.size * m.num % 0x1_0000_0000))
    ensures Answer(t, m) == TooLarge
       <==> Follows(t, m) && |t.buffer| == m.size * m.num % 0x1_0000_0000 && |t.buffer| + |m.payload| >= 4096
    ensures Answer(t, m) == Continue
       <==> m.more && Answer(t, m) != Incomplete && Answer(t, m) != TooLarge
    ensures Answer(t, m).Done?
       <==> !m.more && Answer(t, m) != Incomplete && Answer(t, m) != TooLarge
  {
    hide Next;
    assert t.Transfer? ==> (Fits(t.buffer, m) <==> |t.buffer| == m.size * m.num % 0x1_0000_0000);
    hide Fits;
  }

  //////////////////////////////////////////////////////////////////////////////
  // A body cut into blocks
  //////////////////////////////////////////////////////////////////////////////

  /** Where block num of a body starts. */
  function Start(size: nat, num: nat): nat {
    size * num
  }

  function Min(a: nat, b: nat): nat {
    if a < b then a else b
  }

  /** Whether a message is a block of this body, whatever its message id. */
  predicate IsBlockOf(body: seq<Byte>, size: nat, m: Message) {
    m.size == size
    && (m.num == 0 || Start(size, m.num) < |body|)
    && m.payload == body[Min(Start(size, m.num), |body|)..Min(Start(size, m.num + 1), |body|)]
    && (m.more <==> Start(size, m.num + 1) < |body|)
  }

  /** Blocks of one body in any order and number; equal message ids name equal blocks. */
  ghost predicate Genuine(body: seq<Byte>, size: nat, msgs: seq<Message>) {
    (forall m | m in msgs :: IsBlockOf(body, size, m))
    && (forall a, b | a in msgs && b in msgs && a.mid == b.mid :: a.num == b.num)
  }

  /** The buffer holds the blocks up to one that came with the remembered id. */
  ghost predicate Reached(body: seq<Byte>, size: nat, msgs: seq<Message>, t: Transfer, last: Message) {
    t.Transfer? && last in msgs && t.lastMid == last.mid
    && t.buffer == body[..Min(Start(size, last.num + 1), |body|)]
  }

  lemma {:induction false} StartGrows(size: nat, a: nat, b: nat)
    requires a <= b
    ensures Start(size, a) <= Start(size, b)
    ensures 0 < size && a < b ==> Start(size, a) < Start(size, b)
  {
    if a < b {
      StartGrows(size, a, b - 1);
      assert Start(size, b) == Start(size, b - 1) + size;
    }
  }

  /** Distinct starts name distinct blocks. */
  lemma StartInjective(size: nat, a: nat, b: nat)
    requires 0 < size && Start(size, a) == Start(size, b)
    ensures a == b
  {
    hide Start;
    if a < b {
      StartGrows(size, a, b);
    } else if b < a {
      StartGrows(size, b, a);
    }
  }

  lemma FirstBlock(body: seq<Byte>, size: nat, m: Message)
    requires IsBlockOf(body, size, m) && m.num == 0
    ensures m.payload == body[..Min(Start(size, 1), |body|)]
  {
    assert Start(size, 0) == 0;
  }

  /** A later block that fits is the one after the last. */
  lemma NextBlock(body: seq<Byte>, size: nat, msgs: seq<Message>, t: Transfer, last: Message, m: Message)
    requires 0 < size && |body| < 0x1_0000_0000 && Reached(body, size, msgs, t, last)
    requires IsBlockOf(body, size, m) && m.num != 0 && Fits(t.buffer, m)
    ensures m.num == last.num + 1
    ensures t.buffer + m.payload == body[..Min(Start(size, m.num + 1), |body|)]
  {
    StartGrows(size, m.num, m.num + 1);
    var at := Start(size, m.num);
    assert |t.buffer| == at by {
      assert m.size * m.num == at;
    }
    hide Start;
    assert Start(size, last.num + 1) == at;
    StartInjective(size, m.num, last.num + 1);
  }

  /** After genuine blocks, the buffer reaches to the end of the block whose id is remembered. */
  lemma {:induction false} RunReaches(body: seq<Byte>, size: nat, msgs: seq<Message>) returns (last: Message)
    requires 0 < size && |body| < 0x1_0000_0000 && Genuine(body, size, msgs) && Run(msgs).Transfer?
    ensures Reached(body, size, msgs, Run(msgs), last)
  {
    var front, m := msgs[..|msgs| - 1], msgs[|msgs| - 1];
    assert m in msgs && IsBlockOf(body, size, m);
    assert forall x | x in front :: x in msgs;
    hide Fits, IsBlockOf;
    if m.num == 0 {
      FirstBlock(body, size, m);
      last := m;
    } else {
      last := RunReaches(body, size, front);
      if Taken(Run(front), m) {
        NextBlock(body, size, front, Run(front), last, m);
        last := m;
      }
    }
  }

  /** Whatever blocks of a body arrive, in whatever order and however often: what is handed out is the body. */
  lemma OutputIsBody(body: seq<Byte>, size: nat, msgs: seq<Message>, m: Message)
    requires 0 < size && |body| < 0x1_0000_0000 && Genuine(body, size, msgs + [m])
    requires Answer(Run(msgs), m).Done?
    ensures Answer(Run(msgs), m).output == body
  {
    var all := msgs + [m];
    DoneRemembers(Run(msgs), m);
    RunSnoc(msgs, m);
    hide *;
    assert m in all;
    var last := RunReaches(body, size, all);
    LastFills(body, size, all, Run(all), last, m);
  }

  /** The buffer that ends with the block that has nothing after it is the body. */
  lemma LastFills(body: seq<Byte>, size: nat, msgs: seq<Message>, t: Transfer, last: Message, m: Message)
    requires Genuine(body, size, msgs) && Reached(body, size, msgs, t, last)
    requires m in msgs && !m.more && t.lastMid == m.mid
    ensures t.buffer == body
  {
    hide Start;
    assert IsBlockOf(body, size, m) && last.num == m.num;
    assert body[..|body|] == body;
  }

  lemma DoneRemembers(t: Transfer, m: Message)
    requires Answer(t, m).Done?
    ensures !m.more && Next(t, m).Transfer? && Next(t, m).lastMid == m.mid && Answer(t, m).output == Next(t, m).buffer
  {
    hide Fits;
  }

  /** Block n of a body, with the n-th message id. */
  function BlockAt(body: seq<Byte>, size: nat, mids: seq<nat>, n: nat): Message
    requires n < |mids|
  {
    StartGrows(size, n, n + 1);
    Message(mids[n], body[Min(Start(size, n), |body|)..Min(Start(size, n + 1), |body|)], size, n,
            Start(size, n + 1) < |body|)
  }

  /** The first blocks of a body, in order. */
  function InOrder(body: seq<Byte>, size: nat, mids: seq<nat>, count: nat): (msgs: seq<Message>)
    requires count <= |mids|
    ensures |msgs| == count
  {
    if count == 0 then []
    else InOrder(body, size, mids, count - 1) + [BlockAt(body, size, mids, count - 1)]
  }

  /** Every block starts inside the body, and ids change from block to block. */
  ghost predicate CutUp(body: seq<Byte>, size: nat, mids: seq<nat>, count: nat) {
    0 < count <= |mids| && 0 < size && |body| < 4096
    && (count == 1 || Start(size, count - 1) < |body|)
    && forall i | 0 < i < |mids| :: mids[i] != mids[i - 1]
  }

  lemma InOrderEnds(body: seq<Byte>, size: nat, mids: seq<nat>, count: nat)
    requires 0 < count <= |mids|
    ensures InOrder(body, size, mids, count)[..count - 1] == InOrder(body, size, mids, count - 1)
    ensures InOrder(body, size, mids, count)[count - 1] == BlockAt(body, size, mids, count - 1)
  {
    hide BlockAt;
  }

  lemma RunInOrder(body: seq<Byte>, size: nat, mids: seq<nat>, count: nat)
    requires 0 < count <= |mids|
    ensures Run(InOrder(body, size, mids, count))
         == Next(Run(InOrder(body, size, mids, count - 1)), BlockAt(body, size, mids, count - 1))
  {
    hide BlockAt, Next, InOrder;
    InOrderEnds(body, size, mids, count);
  }

  lemma BlockTaken(body: seq<Byte>, size: nat, mids: seq<nat>, n: nat, t: Transfer)
    requires CutUp(body, size, mids, n + 1)
    requires n > 0 ==> t == Transfer(body[..Min(Start(size, n), |body|)], mids[n - 1])
    ensures Taken(t, BlockAt(body, size, mids, n))
    ensures Next(t, BlockAt(body, size, mids, n)) == Transfer(body[..Min(Start(size, n + 1), |body|)], mids[n])
  {
    StartGrows(size, n, n + 1);
    var m := BlockAt(body, size, mids, n);
    if n == 0 {
      assert Start(size, 0) == 0;
    } else {
      assert m.size * m.num == Start(size, n);
      hide Start;
      assert t.buffer + m.payload == body[..Min(Start(size, n + 1), |body|)];
    }
  }

  lemma CutUpFront(body: seq<Byte>, size: nat, mids: seq<nat>, count: nat)
    requires CutUp(body, size, mids, count) && count > 1
    ensures CutUp(body, size, mids, count - 1)
  {
    StartGrows(size, count - 2, count - 1);
  }

  /** In order, a body below 4096 bytes fills up block by block. */
  lemma {:induction false} InOrderFills(body: seq<Byte>, size: nat, mids: seq<nat>, count: nat)
    requires CutUp(body, size, mids, count)
    ensures Run(InOrder(body, size, mids, count))
         == Transfer(body[..Min(Start(size, count), |body|)], mids[count - 1])
    ensures Taken(Run(InOrder(body, size, mids, count - 1)), BlockAt(body, size, mids, count - 1))
  {
    if count > 1 {
      CutUpFront(body, size, mids, count);
      InOrderFills(body, size, mids, count - 1);
    }
    BlockTaken(body, size, mids, count - 1, Run(InOrder(body, size, mids, count - 1)));
    RunInOrder(body, size, mids, count);
  }

  lemma TakenIsDone(t: Transfer, m: Message)
    requires Taken(t, m) && !m.more
    ensures Answer(t, m) == Done(Next(t, m).buffer)
  {
    hide Fits;
  }

  /** The last block of a body sent in order completes it. */
  lemma InOrderCompletes(body: seq<Byte>, size: nat, mids: seq<nat>, count: nat)
    requires CutUp(body, size, mids, count) && Start(size, count) >= |body|
    ensures Answer(Run(InOrder(body, size, mids, count)[..count - 1]), InOrder(body, size, mids, count)[count - 1])
         == Done(body)
  {
    InOrderFills(body, size, mids, count);
    InOrderEnds(body, size, mids, count);
    RunInOrder(body, size, mids, count);
    hide Start, InOrder, Taken, Next, Answer, CutUp;
    TakenIsDone(Run(InOrder(body, size, mids, count - 1)), BlockAt(body, size, mids, count - 1));
    assert body[..|body|] == body;
  }
}
