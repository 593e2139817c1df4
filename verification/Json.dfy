/** JSON string escaping and unescaping (json_common.c; section 7 of RFC 8259). */
module Json {
  import opened Octets

  //////////////////////////////////////////////////////////////////////////////
  // Escaping
  //////////////////////////////////////////////////////////////////////////////

  /** A hexadecimal digit, upper case. */
  function HexDigit(value: nat): Octet {
    var v := value % 16;
    if v < 10 then 48 + v else 65 + v - 10
  }

  /** Control bytes without a short form of their own. */
  predicate NeedsU(b: Octet) {
    b < 0x20 && b != 8 && b != 12 && b != 10 && b != 13 && b != 9
  }

  /** One byte as it appears inside a JSON string. */
  function EscapeByte(b: Octet): (s: seq<Octet>)
    ensures 1 <= |s| <= 6
  {
    if b == 8 then [92, 98]
    else if b == 12 then [92, 102]
    else if b == 10 then [92, 110]
    else if b == 13 then [92, 114]
    else if b == 9 then [92, 116]
    else if b < 0x20 then [92, 117, 48, 48, HexDigit(b / 16), HexDigit(b)]
    else if b == 34 then [92, 34]
    else if b == 92 then [92, 92]
    else [b]
  }

  function Escaped(s: seq<Octet>): seq<Octet> {
    if s == [] then [] else Escaped(s[..|s| - 1]) + EscapeByte(s[|s| - 1])
  }

  lemma EscapedSnoc(s: seq<Octet>, b: Octet)
    ensures Escaped(s + [b]) == Escaped(s) + EscapeByte(b)
  {
    assert (s + [b])[..|s|] == s;
  }

  /** Escaping makes a string at most six times as long. */
  lemma {:induction false} EscapedGrowth(s: seq<Octet>)
    ensures |s| <= |Escaped(s)| <= 6 * |s|
  {
    if s != [] {
      EscapedGrowth(s[..|s| - 1]);
    }
  }

  lemma {:induction false} EscapedPrefix(s: seq<Octet>, i: nat)
    requires i <= |s|
    ensures |Escaped(s[..i])| <= |Escaped(s)|
    decreases |s|
  {
    if i == |s| {
      assert s[..i] == s;
    } else {
      assert s[..|s| - 1][..i] == s[..i];
      EscapedPrefix(s[..|s| - 1], i);
    }
  }

  /** Puts the escaped bytes of src at the front of dst, or gives 0 when they do not fit. */
  method EscapeString(dst: array<Octet>, src: array<Octet>) returns (head: nat)
    requires dst != src
    modifies dst
    ensures |Escaped(src[..])| <= dst.Length ==>
      head == |Escaped(src[..])| && dst[..head] == Escaped(src[..]) && dst[head..] == old(dst[head..])
    ensures |Escaped(src[..])| > dst.Length ==> head == 0
  {
    hide Escaped, EscapeByte;
    head := 0;
    EmptyEscapes();
    var i := 0;
    while i < src.Length
      invariant i <= src.Length && head <= dst.Length
      invariant head == |Escaped(src[..i])| && dst[..head] == Escaped(src[..i])
      invariant dst[head..] == old(dst[head..])
    {
      EscapedSnoc(src[..i], src[i]);
      assert src[..i + 1] == src[..i] + [src[i]];
      EscapedPrefix(src[..], i + 1);
      assert src[..][..i + 1] == src[..i + 1];
      var fits, next := PutEscaped(dst, head, src[i]);
      if !fits {
        return 0;
      }
      head := next;
      i := i + 1;
    }
    assert src[..i] == src[..];
  }

  lemma EmptyEscapes()
    ensures Escaped([]) == []
  {
  }

  /** One byte, escaped, at a position, if there is room for it. */
  method PutEscaped(dst: array<Octet>, head: nat, b: Octet) returns (fits: bool, next: nat)
    requires head <= dst.Length
    modifies dst
    ensures fits == (dst.Length - head >= |EscapeByte(b)|)
    ensures fits ==> next == head + |EscapeByte(b)|
                     && dst[..] == old(dst[..head]) + EscapeByte(b) + old(dst[next..])
    ensures !fits ==> dst[..] == old(dst[..])
  {
    next := head;
    if b < 0x20 {
      if b == 8 || b == 12 || b == 10 || b == 13 || b == 9 {
        if dst.Length - head < 2 {
          return false, head;
        }
        dst[head] := 92;
        dst[head + 1] := if b == 8 then 98 else if b == 12 then 102 else if b == 10 then 110 else if b == 13
            then 114 else 116;
        next := head + 2;
      } else {
        if dst.Length - head < 6 {
          return false, head;
        }
        dst[head], dst[head + 1], dst[head + 2], dst[head + 3] := 92, 117, 48, 48;
        dst[head + 4], dst[head + 5] := HexDigit(b / 16), HexDigit(b);
        next := head + 6;
      }
    } else if b == 34 || b == 92 {
      if dst.Length - head < 2 {
        return false, head;
      }
      dst[head], dst[head + 1] := 92, b;
      next := head + 2;
    } else {
      if dst.Length - head < 1 {
        return false, head;
      }
      dst[head] := b;
      next := head + 1;
    }
    fits := true;
  }

  //////////////////////////////////////////////////////////////////////////////
  // Unescaping
  //////////////////////////////////////////////////////////////////////////////

  /** The value of a hexadecimal digit of either case; 255 for anything else. */
  function HexValue(digit: Octet): Octet {
    if 48 <= digit <= 57 then digit - 48
    else if 97 <= digit <= 102 then digit - 97 + 10
    else if 65 <= digit <= 70 then digit - 65 + 10
    else 255
  }

  /** The bytes, a malformed string, or one so short that its escape is read past its end. */
  datatype Text = Text(bytes: seq<Octet>) | Malformed | Overrun

  /** What one step reads: a byte and how far it reaches. */
  datatype Step = Step(b: Octet, used: nat) | BadStep | OverrunStep

  /** The byte a letter after a backslash stands for; 0 for letters without a meaning. */
  function Short(letter: Octet): Octet {
    if letter == 34 || letter == 92 || letter == 47 then letter
    else if letter == 98 then 8
    else if letter == 102 then 12
    else if letter == 110 then 10
    else if letter == 114 then 13
    else if letter == 116 then 9
    else 0
  }

  /**
   * Reads one byte or escape off the front. The test that four digits are left asks for a byte more than
   * they need, and a whole string of less than four bytes passes it, because the subtraction wraps.
   */
  function ReadStep(x: seq<Octet>, tiny: bool): (r: Step)
    requires x != []
    ensures r.Step? ==> 1 <= r.used <= |x|
  {
    if x[0] != 92 then Step(x[0], 1)
    else if |x| == 1 then BadStep
    else if x[1] == 117 then
      if tiny then
        if |x| > 2 && x[2] != 48 then BadStep else if |x| < 6 then OverrunStep else BadStep
      else if |x| <= 6 then BadStep
      else if x[2] != 48 || x[3] != 48 || HexValue(x[4]) > 15 || HexValue(x[5]) > 15 then BadStep
      else Step(16 * HexValue(x[4]) + HexValue(x[5]), 6)
    else if Short(x[1]) != 0 then Step(Short(x[1]), 2)
    else BadStep
  }

  function Before(p: seq<Octet>, t: Text): Text {
    if t.Text? then Text(p + t.bytes) else t
  }

  /** The string without its escapes. */
  function Unescape(x: seq<Octet>, tiny: bool): Text
    decreases |x|
  {
    if x == [] then Text([])
    else
      var r := ReadStep(x, tiny);
      if r.BadStep? then Malformed
      else if r.OverrunStep? then Overrun
      else Before([r.b], Unescape(x[r.used..], tiny))
  }

  /** What unescaping a whole string gives. */
  function Unescaped(x: seq<Octet>): Text {
    Unescape(x, |x| < 4)
  }

  /** Unescaping never makes a string longer. */
  lemma {:induction false} UnescapeShrinks(x: seq<Octet>, tiny: bool)
    ensures Unescape(x, tiny).Text? ==> |Unescape(x, tiny).bytes| <= |x|
    decreases |x|
  {
    hide ReadStep;
    if x != [] && ReadStep(x, tiny).Step? {
      UnescapeShrinks(x[ReadStep(x, tiny).used..], tiny);
    }
  }

  lemma HexReadsBack(b: Octet)
    ensures HexValue(HexDigit(b / 16)) == b / 16 && HexValue(HexDigit(b)) == b % 16
    ensures 16 * HexValue(HexDigit(b / 16)) as nat + HexValue(HexDigit(b)) as nat == b
  {
  }

  /** An escaped byte reads back, unless it takes the long form and nothing follows it. */
  lemma ByteReadsBack(b: Octet, rest: seq<Octet>, tiny: bool)
    requires tiny ==> !NeedsU(b)
    ensures ReadStep(EscapeByte(b) + rest, tiny)
         == if NeedsU(b) && rest == [] then BadStep else Step(b, |EscapeByte(b)|)
  {
    HexReadsBack(b);
    hide HexValue, HexDigit;
  }

  lemma LongIsSix(b: Octet)
    ensures NeedsU(b) <==> |EscapeByte(b)| == 6
  {
  }

  lemma UnescapeStep(x: seq<Octet>, tiny: bool)
    requires x != []
    ensures Unescape(x, tiny)
         == if ReadStep(x, tiny).BadStep? then Malformed
            else if ReadStep(x, tiny).OverrunStep? then Overrun
            else Before([ReadStep(x, tiny).b], Unescape(x[ReadStep(x, tiny).used..], tiny))
  {
    hide ReadStep;
  }

  lemma BeforeTwice(p: seq<Octet>, q: seq<Octet>, t: Text)
    ensures Before(p, Before(q, t)) == Before(p + q, t)
  {
    if t.Text? {
      assert p + (q + t.bytes) == (p + q) + t.bytes;
    }
  }

  lemma ByteUnescapes(b: Octet, rest: seq<Octet>, tiny: bool)
    requires NeedsU(b) ==> !tiny && rest != []
    ensures Unescape(EscapeByte(b) + rest, tiny) == Before([b], Unescape(rest, tiny))
  {
    hide *;
    ByteReadsBack(b, rest, tiny);
    var x := EscapeByte(b) + rest;
    assert x[|EscapeByte(b)|..] == rest;
    UnescapeStep(x, tiny);
  }

  lemma EscapedLast(s: seq<Octet>)
    requires s != []
    ensures Escaped(s) == Escaped(s[..|s| - 1]) + EscapeByte(s[|s| - 1])
  {
    hide EscapeByte;
  }

  lemma Associate(a: seq<Octet>, b: seq<Octet>, c: seq<Octet>)
    ensures (a + b) + c == a + (b + c)
  {
  }

  lemma FrontAndLast(s: seq<Octet>)
    requires s != []
    ensures s[..|s| - 1] + [s[|s| - 1]] == s
  {
  }

  lemma {:induction false} StringReadsBack(s: seq<Octet>, rest: seq<Octet>, tiny: bool)
    requires s != [] && NeedsU(s[|s| - 1]) ==> rest != []
    requires tiny ==> |Escaped(s)| < 4
    ensures Unescape(Escaped(s) + rest, tiny) == Before(s, Unescape(rest, tiny))
    decreases |s|
  {
    if s == [] {
      assert Escaped(s) + rest == rest;
      hide Unescape;
    } else {
      hide *;
      var front, b := s[..|s| - 1], s[|s| - 1];
      LongIsSix(b);
      EscapedLast(s);
      StringReadsBack(front, EscapeByte(b) + rest, tiny);
      Associate(Escaped(front), EscapeByte(b), rest);
      ByteUnescapes(b, rest, tiny);
      BeforeTwice(front, [b], Unescape(rest, tiny));
      FrontAndLast(s);
    }
  }

  lemma LongFormAtEnd(s: seq<Octet>)
    requires s != [] && NeedsU(s[|s| - 1])
    ensures |Escaped(s)| >= 6 && Unescape(Escaped(s), false) == Malformed
  {
    hide EscapeByte, ReadStep, NeedsU, Unescape;
    var front, b := s[..|s| - 1], s[|s| - 1];
    LongIsSix(b);
    StringReadsBack(front, EscapeByte(b), false);
    ByteReadsBack(b, [], false);
    assert EscapeByte(b) + [] == EscapeByte(b);
    UnescapeStep(EscapeByte(b), false);
  }

  /** Unescaping undoes escaping exactly when the last byte does not take the long form. */
  lemma EscapeRoundTripIff(s: seq<Octet>)
    ensures Unescaped(Escaped(s)) == Text(s) <==> s == [] || !NeedsU(s[|s| - 1])
  {
    hide Escaped, NeedsU, Unescape;
    if s != [] && NeedsU(s[|s| - 1]) {
      LongFormAtEnd(s);
    } else {
      StringReadsBack(s, [], |Escaped(s)| < 4);
      UnescapeEmpty(|Escaped(s)| < 4);
      assert Escaped(s) + [] == Escaped(s) && s + [] == s;
    }
  }

  lemma UnescapeEmpty(tiny: bool)
    ensures Unescape([], tiny) == Text([])
  {
  }

  lemma DigitsLeft(i: nat, length: nat)
    requires length < 0x1_0000_0000 && i <= length
    ensures i >= (length - 4) % 0x1_0000_0000 <==> length >= 4 && i + 4 >= length
  {
  }

  /** One byte or escape read from a position. */
  method TakeStep(src: array<Octet>, at: nat) returns (ok: bool, b: Octet, next: nat)
    requires at < src.Length < 0x1_0000_0000 && !ReadStep(src[at..], src.Length < 4).OverrunStep?
    ensures ok ==> at < next <= src.Length && ReadStep(src[at..], src.Length < 4) == Step(b, next - at)
    ensures !ok ==> ReadStep(src[at..], src.Length < 4) == BadStep
  {
    hide HexValue;
    var i := at;
    b := src[i];
    if b == 92 {
      i := i + 1;
      if i >= src.Length {
        return false, 0, at;
      }
      b := src[i];
      if b == 117 {
        i := i + 1;
        DigitsLeft(i, src.Length);
        if i >= (src.Length - 4) % 0x1_0000_0000 {
          return false, 0, at;
        }
        if src[i] != 48 || src[i + 1] != 48 {
          return false, 0, at;
        }
        var v1, v2 := HexValue(src[i + 2]), HexValue(src[i + 3]);
        if v1 > 15 || v2 > 15 {
          return false, 0, at;
        }
        b := 16 * v1 + v2;
        i := i + 3;
      } else {
        b := Short(b);
        if b == 0 {
          return false, 0, at;
        }
      }
    }
    ok := true;
    next := i + 1;
  }

  /** Writes the unescaped bytes to dst and gives their number, or 0 for a malformed string. */
  method UnescapeString(dst: array<Octet>, src: array<Octet>) returns (result: nat)
    requires dst != src && dst.Length >= src.Length && src.Length < 0x1_0000_0000 && !Unescaped(src[..]).Overrun?
    modifies dst
    ensures Unescaped(src[..]).Text? ==> result <= dst.Length && Text(dst[..result]) == Unescaped(src[..])
    ensures Unescaped(src[..]).Malformed? ==> result == 0
  {
    hide ReadStep, Unescape;
    ghost var target, tiny := Unescaped(src[..]), src.Length < 4;
    assert src[0..] == src[..];
    result := 0;
    var i := 0;
    while i < src.Length
      invariant result <= i <= src.Length
      invariant target == Before(dst[..result], Unescape(src[i..], tiny))
      decreases src.Length - i
    {
      UnescapeStep(src[i..], tiny);
      var ok, b, next := TakeStep(src, i);
      if !ok {
        return 0;
      }
      assert src[i..][next - i..] == src[next..];
      BeforeTwice(dst[..result], [b], Unescape(src[next..], tiny));
      ghost var done := dst[..result];
      dst[result] := b;
      result := result + 1;
      assert dst[..result] == done + [b];
      i := next;
    }
    UnescapeEmpty(tiny);
    assert src[i..] == [];
    assert dst[..result] + [] == dst[..result];
  }
}
