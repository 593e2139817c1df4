/** Section 7 of RFC 8259: which characters are escaped, and what the escapes stand for. */
module JsonStandard {
  import opened Octets
  import opened Json

  /** The character codes of a text. */
  function Codes(s: string): (c: seq<Octet>)
    requires forall i | 0 <= i < |s| :: s[i] as nat < 256
    ensures |c| == |s| && forall i | 0 <= i < |s| :: c[i] == s[i] as nat
  {
    seq(|s|, i requires 0 <= i < |s| => s[i] as nat)
  }

  /** Digits of either case have their values, and nothing else has one. */
  lemma HexDigitValues(d: Octet, v: nat)
    ensures v < 10 ==> HexValue(('0' as nat + v) as Octet) == v
    ensures v < 6 ==> HexValue(('a' as nat + v) as Octet) == 10 + v && HexValue(('A' as nat + v) as Octet) == 10 + v
    ensures HexValue(d) < 16
       <==> '0' as nat <= d <= '9' as nat || 'a' as nat <= d <= 'f' as nat || 'A' as nat <= d <= 'F' as nat
  {
  }

  /** Exactly quotation mark, backslash and control characters are escaped. */
  lemma PlainIff(b: Octet)
    ensures EscapeByte(b) == [b] <==> b >= 0x20 && b != '\"' as nat && b != '\\' as nat
    ensures EscapeByte(b) != [b] ==> EscapeByte(b)[0] == '\\' as nat && |EscapeByte(b)| >= 2
  {
    hide HexDigit;
  }

  /** The two-character escapes that are written. */
  lemma ShortEscapes()
    ensures EscapeByte('\"' as nat) == Codes("\\\"") && EscapeByte('\\' as nat) == Codes("\\\\")
    ensures EscapeByte(8) == Codes("\\b") && EscapeByte(12) == Codes("\\f") && EscapeByte(10) == Codes("\\n")
    ensures EscapeByte(13) == Codes("\\r") && EscapeByte(9) == Codes("\\t")
  {
  }

  /** Every other control character becomes a backslash, a u and four digits that give its code. */
  lemma LongEscape(b: Octet)
    requires b < 0x20 && b !in {8, 9, 10, 12, 13}
    ensures EscapeByte(b)[..4] == Codes("\\u00") && |EscapeByte(b)| == 6
    ensures 16 * HexValue(EscapeByte(b)[4]) as nat + HexValue(EscapeByte(b)[5]) as nat == b
  {
    HexReadsBack(b);
    hide HexValue, HexDigit;
  }

  /** The escapes that are read: those that are written, the solidus, and no other letter. */
  lemma ShortMeanings(letter: Octet)
    ensures Short('\"' as nat) == '\"' as nat && Short('\\' as nat) == '\\' as nat && Short('/' as nat) == '/' as nat
    ensures Short('b' as nat) == 8 && Short('f' as nat) == 12 && Short('n' as nat) == 10
    ensures Short('r' as nat) == 13 && Short('t' as nat) == 9
    ensures Short(letter) != 0 <==> exists i :: 0 <= i < 8 && letter == Codes("\"\\/bfnrt")[i]
  {
    var c := Codes("\"\\/bfnrt");
    assert c == [34, 92, 47, 98, 102, 110, 114, 116];
    assert c[0] == 34 && c[1] == 92 && c[2] == 47 && c[3] == 98 && c[4] == 102 && c[5] == 110 && c[6] == 114
           && c[7] == 116;
  }

  /** One escape in front of a text: the byte it stands for, and the rest. */
  lemma ReadsEscape(letter: Octet, rest: seq<Octet>, tiny: bool)
    requires letter != 'u' as nat
    ensures ReadStep(Codes("\\") + [letter] + rest, tiny)
         == if Short(letter) != 0 then Step(Short(letter), 2) else BadStep
  {
    var x := Codes("\\") + [letter] + rest;
    assert x[0] == 92 && x[1] == letter && |x| >= 2;
    hide Short;
  }

  /** A long escape below 0x100, digits of either case, with something behind it. */
  lemma ReadsLong(h: Octet, l: Octet, rest: seq<Octet>)
    requires rest != []
    ensures ReadStep(Codes("\\u00") + [h, l] + rest, false)
         == if HexValue(h) < 16 && HexValue(l) < 16 then Step(16 * HexValue(h) + HexValue(l), 6) else BadStep
  {
    var x := Codes("\\u00") + [h, l] + rest;
    assert x[0] == 92 && x[1] == 117 && x[2] == 48 && x[3] == 48 && x[4] == h && x[5] == l && |x| > 6;
    hide HexValue;
  }

  /** An escaped text has no control characters. */
  lemma {:induction false} EscapedHasNoControls(s: seq<Octet>, i: nat)
    requires i < |Escaped(s)|
    ensures Escaped(s)[i] >= 0x20
  {
    var front, last := s[..|s| - 1], EscapeByte(s[|s| - 1]);
    hide EscapeByte;
    EscapedLast(s);
    if i < |Escaped(front)| {
      EscapedHasNoControls(front, i);
    } else {
      EscapeHasNoControls(s[|s| - 1], i - |Escaped(front)|);
    }
  }

  lemma EscapeHasNoControls(b: Octet, i: nat)
    requires i < |EscapeByte(b)|
    ensures EscapeByte(b)[i] >= 0x20
  {
    DigitsPrint(b);
    DigitsPrint(b / 16);
    hide HexDigit;
  }

  lemma DigitsPrint(v: nat)
    ensures HexDigit(v) >= 0x20
  {
  }
}
