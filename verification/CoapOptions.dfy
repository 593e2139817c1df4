/** CoAP option framing: section 3.1 of RFC 7252 and its codec in 4G/Source/coap/er-coap.c. */
module CoapOptions {
  import opened Octets

  //////////////////////////////////////////////////////////////////////////////
  // Bytes and numbers
  //////////////////////////////////////////////////////////////////////////////

  /** n in k bytes, most significant first; higher parts of n are dropped. */
  function BigEndian(n: nat, k: nat): (s: seq<Octet>)
    ensures |s| == k
  {
    if k == 0 then [] else BigEndian(n / 256, k - 1) + [Low8(n)]
  }

  /** The 32-bit number a byte string stands for, most significant byte first; higher bits drop out. */
  function IntOf(s: seq<Octet>): (n: nat)
    ensures n < 0x1_0000_0000
  {
    if s == [] then 0
    else (256 * IntOf(s[..|s| - 1]) + s[|s| - 1]) % 0x1_0000_0000
  }

  function IntLength(value: nat): (n: nat)
    ensures 1 <= n <= 4
  {
    if value >= 0x100_0000 then 4
    else if value >= 0x1_0000 then 3
    else if value >= 0x100 then 2
    else 1
  }

  /** The bytes of a number option: at least one, even for zero. */
  function IntBytes(value: nat): (s: seq<Octet>)
    ensures 1 <= |s| <= 4
  {
    BigEndian(value, IntLength(value))
  }

  function Power256(k: nat): (p: nat)
    ensures p > 0
  {
    if k == 0 then 1 else 256 * Power256(k - 1)
  }

  lemma {:induction false} IntOfBigEndian(n: nat, k: nat)
    requires k <= 4 && n < Power256(k)
    ensures IntOf(BigEndian(n, k)) == n
  {
    if k > 0 {
      PowersTo(k);
      IntOfBigEndian(n / 256, k - 1);
      BigEndianUnfold(n, k);
      IntOfSnoc(BigEndian(n / 256, k - 1), Low8(n));
      hide *;
      Rejoin(n, Power256(k - 1));
    }
  }

  lemma BigEndianUnfold(n: nat, k: nat)
    requires k > 0
    ensures BigEndian(n, k) == BigEndian(n / 256, k - 1) + [Low8(n)]
  {
  }

  lemma Rejoin(n: nat, p: nat)
    requires n < 256 * p <= 0x1_0000_0000
    ensures n / 256 < p && (256 * (n / 256) + n % 256) % 0x1_0000_0000 == n
  {
  }

  lemma IntOfSnoc(s: seq<Octet>, b: Octet)
    ensures IntOf(s + [b]) == (256 * IntOf(s) + b) % 0x1_0000_0000
  {
    assert (s + [b])[..|s|] == s;
  }

  lemma PowersTo(k: nat)
    requires 0 < k <= 4
    ensures Power256(k) == 256 * Power256(k - 1) <= 0x1_0000_0000
  {
    assert Power256(1) == 256 * Power256(0) == 256;
    assert Power256(2) == 256 * Power256(1) == 0x1_0000;
    assert Power256(3) == 256 * Power256(2) == 0x100_0000;
    assert Power256(4) == 256 * Power256(3) == 0x1_0000_0000;
  }

  /** A number option reads back as the number that was written. */
  lemma IntRoundTrip(value: nat)
    requires value < 0x1_0000_0000
    ensures IntOf(IntBytes(value)) == value
  {
    PowersTo(1);
    PowersTo(2);
    PowersTo(3);
    PowersTo(4);
    IntOfBigEndian(value, IntLength(value));
  }

  /** k bytes hold numbers below 256^k only. */
  lemma {:induction false} IntOfBound(s: seq<Octet>)
    requires |s| <= 3
    ensures IntOf(s) < Power256(|s|)
  {
    if s != [] {
      IntOfBound(s[..|s| - 1]);
      PowersTo(|s|);
    }
  }

  lemma NoneShorter(value: nat, s: seq<Octet>)
    requires IntOf(s) == value && value != 0
    ensures |IntBytes(value)| <= |s|
  {
    PowersTo(1);
    PowersTo(2);
    PowersTo(3);
    if |s| <= 3 {
      IntOfBound(s);
    }
  }

  /**
   A number option takes the fewest bytes its number can be read from, as section 3.2 of RFC 7252 asks, if and only
   if the number is not zero, which no bytes at all would do for.
   */
  lemma IntBytesShortestIff(value: nat)
    requires value < 0x1_0000_0000
    ensures (forall s: seq<Octet> | IntOf(s) == value :: |IntBytes(value)| <= |s|) <==> value != 0
  {
    if value == 0 {
      var none: seq<Octet> := [];
      assert IntOf(none) == value && |IntBytes(value)| > |none|;
    } else {
      forall s: seq<Octet> | IntOf(s) == value
        ensures |IntBytes(value)| <= |s|
      {
        NoneShorter(value, s);
      }
    }
  }

  //////////////////////////////////////////////////////////////////////////////
  // Option headers
  //////////////////////////////////////////////////////////////////////////////

  function Nibble(value: nat): (n: nat)
    ensures n <= 14
  {
    if value < 13 then value else if value <= 268 then 13 else 14
  }

  function Extension(value: nat): (s: seq<Octet>)
    ensures |s| <= 2
  {
    if value > 268 then [Low8((value - 269) / 256), Low8(value - 269)]
    else if value > 12 then [Low8(value - 13)]
    else []
  }

  /** The header of an option: both nibbles, then the extension of the delta, then that of the length. */
  function Header(delta: nat, length: nat): (s: seq<Octet>)
    ensures 1 <= |s| <= 5
  {
    [Low8(16 * Nibble(delta) + Nibble(length))] + Extension(delta) + Extension(length)
  }

  datatype Extended = Extended(value: nat, used: nat) | Cut

  /** What a nibble stands for, given the bytes that follow it. */
  function ReadExtension(nibble: nat, s: seq<Octet>): (e: Extended)
    ensures e.Extended? ==> e.used <= 2 && e.used <= |s|
  {
    if nibble == 13 then
      if |s| < 1 then Cut else Extended(13 + s[0] as nat, 1)
    else if nibble == 14 then
      if |s| < 2 then Cut else Extended(269 + 256 * (s[0] as nat) + s[1] as nat, 2)
    else
      Extended(nibble, 0)
  }

  datatype Head = Head(delta: nat, length: nat, size: nat) | CutHead

  function ReadHead(s: seq<Octet>): (h: Head)
    requires |s| > 0
    ensures h.Head? ==> 1 <= h.size <= |s|
  {
    var d := ReadExtension(s[0] / 16, s[1..]);
    if d.Cut? then CutHead
    else
      var l := ReadExtension(s[0] % 16, s[1 + d.used..]);
      if l.Cut? then CutHead else Head(d.value, l.value, 1 + d.used + l.used)
  }

  lemma ExtensionReadsBack(value: nat, rest: seq<Octet>)
    requires value <= 65804
    ensures ReadExtension(Nibble(value), Extension(value) + rest) == Extended(value, |Extension(value)|)
  {
    if value > 268 {
      TwoBytes(value - 269);
      hide Low8;
      var s := Extension(value) + rest;
      assert s[0] == Low8((value - 269) / 256) && s[1] == Low8(value - 269);
    } else if value > 12 {
      assert Low8(value - 13) == value - 13;
    }
  }

  lemma TwoBytes(value: nat)
    requires value < 65536
    ensures 256 * (Low8(value / 256) as nat) + Low8(value) as nat == value
  {
  }

  lemma NibblesReadBack(high: nat, low: nat)
    requires high <= 14 && low <= 14
    ensures Low8(16 * high + low) / 16 == high && Low8(16 * high + low) % 16 == low
    ensures Low8(16 * high + low) < 240
  {
  }

  /** A header reads back as the delta and length it was written for, whatever follows. */
  lemma HeaderReadsBack(delta: nat, length: nat, rest: seq<Octet>)
    requires delta <= 65804 && length <= 65804
    ensures ReadHead(Header(delta, length) + rest) == Head(delta, length, |Header(delta, length)|)
    ensures (Header(delta, length) + rest)[0] < 240
  {
    hide Low8, Extension, ReadExtension, Nibble;
    var d, l := Extension(delta), Extension(length);
    var s := Header(delta, length) + rest;
    NibblesReadBack(Nibble(delta), Nibble(length));
    ExtensionReadsBack(delta, l + rest);
    ExtensionReadsBack(length, rest);
    assert s[1..] == d + (l + rest);
    assert s[1 + |d|..] == l + rest;
  }

  //////////////////////////////////////////////////////////////////////////////
  // Runs of options
  //////////////////////////////////////////////////////////////////////////////

  /** All the options of one number, in order. */
  datatype Group = Group(number: nat, values: seq<seq<Octet>>)

  /** The options of one number after an option numbered prev: the first carries the delta, the others zero. */
  function EncodeGroup(prev: nat, number: nat, values: seq<seq<Octet>>): seq<Octet>
    requires prev <= number
  {
    if values == [] then []
    else
      var v := values[|values| - 1];
      EncodeGroup(prev, number, values[..|values| - 1])
      + (Header(if |values| == 1 then number - prev else 0, |v|) + v)
  }

  function LastNumber(groups: seq<Group>): nat {
    if groups == [] then 0 else groups[|groups| - 1].number
  }

  predicate Ascending(groups: seq<Group>) {
    groups == []
    || (Ascending(groups[..|groups| - 1]) && LastNumber(groups[..|groups| - 1]) <= LastNumber(groups))
  }

  /** Groups one after the other, each measured from the number of the group before it. */
  function Encode(groups: seq<Group>): seq<Octet>
    requires Ascending(groups)
  {
    if groups == [] then []
    else
      var front, g := groups[..|groups| - 1], groups[|groups| - 1];
      Encode(front) + EncodeGroup(LastNumber(front), g.number, g.values)
  }

  lemma EncodeSnoc(groups: seq<Group>, g: Group)
    requires Ascending(groups) && LastNumber(groups) <= g.number
    ensures Ascending(groups + [g]) && LastNumber(groups + [g]) == g.number
    ensures Encode(groups + [g]) == Encode(groups) + EncodeGroup(LastNumber(groups), g.number, g.values)
  {
    assert (groups + [g])[..|groups|] == groups;
  }

  lemma EncodeGroupSnoc(prev: nat, number: nat, values: seq<seq<Octet>>, v: seq<Octet>)
    requires prev <= number
    ensures EncodeGroup(prev, number, values + [v])
         == EncodeGroup(prev, number, values) + (Header(if values == [] then number - prev else 0, |v|) + v)
  {
    assert (values + [v])[..|values|] == values;
  }
}
