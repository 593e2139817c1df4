/** The registration payload: its size calculated ahead, and the link list written (objects.c). */
module Registration {

  //////////////////////////////////////////////////////////////////////////////
  // The text
  //////////////////////////////////////////////////////////////////////////////

  /** An object and the ids of its instances. */
  datatype Object = Object(id: nat, instances: seq<nat>)

  /** The alternate path, empty when there is none, and the objects. */
  datatype Context = Context(altPath: string, objects: seq<Object>)

  /** Decimal digits. */
  function Dec(n: nat): (s: string)
    ensures |s| >= 1
  {
    if n < 10 then [(48 + n) as char] else Dec(n / 10) + [(48 + n % 10) as char]
  }

  const RESOURCE_TYPE := ">;rt=\"oma.lwm2m\";ct=110,"

  function Path(c: Context): string {
    if c.altPath == "" then "/" else c.altPath
  }

  function Template(id: nat): (s: string)
    ensures |s| == 3 + |Dec(id)|
  {
    "</" + Dec(id) + "/"
  }

  /** One link for each instance. */
  function InstanceLinks(id: nat, instances: seq<nat>): string {
    if instances == [] then ""
    else InstanceLinks(id, instances[..|instances| - 1]) + Template(id) + Dec(instances[|instances| - 1]) + ">,"
  }

  /** An object's links: one for itself when it has no instance; none at all for the Security object. */
  function Links(o: Object): string {
    if o.id == 0 then ""
    else if o.instances == [] then "</" + Dec(o.id) + ">,"
    else InstanceLinks(o.id, o.instances)
  }

  function AllLinks(objects: seq<Object>): string {
    if objects == [] then "" else AllLinks(objects[..|objects| - 1]) + Links(objects[|objects| - 1])
  }

  /** The link list, with the comma after the last link. */
  function Text(c: Context): (s: string)
    ensures |s| >= 1
  {
    "<" + Path(c) + RESOURCE_TYPE + AllLinks(c.objects)
  }

  //////////////////////////////////////////////////////////////////////////////
  // The size
  //////////////////////////////////////////////////////////////////////////////

  predicate IsOscore(o: Object) {
    o.id == 21
  }

  predicate NoOscore(objects: seq<Object>) {
    forall o | o in objects :: !IsOscore(o)
  }

  /** Bytes for the objects the size calculation counts. */
  function CountedLinks(objects: seq<Object>): nat {
    if objects == [] then 0
    else
      var o := objects[|objects| - 1];
      CountedLinks(objects[..|objects| - 1]) + if IsOscore(o) then 0 else |Links(o)|
  }

  /** The buffer size for the payload: room for the text and a terminator. */
  function BufferLength(c: Context): nat {
    |"<" + Path(c) + RESOURCE_TYPE| + CountedLinks(c.objects) + 1
  }

  lemma {:induction false} CountedAtMost(objects: seq<Object>)
    ensures CountedLinks(objects) <= |AllLinks(objects)|
    ensures CountedLinks(objects) == |AllLinks(objects)| <==> NoOscore(objects)
  {
    hide Links;
    if objects != [] {
      var front, o := objects[..|objects| - 1], objects[|objects| - 1];
      CountedAtMost(front);
      assert objects == front + [o];
      if IsOscore(o) {
        OscoreLinks(o);
      }
    }
  }

  lemma OscoreLinks(o: Object)
    requires IsOscore(o)
    ensures |Links(o)| > 0
  {
  }

  /** The calculated size has room for the text exactly when there is no OSCORE object. */
  lemma SizeFitsIff(c: Context)
    ensures |Text(c)| + 1 <= BufferLength(c) <==> NoOscore(c.objects)
    ensures NoOscore(c.objects) ==> BufferLength(c) == |Text(c)| + 1
  {
    CountedAtMost(c.objects);
    hide AllLinks, CountedLinks, NoOscore;
  }

  /** Decimal digits, none for zero. */
  function Rest(n: nat): string {
    if n == 0 then "" else Dec(n)
  }

  lemma DecStep(n: nat)
    ensures Dec(n) == Rest(n / 10) + [(48 + n % 10) as char]
  {
  }

  /** Writes a number in decimal at a position and gives its length, or 0 when it does not fit. */
  method IntToText(data: nat, buffer: array<char>, at: nat) returns (result: nat)
    requires at <= buffer.Length
    modifies buffer
    ensures buffer[..at] == old(buffer[..at])
    ensures |Dec(data)| <= buffer.Length - at ==>
      result == |Dec(data)| && buffer[at..at + result] == Dec(data)
    ensures |Dec(data)| > buffer.Length - at ==> result == 0
  {
    hide Dec;
    result := 0;
    var index, n := WriteBackwards(data, buffer, at);
    if n > 0 || index == buffer.Length {
      return;
    }
    result := buffer.Length - index;
    ghost var text := buffer[index..];
    assert Rest(0) + text == text;
    if index > at {
      forall i | 0 <= i < result {
        buffer[at + i] := buffer[index + i];
      }
      assert buffer[at..at + result] == text;
      buffer[at + result] := '\0';
    }
  }

  /** Puts digits down from the end of the buffer until they are all there or the position is reached. */
  method WriteBackwards(data: nat, buffer: array<char>, at: nat) returns (index: nat, n: nat)
    requires at <= buffer.Length
    modifies buffer
    ensures buffer[..at] == old(buffer[..at]) && at <= index <= buffer.Length
    ensures index < buffer.Length ==> Dec(data) == Rest(n) + buffer[index..]
    ensures n > 0 ==> index == at
    ensures index == buffer.Length ==> at == buffer.Length
    ensures n > 0 || index == buffer.Length ==> |Dec(data)| > buffer.Length - at
  {
    index, n := buffer.Length, data;
    if at == buffer.Length {
      return;
    }
    DecStep(data);
    index := index - 1;
    buffer[index] := Digit(n);
    n := n / 10;
    assert buffer[index..] == [buffer[index]];
    while index > at && n > 0
      invariant at <= index < buffer.Length && buffer[..at] == old(buffer[..at])
      invariant Dec(data) == Rest(n) + buffer[index..]
    {
      hide *;
      BackStep(data, n, buffer[index..]);
      index := PutBefore(buffer, at, index, Digit(n));
      n := n / 10;
    }
    RestIsLong(n);
    hide Dec, Rest;
  }

  function Digit(n: nat): char {
    (48 + n % 10) as char
  }

  lemma RestIsLong(n: nat)
    ensures n > 0 ==> |Rest(n)| > 0
  {
  }

  lemma BackStep(data: nat, n: nat, w: string)
    requires n > 0 && Dec(data) == Rest(n) + w
    ensures Dec(data) == Rest(n / 10) + ([Digit(n)] + w)
  {
    DecStep(n);
    hide Dec;
    assert (Rest(n / 10) + [Digit(n)]) + w == Rest(n / 10) + ([Digit(n)] + w);
  }

  method PutBefore(buffer: array<char>, at: nat, index: nat, c: char) returns (next: nat)
    requires at < index < buffer.Length
    modifies buffer
    ensures next == index - 1 && buffer[..at] == old(buffer[..at]) && buffer[next..] == [c] + old(buffer[index..])
  {
    next := index - 1;
    buffer[next] := c;
  }

  /** Copies a text with a terminator, or gives -1 when they do not fit. */
  method StringCopy(buffer: array<char>, at: nat, str: string) returns (n: int)
    requires at <= buffer.Length
    modifies buffer
    ensures buffer[..at] == old(buffer[..at])
    ensures |str| < buffer.Length - at ==> n == |str| && buffer[at..at + |str|] == str
    ensures |str| >= buffer.Length - at ==> n == -1
  {
    var i := 0;
    while i < buffer.Length - at && i < |str|
      invariant i <= |str| && i <= buffer.Length - at
      invariant buffer[..at] == old(buffer[..at]) && buffer[at..at + i] == str[..i]
    {
      buffer[at + i] := str[i];
      i := i + 1;
    }
    if i == buffer.Length - at {
      return -1;
    }
    buffer[at + i] := '\0';
    assert str[..i] == str;
    n := i;
  }

  //////////////////////////////////////////////////////////////////////////////
  // Room
  //////////////////////////////////////////////////////////////////////////////

  /** A text is on its way into a buffer: it is all there, or it was found not to fit. */
  ghost predicate Wrote(ok: bool, buffer: seq<char>, index: nat, text: string) {
    if ok then index == |text| < |buffer| && buffer[..index] == text else |text| >= |buffer|
  }

  /** Adds a text to what is written, keeping room for a terminator. */
  method Append(buffer: array<char>, at: nat, str: string, ghost text: string) returns (ok: bool, index: nat)
    requires at <= buffer.Length && at == |text| && buffer[..at] == text
    modifies buffer
    ensures Wrote(ok, buffer[..], index, text + str)
  {
    var n := StringCopy(buffer, at, str);
    ok := n >= 0;
    index := at;
    if ok {
      index := at + n;
      assert buffer[..index] == buffer[..at] + buffer[at..index];
    }
  }

  /** Adds a number's digits; room for a terminator is left to what follows. */
  method AppendNumber(buffer: array<char>, at: nat, id: nat, ghost text: string) returns (ok: bool, index: nat)
    requires at <= buffer.Length && at == |text| && buffer[..at] == text
    modifies buffer
    ensures ok ==> index == |text + Dec(id)| <= buffer.Length && buffer[..index] == text + Dec(id)
    ensures !ok ==> |text + Dec(id)| > buffer.Length
  {
    hide Dec;
    var result := IntToText(id, buffer, at);
    ok := result != 0;
    index := at + result;
    if ok {
      assert buffer[..index] == buffer[..at] + buffer[at..index];
    }
  }

  /** Puts an object's template down, or fails when there is no room for the rest of its link. */
  method GetTemplate(buffer: array<char>, at: nat, id: nat, ghost text: string) returns (ok: bool, index: nat)
    requires at <= buffer.Length && at == |text| && buffer[..at] == text
    modifies buffer
    ensures ok ==> index == |text + Template(id)| <= buffer.Length && buffer[..index] == text + Template(id)
    ensures !ok ==> |text + Template(id)| + 1 > buffer.Length
  {
    hide Dec;
    index := at;
    if buffer.Length - at < 5 {
      return false, at;
    }
    buffer[at], buffer[at + 1] := '<', '/';
    assert buffer[..at + 2] == text + "</";
    ok, index := AppendNumber(buffer, at + 2, id, text + "</");
    if !ok || buffer.Length - index < 2 {
      return false, at;
    }
    ghost var head := buffer[..index];
    buffer[index] := '/';
    index := index + 1;
    assert buffer[..index] == head + "/";
    assert text + "</" + Dec(id) + "/" == text + Template(id);
  }

  //////////////////////////////////////////////////////////////////////////////
  // The payload
  //////////////////////////////////////////////////////////////////////////////

  lemma {:induction false} LinksGrow(id: nat, instances: seq<nat>, j: nat)
    requires j <= |instances|
    ensures |InstanceLinks(id, instances[..j])| <= |InstanceLinks(id, instances)|
    decreases |instances|
  {
    hide Dec, Template;
    if j == |instances| {
      assert instances[..j] == instances;
    } else {
      assert instances[..|instances| - 1][..j] == instances[..j];
      LinksGrow(id, instances[..|instances| - 1], j);
    }
  }

  lemma NextLink(id: nat, instances: seq<nat>, j: nat, text: string)
    requires j < |instances|
    ensures text + InstanceLinks(id, instances[..j + 1])
         == (text + InstanceLinks(id, instances[..j])) + Template(id) + Dec(instances[j]) + ">,"
    ensures |InstanceLinks(id, instances[..j + 1])| <= |InstanceLinks(id, instances)|
  {
    hide Dec, Template;
    LinksGrow(id, instances, j + 1);
    var more := instances[..j + 1];
    assert more[..|more| - 1] == instances[..j] && more[|more| - 1] == instances[j];
    var a, b, c := InstanceLinks(id, instances[..j]), Template(id), Dec(instances[j]);
    assert InstanceLinks(id, more) == a + b + c + ">,";
    assert text + (a + b + c + ">,") == (text + a) + b + c + ">,";
  }

  lemma FirstLink(id: nat, instances: seq<nat>)
    ensures InstanceLinks(id, instances[..0]) == ""
  {
  }

  /** The instance's digits and the end of its link, after its template. */
  method FinishLink(buffer: array<char>, at: nat, id: nat, ghost text: string) returns (ok: bool, index: nat)
    requires at <= buffer.Length && at == |text| && buffer[..at] == text
    modifies buffer
    ensures Wrote(ok, buffer[..], index, text + Dec(id) + ">,")
  {
    hide Dec;
    ok, index := AppendNumber(buffer, at, id, text);
    if ok {
      ok, index := Append(buffer, index, ">,", text + Dec(id));
    }
  }

  /** Repeats the template that was written before. */
  method RepeatTemplate(buffer: array<char>, start: nat, length: nat, at: nat, ghost text: string,
      ghost template: string)
    requires start + length <= at && at == |text| && at + length < buffer.Length && buffer[..at] == text
    requires text[start..start + length] == template
    modifies buffer
    ensures buffer[..at + length] == text + template
  {
    forall i | 0 <= i < length {
      buffer[at + i] := buffer[start + i];
    }
    assert buffer[..at] == text;
    assert forall i | 0 <= i < length :: buffer[at + i] == template[i];
  }

  /** A text whose stretch from start is a template. */
  ghost predicate HoldsAt(text: string, start: nat, template: string) {
    start + |template| <= |text| && text[start..start + |template|] == template
  }

  lemma HoldsOn(text: string, start: nat, template: string, more: string)
    requires HoldsAt(text, start, template)
    ensures HoldsAt(text + more, start, template)
  {
  }

  lemma HoldsHere(text: string, template: string)
    ensures HoldsAt(text + template, |text|, template)
  {
  }

  /** Puts a template at a position: it is there already behind the first link, and repeated for the others. */
  method NextTemplate(buffer: array<char>, start: nat, length: nat, at: nat, ghost text: string, ghost template: string)
    returns (ok: bool, index: nat)
    requires length == |template| && at == |text| < buffer.Length && buffer[..at] == text
        && HoldsAt(text, start, template)
    modifies buffer
    ensures ok ==> index == |text + template| < buffer.Length && buffer[..index] == text + template
    ensures !ok ==> |text + template| >= buffer.Length
  {
    ok, index := buffer.Length - at > length, at;
    if ok {
      RepeatTemplate(buffer, start, length, at, text, template);
      index := at + length;
    }
  }

  /** The links of an object with instances, after its template was put down at start. */
  method WriteInstances(buffer: array<char>, start: nat, length: nat, id: nat, instances: seq<nat>, ghost text: string)
    returns (ok: bool, index: nat)
    requires instances != [] && start == |text| && length == |Template(id)| && start + length <= buffer.Length
    requires buffer[..start + length] == text + Template(id)
    modifies buffer
    ensures Wrote(ok, buffer[..], index, text + InstanceLinks(id, instances))
  {
    hide Dec, Template, InstanceLinks;
    ghost var template, sofar := Template(id), text;
    index := start + length;
    var j := 0;
    FirstLink(id, instances);
    assert text + "" == text;
    while j < |instances|
      invariant j <= |instances| && sofar == text + InstanceLinks(id, instances[..j])
      invariant j == 0 ==> index == start + length && buffer[..index] == sofar + template
      invariant j > 0 ==> Wrote(true, buffer[..], index, sofar) && index > start + length
      invariant j > 0 ==> HoldsAt(sofar, start, template)
    {
      NextLink(id, instances, j, text);
      ok := true;
      if index != start + length {
        ok, index := NextTemplate(buffer, start, length, index, sofar, template);
        HoldsOn(sofar, start, template, template);
      } else {
        HoldsHere(sofar, template);
      }
      if ok {
        ok, index := FinishLink(buffer, index, instances[j], sofar + template);
      }
      if !ok {
        return;
      }
      HoldsOn(sofar + template, start, template, Dec(instances[j]));
      HoldsOn(sofar + template + Dec(instances[j]), start, template, ">,");
      sofar := sofar + template + Dec(instances[j]) + ">,";
      j := j + 1;
    }
    assert instances[..j] == instances;
    ok := true;
  }

  lemma LinksAreLong(o: Object)
    requires o.id != 0
    ensures |Links(o)| >= |Template(o.id)| + 1
    ensures o.instances == [] ==> Links(o) == "</" + Dec(o.id) + ">,"
    ensures o.instances != [] ==> Links(o) == InstanceLinks(o.id, o.instances)
  {
    hide Dec;
    if o.instances != [] {
      var i := o.instances;
      LinksGrow(o.id, i, 1);
      NextLink(o.id, i, 0, "");
    }
  }

  /** One object's links. */
  method WriteObject(buffer: array<char>, at: nat, o: Object, ghost text: string) returns (ok: bool, index: nat)
    requires Wrote(true, buffer[..], at, text)
    modifies buffer
    ensures Wrote(ok, buffer[..], index, text + Links(o))
  {
    hide Dec, Links, InstanceLinks;
    if o.id == 0 {
      SecurityHasNone(o);
      assert text + "" == text;
      return true, at;
    }
    LinksAreLong(o);
    ok, index := GetTemplate(buffer, at, o.id, text);
    if !ok {
      return;
    }
    if o.instances == [] {
      WithoutSlash(buffer[..], index, text, o.id);
      ok, index := Append(buffer, index - 1, ">,", text + "</" + Dec(o.id));
      assert text + "</" + Dec(o.id) + ">," == text + ("</" + Dec(o.id) + ">,");
    } else {
      ok, index := WriteInstances(buffer, at, index - at, o.id, o.instances, text);
    }
  }

  lemma SecurityHasNone(o: Object)
    requires o.id == 0
    ensures Links(o) == ""
  {
  }

  lemma WithoutSlash(buffer: seq<char>, index: nat, text: string, id: nat)
    requires index == |text + Template(id)| <= |buffer| && buffer[..index] == text + Template(id)
    ensures index - 1 == |text + "</" + Dec(id)| && buffer[..index - 1] == text + "</" + Dec(id)
  {
    hide Dec;
    assert text + Template(id) == (text + "</" + Dec(id)) + "/";
    assert buffer[..index - 1] == buffer[..index][..index - 1];
  }

  lemma {:induction false} AllLinksGrow(objects: seq<Object>, k: nat)
    requires k <= |objects|
    ensures |AllLinks(objects[..k])| <= |AllLinks(objects)|
    decreases |objects|
  {
    hide Links;
    if k == |objects| {
      assert objects[..k] == objects;
    } else {
      assert objects[..|objects| - 1][..k] == objects[..k];
      AllLinksGrow(objects[..|objects| - 1], k);
    }
  }

  lemma NextObject(objects: seq<Object>, k: nat, text: string)
    requires k < |objects|
    ensures text + AllLinks(objects[..k + 1]) == (text + AllLinks(objects[..k])) + Links(objects[k])
    ensures |AllLinks(objects[..k + 1])| <= |AllLinks(objects)|
  {
    hide Links;
    AllLinksGrow(objects, k + 1);
    var more := objects[..k + 1];
    assert more[..|more| - 1] == objects[..k] && more[|more| - 1] == objects[k];
    assert text + (AllLinks(objects[..k]) + Links(objects[k])) == (text + AllLinks(objects[..k])) + Links(objects[k]);
  }

  /** The links of all objects. */
  method WriteObjects(buffer: array<char>, at: nat, objects: seq<Object>, ghost text: string) returns (ok: bool,
      index: nat)
    requires Wrote(true, buffer[..], at, text)
    modifies buffer
    ensures Wrote(ok, buffer[..], index, text + AllLinks(objects))
  {
    hide Links, AllLinks;
    NoLinks(objects);
    assert text + "" == text;
    ok, index := true, at;
    var k := 0;
    while k < |objects|
      invariant k <= |objects| && Wrote(true, buffer[..], index, text + AllLinks(objects[..k]))
    {
      NextObject(objects, k, text);
      ok, index := WriteObject(buffer, index, objects[k], text + AllLinks(objects[..k]));
      if !ok {
        return;
      }
      k := k + 1;
    }
    assert objects[..k] == objects;
    ok := true;
  }

  lemma NoLinks(objects: seq<Object>)
    ensures AllLinks(objects[..0]) == ""
  {
  }

  /** The payload without its last comma and a terminator; 0 exactly when the buffer is too small for that. */
  method GetRegisterPayload(c: Context, buffer: array<char>) returns (length: nat)
    modifies buffer
    ensures |Text(c)| + 1 <= buffer.Length ==>
      length == |Text(c)| - 1 && buffer[..length] == Text(c)[..length] && buffer[length] == '\0'
    ensures |Text(c)| + 1 > buffer.Length ==> length == 0
  {
    hide AllLinks;
    length := 0;
    ghost var head := "<" + Path(c);
    var ok, index := Append(buffer, 0, "<", "");
    if !ok {
      return;
    }
    ok, index := Append(buffer, index, Path(c), "<");
    if !ok {
      return;
    }
    ok, index := Append(buffer, index, RESOURCE_TYPE, head);
    if !ok {
      return;
    }
    ok, index := WriteObjects(buffer, index, c.objects, head + RESOURCE_TYPE);
    if !ok {
      return;
    }
    index := index - 1;
    ghost var text := Text(c);
    assert buffer[..index] == text[..index];
    buffer[index] := '\0';
    length := index;
  }

  //////////////////////////////////////////////////////////////////////////////
  // The size, calculated
  //////////////////////////////////////////////////////////////////////////////

  predicate Is16(n: nat) {
    n < 0x1_0000
  }

  /** Ids take 16 bits. */
  predicate SmallIds(objects: seq<Object>) {
    forall o | o in objects :: Is16(o.id) && forall i | i in o.instances :: Is16(i)
  }

  lemma FiveDigits(n: nat)
    requires Is16(n)
    ensures |Dec(n)| <= 5
  {
    var a, b, c, d := n / 10, n / 100, n / 1000, n / 10000;
    assert a / 10 == b && b / 10 == c && c / 10 == d && d < 10;
    DecStep(n);
    DecStep(a);
    DecStep(b);
    DecStep(c);
    DecStep(d);
  }

  lemma InstanceLength(id: nat, instances: seq<nat>, j: nat)
    requires j < |instances|
    ensures |InstanceLinks(id, instances[..j + 1])|
         == |InstanceLinks(id, instances[..j])| + |Template(id)| + |Dec(instances[j])| + 2
  {
    hide Dec;
    NextLink(id, instances, j, "");
  }

  /** The length of one object's links. */
  method ObjectLength(o: Object, scratch: array<char>) returns (length: nat)
    requires o.id != 0 && scratch.Length == 10 && SmallIds([o])
    modifies scratch
    ensures length == |Links(o)|
  {
    assert o in [o];
    FiveDigits(o.id);
    hide Dec, InstanceLinks;
    var ok, template := GetTemplate(scratch, 0, o.id, "");
    assert "" + Template(o.id) == Template(o.id);
    length := template;
    if o.instances == [] {
      return length - 1 + 2;
    }
    FirstLink(o.id, o.instances);
    var j := 0;
    while j < |o.instances|
      invariant j <= |o.instances|
      invariant length == if j == 0 then template else |InstanceLinks(o.id, o.instances[..j])|
    {
      InstanceLength(o.id, o.instances, j);
      assert o.instances[j] in o.instances;
      FiveDigits(o.instances[j]);
      if length != template {
        length := length + template;
      }
      var result := IntToText(o.instances[j], scratch, 0);
      length := length + result + 2;
      j := j + 1;
    }
    assert o.instances[..j] == o.instances;
  }

  lemma CountedNext(objects: seq<Object>, k: nat)
    requires k < |objects|
    ensures CountedLinks(objects[..k + 1])
         == CountedLinks(objects[..k]) + if IsOscore(objects[k]) then 0 else |Links(objects[k])|
  {
    hide Links;
    assert objects[..k + 1][..k] == objects[..k];
  }

  /** The buffer size a payload needs. */
  method GetRegisterPayloadBufferLength(c: Context) returns (index: nat)
    requires SmallIds(c.objects)
    ensures index == BufferLength(c)
  {
    hide Links, CountedLinks;
    var scratch := new char[10];
    index := 1 + |Path(c)| + |RESOURCE_TYPE|;
    NothingCounted(c.objects);
    var k := 0;
    while k < |c.objects|
      invariant k <= |c.objects|
      invariant index == 1 + |Path(c)| + |RESOURCE_TYPE| + CountedLinks(c.objects[..k])
    {
      var o := c.objects[k];
      assert o in c.objects;
      CountedNext(c.objects, k);
      if o.id == 0 {
        SecurityHasNone(o);
      } else if o.id != 21 {
        var length := ObjectLength(o, scratch);
        index := index + length;
      }
      k := k + 1;
    }
    assert c.objects[..k] == c.objects;
    index := index + 1;
  }

  lemma NothingCounted(objects: seq<Object>)
    ensures CountedLinks(objects[..0]) == 0
  {
  }

  /** A buffer of the calculated size is filled but for two bytes exactly when no OSCORE object is registered. */
  method RegisterWithCalculatedSize(c: Context) returns (length: nat, buffer: array<char>)
    requires SmallIds(c.objects)
    ensures buffer.Length == BufferLength(c)
    ensures NoOscore(c.objects) ==>
      length + 2 == buffer.Length && buffer[..length] == Text(c)[..|Text(c)| - 1]
    ensures !NoOscore(c.objects) ==> length == 0
  {
    hide AllLinks, CountedLinks, Text, BufferLength;
    var size := GetRegisterPayloadBufferLength(c);
    buffer := new char[size];
    SizeFitsIff(c);
    length := GetRegisterPayload(c, buffer);
  }
}
