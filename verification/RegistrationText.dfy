/** The registration payload as text: numbers in decimal, one link for every instance, and an example. */
module RegistrationText {
  import opened Registration

  predicate IsDigit(c: char) {
    '0' <= c <= '9'
  }

  /** The number a text of decimal digits stands for. */
  function Value(s: string): nat
    requires forall c | c in s :: IsDigit(c)
  {
    if s == "" then 0
    else
      assert IsDigit(s[|s| - 1]);
      10 * Value(s[..|s| - 1]) + (s[|s| - 1] as int - 48)
  }

  /** Digits of a number give the number, with no zero in front but that of zero itself. */
  lemma {:induction false} DecimalReads(n: nat)
    ensures forall c | c in Dec(n) :: IsDigit(c)
    ensures Value(Dec(n)) == n
    ensures n > 0 ==> Dec(n)[0] != '0'
    ensures n == 0 ==> Dec(n) == "0"
  {
    if n < 10 {
      assert Dec(n) == [(48 + n) as char];
      assert Dec(n)[..0] == "";
    } else {
      DecimalReads(n / 10);
      var front, last := Dec(n / 10), (48 + n % 10) as char;
      assert Dec(n) == front + [last];
      assert (front + [last])[..|front|] == front;
    }
  }

  /** The link of an instance. */
  function Link(id: nat, instance: nat): string {
    "</" + Dec(id) + "/" + Dec(instance) + ">,"
  }

  lemma InstanceAfter(id: nat, instances: seq<nat>, instance: nat)
    ensures InstanceLinks(id, instances + [instance]) == InstanceLinks(id, instances) + Link(id, instance)
  {
    hide Dec;
    assert (instances + [instance])[..|instances|] == instances;
    var a := InstanceLinks(id, instances);
    assert a + Template(id) + Dec(instance) + ">," == a + Link(id, instance);
  }

  lemma ObjectAfter(objects: seq<Object>, o: Object)
    ensures AllLinks(objects + [o]) == AllLinks(objects) + Links(o)
    ensures o.id == 0 ==> Links(o) == ""
    ensures o.id != 0 && o.instances == [] ==> Links(o) == "</" + Dec(o.id) + ">,"
    ensures o.id != 0 && o.instances != [] ==> Links(o) == InstanceLinks(o.id, o.instances)
  {
    hide Dec;
    assert (objects + [o])[..|objects|] == objects;
  }

  lemma NoLinks()
    ensures AllLinks([]) == "" && InstanceLinks(0, []) == ""
  {
  }

  /** Whether a link of some object lies at a position of a text. */
  predicate LiesAt(text: string, k: nat, link: string) {
    k + |link| <= |text| && text[k..k + |link|] == link
  }

  lemma LiesInFront(a: string, b: string, k: nat, link: string)
    requires LiesAt(a, k, link)
    ensures LiesAt(a + b, k, link)
  {
    assert (a + b)[k..k + |link|] == a[k..k + |link|];
  }

  lemma LiesBehind(a: string, b: string, k: nat, link: string)
    requires LiesAt(b, k, link)
    ensures LiesAt(a + b, |a| + k, link)
  {
    assert (a + b)[|a| + k..|a| + k + |link|] == b[k..k + |link|];
  }

  lemma {:induction false} InstanceLinked(id: nat, instances: seq<nat>, j: nat) returns (k: nat)
    requires j < |instances|
    ensures LiesAt(InstanceLinks(id, instances), k, Link(id, instances[j]))
  {
    var front, last := instances[..|instances| - 1], instances[|instances| - 1];
    assert instances == front + [last];
    InstanceAfter(id, front, last);
    hide InstanceLinks, Link;
    if j < |front| {
      k := InstanceLinked(id, front, j);
      LiesInFront(InstanceLinks(id, front), Link(id, last), k, Link(id, instances[j]));
    } else {
      k := |InstanceLinks(id, front)|;
      LiesBehind(InstanceLinks(id, front), Link(id, last), 0, Link(id, last));
    }
  }

  lemma ObjectLinked(o: Object, j: nat) returns (k: nat)
    requires o.id != 0 && j < |o.instances|
    ensures LiesAt(Links(o), k, Link(o.id, o.instances[j]))
  {
    ObjectAfter([], o);
    hide InstanceLinks, Link, Links;
    k := InstanceLinked(o.id, o.instances, j);
  }

  /** Every instance of every object but Security has its link in the list. */
  lemma {:induction false} EveryInstanceLinked(objects: seq<Object>, i: nat, j: nat) returns (k: nat)
    requires i < |objects| && objects[i].id != 0 && j < |objects[i].instances|
    ensures LiesAt(AllLinks(objects), k, Link(objects[i].id, objects[i].instances[j]))
  {
    hide *;
    var front, o := objects[..|objects| - 1], objects[|objects| - 1];
    assert objects == front + [o];
    ObjectAfter(front, o);
    var link := Link(objects[i].id, objects[i].instances[j]);
    if i < |front| {
      k := EveryInstanceLinked(front, i, j);
      LiesInFront(AllLinks(front), Links(o), k, link);
    } else {
      k := ObjectLinked(o, j);
      LiesBehind(AllLinks(front), Links(o), k, link);
      k := |AllLinks(front)| + k;
    }
  }

  lemma ExampleHead()
    ensures "<" + "/" + RESOURCE_TYPE == "</" + ">;rt=\"oma.lwm2m\";ct=110,"
  {
    assert "<" + "/" == "</";
  }

  lemma ExampleParts()
    ensures Link(1, 0) == "</1/0>," && Link(1, 1) == "</1/1>," && "</" + Dec(3) + ">," == "</3>,"
  {
    assert Dec(0) == "0" && Dec(1) == "1" && Dec(3) == "3";
  }

  /** The payload of a client with a Security object, two Server instances and a Device object without instances. */
  lemma ExamplePayload()
    ensures Text(Context("", [Object(0, [0]), Object(1, [0, 1]), Object(3, [])]))
         == "</" + ">;rt=\"oma.lwm2m\";ct=110," + ("</1/0>," + "</1/1>," + "</3>,")
  {
    ExampleHead();
    ExampleLinks();
    hide AllLinks, RESOURCE_TYPE;
  }

  /** An alternate path takes the place of the slash. */
  lemma ExamplePath()
    ensures Text(Context("/lwm2m", [])) == "</lwm2m" + ">;rt=\"oma.lwm2m\";ct=110,"
  {
    NoLinks();
    assert "<" + "/lwm2m" == "</lwm2m";
    hide AllLinks;
  }

  lemma TwoLinks(id: nat, i: nat, j: nat)
    ensures InstanceLinks(id, [i, j]) == Link(id, i) + Link(id, j)
  {
    InstanceAfter(id, [], i);
    InstanceAfter(id, [i], j);
    assert [] + [i] == [i] && [i] + [j] == [i, j];
    NoLink(id);
    hide InstanceLinks, Link;
    assert "" + Link(id, i) == Link(id, i);
  }

  lemma NoLink(id: nat)
    ensures InstanceLinks(id, []) == ""
  {
  }

  lemma Steps<T>(a: T, b: T, c: T)
    ensures [] + [a] == [a] && [a] + [b] == [a, b] && [a, b] + [c] == [a, b, c]
  {
  }

  lemma ThreeObjects(a: Object, b: Object, c: Object)
    ensures AllLinks([a, b, c]) == Links(a) + Links(b) + Links(c)
  {
    hide *;
    Steps(a, b, c);
    ObjectAfter([], a);
    ObjectAfter([a], b);
    ObjectAfter([a, b], c);
    NoLinks();
    assert AllLinks([a]) == Links(a) by {
      assert "" + Links(a) == Links(a);
    }
  }

  lemma ExampleLinks()
    ensures AllLinks([Object(0, [0]), Object(1, [0, 1]), Object(3, [])]) == "</1/0>," + "</1/1>," + "</3>,"
  {
    var a, b, c := Object(0, [0]), Object(1, [0, 1]), Object(3, []);
    ObjectAfter([], a);
    ObjectAfter([], b);
    ObjectAfter([], c);
    ExampleParts();
    hide *;
    ThreeObjects(a, b, c);
    TwoLinks(1, 0, 1);
    assert "" + ("</1/0>," + "</1/1>,") == "</1/0>," + "</1/1>,";
  }

  /** The size calculation leaves out the objects numbered 21, and those only. */
  lemma LeftOutIff(objects: seq<Object>)
    ensures NoOscore(objects) <==> forall o | o in objects :: o.id != 21
  {
  }
}
