/** The client's server lists: discovery from the objects (objects.c) and refresh (liblwm2m.c). */
module Servers {

  //////////////////////////////////////////////////////////////////////////////
  // Servers and lists of them
  //////////////////////////////////////////////////////////////////////////////

  datatype Status = Deregistered | HoldOff | Initiated | Pending | Finishing | Finished | Failing | Failed | Other

  datatype Session = Closed | Open(handle: nat)

  /** A server record, named by its instance of the Security object. */
  datatype Server = Server(id: nat, shortId: nat, instance: nat, lifetime: nat, binding: nat, registration: int,
                           status: Status, session: Session, dirty: bool)

  /** The context's two lists. */
  datatype Lists = Lists(bootstrap: seq<Server>, servers: seq<Server>)

  predicate Has(list: seq<Server>, id: nat) {
    exists i :: 0 <= i < |list| && list[i].id == id
  }

  predicate Ascending(list: seq<Server>) {
    forall i, j | 0 <= i < j < |list| :: list[i].id < list[j].id
  }

  /** Whether the walk of lwm2m_list_find, which stops at the first id that is not smaller, ends on the id. */
  predicate Finds(list: seq<Server>, id: nat) {
    list != [] && (list[0].id == id || (list[0].id < id && Finds(list[1..], id)))
  }

  /** On a sorted list the walk finds what is there. */
  lemma {:induction false} FindsIffHas(list: seq<Server>, id: nat)
    requires Ascending(list)
    ensures Finds(list, id) <==> Has(list, id)
  {
    if list != [] {
      var rest := list[1..];
      assert forall i | 0 <= i < |rest| :: rest[i] == list[i + 1];
      FindsIffHas(rest, id);
      if Has(rest, id) {
        var i :| 0 <= i < |rest| && rest[i].id == id;
        assert list[0].id < list[i + 1].id;
      }
      HasCons(list, id);
    }
  }

  lemma HasCons(list: seq<Server>, id: nat)
    requires list != []
    ensures Has(list, id) <==> list[0].id == id || Has(list[1..], id)
  {
    assert forall i | 0 < i < |list| :: list[i] == list[1..][i - 1];
    if Has(list[1..], id) {
      var i :| 0 <= i < |list[1..]| && list[1..][i].id == id;
      assert list[i + 1].id == id;
    }
  }

  /** Before the first record with an id at least the new one's, as the linked list places it. */
  function Insert(list: seq<Server>, s: Server): (r: seq<Server>)
    ensures |r| == |list| + 1
  {
    if list == [] || list[0].id >= s.id then [s] + list else [list[0]] + Insert(list[1..], s)
  }

  /** Sorted lists without an id in common. */
  predicate WellFormed(l: Lists) {
    Ascending(l.bootstrap) && Ascending(l.servers)
    && forall i, j | 0 <= i < |l.bootstrap| && 0 <= j < |l.servers| :: l.bootstrap[i].id != l.servers[j].id
  }

  predicate Known(l: Lists, id: nat) {
    Has(l.bootstrap, id) || Has(l.servers, id)
  }

  lemma {:induction false} InsertMembers(list: seq<Server>, s: Server)
    ensures forall x :: x in Insert(list, s) <==> x == s || x in list
  {
    if list != [] && list[0].id < s.id {
      InsertMembers(list[1..], s);
      assert list == [list[0]] + list[1..];
    }
  }

  lemma {:induction false} InsertSorted(list: seq<Server>, s: Server)
    requires Ascending(list) && !Has(list, s.id)
    ensures Ascending(Insert(list, s))
  {
    if list != [] && list[0].id < s.id {
      var rest := Insert(list[1..], s);
      TailSorted(list, s);
      InsertSorted(list[1..], s);
      InsertMembers(list[1..], s);
      hide Insert, Has;
      ConsSorted(list[0], rest);
    } else {
      assert forall i | 0 <= i < |list| :: s.id < list[i].id;
    }
  }

  lemma TailSorted(list: seq<Server>, s: Server)
    requires Ascending(list) && list != [] && !Has(list, s.id)
    ensures Ascending(list[1..]) && !Has(list[1..], s.id)
    ensures forall x | x in list[1..] :: list[0].id < x.id
  {
    assert forall i | 0 <= i < |list| - 1 :: list[1..][i] == list[i + 1];
  }

  lemma ConsSorted(first: Server, rest: seq<Server>)
    requires Ascending(rest) && forall x | x in rest :: first.id < x.id
    ensures Ascending([first] + rest)
  {
    var all := [first] + rest;
    assert forall i | 0 < i < |all| :: all[i] == rest[i - 1] && all[i] in rest;
  }

  lemma InsertHas(list: seq<Server>, s: Server, id: nat)
    ensures Has(Insert(list, s), id) <==> id == s.id || Has(list, id)
  {
    InsertMembers(list, s);
    HasIsIn(list, id);
    HasIsIn(Insert(list, s), id);
  }

  lemma HasIsIn(list: seq<Server>, id: nat)
    ensures Has(list, id) <==> exists x :: x in list && x.id == id
  {
    if exists x :: x in list && x.id == id {
      var x :| x in list && x.id == id;
      var i :| 0 <= i < |list| && list[i] == x;
      assert list[i].id == id;
    }
  }

  //////////////////////////////////////////////////////////////////////////////
  // The objects
  //////////////////////////////////////////////////////////////////////////////

  datatype Option<T> = None | Some(value: T)

  /** What reading the Server object's short id gives: an error, no number, or a number. */
  datatype ShortId = ReadFails | NoNumber | Number(value: int)

  /** The Security and Server objects: their instances and what their resources read as, if they do. */
  datatype Objects = Objects(
    hasSecurity: bool,
    security: seq<nat>,
    isBootstrap: nat -> Option<bool>,
    holdOff: nat -> Option<int>,
    shortId: nat -> Option<int>,
    server: seq<nat>,
    serverShortId: nat -> ShortId,
    lifetime: nat -> Option<int>,
    binding: nat -> Option<nat>)

  /** The first Server instance with a short id; reading stops at the first instance that cannot be read. */
  function FindInstance(o: Objects, from: seq<nat>, shortId: nat): Option<nat> {
    if from == [] then None
    else
      match o.serverShortId(from[0])
      case ReadFails => None
      case NoNumber => FindInstance(o, from[1..], shortId)
      case Number(v) => if v == shortId then Some(from[0]) else FindInstance(o, from[1..], shortId)
  }

  datatype Found = Bootstrap(s: Server) | Regular(s: Server) | Skipped | Broken

  predicate FitsU32(v: int) {
    0 <= v <= 0xFFFF_FFFF
  }

  function NewServer(id: nat, shortId: nat, instance: nat, lifetime: nat, binding: nat): Server {
    Server(id, shortId, instance, lifetime, binding, 0, Deregistered, Closed, false)
  }

  /** What a Security instance that is in neither list yields. */
  function Classify(o: Objects, id: nat): (f: Found)
    ensures f.Bootstrap? || f.Regular? ==> f.s.id == id && !f.s.dirty
  {
    var boot := o.isBootstrap(id);
    if boot.None? then Broken
    else if boot.value then
      var h := o.holdOff(id);
      if h.None? || !FitsU32(h.value) then Broken else Bootstrap(NewServer(id, 0, 0xFFFF, h.value, 0))
    else
      var v := o.shortId(id);
      if v.None? || v.value < 1 || v.value > 0xFFFF then Broken
      else
        var inst := FindInstance(o, o.server, v.value);
        if inst.None? then Skipped
        else
          var lifetime, binding := o.lifetime(inst.value), o.binding(inst.value);
          if lifetime.None? || !FitsU32(lifetime.value) || binding.None? then Broken
          else Regular(NewServer(id, v.value, inst.value, lifetime.value, binding.value))
  }

  /** The lists after an instance was looked at. */
  function Added(l: Lists, f: Found): Lists {
    match f
    case Bootstrap(s) => l.(bootstrap := Insert(l.bootstrap, s))
    case Regular(s) => l.(servers := Insert(l.servers, s))
    case _ => l
  }

  /** Discovery over a list of instances: whether it succeeded, and the lists it leaves. */
  function Discover(o: Objects, ids: seq<nat>, l: Lists, checkOnly: bool): (bool, Lists)
    decreases |ids|
  {
    if ids == [] then (true, l)
    else if Known(l, ids[0]) then Discover(o, ids[1..], l, checkOnly)
    else
      var f := Classify(o, ids[0]);
      if f.Broken? then (false, l)
      else Discover(o, ids[1..], if checkOnly then l else Added(l, f), checkOnly)
  }

  /** Discovery fails outright without a Security object. */
  function Discovered(o: Objects, l: Lists, checkOnly: bool): (bool, Lists) {
    if o.hasSecurity then Discover(o, o.security, l, checkOnly) else (false, l)
  }

  //////////////////////////////////////////////////////////////////////////////
  // A dry run answers as the real run does
  //////////////////////////////////////////////////////////////////////////////

  /** More is known in the second lists than in the first, and none of it is broken. */
  ghost predicate Ahead(o: Objects, l: Lists, ahead: Lists) {
    forall id: nat :: (Known(l, id) ==> Known(ahead, id)) && (Known(ahead, id) && !Known(l, id)
        ==> !Classify(o, id).Broken?)
  }

  lemma AddedKnown(l: Lists, f: Found, id: nat)
    ensures Known(Added(l, f), id) <==> Known(l, id) || ((f.Bootstrap? || f.Regular?) && f.s.id == id)
  {
    if f.Bootstrap? {
      InsertHas(l.bootstrap, f.s, id);
    } else if f.Regular? {
      InsertHas(l.servers, f.s, id);
    }
    hide Has;
  }

  lemma {:induction false} DryRunFollows(o: Objects, ids: seq<nat>, l: Lists, ahead: Lists)
    requires Ahead(o, l, ahead)
    ensures Discover(o, ids, l, true) == (Discover(o, ids, ahead, false).0, l)
    decreases |ids|
  {
    hide Known, Classify, Added;
    if ids != [] {
      var id, rest := ids[0], ids[1..];
      if Known(ahead, id) {
        DryRunFollows(o, rest, l, ahead);
      } else if !Classify(o, id).Broken? {
        var next := Added(ahead, Classify(o, id));
        AheadMore(o, l, ahead, id);
        hide Ahead;
        DryRunFollows(o, rest, l, next);
      }
    }
  }

  lemma AheadMore(o: Objects, l: Lists, ahead: Lists, id: nat)
    requires Ahead(o, l, ahead) && !Classify(o, id).Broken?
    ensures Ahead(o, l, Added(ahead, Classify(o, id)))
  {
    var f := Classify(o, id);
    var next := Added(ahead, f);
    forall n: nat
      ensures Known(l, n) ==> Known(next, n)
      ensures Known(next, n) && !Known(l, n) ==> !Classify(o, n).Broken?
    {
      AddedKnown(ahead, f, n);
    }
    hide Known, Classify, Added;
  }

  /** Checking only changes nothing and gives the answer of the real run, repeated ids or not. */
  lemma DryRunAgrees(o: Objects, l: Lists)
    ensures Discovered(o, l, true) == (Discovered(o, l, false).0, l)
  {
    hide Known, Classify, Discover;
    assert Ahead(o, l, l);
    DryRunFollows(o, o.security, l, l);
  }

  //////////////////////////////////////////////////////////////////////////////
  // What a successful run leaves
  //////////////////////////////////////////////////////////////////////////////

  lemma AddedWellFormed(l: Lists, f: Found)
    requires WellFormed(l) && (f.Bootstrap? || f.Regular? ==> !Known(l, f.s.id))
    ensures WellFormed(Added(l, f))
  {
    if f.Bootstrap? {
      InsertSorted(l.bootstrap, f.s);
      InsertMembers(l.bootstrap, f.s);
      DisjointAfter(Insert(l.bootstrap, f.s), l.bootstrap, l.servers, f.s);
    } else if f.Regular? {
      InsertSorted(l.servers, f.s);
      InsertMembers(l.servers, f.s);
      DisjointAfter(Insert(l.servers, f.s), l.servers, l.bootstrap, f.s);
    }
  }

  lemma DisjointAfter(a: seq<Server>, was: seq<Server>, b: seq<Server>, s: Server)
    requires (forall x | x in a :: x == s || x in was) && !Has(b, s.id)
    requires forall i, j | 0 <= i < |was| && 0 <= j < |b| :: was[i].id != b[j].id
    ensures forall i, j | 0 <= i < |a| && 0 <= j < |b| :: a[i].id != b[j].id
  {
    forall i, j | 0 <= i < |a| && 0 <= j < |b|
      ensures a[i].id != b[j].id
    {
      assert a[i] in a;
      if a[i] in was {
        var k :| 0 <= k < |was| && was[k] == a[i];
      }
    }
  }

  /** Whether a record is what some new instance among ids yields. */
  predicate FoundIn(o: Objects, ids: seq<nat>, l: Lists, f: Found, x: Server) {
    x.id in ids && !Known(l, x.id) && Classify(o, x.id) == f
  }

  /** The lists hold what they held and exactly what the new instances yield. */
  ghost predicate Complete(o: Objects, ids: seq<nat>, l: Lists, r: Lists) {
    (forall x :: x in r.bootstrap <==> x in l.bootstrap || FoundIn(o, ids, l, Bootstrap(x), x))
    && (forall x :: x in r.servers <==> x in l.servers || FoundIn(o, ids, l, Regular(x), x))
  }

  lemma CompleteSkip(o: Objects, ids: seq<nat>, l: Lists, r: Lists)
    requires ids != [] && Complete(o, ids[1..], l, r)
    requires Known(l, ids[0]) || Classify(o, ids[0]).Skipped?
    ensures Complete(o, ids, l, r)
  {
    hide Known, Classify;
    assert ids == [ids[0]] + ids[1..];
  }

  lemma CompleteAdd(o: Objects, ids: seq<nat>, l: Lists, r: Lists)
    requires ids != [] && !Known(l, ids[0]) && (Classify(o, ids[0]).Bootstrap? || Classify(o, ids[0]).Regular?)
    requires Complete(o, ids[1..], Added(l, Classify(o, ids[0])), r)
    ensures Complete(o, ids, l, r)
  {
    var f := Classify(o, ids[0]);
    var next := Added(l, f);
    assert ids == [ids[0]] + ids[1..];
    if f.Bootstrap? {
      InsertMembers(l.bootstrap, f.s);
    } else {
      InsertMembers(l.servers, f.s);
    }
    forall id: nat
      ensures Known(next, id) <==> Known(l, id) || id == ids[0]
    {
      AddedKnown(l, f, id);
    }
    hide Known, Classify, Insert;
    forall x: Server, g: Found
      ensures FoundIn(o, ids, l, g, x) <==> FoundIn(o, ids[1..], next, g, x) || (x.id == ids[0] && g == f)
    {
    }
  }

  /** A run that succeeds keeps the lists well-formed and adds exactly what the new instances yield. */
  lemma {:induction false} DiscoverCompletes(o: Objects, ids: seq<nat>, l: Lists)
    requires WellFormed(l)
    ensures WellFormed(Discover(o, ids, l, false).1)
    ensures Discover(o, ids, l, false).0 ==> Complete(o, ids, l, Discover(o, ids, l, false).1)
    decreases |ids|
  {
    if ids != [] {
      var f, r := Classify(o, ids[0]), Discover(o, ids, l, false).1;
      hide Known, Classify, Complete, WellFormed, Added;
      if Known(l, ids[0]) {
        DiscoverCompletes(o, ids[1..], l);
        if Discover(o, ids, l, false).0 {
          CompleteSkip(o, ids, l, r);
        }
      } else if !f.Broken? {
        AddedWellFormed(l, f);
        DiscoverCompletes(o, ids[1..], Added(l, f));
        if Discover(o, ids, l, false).0 {
          if f.Skipped? {
            AddedSkipped(l, f);
            CompleteSkip(o, ids, l, r);
          } else {
            CompleteAdd(o, ids, l, r);
          }
        }
      }
    } else {
      hide Known, Classify, WellFormed;
    }
  }

  predicate NoneStarted(list: seq<Server>) {
    forall s | s in list :: s.status == Deregistered
  }

  /** A server that discovery adds has not started, whether the run succeeds or not. */
  lemma {:induction false} DiscoverStartsNone(o: Objects, ids: seq<nat>, l: Lists)
    requires NoneStarted(l.bootstrap)
    ensures NoneStarted(Discover(o, ids, l, false).1.bootstrap)
    decreases |ids|
  {
    hide Known;
    if ids != [] {
      var f := Classify(o, ids[0]);
      if Known(l, ids[0]) {
        DiscoverStartsNone(o, ids[1..], l);
      } else if !f.Broken? {
        if f.Bootstrap? {
          InsertMembers(l.bootstrap, f.s);
        }
        hide Classify, Insert;
        DiscoverStartsNone(o, ids[1..], Added(l, f));
      }
    }
  }

  lemma AddedSkipped(l: Lists, f: Found)
    requires f.Skipped?
    ensures Added(l, f) == l
  {
  }

  //////////////////////////////////////////////////////////////////////////////
  // Refresh
  //////////////////////////////////////////////////////////////////////////////

  /** The records without the dirty ones, put into a new list one by one; a bootstrap record starts over. */
  function Rebuilt(list: seq<Server>, restart: bool): seq<Server> {
    if list == [] then []
    else
      var front, s := Rebuilt(list[..|list| - 1], restart), list[|list| - 1];
      if s.dirty then front else Insert(front, Kept(s, restart))
  }

  function Kept(s: Server, restart: bool): Server {
    if restart then s.(status := Deregistered) else s
  }

  /** A record that was kept from a list. */
  ghost predicate KeptFrom(x: Server, list: seq<Server>, restart: bool) {
    exists y :: y in list && !y.dirty && x == Kept(y, restart)
  }

  lemma {:induction false} RebuiltMembers(list: seq<Server>, restart: bool)
    ensures forall x :: x in Rebuilt(list, restart) <==> KeptFrom(x, list, restart)
  {
    if list != [] {
      var front, s := list[..|list| - 1], list[|list| - 1];
      RebuiltMembers(front, restart);
      assert list == front + [s];
      InsertMembers(Rebuilt(front, restart), Kept(s, restart));
      hide Insert, Kept, Rebuilt;
      forall x: Server
        ensures KeptFrom(x, list, restart) <==> KeptFrom(x, front, restart) || (!s.dirty && x == Kept(s, restart))
      {
      }
      RebuiltStep(list, restart);
    }
  }

  lemma RebuiltStep(list: seq<Server>, restart: bool)
    requires list != []
    ensures Rebuilt(list, restart)
         == if list[|list| - 1].dirty then Rebuilt(list[..|list| - 1], restart)
            else Insert(Rebuilt(list[..|list| - 1], restart), Kept(list[|list| - 1], restart))
  {
  }

  /** Rebuilding a sorted list keeps its order and drops exactly the dirty records. */
  lemma {:induction false} RebuiltSorted(list: seq<Server>, restart: bool)
    requires Ascending(list)
    ensures Ascending(Rebuilt(list, restart))
    ensures forall x | x in Rebuilt(list, restart) :: !x.dirty && Has(list, x.id)
  {
    if list != [] {
      var front, s := list[..|list| - 1], list[|list| - 1];
      RebuiltSorted(front, restart);
      RebuiltMembers(list, restart);
      RebuiltMembers(front, restart);
      FrontBelow(list);
      RebuiltStep(list, restart);
      hide Insert, Rebuilt;
      var r := Rebuilt(front, restart);
      forall i | 0 <= i < |r|
        ensures r[i].id != s.id
      {
        assert r[i] in r;
      }
      if !s.dirty {
        InsertSorted(r, Kept(s, restart));
      }
      forall x | x in Rebuilt(list, restart)
        ensures !x.dirty && Has(list, x.id)
      {
        var y :| y in list && !y.dirty && x == Kept(y, restart);
        HasIsIn(list, x.id);
      }
    }
  }

  lemma FrontBelow(list: seq<Server>)
    requires Ascending(list) && list != []
    ensures Ascending(list[..|list| - 1])
    ensures forall y | y in list[..|list| - 1] :: y.id < list[|list| - 1].id
  {
  }

  function Cleaned(l: Lists): Lists {
    Lists(Rebuilt(l.bootstrap, true), Rebuilt(l.servers, false))
  }

  ghost predicate NoneDirty(l: Lists) {
    (forall x | x in l.bootstrap :: !x.dirty) && (forall x | x in l.servers :: !x.dirty)
  }

  lemma CleanedWellFormed(l: Lists)
    requires WellFormed(l)
    ensures WellFormed(Cleaned(l)) && NoneDirty(Cleaned(l))
  {
    RebuiltSorted(l.bootstrap, true);
    RebuiltSorted(l.servers, false);
    var b, s := Rebuilt(l.bootstrap, true), Rebuilt(l.servers, false);
    hide Rebuilt;
    forall i, j | 0 <= i < |b| && 0 <= j < |s|
      ensures b[i].id != s[j].id
    {
      assert b[i] in b && s[j] in s;
      assert Has(l.bootstrap, b[i].id) && Has(l.servers, s[j].id);
    }
  }

  /** A Security instance that a successful refresh must list. */
  predicate Wanted(o: Objects, l: Lists, id: nat) {
    Known(l, id) || Classify(o, id).Bootstrap? || Classify(o, id).Regular?
  }

  /** After a refresh: sorted and disjoint lists, nothing dirty, and every wanted instance in exactly one list. */
  lemma RefreshSettles(o: Objects, l: Lists)
    requires WellFormed(l) && Discovered(o, Cleaned(l), false).0
    ensures var r := Discovered(o, Cleaned(l), false).1;
            WellFormed(r) && NoneDirty(r)
            && forall id: nat | id in o.security ::
                 (Wanted(o, Cleaned(l), id) <==> Known(r, id)) && !(Has(r.bootstrap, id) && Has(r.servers, id))
  {
    var c := Cleaned(l);
    var r := Discover(o, o.security, c, false).1;
    CleanedWellFormed(l);
    DiscoverCompletes(o, o.security, c);
    hide Cleaned, Discover, Classify;
    CompleteClean(o, o.security, c, r);
    forall id: nat | id in o.security
      ensures Wanted(o, c, id) <==> Known(r, id)
      ensures !(Has(r.bootstrap, id) && Has(r.servers, id))
    {
      CompleteKnown(o, o.security, c, r, id);
      hide Has, Known, Wanted, Complete;
      InOneOnly(r, id);
    }
  }

  lemma CompleteClean(o: Objects, ids: seq<nat>, l: Lists, r: Lists)
    requires Complete(o, ids, l, r) && NoneDirty(l)
    ensures NoneDirty(r)
  {
  }

  lemma CompleteKnown(o: Objects, ids: seq<nat>, l: Lists, r: Lists, id: nat)
    requires Complete(o, ids, l, r) && id in ids
    ensures Wanted(o, l, id) <==> Known(r, id)
  {
    HasIsIn(l.bootstrap, id);
    HasIsIn(l.servers, id);
    HasIsIn(r.bootstrap, id);
    HasIsIn(r.servers, id);
    var f := Classify(o, id);
    hide Classify, Has;
    if f.Bootstrap? && !Known(l, id) {
      assert FoundIn(o, ids, l, Bootstrap(f.s), f.s);
    } else if f.Regular? && !Known(l, id) {
      assert FoundIn(o, ids, l, Regular(f.s), f.s);
    }
  }

  lemma InOneOnly(r: Lists, id: nat)
    requires WellFormed(r)
    ensures !(Has(r.bootstrap, id) && Has(r.servers, id))
  {
  }

  //////////////////////////////////////////////////////////////////////////////
  // Reading the objects
  //////////////////////////////////////////////////////////////////////////////

  /** Walks the Server instances for a short id. */
  method FindServerInstance(o: Objects, shortId: nat) returns (instance: Option<nat>)
    ensures instance == FindInstance(o, o.server, shortId)
  {
    var i := 0;
    while i < |o.server|
      invariant i <= |o.server| && FindInstance(o, o.server, shortId) == FindInstance(o, o.server[i..], shortId)
    {
      ghost var rest := o.server[i..];
      assert rest[0] == o.server[i] && rest[1..] == o.server[i + 1..];
      var v := o.serverShortId(o.server[i]);
      if v.ReadFails? {
        return None;
      }
      if v.Number? && v.value == shortId {
        return Some(o.server[i]);
      }
      i := i + 1;
    }
    instance := None;
  }

  /** Reads what a new Security instance describes. */
  method ReadServer(o: Objects, id: nat) returns (f: Found)
    ensures f == Classify(o, id)
  {
    var boot := o.isBootstrap(id);
    if boot.None? {
      return Broken;
    }
    if boot.value {
      var h := o.holdOff(id);
      if h.None? || h.value < 0 || h.value > 0xFFFF_FFFF {
        return Broken;
      }
      return Bootstrap(NewServer(id, 0, 0xFFFF, h.value, 0));
    }
    var v := o.shortId(id);
    if v.None? || v.value < 1 || v.value > 0xFFFF {
      return Broken;
    }
    var instance := FindServerInstance(o, v.value);
    if instance.None? {
      return Skipped;
    }
    var lifetime, binding := o.lifetime(instance.value), o.binding(instance.value);
    if lifetime.None? || lifetime.value < 0 || lifetime.value > 0xFFFF_FFFF || binding.None? {
      return Broken;
    }
    f := Regular(NewServer(id, v.value, instance.value, lifetime.value, binding.value));
  }

  //////////////////////////////////////////////////////////////////////////////
  // The client context
  //////////////////////////////////////////////////////////////////////////////

  /** The context, as far as its server lists go. */
  class Context {
    var bootstrapServerList: seq<Server>
    var serverList: seq<Server>

    ghost function Value(): Lists
      reads this
    {
      Lists(bootstrapServerList, serverList)
    }

    constructor ()
      ensures Value() == Lists([], [])
    {
      bootstrapServerList, serverList := [], [];
    }

    /** Looks for servers that are in neither list; 0 for success, -1 for failure. */
    method GetServers(o: Objects, checkOnly: bool) returns (result: int)
      requires WellFormed(Value())
      modifies this
      ensures (result == 0, Value()) == Discovered(o, old(Value()), checkOnly)
      ensures WellFormed(Value()) && (result == 0 || result == -1)
    {
      hide Known, Classify, WellFormed, Finds, Insert;
      ghost var target := Discover(o, o.security, Value(), checkOnly);
      if !o.hasSecurity {
        return -1;
      }
      var i := 0;
      while i < |o.security|
        invariant i <= |o.security| && target == Discover(o, o.security[i..], Value(), checkOnly)
        invariant WellFormed(Value())
      {
        ghost var rest := o.security[i..];
        assert rest[0] == o.security[i] && rest[1..] == o.security[i + 1..];
        var id := o.security[i];
        FindsIffKnown(Value(), id);
        if !Finds(bootstrapServerList, id) && !Finds(serverList, id) {
          var f := ReadServer(o, id);
          AddedWellFormed(Value(), f);
          match f {
            case Broken => return -1;
            case Bootstrap(s) =>
              if !checkOnly {
                bootstrapServerList := Insert(bootstrapServerList, s);
              }
            case Regular(s) =>
              if !checkOnly {
                serverList := Insert(serverList, s);
              }
            case Skipped =>
          }
        }
        i := i + 1;
      }
      assert o.security[i..] == [];
      result := 0;
    }

    /** Drops the dirty servers, starts the bootstrap servers over, and discovers new ones. */
    method RefreshServerList(o: Objects) returns (result: int)
      requires WellFormed(Value())
      modifies this
      ensures (result == 0, Value()) == Discovered(o, Cleaned(old(Value())), false)
      ensures WellFormed(Value()) && (result == 0 || result == -1)
    {
      hide Insert, Discovered, WellFormed;
      ghost var before := Value();
      CleanedWellFormed(before);
      var todo := bootstrapServerList;
      bootstrapServerList := [];
      var i := 0;
      while i < |todo|
        invariant i <= |todo| && bootstrapServerList == Rebuilt(todo[..i], true) && serverList == before.servers
      {
        RebuiltNext(todo, i, true);
        if !todo[i].dirty {
          bootstrapServerList := Insert(bootstrapServerList, todo[i].(status := Deregistered));
        }
        i := i + 1;
      }
      assert todo[..i] == before.bootstrap;
      todo := serverList;
      serverList := [];
      i := 0;
      while i < |todo|
        invariant i <= |todo| && serverList == Rebuilt(todo[..i], false)
        invariant bootstrapServerList == Rebuilt(before.bootstrap, true)
      {
        RebuiltNext(todo, i, false);
        if !todo[i].dirty {
          serverList := Insert(serverList, todo[i]);
        }
        i := i + 1;
      }
      assert todo[..i] == before.servers;
      result := GetServers(o, false);
    }
  }

  lemma FindsIffKnown(l: Lists, id: nat)
    requires WellFormed(l)
    ensures Finds(l.bootstrap, id) || Finds(l.servers, id) <==> Known(l, id)
  {
    FindsIffHas(l.bootstrap, id);
    FindsIffHas(l.servers, id);
  }

  lemma RebuiltNext(list: seq<Server>, i: nat, restart: bool)
    requires i < |list|
    ensures Rebuilt(list[..i + 1], restart)
         == if list[i].dirty then Rebuilt(list[..i], restart)
            else Insert(Rebuilt(list[..i], restart), Kept(list[i], restart))
  {
    RebuiltStep(list[..i + 1], restart);
    assert list[..i + 1][..i] == list[..i];
  }
}
