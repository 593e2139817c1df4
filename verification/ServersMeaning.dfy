/** What discovery makes of a Security instance, in terms of the resources it reads. */
module ServersMeaning {
  import opened Servers

  /** Position k holds the first Server instance with a short id, and all before it can be read. */
  predicate FirstAt(o: Objects, from: seq<nat>, shortId: nat, k: nat) {
    k < |from| && o.serverShortId(from[k]) == Number(shortId)
    && forall j | 0 <= j < k :: !o.serverShortId(from[j]).ReadFails? && o.serverShortId(from[j]) != Number(shortId)
  }

  /** The search finds an instance exactly if it is the first with the short id, with nothing unreadable before. */
  lemma {:induction false} FindInstanceIff(o: Objects, from: seq<nat>, shortId: nat, instance: nat)
    ensures FindInstance(o, from, shortId) == Some(instance)
       <==> exists k: nat :: FirstAt(o, from, shortId, k) && from[k] == instance
  {
    if from == [] {
      assert forall k: nat :: !FirstAt(o, from, shortId, k);
    } else {
      var rest := from[1..];
      FindInstanceIff(o, rest, shortId, instance);
      FirstMoves(o, from, shortId);
      var first := o.serverShortId(from[0]);
      if first.ReadFails? || first == Number(shortId) {
        assert forall k: nat | k > 0 :: !FirstAt(o, from, shortId, k);
      } else {
        hide FirstAt;
        if exists k: nat :: FirstAt(o, rest, shortId, k) && rest[k] == instance {
          var k: nat :| FirstAt(o, rest, shortId, k) && rest[k] == instance;
          assert FirstAt(o, from, shortId, k + 1) && from[k + 1] == instance;
        }
        if exists k: nat :: FirstAt(o, from, shortId, k) && from[k] == instance {
          var k: nat :| FirstAt(o, from, shortId, k) && from[k] == instance;
          assert k > 0 && FirstAt(o, rest, shortId, k - 1) && rest[k - 1] == instance;
        }
      }
    }
  }

  lemma FirstMoves(o: Objects, from: seq<nat>, shortId: nat)
    requires from != []
    ensures FirstAt(o, from, shortId, 0) <==> o.serverShortId(from[0]) == Number(shortId)
    ensures forall k: nat | k > 0 ::
              FirstAt(o, from, shortId, k) <==>
              FirstAt(o, from[1..], shortId, k - 1)
              && !o.serverShortId(from[0]).ReadFails? && o.serverShortId(from[0]) != Number(shortId)
    ensures forall k: nat :: FirstAt(o, from, shortId, k) ==> k < |from|
  {
    forall k: nat | k > 0
      ensures FirstAt(o, from, shortId, k) <==>
              FirstAt(o, from[1..], shortId, k - 1)
              && !o.serverShortId(from[0]).ReadFails? && o.serverShortId(from[0]) != Number(shortId)
    {
      if k < |from| {
        assert from[1..][k - 1] == from[k];
        assert forall j | 0 < j < k :: from[j] == from[1..][j - 1];
        assert forall j | 0 <= j < k - 1 :: from[1..][j] == from[j + 1];
      }
    }
  }

  /** A bootstrap server: flagged as one, with a hold-off time of 32 bits, which becomes its lifetime. */
  lemma BootstrapIff(o: Objects, id: nat, s: Server)
    ensures Classify(o, id) == Found.Bootstrap(s)
       <==> o.isBootstrap(id) == Some(true) && o.holdOff(id) == Some(s.lifetime) && s.lifetime <= 0xFFFF_FFFF
            && s == Server(id, 0, 0xFFFF, s.lifetime, 0, 0, Deregistered, Closed, false)
  {
    hide FindInstance;
  }

  /**
   A server to register with: not flagged, with a short id from 1 to 65535, and a Server instance of that id whose
   lifetime of 32 bits and binding can be read.
   */
  lemma RegularIff(o: Objects, id: nat, s: Server)
    ensures Classify(o, id) == Regular(s)
       <==> o.isBootstrap(id) == Some(false) && o.shortId(id) == Some(s.shortId) && 1 <= s.shortId <= 0xFFFF
            && FindInstance(o, o.server, s.shortId) == Some(s.instance)
            && o.lifetime(s.instance) == Some(s.lifetime) && s.lifetime <= 0xFFFF_FFFF
            && o.binding(s.instance) == Some(s.binding)
            && s == Server(id, s.shortId, s.instance, s.lifetime, s.binding, 0, Deregistered, Closed, false)
  {
    hide FindInstance;
  }

  /** Passed over: an instance whose short id no readable Server instance has. */
  lemma SkippedIff(o: Objects, id: nat)
    ensures Classify(o, id) == Skipped
       <==> o.isBootstrap(id) == Some(false)
            && exists v: nat :: o.shortId(id) == Some(v) && 1 <= v <= 0xFFFF && FindInstance(o, o.server, v) == None
  {
    hide FindInstance;
    if o.shortId(id).Some? && o.shortId(id).value >= 0 {
      var v: nat := o.shortId(id).value;
      assert o.shortId(id) == Some(v);
    }
  }

  /** After a successful run: which new records the lists have, in terms of what the instances read as. */
  lemma DiscoveredIff(o: Objects, ids: seq<nat>, l: Lists, s: Server)
    requires WellFormed(l) && Discover(o, ids, l, false).0
    ensures s in Discover(o, ids, l, false).1.bootstrap
       <==> s in l.bootstrap
            || (s.id in ids && !Known(l, s.id) && o.isBootstrap(s.id) == Some(true)
                && o.holdOff(s.id) == Some(s.lifetime) && s.lifetime <= 0xFFFF_FFFF
                && s == Server(s.id, 0, 0xFFFF, s.lifetime, 0, 0, Deregistered, Closed, false))
    ensures s in Discover(o, ids, l, false).1.servers
       <==> s in l.servers || (s.id in ids && !Known(l, s.id) && Classify(o, s.id) == Regular(s))
  {
    DiscoverCompletes(o, ids, l);
    BootstrapIff(o, s.id, s);
    hide Discover, Classify, Known, WellFormed;
  }

  /**
   An instance discovery can take: a readable flag, with it a hold-off time of 32 bits, without it a short id from 1 to
   65535, and if a Server instance is found for that, its lifetime of 32 bits and its binding.
   */
  predicate Usable(o: Objects, id: nat) {
    || (o.isBootstrap(id) == Some(true) && InRange(o.holdOff(id), 0, 0xFFFF_FFFF))
    || (o.isBootstrap(id) == Some(false) && InRange(o.shortId(id), 1, 0xFFFF)
        && ServerUsable(o, FindInstance(o, o.server, o.shortId(id).value)))
  }

  predicate InRange(v: Option<int>, low: int, high: int) {
    v.Some? && low <= v.value <= high
  }

  predicate ServerUsable(o: Objects, instance: Option<nat>) {
    instance.Some? ==> InRange(o.lifetime(instance.value), 0, 0xFFFF_FFFF) && o.binding(instance.value).Some?
  }

  lemma BrokenIff(o: Objects, id: nat)
    ensures Classify(o, id).Broken? <==> !Usable(o, id)
  {
    hide FindInstance;
  }

  /** A run succeeds exactly if every new instance can be taken. */
  lemma {:induction false} SucceedsIff(o: Objects, ids: seq<nat>, l: Lists)
    ensures Discover(o, ids, l, false).0 <==> forall id | id in ids && !Known(l, id) :: Usable(o, id)
    decreases |ids|
  {
    if ids != [] {
      var f := Classify(o, ids[0]);
      var next := if Known(l, ids[0]) then l else Added(l, f);
      SucceedsIff(o, ids[1..], next);
      BrokenIff(o, ids[0]);
      assert ids == [ids[0]] + ids[1..];
      assert Discover(o, ids, l, false).0
          == ((Known(l, ids[0]) || !f.Broken?) && Discover(o, ids[1..], next, false).0);
      hide Discover, Classify, Usable;
      forall id: nat
        ensures Known(Added(l, f), id) <==> Known(l, id) || ((f.Bootstrap? || f.Regular?) && f.s.id == id)
      {
        AddedKnown(l, f, id);
      }
      hide Known, Added;
    }
  }

  /** The records without the marked ones, those of bootstrap servers put back to their start. */
  lemma RebuiltIff(list: seq<Server>, s: Server)
    ensures s in Rebuilt(list, false) <==> s in list && !s.dirty
    ensures s in Rebuilt(list, true) <==> exists t :: t in list && !t.dirty && s == t.(status := Deregistered)
  {
    RebuiltMembers(list, false);
    RebuiltMembers(list, true);
  }
}
