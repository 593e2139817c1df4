/** The linked list of list.c: heap nodes kept in ascending order of their 16-bit ids. */
module List {

  type Id = n: int | 0 <= n < 0x1_0000

  class Node {
    const id: Id
    var next: Node?

    constructor (id: Id)
      ensures this.id == id && next == null
    {
      this.id := id;
      next := null;
    }
  }

  /** The nodes reached from head, in order, ending in null and never meeting the same node twice. */
  ghost predicate Chain(head: Node?, nodes: seq<Node>)
    reads nodes
  {
    head == NodeAt(nodes, 0)
    && (forall i | 0 <= i < |nodes| :: nodes[i].next == NodeAt(nodes, i + 1))
    && (forall i, j | 0 <= i < j < |nodes| :: nodes[i] != nodes[j])
  }

  function NodeAt(nodes: seq<Node>, i: nat): Node? {
    if i < |nodes| then nodes[i] else null
  }

  ghost predicate Ascending(nodes: seq<Node>) {
    forall i, j | 0 <= i < j < |nodes| :: nodes[i].id <= nodes[j].id
  }

  ghost predicate Distinct(nodes: seq<Node>) {
    forall i, j | 0 <= i < j < |nodes| :: nodes[i].id != nodes[j].id
  }

  function Ids(nodes: seq<Node>): set<nat> {
    set i | 0 <= i < |nodes| :: nodes[i].id as nat
  }

  /** Where a node goes: before the first node with an id at least its own. */
  function Place(nodes: seq<Node>, id: nat): (k: nat)
    ensures k <= |nodes|
    ensures forall i | 0 <= i < k :: nodes[i].id < id
    ensures k < |nodes| ==> nodes[k].id >= id
  {
    if nodes == [] || nodes[0].id >= id then 0 else 1 + Place(nodes[1..], id)
  }

  lemma PlaceIs(nodes: seq<Node>, id: nat, k: nat)
    requires k <= |nodes| && (forall i | 0 <= i < k :: nodes[i].id < id) && (k < |nodes| ==> nodes[k].id >= id)
    ensures Place(nodes, id) == k
  {
    var p := Place(nodes, id);
    if p < k {
    } else if k < p {
    }
  }

  function Inserted(nodes: seq<Node>, k: nat, node: Node): seq<Node>
    requires k <= |nodes|
  {
    nodes[..k] + [node] + nodes[k..]
  }

  function Without(nodes: seq<Node>, k: nat): seq<Node>
    requires k < |nodes|
  {
    nodes[..k] + nodes[k + 1..]
  }

  /** Where add puts a node: at its place, but not before a head of the same id. */
  function AddPlace(nodes: seq<Node>, id: nat): (k: nat)
    ensures k <= |nodes|
  {
    if nodes != [] && nodes[0].id == id then 1 else Place(nodes, id)
  }

  /** It goes behind all smaller ids and before all others, but behind a head of its own id. */
  lemma AddPlaceOrder(nodes: seq<Node>, id: nat)
    requires Ascending(nodes)
    ensures forall i | 0 <= i < AddPlace(nodes, id) :: nodes[i].id < id || (i == 0 && nodes[0].id == id)
    ensures forall i | AddPlace(nodes, id) <= i < |nodes| :: id <= nodes[i].id
    ensures nodes != [] && nodes[0].id == id ==> AddPlace(nodes, id) > 0
  {
    var k := Place(nodes, id);
    hide Place;
    assert forall i | k <= i < |nodes| :: nodes[k].id <= nodes[i].id;
  }

  /** The spine a chain has, and no node twice. */
  ghost predicate NoRepeats(nodes: seq<Node>) {
    forall i, j | 0 <= i < j < |nodes| :: nodes[i] != nodes[j]
  }

  /** A chain but for the link out of its k-th node. */
  ghost predicate ChainBut(head: Node?, nodes: seq<Node>, k: nat)
    reads nodes
  {
    head == NodeAt(nodes, 0) && NoRepeats(nodes)
    && forall i | 0 <= i < |nodes| && i != k :: nodes[i].next == NodeAt(nodes, i + 1)
  }

  lemma ChainWith(head: Node?, nodes: seq<Node>, k: nat, node: Node)
    requires k < |nodes| && node !in nodes && ChainBut(head, nodes, k)
    requires nodes[k].next == node && node.next == NodeAt(nodes, k + 1)
    ensures Chain(head, Inserted(nodes, k + 1, node))
  {
    var result := Inserted(nodes, k + 1, node);
    forall i | 0 <= i < |result|
      ensures result[i].next == NodeAt(result, i + 1)
    {
      if i <= k {
        assert result[i] == nodes[i];
      } else if i > k + 1 {
        assert result[i] == nodes[i - 1];
      }
    }
  }

  lemma AscendingWith(nodes: seq<Node>, k: nat, node: Node)
    requires Ascending(nodes) && k <= |nodes|
    requires (forall i | 0 <= i < k :: nodes[i].id <= node.id)
        && (forall i | k <= i < |nodes| :: node.id <= nodes[i].id)
    ensures Ascending(Inserted(nodes, k, node))
  {
    var result := Inserted(nodes, k, node);
    forall i, j | 0 <= i < j < |result|
      ensures result[i].id <= result[j].id
    {
      assert result[i] == if i < k then nodes[i] else if i == k then node else nodes[i - 1];
      assert result[j] == if j < k then nodes[j] else if j == k then node else nodes[j - 1];
    }
  }

  /** The node the search for a place stops at: the last of those before the place, or the head. */
  method Seek(head: Node, id: nat, ghost nodes: seq<Node>) returns (target: Node, ghost k: nat)
    requires Chain(head, nodes)
    ensures k < |nodes| && target == nodes[k]
    ensures forall i | 1 <= i <= k :: nodes[i].id < id
    ensures k + 1 < |nodes| ==> nodes[k + 1].id >= id
  {
    target := head;
    k := 0;
    while target.next != null && target.next.id < id
      invariant k < |nodes| && target == nodes[k]
      invariant forall i | 1 <= i <= k :: nodes[i].id < id
      decreases |nodes| - k
    {
      target := target.next;
      k := k + 1;
    }
  }

  lemma AddPlaceIs(nodes: seq<Node>, id: nat, k: nat)
    requires k < |nodes| && nodes[0].id <= id && (forall i | 1 <= i <= k :: nodes[i].id < id)
    requires Ascending(nodes) && (k + 1 < |nodes| ==> nodes[k + 1].id >= id)
    ensures AddPlace(nodes, id) == k + 1
  {
    assert nodes[0].id <= nodes[k].id;
    if nodes[0].id < id {
      PlaceIs(nodes, id, k + 1);
    }
  }

  /** Links a node in after the k-th. */
  method LinkAfter(head: Node?, target: Node, node: Node, ghost nodes: seq<Node>, ghost k: nat)
    requires Chain(head, nodes) && node !in nodes && k < |nodes| && target == nodes[k]
    modifies target, node
    ensures Chain(head, Inserted(nodes, k + 1, node))
  {
    node.next := target.next;
    target.next := node;
    ChainWith(head, nodes, k, node);
  }

  /** Links a node in before the head. */
  method LinkBefore(head: Node?, node: Node, ghost nodes: seq<Node>)
    requires Chain(head, nodes) && node !in nodes
    modifies node
    ensures Chain(node, Inserted(nodes, 0, node))
  {
    node.next := head;
    ghost var result := Inserted(nodes, 0, node);
    assert forall i | 0 < i < |result| :: result[i] == nodes[i - 1];
  }

  lemma AddPlaceFirst(nodes: seq<Node>, id: nat)
    requires nodes == [] || id < nodes[0].id
    ensures AddPlace(nodes, id) == 0
  {
  }

  /** Puts a node into the list. */
  method Add(head: Node?, node: Node, ghost nodes: seq<Node>) returns (first: Node, ghost result: seq<Node>)
    requires Chain(head, nodes) && Ascending(nodes) && node !in nodes && node.next == null
    modifies nodes, node
    ensures result == Inserted(nodes, AddPlace(nodes, node.id), node)
    ensures Chain(first, result) && Ascending(result)
  {
    assert (nodes == [] <==> head == null) && (nodes != [] ==> head == nodes[0]);
    hide *;
    ghost var k := AddPlace(nodes, node.id);
    AddPlaceOrder(nodes, node.id);
    AscendingWith(nodes, k, node);
    result := Inserted(nodes, k, node);
    if head == null {
      AddPlaceFirst(nodes, node.id);
      Alone(node);
      return node, result;
    }
    if head.id > node.id {
      AddPlaceFirst(nodes, node.id);
      LinkBefore(head, node, nodes);
      return node, result;
    }
    ghost var j;
    var target;
    target, j := Seek(head, node.id, nodes);
    AddPlaceIs(nodes, node.id, j);
    LinkAfter(head, target, node, nodes, j);
    first := head;
  }

  lemma Alone(node: Node)
    requires node.next == null
    ensures Chain(node, Inserted([], 0, node))
  {
  }

  /** Whether the list holds a node with this id at the id's place. */
  predicate Holds(nodes: seq<Node>, id: nat) {
    var k := Place(nodes, id);
    k < |nodes| && nodes[k].id == id
  }

  /** The first node with an id, or null. */
  method Find(head: Node?, id: nat, ghost nodes: seq<Node>) returns (found: Node?)
    requires Chain(head, nodes) && Ascending(nodes)
    ensures found == if Holds(nodes, id) then nodes[Place(nodes, id)] else null
    ensures found == null <==> id !in Ids(nodes)
  {
    found := head;
    ghost var k := 0;
    while found != null && found.id < id
      invariant k <= |nodes| && found == NodeAt(nodes, k)
      invariant forall i | 0 <= i < k :: nodes[i].id < id
      decreases |nodes| - k
    {
      found := found.next;
      k := k + 1;
    }
    PlaceIs(nodes, id, k);
    if found != null && found.id == id {
      return found;
    }
    assert forall i | k <= i < |nodes| :: nodes[i].id > id by {
      if k < |nodes| {
        assert nodes[k].id > id;
      }
    }
    found := null;
  }

  lemma ChainWithout(head: Node?, nodes: seq<Node>, k: nat)
    requires 0 < k < |nodes| && ChainBut(head, nodes, k - 1) && nodes[k - 1].next == NodeAt(nodes, k + 1)
    ensures Chain(head, Without(nodes, k))
  {
    var result := Without(nodes, k);
    forall i | 0 <= i < |result|
      ensures result[i].next == NodeAt(result, i + 1)
    {
      if i < k {
        assert result[i] == nodes[i];
      } else {
        assert result[i] == nodes[i + 1];
      }
    }
  }

  method UnlinkAfter(head: Node?, target: Node, ghost nodes: seq<Node>, ghost k: nat)
    requires Chain(head, nodes) && k + 1 < |nodes| && target == nodes[k]
    modifies target
    ensures Chain(head, Without(nodes, k + 1))
  {
    target.next := target.next.next;
    ChainWithout(head, nodes, k + 1);
  }

  lemma TailIsChain(head: Node?, nodes: seq<Node>)
    requires Chain(head, nodes) && nodes != []
    ensures Chain(nodes[0].next, Without(nodes, 0)) && nodes[0].next == NodeAt(nodes, 1)
  {
    var result := Without(nodes, 0);
    assert forall i | 0 <= i < |result| :: result[i] == nodes[i + 1];
  }

  lemma SeekPlace(nodes: seq<Node>, id: nat, k: nat)
    requires Ascending(nodes) && k < |nodes| && nodes[0].id != id && (forall i | 1 <= i <= k :: nodes[i].id < id)
    requires k + 1 < |nodes| ==> nodes[k + 1].id >= id
    ensures nodes[0].id < id ==> Place(nodes, id) == k + 1
    ensures nodes[0].id > id ==> Place(nodes, id) == 0 && k == 0
    ensures Holds(nodes, id) <==> k + 1 < |nodes| && nodes[k + 1].id == id
  {
    if nodes[0].id < id {
      PlaceIs(nodes, id, k + 1);
    } else {
      assert forall i | 0 < i < |nodes| :: nodes[0].id <= nodes[i].id;
      assert nodes[0].id <= nodes[k].id;
    }
  }

  /** Takes the first node with an id out of the list, or nothing if there is none. */
  method Remove(head: Node?, id: nat, ghost nodes: seq<Node>)
    returns (first: Node?, removed: Node?, ghost result: seq<Node>)
    requires Chain(head, nodes) && Ascending(nodes)
    modifies nodes
    ensures removed == if Holds(nodes, id) then nodes[Place(nodes, id)] else null
    ensures result == if Holds(nodes, id) then Without(nodes, Place(nodes, id)) else nodes
    ensures Chain(first, result) && Ascending(result)
  {
    result := if Holds(nodes, id) then Without(nodes, Place(nodes, id)) else nodes;
    AscendingWithout(nodes, id);
    if head == null {
      return null, null, nodes;
    }
    if head.id == id {
      TailIsChain(head, nodes);
      return head.next, head, result;
    }
    hide Ascending, Place;
    ghost var k;
    var target;
    target, k := Seek(head, id, nodes);
    SeekPlace(nodes, id, k);
    first, removed := head, null;
    if target.next != null && target.next.id == id {
      removed := target.next;
      UnlinkAfter(head, target, nodes, k);
    }
  }

  lemma AscendingWithout(nodes: seq<Node>, id: nat)
    requires Ascending(nodes)
    ensures Ascending(if Holds(nodes, id) then Without(nodes, Place(nodes, id)) else nodes)
  {
  }

  lemma {:induction false} IdAtLeast(nodes: seq<Node>, i: nat)
    requires Ascending(nodes) && Distinct(nodes) && i < |nodes|
    ensures nodes[i].id >= i
  {
    if i > 0 {
      IdAtLeast(nodes, i - 1);
      assert nodes[i - 1].id < nodes[i].id;
    }
  }

  lemma {:induction false} IdAtMost(nodes: seq<Node>, i: nat)
    requires Ascending(nodes) && Distinct(nodes) && i < |nodes|
    ensures nodes[i].id <= 0x1_0000 - (|nodes| - i)
    decreases |nodes| - i
  {
    if i + 1 < |nodes| {
      IdAtMost(nodes, i + 1);
      assert nodes[i].id < nodes[i + 1].id;
    }
  }

  lemma Gap(nodes: seq<Node>, k: nat)
    requires Ascending(nodes) && Distinct(nodes) && k <= |nodes| && forall i | 0 <= i < k :: nodes[i].id == i
    requires k < |nodes| ==> nodes[k].id != k
    ensures k !in Ids(nodes) && forall n | 0 <= n < k :: n in Ids(nodes)
    ensures k < |nodes| ==> |nodes| < 0x1_0000
  {
    if k < |nodes| {
      IdAtLeast(nodes, k);
      IdAtMost(nodes, k);
      assert forall i | k < i < |nodes| :: nodes[k].id <= nodes[i].id;
    }
    assert forall i | 0 <= i < |nodes| :: nodes[i].id as nat != k;
    forall n | 0 <= n < k
      ensures n in Ids(nodes)
    {
      assert nodes[n].id as nat == n;
    }
  }

  /** The least id no node has, as long as one is left; for a list in order without repeats. */
  method NewId(head: Node?, ghost nodes: seq<Node>) returns (id: Id)
    requires Chain(head, nodes) && Ascending(nodes) && Distinct(nodes)
    ensures |nodes| < 0x1_0000 ==> id as nat !in Ids(nodes) && forall n | 0 <= n < id as nat :: n in Ids(nodes)
    ensures |nodes| >= 0x1_0000 ==> id == 0
  {
    hide Ascending, Distinct, Ids;
    id := 0;
    var target := head;
    ghost var k := 0;
    while target != null && id == target.id
      invariant k <= |nodes| && target == NodeAt(nodes, k) && id == k % 0x1_0000 && k <= 0x1_0000
      invariant forall i | 0 <= i < k :: nodes[i].id == i
      decreases |nodes| - k
    {
      IdAtLeast(nodes, k);
      id := (target.id as nat + 1) % 0x1_0000;
      target := target.next;
      k := k + 1;
    }
    Gap(nodes, k);
  }

  //////////////////////////////////////////////////////////////////////////////
  // The list as a map
  //////////////////////////////////////////////////////////////////////////////

  /** A map from ids to nodes that holds exactly the list's nodes. */
  ghost predicate Represents(nodes: seq<Node>, m: map<nat, Node>) {
    (forall i | 0 <= i < |nodes| :: nodes[i].id as nat in m && m[nodes[i].id] == nodes[i])
    && (forall id | id in m :: m[id] in nodes && m[id].id == id)
  }

  /** A list with a map to it repeats no id once it repeats no node. */
  lemma RepresentedDistinct(nodes: seq<Node>, m: map<nat, Node>)
    requires Represents(nodes, m) && NoRepeats(nodes)
    ensures Distinct(nodes)
  {
    forall i, j | 0 <= i < j < |nodes|
      ensures nodes[i].id != nodes[j].id
    {
      assert nodes[i] != nodes[j];
      assert m[nodes[i].id] == nodes[i] && m[nodes[j].id] == nodes[j];
    }
  }

  /** Finding is lookup. */
  lemma FindIsLookup(nodes: seq<Node>, m: map<nat, Node>, id: nat)
    requires Represents(nodes, m) && Ascending(nodes)
    ensures Holds(nodes, id) <==> id in m
    ensures Holds(nodes, id) ==> nodes[Place(nodes, id)] == m[id]
  {
    var k := Place(nodes, id);
    hide Place;
    if id in m {
      var i :| 0 <= i < |nodes| && nodes[i] == m[id];
      assert i >= k;
      assert i > k ==> nodes[k].id <= nodes[i].id;
    }
  }

  /** Adding a node with a new id is updating the map. */
  lemma AddIsUpdate(nodes: seq<Node>, m: map<nat, Node>, node: Node)
    requires Represents(nodes, m) && node.id as nat !in m
    ensures Represents(Inserted(nodes, AddPlace(nodes, node.id), node), m[node.id as nat := node])
  {
    var k := AddPlace(nodes, node.id);
    var result, next := Inserted(nodes, k, node), m[node.id as nat := node];
    hide AddPlace;
    forall i | 0 <= i < |result|
      ensures result[i].id as nat in next && next[result[i].id] == result[i]
    {
      assert result[i] == if i < k then nodes[i] else if i == k then node else nodes[i - 1];
    }
    forall id | id in next
      ensures next[id] in result && next[id].id == id
    {
      if id == node.id as nat {
        assert result[k] == node;
      } else {
        var i :| 0 <= i < |nodes| && nodes[i] == m[id];
        assert result[if i < k then i else i + 1] == nodes[i];
      }
    }
  }

  /** Removing a node is deleting its id. */
  lemma RemoveIsDelete(nodes: seq<Node>, m: map<nat, Node>, id: nat)
    requires Represents(nodes, m) && NoRepeats(nodes) && Holds(nodes, id)
    ensures Represents(Without(nodes, Place(nodes, id)), m - {id})
  {
    var k := Place(nodes, id);
    RepresentedDistinct(nodes, m);
    WithoutInMap(nodes, m, k, m - {id});
    MapInWithout(nodes, m, k, m - {id});
    hide Place, NoRepeats, Without;
  }

  lemma WithoutInMap(nodes: seq<Node>, m: map<nat, Node>, k: nat, next: map<nat, Node>)
    requires Represents(nodes, m) && Distinct(nodes) && k < |nodes| && next == m - {nodes[k].id as nat}
    ensures forall i | 0 <= i < |nodes| - 1 ::
      Without(nodes, k)[i].id as nat in next && next[Without(nodes, k)[i].id] == Without(nodes, k)[i]
  {
    var result := Without(nodes, k);
    assert forall i | 0 <= i < |result| :: result[i] == if i < k then nodes[i] else nodes[i + 1];
  }

  lemma MapInWithout(nodes: seq<Node>, m: map<nat, Node>, k: nat, next: map<nat, Node>)
    requires Represents(nodes, m) && k < |nodes| && next == m - {nodes[k].id as nat}
    ensures forall id | id in next :: next[id] in Without(nodes, k) && next[id].id == id
  {
    var result := Without(nodes, k);
    forall id | id in next
      ensures next[id] in result
    {
      var i :| 0 <= i < |nodes| && nodes[i] == m[id];
      assert result[if i < k then i else i - 1] == nodes[i];
    }
  }
}
