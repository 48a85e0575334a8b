/** The keyed data join of updateGraph: each visible node and link is bound
    to its scene element by a key, and the join splits the new data into
    entering and updating elements and the old data into exiting ones. Only
    the keys and the set difference they imply are modelled, not the scene. */
module DataJoin {
  import opened Sequences
  import opened Graph
  import opened Selection

  /** The key of a node's circle and text elements. */
  function NodeKey(n: Node): string
  {
    n.id
  }

  /** The key of a link's line element: target id followed by source id,
      with no separator. */
  function LinkKey(l: Link): string
  {
    l.target + l.source
  }

  function KeyAbsent<T>(keys: seq<string>, key: T -> string): T -> bool
  {
    x => key(x) !in keys
  }

  function KeyPresent<T>(keys: seq<string>, key: T -> string): T -> bool
  {
    x => key(x) in keys
  }

  /** The three selections of a data join. */
  datatype Join<T> = Join(enter: seq<T>, update: seq<T>, exit: seq<T>)

  /** Binding the data `after` a transition to the elements of the data
      `before` it, by key: data whose key is new enters, data whose key was
      bound updates its element, and data whose key is gone exits. */
  function Bind<T>(before: seq<T>, after: seq<T>, key: T -> string): (j: Join<T>)
    ensures forall x :: x in j.enter ==> x in after && key(x) !in Map(before, key)
    ensures forall x :: x in j.update ==> x in after && key(x) in Map(before, key)
    ensures multiset(j.enter) + multiset(j.update) == multiset(after)
    ensures forall x :: x in j.exit ==> x in before && key(x) !in Map(after, key)
    ensures forall x :: x in before && key(x) !in Map(after, key) ==> x in j.exit
    ensures forall x, y :: x in j.enter && y in j.exit ==> key(x) != key(y)
  {
    var beforeKeys, afterKeys := Map(before, key), Map(after, key);
    FilterPartition(after, KeyAbsent(beforeKeys, key), KeyPresent(beforeKeys, key));
    MapMembers(after, key);
    Join(Filter(after, KeyAbsent(beforeKeys, key)),
         Filter(after, KeyPresent(beforeKeys, key)),
         Filter(before, KeyAbsent(afterKeys, key)))
  }

  /** Keying nodes by id makes the join of an updateData transition agree
      with the identity-based diff: the entering circles are exactly the
      added nodes and the exiting ones exactly the removed nodes, in order. */
  lemma NodeJoinIsDiff(d: Dataset, getNeighbors: NeighborsFn, v: View, selected: Node)
    requires Valid(d) && Inv(d, v)
    ensures
      var newNodes := NewNodes(d, getNeighbors(selected, d.baseLinks));
      var j := Bind(v.nodes, UpdateData(d, getNeighbors, v, selected).nodes, NodeKey);
      && j.enter == Diff(v.nodes, newNodes).added
      && j.exit == Diff(v.nodes, newNodes).removed
  {
    NodeJoinEnter(d, getNeighbors, v, selected);
    NodeJoinExit(d, getNeighbors, v, selected);
  }

  lemma NodeJoinEnter(d: Dataset, getNeighbors: NeighborsFn, v: View, selected: Node)
    requires Valid(d) && Inv(d, v)
    ensures
      var newNodes := NewNodes(d, getNeighbors(selected, d.baseLinks));
      var after := UpdateData(d, getNeighbors, v, selected).nodes;
      Filter(after, KeyAbsent(Map(v.nodes, NodeKey), NodeKey)) == Diff(v.nodes, newNodes).added
  {
    var newNodes := NewNodes(d, getNeighbors(selected, d.baseLinks));
    UpdateDataKeepsOrder(d, getNeighbors, v, selected);
    EnterOfAppended(v.nodes, Filter(v.nodes, Present(newNodes)), Diff(v.nodes, newNodes).added, d.baseNodes);
  }

  /** Nodes drawn from `before` followed by dataset nodes not in `before`:
      keyed by id against `before`, exactly the appended nodes enter. */
  lemma EnterOfAppended(before: seq<Node>, kept: seq<Node>, added: seq<Node>, table: seq<Node>)
    requires UniqueIds(table)
    requires forall x :: x in before ==> x in table
    requires forall x :: x in kept ==> x in before
    requires forall x :: x in added ==> x in table && x !in before
    ensures Filter(kept + added, KeyAbsent(Map(before, NodeKey), NodeKey)) == added
  {
    var entering := KeyAbsent(Map(before, NodeKey), NodeKey);
    FilterConcat(kept, added, entering);
    MapMembers(before, NodeKey);
    FilterKeepsNone(kept, entering);
    forall x | x in added
      ensures entering(x)
    {
      MapMembership(before, NodeKey, NodeKey(x));
    }
    FilterKeepsAll(added, entering);
    assert [] + added == added;
  }

  lemma NodeJoinExit(d: Dataset, getNeighbors: NeighborsFn, v: View, selected: Node)
    requires Valid(d) && Inv(d, v)
    ensures
      var newNodes := NewNodes(d, getNeighbors(selected, d.baseLinks));
      var after := UpdateData(d, getNeighbors, v, selected).nodes;
      Filter(v.nodes, KeyAbsent(Map(after, NodeKey), NodeKey)) == Diff(v.nodes, newNodes).removed
  {
    var newNodes := NewNodes(d, getNeighbors(selected, d.baseLinks));
    var after := UpdateData(d, getNeighbors, v, selected).nodes;
    var afterKeys := Map(after, NodeKey);
    MapMembers(after, NodeKey);
    forall x | x in v.nodes
      ensures KeyAbsent(afterKeys, NodeKey)(x) <==> Absent(newNodes)(x)
    {
      if NodeKey(x) in afterKeys {
        MapMembership(after, NodeKey, NodeKey(x));
        var y :| y in after && NodeKey(y) == NodeKey(x);
        SameIdSameNode(d.baseNodes, x, y);
      }
    }
    FilterCongruent(v.nodes, KeyAbsent(afterKeys, NodeKey), Absent(newNodes));
  }

  /** Link keys are not injective: two different links can share a key.
      Across a transition, an old link's line element whose key a different
      new link carries is then rebound to that new link instead of exiting,
      and the new link does not enter. */
  lemma LinkKeyCollision()
    ensures Link("c", "ab", 1) != Link("bc", "a", 1)
    ensures LinkKey(Link("c", "ab", 1)) == LinkKey(Link("bc", "a", 1))
    ensures
      var j := Bind([Link("c", "ab", 1)], [Link("bc", "a", 1)], LinkKey);
      j.enter == [] && j.update == [Link("bc", "a", 1)] && j.exit == []
  {
  }
}
