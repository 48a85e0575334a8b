/** The graph dataset: nodes and links as the data files describe them, and
    the uniqueness of node ids that the rest of the model relies on. */
module Graph {
  import opened Sequences

  /** A node of the dataset; `caption` is its `label` (a reserved word in
      Dafny). The simulation's position and velocity fields
      are not part of the model. */
  datatype Node = Node(id: string, caption: string, level: int)

  /** A link between two nodes, by id. The force strength only feeds the
      physics, so an integer stands in for it. */
  datatype Link = Link(source: string, target: string, strength: int)

  /** The immutable tables every view is computed from. */
  datatype Dataset = Dataset(baseNodes: seq<Node>, baseLinks: seq<Link>)

  /** `getNeighbors(node, links)`: an imported helper whose definition is not
      part of this model; it is passed around as a parameter. */
  type NeighborsFn = (Node, seq<Link>) -> seq<string>

  function NodeId(n: Node): string
  {
    n.id
  }

  /** `nodes.map(node => node.id)`. */
  function Ids(nodes: seq<Node>): (ids: seq<string>)
    ensures |ids| == |nodes|
    ensures forall i :: 0 <= i < |nodes| ==> ids[i] == nodes[i].id
  {
    Map(nodes, NodeId)
  }

  ghost predicate UniqueIds(nodes: seq<Node>)
  {
    forall i, j :: 0 <= i < j < |nodes| ==> nodes[i].id != nodes[j].id
  }

  /** Node ids identify nodes: the assumption under which comparing node
      objects by reference and comparing them by id agree. */
  ghost predicate Valid(d: Dataset)
  {
    UniqueIds(d.baseNodes)
  }

  lemma IdsMembership(nodes: seq<Node>, x: string)
    ensures x in Ids(nodes) <==> exists n :: n in nodes && n.id == x
  {
    MapMembership(nodes, NodeId, x);
  }

  lemma NodeIdInIds(nodes: seq<Node>, n: Node)
    requires n in nodes
    ensures n.id in Ids(nodes)
  {
    IdsMembership(nodes, n.id);
  }

  /** Within a table with unique ids, equal ids mean equal nodes. */
  lemma SameIdSameNode(nodes: seq<Node>, a: Node, b: Node)
    requires UniqueIds(nodes)
    requires a in nodes && b in nodes && a.id == b.id
    ensures a == b
  {
    var i :| 0 <= i < |nodes| && nodes[i] == a;
    var j :| 0 <= j < |nodes| && nodes[j] == b;
  }

  lemma UniqueIdsNoDuplicates(nodes: seq<Node>)
    requires UniqueIds(nodes)
    ensures NoDuplicates(nodes)
  {
    forall i, j | 0 <= i < j < |nodes|
      ensures nodes[i] != nodes[j]
    {
      assert nodes[i].id != nodes[j].id;
    }
  }

  /** Distinct nodes drawn from a table with unique ids have unique ids. */
  lemma UniqueIdsFromTable(nodes: seq<Node>, table: seq<Node>)
    requires UniqueIds(table)
    requires NoDuplicates(nodes)
    requires forall n :: n in nodes ==> n in table
    ensures UniqueIds(nodes)
  {
    forall i, j | 0 <= i < j < |nodes|
      ensures nodes[i].id != nodes[j].id
    {
      if nodes[i].id == nodes[j].id {
        assert nodes[i] in nodes && nodes[j] in nodes;
        SameIdSameNode(table, nodes[i], nodes[j]);
        assert false;
      }
    }
  }
}
