/** Small concrete datasets and what the selection transitions make of them. */
module Scenarios {
  import opened Wrappers
  import opened Graph
  import opened Selection

  const Root := Node("R", "root", 1)
  const Leaf := Node("L", "leaf", 2)
  const RootLeaf := Link("R", "L", 1)

  function RootLeafData(): Dataset
  {
    Dataset([Root, Leaf], [RootLeaf])
  }

  /** The neighbours of each node of the root-leaf dataset. */
  function RootLeafNeighbors(n: Node, links: seq<Link>): seq<string>
  {
    if n.id == "R" then ["L"] else if n.id == "L" then ["R"] else []
  }

  /** Clicking the root shows root and leaf and the one link; clicking it
      again clears the selection and keeps both nodes visible. */
  lemma RootLeafClicks()
    ensures
      var d := RootLeafData();
      var once := SelectNode(d, RootLeafNeighbors, Initial(d), Root);
      && once.selectedId == Some("R")
      && once.nodes == [Root, Leaf]
      && once.links == [RootLeaf]
    ensures
      var d := RootLeafData();
      var twice := SelectNode(d, RootLeafNeighbors, SelectNode(d, RootLeafNeighbors, Initial(d), Root), Root);
      && twice.selectedId == None
      && twice.nodes == [Root, Leaf]
      && twice.links == [RootLeaf]
  {
    var d := RootLeafData();
    var once := SelectNode(d, RootLeafNeighbors, Initial(d), Root);
    UpdateDataKeepsOrder(d, RootLeafNeighbors, Initial(d).(selectedId := Some("R")), Root);
    assert once.nodes == [Root, Leaf];
    assert once.links == [RootLeaf];
  }

  /** Clicking the leaf hides the leaf itself when the neighbours of a node
      leave the node out: updateData keeps roots and neighbours only, and
      never adds the selected node on its own account. The link to the leaf
      stays visible although its leaf end is no visible node. */
  lemma LeafClickHidesLeaf()
    ensures
      var d := RootLeafData();
      var v := SelectNode(d, RootLeafNeighbors, Initial(d), Leaf);
      && v.selectedId == Some("L")
      && Root in v.nodes && Leaf !in v.nodes
      && RootLeaf in v.links && RootLeaf.target !in Ids(v.nodes)
  {
    var d := RootLeafData();
    var v := SelectNode(d, RootLeafNeighbors, Initial(d), Leaf);
    IdsMembership(v.nodes, "L");
  }

  const A := Node("A", "a", 1)
  const B := Node("B", "b", 1)
  const C := Node("C", "c", 1)
  const AB := Link("A", "B", 1)
  const AC := Link("A", "C", 1)
  const BC := Link("B", "C", 1)

  function TriangleNeighbors(n: Node, links: seq<Link>): seq<string>
  {
    if n.id == "A" then ["B", "C"] else if n.id == "B" then ["A", "C"] else ["A", "B"]
  }

  /** Three fully linked roots: clicking one keeps every node visible but
      hides the link between the other two, so the view is not the reset one. */
  lemma TriangleClick()
    ensures
      var d := Dataset([A, B, C], [AB, AC, BC]);
      var v := SelectNode(d, TriangleNeighbors, Initial(d), A);
      && v.selectedId == Some("A")
      && A in v.nodes && B in v.nodes && C in v.nodes
      && AB in v.links && AC in v.links && BC !in v.links
  {
  }
}
