/** The selection state and the data diffing of the graph view: which node is
    selected, which nodes and links are visible, and how a click on a node
    recomputes them from the dataset.

    The source declares `links` with `const` and later reassigns it, which
    would throw in JavaScript; the model treats `links` as the mutable state
    the code evidently intends. */
module Selection {
  import opened Wrappers
  import opened Sequences
  import opened Graph

  /** The mutable state of the view: `selectedId` (None for `undefined`), and
      the visible `nodes` and `links` arrays. */
  datatype View = View(selectedId: Option<string>, nodes: seq<Node>, links: seq<Link>)

  /** At load time nothing is selected and copies of the whole dataset are visible. */
  function Initial(d: Dataset): View
  {
    View(None, d.baseNodes, d.baseLinks)
  }

  /** The visible nodes are distinct dataset nodes. */
  ghost predicate Inv(d: Dataset, v: View)
  {
    && UniqueIds(v.nodes)
    && forall n :: n in v.nodes ==> n in d.baseNodes
  }

  lemma InitialInv(d: Dataset)
    requires Valid(d)
    ensures Inv(d, Initial(d))
  {
  }

  /*-------------------------------- resetData --------------------------------*/

  /** The filter of line 92: `nodeIds.indexOf(node.id) === -1`. */
  function IdAbsent(ids: seq<string>): Node -> bool
  {
    (n: Node) => IndexOf(ids, n.id) == -1
  }

  /** resetData: every base node whose id is not visible is pushed, in
      dataset order, behind the visible nodes; the links become the whole
      link table. The ids are collected once, before any push. */
  function ResetData(d: Dataset, v: View): (r: View)
    ensures r.selectedId == v.selectedId
    ensures r.links == d.baseLinks
    ensures |v.nodes| <= |r.nodes| && r.nodes[..|v.nodes|] == v.nodes
    ensures forall n :: n in r.nodes[|v.nodes|..] ==> n in d.baseNodes && n.id !in Ids(v.nodes)
    ensures forall n :: n in d.baseNodes && n.id !in Ids(v.nodes) ==> n in r.nodes[|v.nodes|..]
    ensures forall b :: b in d.baseNodes ==> b.id in Ids(r.nodes)
  {
    var missing := Filter(d.baseNodes, IdAbsent(Ids(v.nodes)));
    ResetCoversIds(d, v.nodes, missing);
    v.(nodes := v.nodes + missing, links := d.baseLinks)
  }

  lemma ResetCoversIds(d: Dataset, nodes: seq<Node>, missing: seq<Node>)
    requires missing == Filter(d.baseNodes, IdAbsent(Ids(nodes)))
    ensures forall b :: b in d.baseNodes ==> b.id in Ids(nodes + missing)
  {
    forall b | b in d.baseNodes
      ensures b.id in Ids(nodes + missing)
    {
      if b.id in Ids(nodes) {
        IdsMembership(nodes, b.id);
        var n :| n in nodes && n.id == b.id;
        NodeIdInIds(nodes + missing, n);
      } else {
        assert IdAbsent(Ids(nodes))(b);
        NodeIdInIds(nodes + missing, b);
      }
    }
  }

  /** Nodes drawn from the dataset that cover every dataset id cover every
      dataset node. */
  lemma CoveredIdsCoverNodes(d: Dataset, nodes: seq<Node>)
    requires Valid(d)
    requires forall n :: n in nodes ==> n in d.baseNodes
    requires forall b :: b in d.baseNodes ==> b.id in Ids(nodes)
    ensures forall b :: b in d.baseNodes ==> b in nodes
  {
    forall b | b in d.baseNodes
      ensures b in nodes
    {
      IdsMembership(nodes, b.id);
      var n :| n in nodes && n.id == b.id;
      SameIdSameNode(d.baseNodes, n, b);
    }
  }

  /** After resetData every dataset node is visible, and the appended nodes
      keep the dataset's order. */
  lemma ResetDataRestoresAll(d: Dataset, v: View)
    requires Valid(d) && Inv(d, v)
    ensures forall b :: b in d.baseNodes ==> b in ResetData(d, v).nodes
    ensures IsSubsequence(ResetData(d, v).nodes[|v.nodes|..], d.baseNodes)
  {
    var r := ResetData(d, v);
    var missing := Filter(d.baseNodes, IdAbsent(Ids(v.nodes)));
    assert r.nodes == v.nodes + missing;
    assert r.nodes[|v.nodes|..] == missing;
    CoveredIdsCoverNodes(d, r.nodes);
    FilterIsSubsequence(d.baseNodes, IdAbsent(Ids(v.nodes)));
  }

  lemma ResetDataPreservesInv(d: Dataset, v: View)
    requires Valid(d) && Inv(d, v)
    ensures Inv(d, ResetData(d, v))
  {
    var missing := Filter(d.baseNodes, IdAbsent(Ids(v.nodes)));
    assert ResetData(d, v).nodes == v.nodes + missing;
    UniqueIdsNoDuplicates(v.nodes);
    UniqueIdsNoDuplicates(d.baseNodes);
    FilterNoDuplicates(d.baseNodes, IdAbsent(Ids(v.nodes)));
    forall n | n in v.nodes
      ensures n !in missing
    {
      NodeIdInIds(v.nodes, n);
    }
    ConcatNoDuplicates(v.nodes, missing);
    UniqueIdsFromTable(v.nodes + missing, d.baseNodes);
  }

  /*-------------------------------- updateData -------------------------------*/

  /** The filter of line 103: a neighbour of the selection, or a root. */
  function Wanted(neighbors: seq<string>): Node -> bool
  {
    (n: Node) => IndexOf(neighbors, n.id) > -1 || n.level == 1
  }

  /** `newNodes`: the dataset nodes that are roots or neighbours, in dataset order. */
  function NewNodes(d: Dataset, neighbors: seq<string>): (r: seq<Node>)
    ensures forall n :: n in r ==> n in d.baseNodes && (n.level == 1 || n.id in neighbors)
    ensures forall n :: n in d.baseNodes && (n.level == 1 || n.id in neighbors) ==> n in r
  {
    Filter(d.baseNodes, Wanted(neighbors))
  }

  /** The `diff` object of lines 105-108. */
  datatype NodeDiff = NodeDiff(removed: seq<Node>, added: seq<Node>)

  /** What leaves and what joins the visible nodes: removed are the visible
      nodes no longer wanted, added the wanted nodes not yet visible. */
  function Diff(nodes: seq<Node>, newNodes: seq<Node>): (diff: NodeDiff)
    ensures forall n :: n in diff.removed <==> n in nodes && n !in newNodes
    ensures forall n :: n in diff.added <==> n in newNodes && n !in nodes
    ensures forall n :: n in diff.removed ==> n !in diff.added
  {
    NodeDiff(Filter(nodes, Absent(newNodes)), Filter(newNodes, Absent(nodes)))
  }

  /** The filter of line 113: the link has the node with this id as an endpoint. */
  function Touches(id: string): Link -> bool
  {
    (l: Link) => l.target == id || l.source == id
  }

  /** updateData: the removed nodes are spliced out, the added ones pushed,
      and the links narrowed to those touching the selected node. */
  function UpdateData(d: Dataset, getNeighbors: NeighborsFn, v: View, selected: Node): (r: View)
    ensures r.selectedId == v.selectedId
    ensures forall n :: n in r.nodes <==>
              n in d.baseNodes && (n.level == 1 || n.id in getNeighbors(selected, d.baseLinks))
    ensures forall l :: l in r.links <==>
              l in d.baseLinks && (l.source == selected.id || l.target == selected.id)
  {
    var newNodes := NewNodes(d, getNeighbors(selected, d.baseLinks));
    var diff := Diff(v.nodes, newNodes);
    SpliceOutSurvivors(v.nodes, newNodes);
    v.(nodes := SpliceOutEach(v.nodes, diff.removed) + diff.added,
       links := Filter(d.baseLinks, Touches(selected.id)))
  }

  /** The visible nodes after updateData are the surviving nodes in their
      old relative order, followed by the added nodes in dataset order; the
      links keep the dataset's order. */
  lemma UpdateDataKeepsOrder(d: Dataset, getNeighbors: NeighborsFn, v: View, selected: Node)
    ensures
      var newNodes := NewNodes(d, getNeighbors(selected, d.baseLinks));
      UpdateData(d, getNeighbors, v, selected).nodes
        == Filter(v.nodes, Present(newNodes)) + Diff(v.nodes, newNodes).added
    ensures
      var newNodes := NewNodes(d, getNeighbors(selected, d.baseLinks));
      && IsSubsequence(Filter(v.nodes, Present(newNodes)), v.nodes)
      && IsSubsequence(Diff(v.nodes, newNodes).added, d.baseNodes)
    ensures IsSubsequence(UpdateData(d, getNeighbors, v, selected).links, d.baseLinks)
    ensures forall l :: multiset(UpdateData(d, getNeighbors, v, selected).links)[l]
              == if l.source == selected.id || l.target == selected.id then multiset(d.baseLinks)[l] else 0
  {
    var neighbors := getNeighbors(selected, d.baseLinks);
    var newNodes := NewNodes(d, neighbors);
    SpliceOutSurvivors(v.nodes, newNodes);
    FilterIsSubsequence(v.nodes, Present(newNodes));
    FilterIsSubsequence(newNodes, Absent(v.nodes));
    FilterIsSubsequence(d.baseNodes, Wanted(neighbors));
    SubsequenceTransitive(Diff(v.nodes, newNodes).added, newNodes, d.baseNodes);
    FilterIsSubsequence(d.baseLinks, Touches(selected.id));
    forall l {
      FilterCount(d.baseLinks, Touches(selected.id), l);
    }
  }

  /** updateData narrows nodes and links independently, so a visible link
      can have an end that is not a visible node. Both ends are visible when
      every link end names a dataset node and getNeighbors lists both ends of
      every link touching the selected node (its own id included). */
  lemma UpdateDataLinkEndsVisible(d: Dataset, getNeighbors: NeighborsFn, v: View, s: Node)
    requires forall l :: l in d.baseLinks ==> l.source in Ids(d.baseNodes) && l.target in Ids(d.baseNodes)
    requires forall l :: l in d.baseLinks && (l.source == s.id || l.target == s.id) ==>
               l.source in getNeighbors(s, d.baseLinks) && l.target in getNeighbors(s, d.baseLinks)
    ensures
      var r := UpdateData(d, getNeighbors, v, s);
      forall l :: l in r.links ==> l.source in Ids(r.nodes) && l.target in Ids(r.nodes)
  {
    var r := UpdateData(d, getNeighbors, v, s);
    forall l | l in r.links
      ensures l.source in Ids(r.nodes) && l.target in Ids(r.nodes)
    {
      IdsMembership(d.baseNodes, l.source);
      var a :| a in d.baseNodes && a.id == l.source;
      NodeIdInIds(r.nodes, a);
      IdsMembership(d.baseNodes, l.target);
      var b :| b in d.baseNodes && b.id == l.target;
      NodeIdInIds(r.nodes, b);
    }
  }

  lemma UpdateDataPreservesInv(d: Dataset, getNeighbors: NeighborsFn, v: View, selected: Node)
    requires Valid(d) && Inv(d, v)
    ensures Inv(d, UpdateData(d, getNeighbors, v, selected))
  {
    var newNodes := NewNodes(d, getNeighbors(selected, d.baseLinks));
    var survivors := Filter(v.nodes, Present(newNodes));
    var added := Diff(v.nodes, newNodes).added;
    UpdateDataKeepsOrder(d, getNeighbors, v, selected);
    UniqueIdsNoDuplicates(v.nodes);
    UniqueIdsNoDuplicates(d.baseNodes);
    FilterNoDuplicates(v.nodes, Present(newNodes));
    FilterNoDuplicates(d.baseNodes, Wanted(getNeighbors(selected, d.baseLinks)));
    FilterNoDuplicates(newNodes, Absent(v.nodes));
    ConcatNoDuplicates(survivors, added);
    UniqueIdsFromTable(survivors + added, d.baseNodes);
  }

  /*-------------------------------- selectNode -------------------------------*/

  /** selectNode's state transition: clicking the selected node clears the
      selection and resets the data; clicking any other node selects it and
      narrows the data to it. */
  function SelectNode(d: Dataset, getNeighbors: NeighborsFn, v: View, clicked: Node): (r: View)
    ensures v.selectedId == Some(clicked.id) ==>
              && r.selectedId == None
              && r.links == d.baseLinks
              && v.nodes <= r.nodes
              && forall b :: b in d.baseNodes ==> b.id in Ids(r.nodes)
    ensures v.selectedId != Some(clicked.id) ==>
              && r.selectedId == Some(clicked.id)
              && (forall n :: n in r.nodes <==>
                    n in d.baseNodes && (n.level == 1 || n.id in getNeighbors(clicked, d.baseLinks)))
              && (forall l :: l in r.links <==>
                    l in d.baseLinks && (l.source == clicked.id || l.target == clicked.id))
  {
    if v.selectedId == Some(clicked.id) then
      ResetData(d, v.(selectedId := None))
    else
      UpdateData(d, getNeighbors, v.(selectedId := Some(clicked.id)), clicked)
  }

  lemma SelectNodePreservesInv(d: Dataset, getNeighbors: NeighborsFn, v: View, clicked: Node)
    requires Valid(d) && Inv(d, v)
    ensures Inv(d, SelectNode(d, getNeighbors, v, clicked))
  {
    if v.selectedId == Some(clicked.id) {
      ResetDataPreservesInv(d, v.(selectedId := None));
    } else {
      UpdateDataPreservesInv(d, getNeighbors, v.(selectedId := Some(clicked.id)), clicked);
    }
  }

  /** Roots stay visible whatever is clicked. */
  lemma RootsAlwaysVisible(d: Dataset, getNeighbors: NeighborsFn, v: View, clicked: Node)
    requires Valid(d) && Inv(d, v)
    ensures forall b :: b in d.baseNodes && b.level == 1 ==> b in SelectNode(d, getNeighbors, v, clicked).nodes
  {
    if v.selectedId == Some(clicked.id) {
      ResetDataRestoresAll(d, v.(selectedId := None));
    }
  }

  /** Clicking a node that is not selected twice in a row clears the
      selection and shows the whole dataset again, from any prior view. */
  lemma ClickTwiceResets(d: Dataset, getNeighbors: NeighborsFn, v: View, clicked: Node)
    requires Valid(d)
    requires v.selectedId != Some(clicked.id)
    ensures
      var r := SelectNode(d, getNeighbors, SelectNode(d, getNeighbors, v, clicked), clicked);
      && r.selectedId == None
      && r.links == d.baseLinks
      && forall b :: b in d.baseNodes ==> b in r.nodes
  {
    var once := SelectNode(d, getNeighbors, v, clicked);
    var r := SelectNode(d, getNeighbors, once, clicked);
    var cleared := once.(selectedId := None);
    assert r == ResetData(d, cleared);
    var missing := Filter(d.baseNodes, IdAbsent(Ids(cleared.nodes)));
    assert r.nodes == cleared.nodes + missing;
    CoveredIdsCoverNodes(d, r.nodes);
  }

  /** The view a selection of node s calls for. */
  ghost predicate FocusedOn(d: Dataset, getNeighbors: NeighborsFn, v: View, s: Node)
  {
    && v.selectedId == Some(s.id)
    && v.links == Filter(d.baseLinks, Touches(s.id))
    && forall n :: n in v.nodes <==>
         n in d.baseNodes && (n.level == 1 || n.id in getNeighbors(s, d.baseLinks))
  }

  /** The visible data is determined by the selection alone: the whole
      dataset when nothing is selected, otherwise what the selected dataset
      node calls for. */
  ghost predicate Consistent(d: Dataset, getNeighbors: NeighborsFn, v: View)
  {
    match v.selectedId
    case None => v.links == d.baseLinks && forall b :: b in d.baseNodes ==> b in v.nodes
    case Some(id) => exists s :: s in d.baseNodes && s.id == id && FocusedOn(d, getNeighbors, v, s)
  }

  lemma InitialConsistent(d: Dataset, getNeighbors: NeighborsFn)
    ensures Consistent(d, getNeighbors, Initial(d))
  {
  }

  /** Every click on a dataset node leaves a consistent view, whatever the
      visible data was before: the new view is recomputed from the dataset. */
  lemma SelectNodeConsistent(d: Dataset, getNeighbors: NeighborsFn, v: View, clicked: Node)
    requires Valid(d) && Inv(d, v)
    requires clicked in d.baseNodes
    ensures Consistent(d, getNeighbors, SelectNode(d, getNeighbors, v, clicked))
  {
    var r := SelectNode(d, getNeighbors, v, clicked);
    if v.selectedId == Some(clicked.id) {
      ResetDataRestoresAll(d, v.(selectedId := None));
    } else {
      assert FocusedOn(d, getNeighbors, r, clicked);
    }
  }
}
