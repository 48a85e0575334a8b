# Force-directed graph: selection and data diffing

A Dafny model of the sequential core of an interactive node-link graph
written with d3. The page shows circles (nodes) and lines (links) laid out by
a force simulation. Clicking a node selects it: the visible data narrows to
the root nodes (level 1) and the node's neighbours, and the links narrow to
those touching the node. Clicking the selected node again clears the
selection and restores the whole dataset. The node colours then follow the
selection.

What is modelled:

- **Dataset** (`graph.dfy`, module `Graph`): nodes `{id, label, level}` and
  links `{source, target, strength}` by id, the immutable `baseNodes` and
  `baseLinks` tables, and the assumption that node ids are unique. Under that
  assumption, comparing nodes as values (what the model does) agrees with the
  source's comparison of node objects by reference.
- **Array semantics** (`sequences.dfy`, module `Sequences`): JavaScript's
  `indexOf` (first index or -1), `filter`, and `splice(i, 1)`, including its
  behaviour for `i = -1`, which removes the last element.
- **View state** (`selection.dfy`, module `Selection`): the state is
  `selectedId` (None for `undefined`), the visible `nodes` and the visible
  `links`. The transitions are `resetData`, `updateData` (the `newNodes`
  filter, the `removed`/`added` diff, splice-out and push) and the state
  change of `selectNode`. All of them are pure functions from view to view.
  `getNeighbors` is imported but its source is not part of this model. It is
  a function parameter, and nothing is assumed about it, in particular not
  whether it lists the node's own id.
- **Data join keys** (`data_join.dfy`, module `DataJoin`): nodes keyed by
  `id`, links by `target.id + source.id`, and the enter/update/exit split
  those keys imply.
- **Node colour** (`node_color.dfy`, module `NodeColor`): `getNodeColor` as
  written, and the inclusion test it evidently means.
- **Scenarios** (`scenarios.dfy`): small concrete datasets put through
  `selectNode`.

Behaviour of the code worth knowing, each stated by a member below:

- `resetData` restores every dataset node, not only the roots
  (`ResetDataRestoresAll`).
- A focused view contains the selected node only when it is a root or
  `getNeighbors` lists it (`Scenarios.LeafClickHidesLeaf`).
- `updateData` narrows nodes and links independently: a link touching the
  selected node stays visible even when one of its ends, the selected node
  included, is not a visible node. With the root-leaf dataset, and a
  `getNeighbors` that leaves out the leaf's own id, clicking the leaf shows
  the link to the leaf but not the leaf (`Scenarios.LeafClickHidesLeaf`).
  Both ends of every visible link are visible when every link end is a dataset node and `getNeighbors` lists
  both ends of every link touching the selected node
  (`Selection.UpdateDataLinkEndsVisible`).
- Clicking one of three linked roots keeps all three but hides the link
  between the other two (`Scenarios.TriangleClick`).
- The link key is the target id followed by the source id (code/index.js:118).
- The colour choice tests the truthiness of an index (see Findings).

The source declares `links` with `const` and reassigns it, and it imports the
link table as `baseLink` while using `baseLinks`. The model treats `links` as
mutable state and `baseLinks` as the link table, as the code evidently intends.

## Model

| member | source | states |
|---|---|---|
| Sequences.IndexOf | code/utils/getNodeColor.js:2 | `indexOf` returns -1 exactly when the element is absent; otherwise it returns an index holding the element with no earlier occurrence |
| Sequences.FilterCount | code/index.js:113 | `filter` keeps every copy of an element it accepts and no copy of one it rejects |
| Sequences.SpliceOutSurvivors | code/index.js:106-110 | splicing out each removed node at its `indexOf` position leaves exactly the nodes that are still wanted, in their old relative order; `indexOf` always finds the node, so the -1 fallback never removes a wrong element |
| Selection.InitialInv | code/index.js:11 | the initial copy of the node table has unique ids and holds only dataset nodes |
| Selection.ResetData | code/index.js:88-98 | the visible nodes are kept as a prefix; the appended nodes are exactly the dataset nodes whose id was not visible; the links become the whole link table; every dataset id becomes visible; the selection is untouched |
| Selection.ResetDataRestoresAll | code/index.js:88-95 | when the visible nodes are distinct dataset nodes, every dataset node is visible after the reset, and the appended nodes follow dataset order |
| Selection.ResetDataPreservesInv | code/index.js:88-95 | the reset keeps the visible nodes distinct (no two share an id) and drawn from the dataset |
| Selection.NewNodes | code/index.js:102-103 | `newNodes` holds exactly the dataset nodes that are level 1 or whose id is among the neighbours |
| Selection.Diff | code/index.js:105-108 | `removed` holds exactly the visible nodes not in `newNodes`; `added` holds exactly the `newNodes` not visible; no node is in both |
| Selection.UpdateData | code/index.js:101-114 | after the update a node is visible iff it is a dataset node that is level 1 or a neighbour of the selected node, whatever was visible before; a link is visible iff it is a dataset link touching the selected node |
| Selection.UpdateDataKeepsOrder | code/index.js:105-113 | the new visible nodes are the surviving nodes in their old order followed by the added nodes in dataset order; the visible links are in dataset order and hold every copy of a touching link that the link table holds, and no other link |
| Selection.UpdateDataLinkEndsVisible | code/index.js:102-113 | when every link end is a dataset id and `getNeighbors` lists both ends of every link touching the selected node, both ends of every visible link are visible node ids |
| Selection.UpdateDataPreservesInv | code/index.js:101-111 | the update keeps the visible nodes distinct (no two share an id) and drawn from the dataset |
| Selection.SelectNode | code/index.js:67-76 | clicking the selected node clears the selection, restores every dataset id and all links, and keeps the visible nodes as a prefix; clicking any other node selects it and shows exactly the roots and its neighbours and the links touching it |
| Selection.SelectNodePreservesInv | code/index.js:67-76 | a click keeps the visible nodes distinct and drawn from the dataset |
| Selection.RootsAlwaysVisible | code/index.js:88-103 | every level-1 dataset node is visible after any click |
| Selection.ClickTwiceResets | code/index.js:67-97 | from any view where a node is not selected, clicking it twice ends with no selection, every dataset node visible and all links visible |
| Selection.InitialConsistent | code/index.js:11-31 | the initial view, with nothing selected, shows the whole dataset |
| Selection.SelectNodeConsistent | code/index.js:67-113 | after any click on a dataset node the visible data is determined by the selection alone: the whole dataset when nothing is selected, otherwise the roots, the neighbours and the touching links of the selected node |
| DataJoin.Bind | code/index.js:118-127 | keyed join: entering data has a key unseen before; updating data has a key seen before; together they are the new data exactly; exiting data is exactly the old data whose key is gone; no key both enters and exits |
| DataJoin.NodeJoinIsDiff | code/index.js:105-127 | keying circles by node id makes the entering nodes exactly `added` and the exiting nodes exactly `removed` of updateData |
| DataJoin.NodeJoinEnter | code/index.js:107-126 | the nodes entering the join are exactly `added`, in order |
| DataJoin.NodeJoinExit | code/index.js:106-126 | the nodes exiting the join are exactly `removed`, in order |
| DataJoin.LinkKeyCollision | code/index.js:118 | the link key concatenates ids with no separator, so two different links can share a key; replacing one such link by the other then neither enters nor exits a line, the old line is rebound |
| NodeColor.GetNodeColor | code/utils/getNodeColor.js:1-6 | level-1 nodes get blue or red, other levels green or gray; the muted colour goes exactly to the node whose id is the first neighbour; an absent id or a later index gets the highlight colour |
| NodeColor.GetNodeColorDependsOnLevelAndIndex | code/utils/getNodeColor.js:1-5 | the colour depends only on the level and the first index of the id among the neighbours |
| NodeColor.MembershipColor | code/utils/getNodeColor.js:2-5 | the intended colour: highlight exactly when the id is among the neighbours |
| NodeColor.ColorDisagreement | code/utils/getNodeColor.js:2 | the colour as written and the intended colour differ exactly when the id is absent or is the first neighbour |
| NodeColor.FirstNeighbourMuted | code/utils/getNodeColor.js:2-5 | a root that is its own first neighbour is coloured red, where the inclusion test gives blue |
| NodeColor.AbsentNodeHighlighted | code/utils/getNodeColor.js:2-5 | a leaf that is no neighbour is coloured green, where the inclusion test gives gray |
| Scenarios.RootLeafClicks | code/index.js:67-113 | with a root R linked to a leaf L, clicking R shows both nodes and the link; clicking R again shows them with nothing selected |
| Scenarios.LeafClickHidesLeaf | code/index.js:101-113 | clicking a leaf whose neighbour list does not include itself hides the leaf, while the link to it stays visible with its leaf end missing from the visible ids |
| Scenarios.TriangleClick | code/index.js:101-113 | clicking one of three linked roots keeps all three but hides the link between the other two |

## Left out

- The d3 force simulation (code/index.js:34-43, 156-171): library physics on floating-point positions, velocities and alpha. `updateSimulation` only hands the arrays to it.
- The drag handlers (code/index.js:45-58): they copy pointer coordinates into `fx`/`fy` and warm the simulation. This is float and library state only.
- DOM and SVG attribute writes (code/index.js:14-27, 81-83, 119-153 apart from the keys), window sizing and the initial render call (line 175).
- `getNeighbors`, `getLinkColor`, `getTextColor` and `isNeighborLink` are not part of this model. `getNeighbors` is a function parameter; the other three only choose attribute values.
- The re-colouring pass at the end of `selectNode` (code/index.js:78-83) is a DOM write. It is not part of the state transition.
- Links hold their end ids as strings. The code reads `link.source.id` and `link.target.id` (code/index.js:113, 118), which works because d3's link force replaces the ids in the shared link objects with node objects. The model compares the ids directly, which agrees with the code once the first render has resolved the links.
- Link strength is an integer: it only feeds the physics.
- The node field `label` is named `caption`, because `label` is a Dafny keyword.
- DataJoin.Bind: it models the join as a set difference on keys. d3's handling of two data items with the same key in one array is not modelled. Node keys are unique under the dataset assumption; link keys can collide (DataJoin.LinkKeyCollision).

## Findings

| source | as written | input that shows it | evidently intended | confidence | as-written member | corrected member |
|---|---|---|---|---|---|---|
| code/utils/getNodeColor.js:2 | `if (neighbors.indexOf(node.id))` tests the truthiness of the index, so only index 0 counts as "not a neighbour" | node `{id: "a", level: 1}` with neighbours `["a"]` is coloured red (NodeColor.FirstNeighbourMuted); node `{id: "b", level: 2}` with neighbours `["a"]` is coloured green (NodeColor.AbsentNodeHighlighted); in general they differ exactly as NodeColor.ColorDisagreement states | highlight exactly the neighbours: `neighbors.indexOf(node.id) !== -1` | high (not executed) | NodeColor.GetNodeColor | NodeColor.MembershipColor |
