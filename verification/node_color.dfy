/** The fill colour of a node once a node has been clicked: a highlight colour
    or a muted colour, each chosen by whether the node is a root (level 1).
    `GetNodeColor` is the function as written, which branches on the
    truthiness of an `indexOf` result; `MembershipColor` is the inclusion test
    the highlighting evidently means. */
module NodeColor {
  import opened Sequences
  import opened Graph

  /** The colour a node gets when it is highlighted. */
  function HighlightColor(level: int): string
  {
    if level == 1 then "blue" else "green"
  }

  /** The colour a node gets when it is not highlighted. */
  function MutedColor(level: int): string
  {
    if level == 1 then "red" else "gray"
  }

  /** JavaScript truthiness of a number: everything but 0 (and NaN, which
      indexOf never returns) is truthy. */
  predicate Truthy(n: int)
  {
    n != 0
  }

  /** `getNodeColor(node, neighbors)` as written: the node is highlighted
      unless `neighbors.indexOf(node.id)` is 0, so an absent id (-1) is
      highlighted and only the first neighbour is muted. */
  function GetNodeColor(node: Node, neighbors: seq<string>): (c: string)
    ensures node.level == 1 ==> c == "blue" || c == "red"
    ensures node.level != 1 ==> c == "green" || c == "gray"
    ensures c == MutedColor(node.level) <==> |neighbors| > 0 && neighbors[0] == node.id
    ensures c == HighlightColor(node.level) <==> node.id !in neighbors || neighbors[0] != node.id
  {
    if Truthy(IndexOf(neighbors, node.id)) then HighlightColor(node.level)
    else MutedColor(node.level)
  }

  /** The colour depends on the node only through its level and the first
      index of its id among the neighbours. */
  lemma GetNodeColorDependsOnLevelAndIndex(a: Node, na: seq<string>, b: Node, nb: seq<string>)
    requires a.level == b.level
    requires IndexOf(na, a.id) == IndexOf(nb, b.id)
    ensures GetNodeColor(a, na) == GetNodeColor(b, nb)
  {
  }

  /** The intended colour: highlighted exactly when the node is a neighbour. */
  function MembershipColor(node: Node, neighbors: seq<string>): (c: string)
    ensures node.level == 1 ==> c == "blue" || c == "red"
    ensures node.level != 1 ==> c == "green" || c == "gray"
    ensures c == HighlightColor(node.level) <==> node.id in neighbors
    ensures c == MutedColor(node.level) <==> node.id !in neighbors
  {
    if IndexOf(neighbors, node.id) != -1 then HighlightColor(node.level)
    else MutedColor(node.level)
  }

  /** The function as written and the inclusion test disagree exactly when
      the id is missing from the neighbours or is the first of them; they
      agree when the id first occurs at index 1 or later. */
  lemma ColorDisagreement(node: Node, neighbors: seq<string>)
    ensures GetNodeColor(node, neighbors) != MembershipColor(node, neighbors)
            <==> node.id !in neighbors || neighbors[0] == node.id
  {
  }

  /** A concrete root node that is its own only neighbour is muted by the
      function as written, and highlighted by the inclusion test. */
  lemma FirstNeighbourMuted()
    ensures GetNodeColor(Node("a", "A", 1), ["a"]) == "red"
    ensures MembershipColor(Node("a", "A", 1), ["a"]) == "blue"
  {
  }

  /** A concrete leaf that is no neighbour at all is highlighted by the
      function as written, and muted by the inclusion test. */
  lemma AbsentNodeHighlighted()
    ensures GetNodeColor(Node("b", "B", 2), ["a"]) == "green"
    ensures MembershipColor(Node("b", "B", 2), ["a"]) == "gray"
  {
  }
}
