// The node tree of the adaptive Huffman coder (Huffman/Node.cs).
//
// Nodes live in an arena: a sequence of node records addressed by their
// index. A reference to a node is `At(i)`; the C# `null` is `Nil`. The
// parent link `parent` and the two child slots are plain indices, so the
// in-place relinking of `SetChildren` is an update of the arena.
module Nodes {

  datatype Option<T> = None | Some(value: T)

  /** The three kinds of node: the not-yet-transmitted sentinel, an internal node, a character leaf. */
  datatype NodeType = Null | Internal | Character

  datatype Ref = Nil | At(index: nat)

  datatype NodeData = NodeData(
    parent: Ref,
    left: Ref,
    right: Ref,
    weight: int,
    character: Option<char>,
    kind: NodeType)

  /** A node as `new Node { Type = kind }` creates it: no links, weight 0 unless given. */
  function Fresh(kind: NodeType, character: Option<char>, weight: int): NodeData
  {
    NodeData(Nil, Nil, Nil, weight, character, kind)
  }

  /**
   * A node made by `new Node { ... }` (Fresh) joins a well-formed arena as a
   * tree of its own: the arena stays well formed, and the new node has size,
   * height and depth 1.
   */
  lemma FreshJoins(nodes: seq<NodeData>, kind: NodeType, character: Option<char>, weight: int)
    requires WellFormed(nodes)
    ensures var nodes' := nodes + [Fresh(kind, character, weight)];
            WellFormed(nodes') && GetTreeSize(nodes', |nodes|) == 1 &&
            GetTreeHeight(nodes', |nodes|) == 1 && GetDeepnes(nodes', |nodes|) == 1
  {
    var nodes' := nodes + [Fresh(kind, character, weight)];
    var levels' := Levels(nodes) + [0];
    forall i | 0 <= i < |nodes'| ensures LinkOk(nodes', levels', i) {
      if i < |nodes| {
        Links(nodes, i);
        assert nodes'[i] == nodes[i];
      }
    }
    assert Leveled(nodes', levels');
  }

  predicate RefIn(r: Ref, n: nat)
  {
    r.At? ==> r.index < n
  }

  /**
   * The links of node `i` agree with each other and with `levels`: each
   * child points back to `i` and is one level lower, the two children are
   * different nodes, the parent holds `i` in one of its slots and is one
   * level higher, and a node without a parent is on level 0.
   */
  ghost predicate LinkOk(nodes: seq<NodeData>, levels: seq<nat>, i: nat)
    requires |levels| == |nodes| && i < |nodes|
  {
    var n := nodes[i];
    levels[i] < |nodes| &&
    RefIn(n.parent, |nodes|) && RefIn(n.left, |nodes|) && RefIn(n.right, |nodes|) &&
    (n.left.At? ==> nodes[n.left.index].parent == At(i) && levels[n.left.index] == levels[i] + 1) &&
    (n.right.At? ==> nodes[n.right.index].parent == At(i) && levels[n.right.index] == levels[i] + 1) &&
    (n.left.At? && n.right.At? ==> n.left.index != n.right.index) &&
    (n.parent.At? ==>
       levels[i] == levels[n.parent.index] + 1 &&
       (nodes[n.parent.index].left == At(i) || nodes[n.parent.index].right == At(i))) &&
    (n.parent.Nil? ==> levels[i] == 0)
  }

  /**
   * `levels` assigns every node its distance from the top of its tree and
   * all links agree. Such levels exist exactly when the links form a
   * forest, which is what makes the recursive measures below terminate.
   */
  ghost predicate Leveled(nodes: seq<NodeData>, levels: seq<nat>)
  {
    |levels| == |nodes| && forall i | 0 <= i < |nodes| :: LinkOk(nodes, levels, i)
  }

  ghost predicate WellFormed(nodes: seq<NodeData>)
  {
    exists levels :: Leveled(nodes, levels)
  }

  ghost function Levels(nodes: seq<NodeData>): (levels: seq<nat>)
    requires WellFormed(nodes)
    ensures Leveled(nodes, levels)
  {
    var levels :| Leveled(nodes, levels); levels
  }

  /** The link facts of node `i`, with the levels chosen by Levels. */
  lemma Links(nodes: seq<NodeData>, i: nat)
    requires WellFormed(nodes) && i < |nodes|
    ensures LinkOk(nodes, Levels(nodes), i)
  {
  }

  /** Node.GetTreeSize: the number of nodes in the subtree rooted at `i`. */
  function GetTreeSize(nodes: seq<NodeData>, i: nat): (size: nat)
    requires WellFormed(nodes) && i < |nodes|
    ensures size >= 1
    ensures nodes[i].left.Nil? && nodes[i].right.Nil? ==> size == 1
    decreases |nodes| - Levels(nodes)[i]
  {
    Links(nodes, i);
    var leftSize := match nodes[i].left case Nil => 0 case At(l) => GetTreeSize(nodes, l);
    var rightSize := match nodes[i].right case Nil => 0 case At(r) => GetTreeSize(nodes, r);
    1 + leftSize + rightSize
  }

  function Max(a: int, b: int): int
  {
    if a >= b then a else b
  }

  /** Node.GetTreeHeight: the number of nodes on the longest downward path from `i`. */
  function GetTreeHeight(nodes: seq<NodeData>, i: nat): (height: nat)
    requires WellFormed(nodes) && i < |nodes|
    ensures 1 <= height <= GetTreeSize(nodes, i)
    ensures height == 1 <==> nodes[i].left.Nil? && nodes[i].right.Nil?
    decreases |nodes| - Levels(nodes)[i]
  {
    Links(nodes, i);
    var leftHeight := match nodes[i].left case Nil => 0 case At(l) => GetTreeHeight(nodes, l);
    var rightHeight := match nodes[i].right case Nil => 0 case At(r) => GetTreeHeight(nodes, r);
    1 + Max(leftHeight, rightHeight)
  }

  /** Node.GetDeepnes: the number of nodes on the path from `i` up to the top of its tree. */
  function GetDeepnes(nodes: seq<NodeData>, i: nat): (depth: nat)
    requires WellFormed(nodes) && i < |nodes|
    ensures depth == Levels(nodes)[i] + 1
    ensures nodes[i].parent.Nil? <==> depth == 1
    decreases Levels(nodes)[i]
  {
    Links(nodes, i);
    match nodes[i].parent
    case Nil => 1
    case At(p) => 1 + GetDeepnes(nodes, p)
  }

  /** A child is exactly one level deeper than its parent. */
  lemma DeepnesOfChild(nodes: seq<NodeData>, i: nat, j: nat)
    requires WellFormed(nodes) && i < |nodes|
    requires nodes[i].left == At(j) || nodes[i].right == At(j)
    ensures j < |nodes| && GetDeepnes(nodes, j) == GetDeepnes(nodes, i) + 1
  {
    Links(nodes, i);
  }

  /**
   * `nodes'` is `nodes` after `p.SetChildren(l, r)`: `p` has children `l`
   * and `r`, both point back to `p`; weights, characters and kinds are
   * kept, no other child slot changes, no other parent link changes (the
   * replaced children keep their stale `parent`), and nodes other than
   * `p`, `l` and `r` are untouched.
   */
  predicate ChildrenSet(nodes: seq<NodeData>, nodes': seq<NodeData>, p: nat, l: nat, r: nat)
  {
    |nodes'| == |nodes| && p < |nodes| && l < |nodes| && r < |nodes| &&
    nodes'[p].left == At(l) && nodes'[p].right == At(r) &&
    nodes'[l].parent == At(p) && nodes'[r].parent == At(p) &&
    (forall i | 0 <= i < |nodes| ::
       nodes'[i].weight == nodes[i].weight && nodes'[i].character == nodes[i].character &&
       nodes'[i].kind == nodes[i].kind) &&
    (forall i | 0 <= i < |nodes| && i != p :: nodes'[i].left == nodes[i].left && nodes'[i].right == nodes[i].right) &&
    (forall i | 0 <= i < |nodes| && i != l && i != r :: nodes'[i].parent == nodes[i].parent) &&
    (forall i | 0 <= i < |nodes| && i != p && i != l && i != r :: nodes'[i] == nodes[i])
  }

  /** The arena after `p.SetChildren(l, r)`, its four assignments done in the order of Node.cs. */
  function WithChildren(nodes: seq<NodeData>, p: nat, l: nat, r: nat): seq<NodeData>
    requires p < |nodes| && l < |nodes| && r < |nodes|
  {
    var withLeft := nodes[l := nodes[l].(parent := At(p))];
    var withBoth := withLeft[r := withLeft[r].(parent := At(p))];
    var linkedLeft := withBoth[p := withBoth[p].(left := At(l))];
    linkedLeft[p := linkedLeft[p].(right := At(r))]
  }

  /** What SetChildren does to the arena, stated as ChildrenSet. */
  lemma ChildrenSetBy(nodes: seq<NodeData>, p: nat, l: nat, r: nat)
    requires p < |nodes| && l < |nodes| && r < |nodes|
    ensures ChildrenSet(nodes, WithChildren(nodes, p, l, r), p, l, r)
  {
  }

  /** The store of all nodes; its methods are the in-place updates of Node objects. */
  class Arena {
    var nodes: seq<NodeData>

    constructor ()
      ensures nodes == []
    {
      nodes := [];
    }

    /** Allocates a node (`new Node { ... }`), returning its index. */
    method NewNode(n: NodeData) returns (id: nat)
      modifies this
      ensures id == |old(nodes)| && nodes == old(nodes) + [n]
    {
      id := |nodes|;
      nodes := nodes + [n];
    }

    /** The `Weight` setter: node `i` gets weight `w`, every other field and node is kept. */
    method SetWeight(i: nat, w: int)
      requires i < |nodes|
      modifies this
      ensures nodes == old(nodes)[i := old(nodes)[i].(weight := w)]
    {
      nodes := nodes[i := nodes[i].(weight := w)];
    }

    /** Node.SetChildren: `p` takes `l` and `r` as its children and both point back to it. */
    method SetChildren(p: nat, l: nat, r: nat)
      requires p < |nodes| && l < |nodes| && r < |nodes|
      modifies this
      ensures nodes == WithChildren(old(nodes), p, l, r)
    {
      nodes := nodes[l := nodes[l].(parent := At(p))];
      nodes := nodes[r := nodes[r].(parent := At(p))];
      nodes := nodes[p := nodes[p].(left := At(l))];
      nodes := nodes[p := nodes[p].(right := At(r))];
    }
  }
}
