// Traversal and labelling of the node tree (Huffman/NodeUtils.cs):
// the level-order flattening, the node titles, and the order numbers and
// child links of the draw nodes.
module NodeUtils {
  import opened Nodes

  predicate InRange(nodes: seq<NodeData>, ns: seq<nat>)
  {
    forall k | 0 <= k < |ns| :: ns[k] < |nodes|
  }

  predicate Distinct(s: seq<nat>)
  {
    forall a, b | 0 <= a < b < |s| :: s[a] != s[b]
  }

  /** The children of node `x` in the order they are collected: left then right, or right then left. */
  function Kids(nodes: seq<NodeData>, x: nat, rightFirst: bool): seq<nat>
    requires x < |nodes|
  {
    var l := match nodes[x].left case Nil => [] case At(j) => [j];
    var r := match nodes[x].right case Nil => [] case At(j) => [j];
    if rightFirst then r + l else l + r
  }

  /** The next level: the children of every node of `ns`, node by node. */
  function Children(nodes: seq<NodeData>, ns: seq<nat>, rightFirst: bool): (cs: seq<nat>)
    requires WellFormed(nodes) && InRange(nodes, ns)
    ensures InRange(nodes, cs)
  {
    if ns == [] then []
    else
      Links(nodes, ns[0]);
      Kids(nodes, ns[0], rightFirst) + Children(nodes, ns[1..], rightFirst)
  }

  /** The total size of the subtrees rooted at the nodes of `ns`. */
  ghost function SizeSum(nodes: seq<NodeData>, ns: seq<nat>): nat
    requires WellFormed(nodes) && InRange(nodes, ns)
  {
    if ns == [] then 0 else GetTreeSize(nodes, ns[0]) + SizeSum(nodes, ns[1..])
  }

  lemma {:induction false} SizeSumAppend(nodes: seq<NodeData>, a: seq<nat>, b: seq<nat>)
    requires WellFormed(nodes) && InRange(nodes, a) && InRange(nodes, b)
    ensures InRange(nodes, a + b) && SizeSum(nodes, a + b) == SizeSum(nodes, a) + SizeSum(nodes, b)
  {
    if a == [] {
      assert a + b == b;
    } else {
      assert (a + b)[0] == a[0];
      assert (a + b)[1..] == a[1..] + b;
      SizeSumAppend(nodes, a[1..], b);
    }
  }

  lemma {:induction false} ChildrenAppend(nodes: seq<NodeData>, a: seq<nat>, b: seq<nat>, rightFirst: bool)
    requires WellFormed(nodes) && InRange(nodes, a) && InRange(nodes, b)
    ensures InRange(nodes, a + b)
    ensures Children(nodes, a + b, rightFirst) == Children(nodes, a, rightFirst) + Children(nodes, b, rightFirst)
  {
    assert InRange(nodes, a + b) by {
      forall k | 0 <= k < |a + b| ensures (a + b)[k] < |nodes| {
        if k < |a| {
          assert (a + b)[k] == a[k];
        } else {
          assert (a + b)[k] == b[k - |a|];
        }
      }
    }
    if a == [] {
      assert a + b == b;
    } else {
      assert (a + b)[0] == a[0] && (a + b)[1..] == a[1..] + b;
      ChildrenAppend(nodes, a[1..], b, rightFirst);
    }
  }

  /** Collecting the children removes exactly one node (the parent) per subtree. */
  lemma {:induction false} ChildrenSize(nodes: seq<NodeData>, ns: seq<nat>, rightFirst: bool)
    requires WellFormed(nodes) && InRange(nodes, ns)
    ensures SizeSum(nodes, Children(nodes, ns, rightFirst)) + |ns| == SizeSum(nodes, ns)
  {
    if ns != [] {
      var x := ns[0];
      var kids := Kids(nodes, x, rightFirst);
      assert Children(nodes, ns, rightFirst) == kids + Children(nodes, ns[1..], rightFirst);
      ChildrenSize(nodes, ns[1..], rightFirst);
      KidsSize(nodes, x, rightFirst);
      SizeSumAppend(nodes, kids, Children(nodes, ns[1..], rightFirst));
    }
  }

  /** The subtree of `x` is `x` and the subtrees of its children. */
  lemma KidsSize(nodes: seq<NodeData>, x: nat, rightFirst: bool)
    requires WellFormed(nodes) && x < |nodes|
    ensures InRange(nodes, Kids(nodes, x, rightFirst))
    ensures SizeSum(nodes, Kids(nodes, x, rightFirst)) + 1 == GetTreeSize(nodes, x)
  {
    Links(nodes, x);
    var n := nodes[x];
    var kids := Kids(nodes, x, rightFirst);
    match (n.left, n.right)
    case (At(l), At(r)) =>
      assert kids == if rightFirst then [r, l] else [l, r];
      assert kids[1..] == [kids[1]] && kids[1..][1..] == [];
      assert SizeSum(nodes, kids[1..]) == GetTreeSize(nodes, kids[1]);
      assert SizeSum(nodes, kids) == GetTreeSize(nodes, kids[0]) + GetTreeSize(nodes, kids[1]);
    case (At(l), Nil) =>
      assert kids == [l] && kids[1..] == [];
    case (Nil, At(r)) =>
      assert kids == [r] && kids[1..] == [];
    case (Nil, Nil) =>
      assert kids == [];
  }

  /**
   * The level-order listing of the subtrees of `ns`: the nodes of `ns` in
   * their order, followed by the listing of their children. With
   * `rightFirst` false the children are collected left before right, which
   * is NodeUtils.FlattenNodes; with `rightFirst` true they are collected
   * right before left, which is the order in which PrepareDrawNodes numbers
   * the nodes.
   */
  function FlattenNodes(nodes: seq<NodeData>, ns: seq<nat>, rightFirst: bool): (flat: seq<nat>)
    requires WellFormed(nodes) && InRange(nodes, ns)
    ensures InRange(nodes, flat)
    ensures |flat| == SizeSum(nodes, ns)
    decreases SizeSum(nodes, ns)
  {
    if ns == [] then []
    else
      ChildrenSize(nodes, ns, rightFirst);
      ns + FlattenNodes(nodes, Children(nodes, ns, rightFirst), rightFirst)
  }

  // ---------------------------------------------------------------------
  // Every node appears once, and after its parent.

  /** Every node collected as a child has its parent in `ns`. */
  lemma {:induction false} ChildrenParent(nodes: seq<NodeData>, ns: seq<nat>, rightFirst: bool, c: nat)
    requires WellFormed(nodes) && InRange(nodes, ns)
    requires c < |Children(nodes, ns, rightFirst)|
    ensures var y := Children(nodes, ns, rightFirst)[c];
            nodes[y].parent.At? && nodes[y].parent.index in ns
  {
    var kids := Kids(nodes, ns[0], rightFirst);
    Links(nodes, ns[0]);
    if c >= |kids| {
      ChildrenParent(nodes, ns[1..], rightFirst, c - |kids|);
    }
  }

  lemma {:induction false} DistinctAppend(a: seq<nat>, b: seq<nat>)
    requires Distinct(a) && Distinct(b)
    requires forall k | 0 <= k < |b| :: b[k] !in a
    ensures Distinct(a + b)
  {
    forall i, j | 0 <= i < j < |a + b| ensures (a + b)[i] != (a + b)[j] {
      if j >= |a| && i < |a| {
        assert (a + b)[j] == b[j - |a|];
      }
    }
  }

  /** Children of distinct nodes are distinct. */
  lemma {:induction false} ChildrenDistinct(nodes: seq<NodeData>, ns: seq<nat>, rightFirst: bool)
    requires WellFormed(nodes) && InRange(nodes, ns) && Distinct(ns)
    ensures Distinct(Children(nodes, ns, rightFirst))
  {
    if ns != [] {
      var x := ns[0];
      var kids := Kids(nodes, x, rightFirst);
      var rest := Children(nodes, ns[1..], rightFirst);
      ChildrenDistinct(nodes, ns[1..], rightFirst);
      Links(nodes, x);
      forall k | 0 <= k < |rest| ensures rest[k] !in kids {
        ChildrenParent(nodes, ns[1..], rightFirst, k);
        assert x !in ns[1..] by {
          forall m | 1 <= m < |ns| ensures ns[m] != x { }
        }
      }
      DistinctAppend(kids, rest);
    }
  }

  ghost predicate AtLevel(nodes: seq<NodeData>, ns: seq<nat>, level: nat)
    requires WellFormed(nodes) && InRange(nodes, ns)
  {
    forall k | 0 <= k < |ns| :: Levels(nodes)[ns[k]] == level
  }

  lemma {:induction false} ChildrenLevel(nodes: seq<NodeData>, ns: seq<nat>, rightFirst: bool, level: nat)
    requires WellFormed(nodes) && InRange(nodes, ns) && AtLevel(nodes, ns, level)
    ensures AtLevel(nodes, Children(nodes, ns, rightFirst), level + 1)
  {
    var cs := Children(nodes, ns, rightFirst);
    forall c | 0 <= c < |cs| ensures Levels(nodes)[cs[c]] == level + 1 {
      ChildrenParent(nodes, ns, rightFirst, c);
      Links(nodes, cs[c]);
    }
  }

  /** Every node of the flattening of one level lies on that level or below it. */
  lemma {:induction false} FlattenBelow(nodes: seq<NodeData>, ns: seq<nat>, rightFirst: bool, level: nat)
    requires WellFormed(nodes) && InRange(nodes, ns) && AtLevel(nodes, ns, level)
    ensures forall q | 0 <= q < |FlattenNodes(nodes, ns, rightFirst)| :: Levels(nodes)[FlattenNodes(nodes, ns, rightFirst)[q]] >= level
    decreases SizeSum(nodes, ns)
  {
    if ns != [] {
      var cs := Children(nodes, ns, rightFirst);
      ChildrenSize(nodes, ns, rightFirst);
      ChildrenLevel(nodes, ns, rightFirst, level);
      FlattenBelow(nodes, cs, rightFirst, level + 1);
      var flat := FlattenNodes(nodes, ns, rightFirst);
      var tail := FlattenNodes(nodes, cs, rightFirst);
      assert flat == ns + tail;
      forall q | 0 <= q < |flat| ensures Levels(nodes)[flat[q]] >= level {
        if q >= |ns| {
          assert flat[q] == tail[q - |ns|];
          assert Levels(nodes)[tail[q - |ns|]] >= level + 1;
        } else {
          assert flat[q] == ns[q];
          assert Levels(nodes)[ns[q]] == level;
        }
      }
    }
  }

  /** The flattening of one level of distinct nodes lists no node twice. */
  lemma {:induction false} FlattenDistinct(nodes: seq<NodeData>, ns: seq<nat>, rightFirst: bool, level: nat)
    requires WellFormed(nodes) && InRange(nodes, ns) && AtLevel(nodes, ns, level) && Distinct(ns)
    ensures Distinct(FlattenNodes(nodes, ns, rightFirst))
    decreases SizeSum(nodes, ns)
  {
    if ns != [] {
      var cs := Children(nodes, ns, rightFirst);
      ChildrenSize(nodes, ns, rightFirst);
      ChildrenLevel(nodes, ns, rightFirst, level);
      ChildrenDistinct(nodes, ns, rightFirst);
      FlattenDistinct(nodes, cs, rightFirst, level + 1);
      var tail := FlattenNodes(nodes, cs, rightFirst);
      FlattenBelow(nodes, cs, rightFirst, level + 1);
      forall k | 0 <= k < |tail| ensures tail[k] !in ns {
        assert Levels(nodes)[tail[k]] >= level + 1;
      }
      DistinctAppend(ns, tail);
    }
  }

  /** `run` sits in `s` from position `start` on. */
  predicate RunIn(s: seq<nat>, start: nat, run: seq<nat>)
  {
    start + |run| <= |s| && forall m | 0 <= m < |run| :: s[start + m] == run[m]
  }

  /** `run` sits in `s` right after some position beyond `q`: all of it comes after `s[q]`. */
  predicate Follows(s: seq<nat>, q: nat, start: nat, run: seq<nat>)
  {
    q < start && RunIn(s, start, run)
  }

  lemma FlattenUnfold(nodes: seq<NodeData>, ns: seq<nat>, rightFirst: bool)
    requires WellFormed(nodes) && InRange(nodes, ns) && ns != []
    ensures FlattenNodes(nodes, ns, rightFirst) == ns + FlattenNodes(nodes, Children(nodes, ns, rightFirst), rightFirst)
  {
  }

  /** A flattening starts with the level it was given. */
  lemma FlattenPrefix(nodes: seq<NodeData>, ns: seq<nat>, rightFirst: bool)
    requires WellFormed(nodes) && InRange(nodes, ns)
    ensures RunIn(FlattenNodes(nodes, ns, rightFirst), 0, ns)
  {
    if ns != [] {
      FlattenUnfold(nodes, ns, rightFirst);
    }
  }

  /** Where the children of `ns[q]` start in Children(ns): the number of children of the nodes before it. */
  function KidsOffset(nodes: seq<NodeData>, ns: seq<nat>, q: nat, rightFirst: bool): nat
    requires InRange(nodes, ns) && q <= |ns|
  {
    if q == 0 then 0
    else |Kids(nodes, ns[0], rightFirst)| + KidsOffset(nodes, ns[1..], q - 1, rightFirst)
  }

  /** Children(ns) holds the children of `ns[q]` at KidsOffset(ns, q), next to each other. */
  lemma {:induction false} ChildrenAt(nodes: seq<NodeData>, ns: seq<nat>, rightFirst: bool, q: nat)
    requires WellFormed(nodes) && InRange(nodes, ns) && q < |ns|
    ensures RunIn(Children(nodes, ns, rightFirst), KidsOffset(nodes, ns, q, rightFirst), Kids(nodes, ns[q], rightFirst))
  {
    var k0 := Kids(nodes, ns[0], rightFirst);
    var rest := Children(nodes, ns[1..], rightFirst);
    assert Children(nodes, ns, rightFirst) == k0 + rest;
    if q > 0 {
      ChildrenAt(nodes, ns[1..], rightFirst, q - 1);
      assert ns[1..][q - 1] == ns[q];
      ShiftRun(k0, rest, KidsOffset(nodes, ns[1..], q - 1, rightFirst), Kids(nodes, ns[q], rightFirst));
    }
  }

  /** A run in `b` sits in `a + b` shifted by |a|. */
  lemma ShiftRun(a: seq<nat>, b: seq<nat>, start: nat, run: seq<nat>)
    requires RunIn(b, start, run)
    ensures RunIn(a + b, |a| + start, run)
  {
    forall m | 0 <= m < |run| ensures (a + b)[|a| + start + m] == run[m] {
      assert b[start + m] == run[m];
    }
  }

  /** A run in the prefix `cs` of `tail` sits in `ns + tail` shifted by |ns|. */
  lemma PrefixRun(ns: seq<nat>, tail: seq<nat>, cs: seq<nat>, start: nat, run: seq<nat>)
    requires RunIn(tail, 0, cs) && RunIn(cs, start, run)
    ensures RunIn(ns + tail, |ns| + start, run)
  {
    forall m | 0 <= m < |run| ensures (ns + tail)[|ns| + start + m] == run[m] {
      assert cs[start + m] == run[m];
      assert tail[0 + (start + m)] == cs[start + m];
    }
  }

  /** Where, in FlattenNodes(ns), the children of the node at position `q` start. */
  ghost function KidsPos(nodes: seq<NodeData>, ns: seq<nat>, rightFirst: bool, q: nat): nat
    requires WellFormed(nodes) && InRange(nodes, ns)
    requires q < |FlattenNodes(nodes, ns, rightFirst)|
    decreases SizeSum(nodes, ns)
  {
    var cs := Children(nodes, ns, rightFirst);
    ChildrenSize(nodes, ns, rightFirst);
    if q < |ns| then |ns| + KidsOffset(nodes, ns, q, rightFirst)
    else |ns| + KidsPos(nodes, cs, rightFirst, q - |ns|)
  }

  /** On the first level, FlattenNodes(ns) is `ns` followed by the flattening of the children. */
  lemma InLevel(nodes: seq<NodeData>, ns: seq<nat>, rightFirst: bool, q: nat)
    requires WellFormed(nodes) && InRange(nodes, ns) && q < |ns|
    ensures var cs := Children(nodes, ns, rightFirst);
            q < |FlattenNodes(nodes, ns, rightFirst)| &&
            FlattenNodes(nodes, ns, rightFirst) == ns + FlattenNodes(nodes, cs, rightFirst) &&
            KidsPos(nodes, ns, rightFirst, q) == |ns| + KidsOffset(nodes, ns, q, rightFirst)
  {
    FlattenUnfold(nodes, ns, rightFirst);
  }

  /** FlattenChildrenFollow for a node of the first level. */
  lemma {:induction false} FollowInLevel(nodes: seq<NodeData>, ns: seq<nat>, rightFirst: bool, q: nat)
    requires WellFormed(nodes) && InRange(nodes, ns) && q < |ns|
    ensures q < |FlattenNodes(nodes, ns, rightFirst)|
    ensures Follows(FlattenNodes(nodes, ns, rightFirst), q, KidsPos(nodes, ns, rightFirst, q), Kids(nodes, FlattenNodes(nodes, ns, rightFirst)[q], rightFirst))
  {
    var flat := FlattenNodes(nodes, ns, rightFirst);
    var cs := Children(nodes, ns, rightFirst);
    var tail := FlattenNodes(nodes, cs, rightFirst);
    var offset := KidsOffset(nodes, ns, q, rightFirst);
    var run := Kids(nodes, ns[q], rightFirst);
    assert q < |flat| && flat == ns + tail && KidsPos(nodes, ns, rightFirst, q) == |ns| + offset by {
      InLevel(nodes, ns, rightFirst, q);
    }
    assert RunIn(ns + tail, |ns| + offset, run) by {
      ChildrenAt(nodes, ns, rightFirst, q);
      FlattenPrefix(nodes, cs, rightFirst);
      PrefixRun(ns, tail, cs, offset, run);
    }
    assert flat[q] == ns[q];
  }

  /**
   * In the flattening, the children of a node come after it, next to each
   * other, in the order they are collected (left before right for
   * FlattenNodes, right before left for the draw order).
   */
  lemma {:induction false} FlattenChildrenFollow(nodes: seq<NodeData>, ns: seq<nat>, rightFirst: bool, q: nat)
    requires WellFormed(nodes) && InRange(nodes, ns)
    requires q < |FlattenNodes(nodes, ns, rightFirst)|
    ensures Follows(FlattenNodes(nodes, ns, rightFirst), q, KidsPos(nodes, ns, rightFirst, q), Kids(nodes, FlattenNodes(nodes, ns, rightFirst)[q], rightFirst))
    decreases SizeSum(nodes, ns)
  {
    if q < |ns| {
      FollowInLevel(nodes, ns, rightFirst, q);
    } else {
      var cs := Children(nodes, ns, rightFirst);
      ChildrenSize(nodes, ns, rightFirst);
      var r := q - |ns|;
      KidsPosBelow(nodes, ns, rightFirst, q);
      FlattenChildrenFollow(nodes, cs, rightFirst, r);
      ShiftRun(ns, FlattenNodes(nodes, cs, rightFirst), KidsPos(nodes, cs, rightFirst, r), Kids(nodes, FlattenNodes(nodes, cs, rightFirst)[r], rightFirst));
    }
  }

  /** Below the first level, positions in FlattenNodes(ns) are those in the flattening of the next level, shifted. */
  lemma KidsPosBelow(nodes: seq<NodeData>, ns: seq<nat>, rightFirst: bool, q: nat)
    requires WellFormed(nodes) && InRange(nodes, ns)
    requires |ns| <= q < |FlattenNodes(nodes, ns, rightFirst)|
    ensures var cs := Children(nodes, ns, rightFirst);
            q - |ns| < |FlattenNodes(nodes, cs, rightFirst)| &&
            FlattenNodes(nodes, ns, rightFirst)[q] == FlattenNodes(nodes, cs, rightFirst)[q - |ns|] &&
            FlattenNodes(nodes, ns, rightFirst) == ns + FlattenNodes(nodes, cs, rightFirst) &&
            KidsPos(nodes, ns, rightFirst, q) == |ns| + KidsPos(nodes, cs, rightFirst, q - |ns|)
  {
    FlattenUnfold(nodes, ns, rightFirst);
  }

  // ---------------------------------------------------------------------
  // The flattening of a single node is exactly its subtree.

  /** `y` lies in the subtree of `a`: walking up from `y` reaches `a`. */
  ghost predicate Descends(nodes: seq<NodeData>, y: nat, a: nat)
    requires WellFormed(nodes) && y < |nodes|
    decreases Levels(nodes)[y]
  {
    Links(nodes, y);
    y == a || (nodes[y].parent.At? && Descends(nodes, nodes[y].parent.index, a))
  }

  lemma {:induction false} DescendsThroughParent(nodes: seq<NodeData>, y: nat, c: nat, x: nat)
    requires WellFormed(nodes) && y < |nodes| && c < |nodes|
    requires nodes[c].parent == At(x) && Descends(nodes, y, c)
    ensures Descends(nodes, y, x)
    decreases Levels(nodes)[y]
  {
    Links(nodes, y);
    if y != c {
      DescendsThroughParent(nodes, nodes[y].parent.index, c, x);
    }
  }

  lemma {:induction false} FlattenDescends(nodes: seq<NodeData>, ns: seq<nat>, rightFirst: bool, q: nat) returns (k: nat)
    requires WellFormed(nodes) && InRange(nodes, ns)
    requires q < |FlattenNodes(nodes, ns, rightFirst)|
    ensures k < |ns| && Descends(nodes, FlattenNodes(nodes, ns, rightFirst)[q], ns[k])
    decreases SizeSum(nodes, ns), 1
  {
    if q < |ns| {
      assert FlattenNodes(nodes, ns, rightFirst)[q] == ns[q] by {
        FlattenUnfold(nodes, ns, rightFirst);
      }
      k := q;
    } else {
      k := FlattenDescendsBelow(nodes, ns, rightFirst, q);
    }
  }

  /** FlattenDescends for a position beyond the first level. */
  lemma {:induction false} FlattenDescendsBelow(nodes: seq<NodeData>, ns: seq<nat>, rightFirst: bool, q: nat) returns (k: nat)
    requires WellFormed(nodes) && InRange(nodes, ns)
    requires |ns| <= q < |FlattenNodes(nodes, ns, rightFirst)|
    ensures k < |ns| && Descends(nodes, FlattenNodes(nodes, ns, rightFirst)[q], ns[k])
    decreases SizeSum(nodes, ns), 0
  {
    FlattenBelowStep(nodes, ns, rightFirst, q);
    var c := FlattenDescends(nodes, Children(nodes, ns, rightFirst), rightFirst, q - |ns|);
    k := DescendsFromChildren(nodes, ns, rightFirst, c, FlattenNodes(nodes, ns, rightFirst)[q]);
  }

  /** Below the first level, position `q` of the flattening is position `q - |ns|` of the flattening of the next level. */
  lemma FlattenBelowStep(nodes: seq<NodeData>, ns: seq<nat>, rightFirst: bool, q: nat)
    requires WellFormed(nodes) && InRange(nodes, ns)
    requires |ns| <= q < |FlattenNodes(nodes, ns, rightFirst)|
    ensures var cs := Children(nodes, ns, rightFirst);
            SizeSum(nodes, cs) < SizeSum(nodes, ns) && q - |ns| < |FlattenNodes(nodes, cs, rightFirst)| &&
            FlattenNodes(nodes, ns, rightFirst)[q] == FlattenNodes(nodes, cs, rightFirst)[q - |ns|]
  {
    ChildrenSize(nodes, ns, rightFirst);
    FlattenUnfold(nodes, ns, rightFirst);
  }

  /** A descendant of the `c`-th node of the next level descends from a node of the level. */
  lemma DescendsFromChildren(nodes: seq<NodeData>, ns: seq<nat>, rightFirst: bool, c: nat, y: nat) returns (k: nat)
    requires WellFormed(nodes) && InRange(nodes, ns) && y < |nodes|
    requires c < |Children(nodes, ns, rightFirst)| && Descends(nodes, y, Children(nodes, ns, rightFirst)[c])
    ensures k < |ns| && Descends(nodes, y, ns[k])
  {
    var cs := Children(nodes, ns, rightFirst);
    ChildrenParent(nodes, ns, rightFirst, c);
    var x := nodes[cs[c]].parent.index;
    DescendsThroughParent(nodes, y, cs[c], x);
    k :| 0 <= k < |ns| && ns[k] == x;
  }

  lemma {:induction false} DescendantInFlatten(nodes: seq<NodeData>, a: nat, rightFirst: bool, y: nat)
    requires WellFormed(nodes) && a < |nodes| && y < |nodes|
    requires Descends(nodes, y, a)
    ensures y in FlattenNodes(nodes, [a], rightFirst)
    decreases Levels(nodes)[y]
  {
    var flat := FlattenNodes(nodes, [a], rightFirst);
    if y == a {
      FlattenPrefix(nodes, [a], rightFirst);
      assert flat[0 + 0] == [a][0];
    } else {
      Links(nodes, y);
      var p := nodes[y].parent.index;
      DescendantInFlatten(nodes, a, rightFirst, p);
      var q :| 0 <= q < |flat| && flat[q] == p;
      var r := ChildInFlatten(nodes, [a], rightFirst, q, y);
    }
  }

  /** A child of a node of the flattening is in the flattening too. */
  lemma ChildInFlatten(nodes: seq<NodeData>, ns: seq<nat>, rightFirst: bool, q: nat, y: nat) returns (r: nat)
    requires WellFormed(nodes) && InRange(nodes, ns)
    requires q < |FlattenNodes(nodes, ns, rightFirst)|
    requires var p := FlattenNodes(nodes, ns, rightFirst)[q]; nodes[p].left == At(y) || nodes[p].right == At(y)
    ensures r < |FlattenNodes(nodes, ns, rightFirst)| && FlattenNodes(nodes, ns, rightFirst)[r] == y
  {
    var m := KidIndex(nodes, FlattenNodes(nodes, ns, rightFirst)[q], rightFirst, y);
    r := FollowAt(nodes, ns, rightFirst, q, m);
  }

  /** The `m`-th child of the node at position `q` of the flattening, found at its place. */
  lemma FollowAt(nodes: seq<NodeData>, ns: seq<nat>, rightFirst: bool, q: nat, m: nat) returns (r: nat)
    requires WellFormed(nodes) && InRange(nodes, ns)
    requires q < |FlattenNodes(nodes, ns, rightFirst)| && m < |Kids(nodes, FlattenNodes(nodes, ns, rightFirst)[q], rightFirst)|
    ensures r < |FlattenNodes(nodes, ns, rightFirst)|
    ensures FlattenNodes(nodes, ns, rightFirst)[r] == Kids(nodes, FlattenNodes(nodes, ns, rightFirst)[q], rightFirst)[m]
  {
    var flat := FlattenNodes(nodes, ns, rightFirst);
    var kids := Kids(nodes, flat[q], rightFirst);
    assert exists i :: 0 <= i < |flat| && flat[i] == kids[m] by {
      var start := KidsPos(nodes, ns, rightFirst, q);
      FlattenChildrenFollow(nodes, ns, rightFirst, q);
      RunAt(flat, q, start, kids, m);
      assert flat[start + m] == kids[m];
    }
    r :| 0 <= r < |flat| && flat[r] == kids[m];
  }

  lemma RunAt(s: seq<nat>, q: nat, start: nat, run: seq<nat>, m: nat)
    requires Follows(s, q, start, run) && m < |run|
    ensures start + m < |s| && s[start + m] == run[m]
  {
  }

  /** The position of child `y` among the children of `p`, in the order Kids collects them. */
  function KidIndex(nodes: seq<NodeData>, p: nat, rightFirst: bool, y: nat): (m: nat)
    requires p < |nodes| && (nodes[p].left == At(y) || nodes[p].right == At(y))
    ensures m < |Kids(nodes, p, rightFirst)| && Kids(nodes, p, rightFirst)[m] == y
  {
    var first := if rightFirst then nodes[p].right else nodes[p].left;
    if first == At(y) then 0
    else if first.At? then 1
    else 0
  }

  /**
   * FlattenNodes([root]) lists every node of the subtree of `root` exactly
   * once and nothing else; its length is GetTreeSize(root).
   */
  lemma FlattenSubtree(nodes: seq<NodeData>, root: nat, rightFirst: bool)
    requires WellFormed(nodes) && root < |nodes|
    ensures var flat := FlattenNodes(nodes, [root], rightFirst);
            |flat| == GetTreeSize(nodes, root) && Distinct(flat) &&
            (forall y | 0 <= y < |nodes| :: y in flat <==> Descends(nodes, y, root))
  {
    var flat := FlattenNodes(nodes, [root], rightFirst);
    assert SizeSum(nodes, [root]) == GetTreeSize(nodes, root) by {
      assert [root][1..] == [];
    }
    FlattenDistinct(nodes, [root], rightFirst, Levels(nodes)[root]);
    forall y | 0 <= y < |nodes| ensures y in flat <==> Descends(nodes, y, root) {
      if y in flat {
        var q :| 0 <= q < |flat| && flat[q] == y;
        var k := FlattenDescends(nodes, [root], rightFirst, q);
      }
      if Descends(nodes, y, root) {
        DescendantInFlatten(nodes, root, rightFirst, y);
      }
    }
  }

  // ---------------------------------------------------------------------
  // Titles and draw nodes.

  /** The node kinds for which a title is defined (a character leaf must hold its character). */
  predicate Titled(n: NodeData)
  {
    n.kind == Character ==> n.character.Some?
  }

  /** NodeUtils.GetNodeTitle. */
  function GetNodeTitle(n: NodeData): (title: string)
    requires Titled(n)
    ensures title == "nyt" <==> n.kind == Null
    ensures title == "" <==> n.kind == Internal
    ensures n.kind == Character ==> (title == "space" <==> n.character.value == ' ')
    ensures n.kind == Character && n.character.value != ' ' ==> title == [n.character.value]
  {
    if n.kind == Null then "nyt"
    else if n.kind == Internal then ""
    else match n.character.value
      case ' ' => "space"
      case c => [c]
  }

  /** Different kinds, and different characters, never share a title. */
  lemma GetNodeTitleInjective(a: NodeData, b: NodeData)
    requires Titled(a) && Titled(b)
    requires GetNodeTitle(a) == GetNodeTitle(b)
    ensures a.kind == b.kind
    ensures a.kind == Character ==> a.character == b.character
  {
  }

  /** The drawing-relevant part of Drawing/DrawNode: no position, shape or colour. */
  datatype DrawNode = DrawNode(
    node: nat,
    orderNumber: int,
    weight: int,
    title: string,
    leftOrderNumber: Option<int>,
    rightOrderNumber: Option<int>)

  predicate AllTitled(nodes: seq<NodeData>)
  {
    forall i | 0 <= i < |nodes| :: Titled(nodes[i])
  }

  /** NodeUtils.CreateDrawNode without the position, shape and colour. */
  function CreateDrawNode(nodes: seq<NodeData>, i: nat, orderNumber: int): (d: DrawNode)
    requires i < |nodes| && AllTitled(nodes)
    ensures d.node == i && d.orderNumber == orderNumber && Shows(nodes, d)
    ensures d.leftOrderNumber.None? && d.rightOrderNumber.None?
  {
    DrawNode(i, orderNumber, nodes[i].weight, GetNodeTitle(nodes[i]), None, None)
  }

  /** `d` shows node `d.node` of the tree: its weight and title. */
  predicate Shows(nodes: seq<NodeData>, d: DrawNode)
    requires AllTitled(nodes)
  {
    d.node < |nodes| && d.weight == nodes[d.node].weight && d.title == GetNodeTitle(nodes[d.node])
  }

  /**
   * The child link `num` of a draw node for tree link `child` is set exactly
   * when the child exists, and then `all[top - num]` (the draw node that
   * carries number `num`) shows that child and comes after position `q`.
   */
  predicate LinkedTo(all: seq<DrawNode>, top: int, q: nat, child: Ref, num: Option<int>)
  {
    (child.At? <==> num.Some?) &&
    (num.Some? ==> q < top - num.value < |all| && all[top - num.value].node == child.index)
  }

  predicate Linked(nodes: seq<NodeData>, all: seq<DrawNode>, top: int, q: nat)
  {
    q < |all| && all[q].node < |nodes| &&
    var n := nodes[all[q].node];
    LinkedTo(all, top, q, n.right, all[q].rightOrderNumber) &&
    LinkedTo(all, top, q, n.left, all[q].leftOrderNumber) &&
    (n.left.At? && n.right.At? ==>
       all[q].rightOrderNumber.value == all[q].leftOrderNumber.value + 1)
  }

  /** The child links of `d`, pointing into the next level `children` whose first number is `base`. */
  predicate LinkedInLevel(nodes: seq<NodeData>, d: DrawNode, children: seq<DrawNode>, base: int)
  {
    d.node < |nodes| &&
    var n := nodes[d.node];
    (n.right.At? <==> d.rightOrderNumber.Some?) &&
    (d.rightOrderNumber.Some? ==>
       0 <= base - d.rightOrderNumber.value < |children| &&
       children[base - d.rightOrderNumber.value].node == n.right.index) &&
    (n.left.At? <==> d.leftOrderNumber.Some?) &&
    (d.leftOrderNumber.Some? ==>
       0 <= base - d.leftOrderNumber.value < |children| &&
       children[base - d.leftOrderNumber.value].node == n.left.index) &&
    (n.left.At? && n.right.At? ==> d.rightOrderNumber.value == d.leftOrderNumber.value + 1)
  }

  ghost function NodesOf(ds: seq<DrawNode>): (ns: seq<nat>)
    ensures |ns| == |ds| && forall q {:trigger ns[q]} | 0 <= q < |ds| :: ns[q] == ds[q].node
  {
    if ds == [] then [] else [ds[0].node] + NodesOf(ds[1..])
  }

  /** A level of fresh draw nodes, numbered downwards from the first one. */
  ghost predicate FreshLevel(nodes: seq<NodeData>, level: seq<DrawNode>)
    requires AllTitled(nodes)
  {
    forall q | 0 <= q < |level| ::
      level[q].node < |nodes| &&
      level[q] == CreateDrawNode(nodes, level[q].node, level[0].orderNumber - q)
  }

  /** Links into a run of new draw nodes stay valid once earlier draw nodes precede the run. */
  lemma LinkedInLevelShift(nodes: seq<NodeData>, d: DrawNode, prefix: seq<DrawNode>, created: seq<DrawNode>, next: int)
    requires d.node < |nodes| && LinkedInLevel(nodes, d, created, next)
    ensures LinkedInLevel(nodes, d, prefix + created, next + |prefix|)
  {
  }

  /** Appending draw nodes to the next level keeps the links into it. */
  lemma LinkedInLevelExtend(nodes: seq<NodeData>, d: DrawNode, children: seq<DrawNode>, more: seq<DrawNode>, base: int)
    requires d.node < |nodes| && LinkedInLevel(nodes, d, children, base)
    ensures LinkedInLevel(nodes, d, children + more, base)
  {
  }

  /**
   * Links into the next level become links into the whole list once the
   * list of the next levels, which starts with that level, is appended.
   */
  lemma {:induction false} LevelLinked(nodes: seq<NodeData>, updated: seq<DrawNode>, children: seq<DrawNode>,
                                       rest: seq<DrawNode>, top: int, base: int)
    requires base == top - |updated|
    requires forall q | 0 <= q < |updated| :: LinkedInLevel(nodes, updated[q], children, base)
    requires StartsWith(rest, children)
    requires AllLinked(nodes, rest, base)
    ensures AllLinked(nodes, updated + rest, top)
  {
    var all := updated + rest;
    forall q | 0 <= q < |all| ensures all[q].node < |nodes| && Linked(nodes, all, top, q) {
      if q < |updated| {
        assert all[q] == updated[q];
        var d := updated[q];
        if d.rightOrderNumber.Some? {
          var c := top - |updated| - d.rightOrderNumber.value;
          assert all[top - d.rightOrderNumber.value] == rest[c];
        }
        if d.leftOrderNumber.Some? {
          var c := top - |updated| - d.leftOrderNumber.value;
          assert all[top - d.leftOrderNumber.value] == rest[c];
        }
      } else {
        var r := q - |updated|;
        assert all[q] == rest[r];
        assert Linked(nodes, rest, base, r);
        var d := rest[r];
        if d.rightOrderNumber.Some? {
          assert all[top - d.rightOrderNumber.value] == rest[top - |updated| - d.rightOrderNumber.value];
        }
        if d.leftOrderNumber.Some? {
          assert all[top - d.leftOrderNumber.value] == rest[top - |updated| - d.leftOrderNumber.value];
        }
      }
    }
  }

  lemma NodesOfAppend(a: seq<DrawNode>, b: seq<DrawNode>)
    ensures NodesOf(a + b) == NodesOf(a) + NodesOf(b)
  {
  }

  /** `d` and `e` show the same node under the same number; only their child links may differ. */
  predicate SameNode(d: DrawNode, e: DrawNode)
  {
    d.node == e.node && d.orderNumber == e.orderNumber && d.weight == e.weight && d.title == e.title
  }

  /**
   * One pass of the loop of PrepareDrawNodes: creates the draw nodes of the
   * children of `d`, right child first, numbered from `nextOrderNumber`
   * downwards, and records their numbers in the child links of `d`.
   */
  method LinkChildren(nodes: seq<NodeData>, d: DrawNode, nextOrderNumber: int) returns (linked: DrawNode, created: seq<DrawNode>)
    requires WellFormed(nodes) && AllTitled(nodes) && d.node < |nodes|
    requires d.leftOrderNumber.None? && d.rightOrderNumber.None?
    ensures SameNode(linked, d)
    ensures NodesOf(created) == Kids(nodes, d.node, true)
    ensures CreatedFrom(nodes, created, nextOrderNumber)
    ensures LinkedInLevel(nodes, linked, created, nextOrderNumber)
  {
    var n := nodes[d.node];
    Links(nodes, d.node);
    var next := nextOrderNumber;
    linked := d;
    created := [];
    if n.right.At? {
      var orderNumber := next;
      next := next - 1;
      linked := linked.(rightOrderNumber := Some(orderNumber));
      created := created + [CreateDrawNode(nodes, n.right.index, orderNumber)];
    }
    if n.left.At? {
      var orderNumber := next;
      next := next - 1;
      linked := linked.(leftOrderNumber := Some(orderNumber));
      created := created + [CreateDrawNode(nodes, n.left.index, orderNumber)];
    }
  }

  /**
   * The loop of the private overload of NodeUtils.PrepareDrawNodes: walks
   * one level, numbering the children right child first, continuing below
   * the last number of the level, and records the numbers in the child
   * links of the level's draw nodes.
   */
  method LinkLevel(nodes: seq<NodeData>, drawNodes: seq<DrawNode>) returns (updated: seq<DrawNode>, childDrawNodes: seq<DrawNode>)
    requires WellFormed(nodes) && AllTitled(nodes) && FreshLevel(nodes, drawNodes) && |drawNodes| > 0
    ensures LevelLinks(nodes, drawNodes, updated, childDrawNodes)
  {
    var top := drawNodes[0].orderNumber;
    var nextOrderNumber := drawNodes[|drawNodes| - 1].orderNumber - 1;
    var base := top - |drawNodes|;
    updated := drawNodes;
    childDrawNodes := [];
    ProgressStart(nodes, drawNodes, base);
    for k := 0 to |drawNodes|
      invariant nextOrderNumber == base - |childDrawNodes|
      invariant LevelProgress(nodes, drawNodes, k, updated, childDrawNodes, base)
    {
      updated, childDrawNodes, nextOrderNumber := LinkStep(nodes, drawNodes, k, updated, childDrawNodes, base, nextOrderNumber);
    }
    ProgressComplete(nodes, drawNodes, updated, childDrawNodes, base);
  }

  /**
   * One pass of the loop of LinkLevel: the draw node at `k` gets its child
   * links, and the draw nodes of its children join the next level.
   */
  method LinkStep(nodes: seq<NodeData>, drawNodes: seq<DrawNode>, k: nat, updated: seq<DrawNode>,
                  children: seq<DrawNode>, base: int, nextOrderNumber: int)
    returns (updated': seq<DrawNode>, children': seq<DrawNode>, nextOrderNumber': int)
    requires WellFormed(nodes) && AllTitled(nodes) && k < |drawNodes| && InRange(nodes, NodesOf(drawNodes))
    requires FreshLevel(nodes, drawNodes)
    requires LevelProgress(nodes, drawNodes, k, updated, children, base)
    requires nextOrderNumber == base - |children|
    ensures LevelProgress(nodes, drawNodes, k + 1, updated', children', base)
    ensures nextOrderNumber' == base - |children'|
  {
    var d := drawNodes[k];
    assert NodesOf(drawNodes)[k] == d.node && d.node < |nodes| && d.leftOrderNumber.None? && d.rightOrderNumber.None? by {
      assert d == CreateDrawNode(nodes, d.node, drawNodes[0].orderNumber - k);
    }
    var linked, created := LinkChildren(nodes, d, nextOrderNumber);
    NextLevelStep(nodes, NodesOf(drawNodes), k, children, created, base);
    LinksStep(nodes, drawNodes, k, updated, children, base, linked, created, updated[k := linked]);
    updated' := updated[k := linked];
    children' := children + created;
    nextOrderNumber' := nextOrderNumber - |created|;
  }

  /**
   * The result of LinkLevel: the draw nodes of the level, with their child
   * links set into `children`, the draw nodes of the next level (children
   * collected right first), numbered on below the level.
   */
  ghost predicate LevelLinks(nodes: seq<NodeData>, drawNodes: seq<DrawNode>, updated: seq<DrawNode>, children: seq<DrawNode>)
    requires WellFormed(nodes) && AllTitled(nodes) && FreshLevel(nodes, drawNodes)
  {
    assert InRange(nodes, NodesOf(drawNodes));
    |drawNodes| > 0 && |updated| == |drawNodes| &&
    NodesOf(children) == Children(nodes, NodesOf(drawNodes), true) &&
    FreshLevel(nodes, children) &&
    (|children| > 0 ==> children[0].orderNumber == drawNodes[0].orderNumber - |drawNodes|) &&
    (forall q | 0 <= q < |drawNodes| :: SameNode(updated[q], drawNodes[q])) &&
    (forall q | 0 <= q < |drawNodes| ::
       LinkedInLevel(nodes, updated[q], children, drawNodes[0].orderNumber - |drawNodes|))
  }

  lemma ProgressComplete(nodes: seq<NodeData>, drawNodes: seq<DrawNode>, updated: seq<DrawNode>,
                         children: seq<DrawNode>, base: int)
    requires WellFormed(nodes) && AllTitled(nodes) && FreshLevel(nodes, drawNodes) && |drawNodes| > 0
    requires InRange(nodes, NodesOf(drawNodes))
    requires base == drawNodes[0].orderNumber - |drawNodes|
    requires LevelProgress(nodes, drawNodes, |drawNodes|, updated, children, base)
    ensures LevelLinks(nodes, drawNodes, updated, children)
  {
    TakeAll(NodesOf(drawNodes));
    FreshLevelFrom(nodes, children, base);
  }

  /** The next level is smaller, counted in subtree sizes, and fresh. */
  lemma LevelShrinks(nodes: seq<NodeData>, drawNodes: seq<DrawNode>, updated: seq<DrawNode>, children: seq<DrawNode>)
    requires WellFormed(nodes) && AllTitled(nodes) && FreshLevel(nodes, drawNodes)
    requires LevelLinks(nodes, drawNodes, updated, children)
    ensures FreshLevel(nodes, children)
    ensures SizeSum(nodes, NodesOf(children)) < SizeSum(nodes, NodesOf(drawNodes))
  {
    ChildrenSize(nodes, NodesOf(drawNodes), true);
  }

  lemma TakeAll(ns: seq<nat>)
    ensures ns[..|ns|] == ns
  {
  }

  /** The draw nodes of `ds` are fresh draw nodes numbered `start`, `start - 1`, ... in order. */
  ghost predicate CreatedFrom(nodes: seq<NodeData>, ds: seq<DrawNode>, start: int)
    requires AllTitled(nodes)
  {
    forall c | 0 <= c < |ds| :: ds[c].node < |nodes| && ds[c] == CreateDrawNode(nodes, ds[c].node, start - c)
  }

  /** After `k` passes: the next level holds the children of the first `k` nodes of `ns`, right child first. */
  ghost predicate NextLevelSoFar(nodes: seq<NodeData>, ns: seq<nat>, k: nat, children: seq<DrawNode>, base: int)
    requires WellFormed(nodes) && AllTitled(nodes) && InRange(nodes, ns) && k <= |ns|
  {
    NodesOf(children) == Children(nodes, ns[..k], true) && CreatedFrom(nodes, children, base)
  }

  /** After `k` passes: the first `k` draw nodes have their child links set into `children`, the others are untouched. */
  ghost predicate LinksSoFar(nodes: seq<NodeData>, drawNodes: seq<DrawNode>, k: nat,
                             updated: seq<DrawNode>, children: seq<DrawNode>, base: int)
  {
    k <= |drawNodes| == |updated| &&
    (forall q | k <= q < |drawNodes| :: updated[q] == drawNodes[q]) &&
    (forall q | 0 <= q < k :: SameNode(updated[q], drawNodes[q])) &&
    (forall q | 0 <= q < k :: LinkedInLevel(nodes, updated[q], children, base))
  }

  /** What the loop of LinkLevel has done after `k` passes. */
  ghost predicate LevelProgress(nodes: seq<NodeData>, drawNodes: seq<DrawNode>, k: nat,
                                updated: seq<DrawNode>, children: seq<DrawNode>, base: int)
    requires WellFormed(nodes) && AllTitled(nodes) && InRange(nodes, NodesOf(drawNodes))
  {
    k <= |drawNodes| &&
    NextLevelSoFar(nodes, NodesOf(drawNodes), k, children, base) &&
    LinksSoFar(nodes, drawNodes, k, updated, children, base)
  }

  lemma ProgressStart(nodes: seq<NodeData>, drawNodes: seq<DrawNode>, base: int)
    requires WellFormed(nodes) && AllTitled(nodes) && FreshLevel(nodes, drawNodes)
    ensures InRange(nodes, NodesOf(drawNodes))
    ensures LevelProgress(nodes, drawNodes, 0, drawNodes, [], base)
  {
    assert NodesOf(drawNodes)[..0] == [];
  }

  /** One pass of the loop keeps NextLevelSoFar. */
  lemma NextLevelStep(nodes: seq<NodeData>, ns: seq<nat>, k: nat, children: seq<DrawNode>,
                      created: seq<DrawNode>, base: int)
    requires WellFormed(nodes) && AllTitled(nodes) && InRange(nodes, ns) && k < |ns|
    requires NextLevelSoFar(nodes, ns, k, children, base)
    requires NodesOf(created) == Kids(nodes, ns[k], true)
    requires CreatedFrom(nodes, created, base - |children|)
    ensures NextLevelSoFar(nodes, ns, k + 1, children + created, base)
  {
    StepChildren(nodes, ns, k, children, created);
    StepCreated(nodes, children, created, base);
  }

  /** One pass of the loop keeps LinksSoFar. */
  lemma LinksStep(nodes: seq<NodeData>, drawNodes: seq<DrawNode>, k: nat, updated: seq<DrawNode>,
                  children: seq<DrawNode>, base: int, linked: DrawNode, created: seq<DrawNode>, updated': seq<DrawNode>)
    requires k < |drawNodes| && LinksSoFar(nodes, drawNodes, k, updated, children, base)
    requires updated' == updated[k := linked]
    requires SameNode(linked, drawNodes[k])
    requires LinkedInLevel(nodes, linked, created, base - |children|)
    ensures LinksSoFar(nodes, drawNodes, k + 1, updated', children + created, base)
  {
    StepLinks(nodes, updated, k, linked, children, created, base, updated');
    StepUpdated(drawNodes, updated, k, linked, updated');
  }

  lemma StepCreated(nodes: seq<NodeData>, children: seq<DrawNode>, created: seq<DrawNode>, base: int)
    requires AllTitled(nodes)
    requires CreatedFrom(nodes, children, base) && CreatedFrom(nodes, created, base - |children|)
    ensures CreatedFrom(nodes, children + created, base)
  {
    forall c | 0 <= c < |children + created|
      ensures (children + created)[c].node < |nodes| &&
              (children + created)[c] == CreateDrawNode(nodes, (children + created)[c].node, base - c)
    {
      if c >= |children| {
        assert (children + created)[c] == created[c - |children|];
      }
    }
  }

  lemma StepUpdated(drawNodes: seq<DrawNode>, updated: seq<DrawNode>, k: nat, linked: DrawNode, updated': seq<DrawNode>)
    requires k < |drawNodes| == |updated| && updated' == updated[k := linked]
    requires forall q | k <= q < |drawNodes| :: updated[q] == drawNodes[q]
    requires forall q | 0 <= q < k :: SameNode(updated[q], drawNodes[q])
    requires SameNode(linked, drawNodes[k])
    ensures |updated'| == |drawNodes|
    ensures forall q | k + 1 <= q < |drawNodes| :: updated'[q] == drawNodes[q]
    ensures forall q | 0 <= q < k + 1 :: SameNode(updated'[q], drawNodes[q])
  {
  }

  lemma TakeOneMore(ns: seq<nat>, k: nat)
    requires k < |ns|
    ensures ns[..k + 1] == ns[..k] + [ns[k]]
  {
  }

  lemma StepChildren(nodes: seq<NodeData>, ns: seq<nat>, k: nat, children: seq<DrawNode>, created: seq<DrawNode>)
    requires WellFormed(nodes) && InRange(nodes, ns) && k < |ns|
    requires NodesOf(children) == Children(nodes, ns[..k], true)
    requires NodesOf(created) == Kids(nodes, ns[k], true)
    ensures NodesOf(children + created) == Children(nodes, ns[..k + 1], true)
  {
    NodesOfAppend(children, created);
    TakeOneMore(ns, k);
    ChildrenAppend(nodes, ns[..k], [ns[k]], true);
    assert Children(nodes, [ns[k]], true) == Kids(nodes, ns[k], true) by {
      assert [ns[k]][1..] == [];
    }
  }

  lemma StepLinks(nodes: seq<NodeData>, updated: seq<DrawNode>, k: nat, linked: DrawNode,
                  children: seq<DrawNode>, created: seq<DrawNode>, base: int, updated': seq<DrawNode>)
    requires k < |updated| && updated' == updated[k := linked]
    requires forall q | 0 <= q < k :: LinkedInLevel(nodes, updated[q], children, base)
    requires LinkedInLevel(nodes, linked, created, base - |children|)
    ensures forall q | 0 <= q < k + 1 :: LinkedInLevel(nodes, updated'[q], children + created, base)
  {
    LinkedInLevelShift(nodes, linked, children, created, base - |children|);
    forall q | 0 <= q < k + 1 ensures LinkedInLevel(nodes, updated'[q], children + created, base) {
      if q < k {
        LinkedInLevelExtend(nodes, updated[q], children, created, base);
      }
    }
  }

  /** The draw nodes of `all` carry the numbers `top`, `top - 1`, ... in order. */
  predicate Numbered(all: seq<DrawNode>, top: int)
  {
    forall q | 0 <= q < |all| :: all[q].orderNumber == top - q
  }

  predicate AllShown(nodes: seq<NodeData>, all: seq<DrawNode>)
    requires AllTitled(nodes)
  {
    forall q | 0 <= q < |all| :: Shows(nodes, all[q])
  }

  predicate AllLinked(nodes: seq<NodeData>, all: seq<DrawNode>, top: int)
  {
    forall q | 0 <= q < |all| :: Linked(nodes, all, top, q)
  }

  /** `all` begins with the nodes of `level`, under the same numbers. */
  predicate StartsWith(all: seq<DrawNode>, level: seq<DrawNode>)
  {
    |level| <= |all| &&
    forall q | 0 <= q < |level| :: all[q].node == level[q].node && all[q].orderNumber == level[q].orderNumber
  }

  /** What the private overload of PrepareDrawNodes promises about its result `all` for the level `drawNodes`. */
  ghost predicate LevelDrawn(nodes: seq<NodeData>, drawNodes: seq<DrawNode>, all: seq<DrawNode>)
    requires WellFormed(nodes) && AllTitled(nodes) && FreshLevel(nodes, drawNodes)
  {
    assert InRange(nodes, NodesOf(drawNodes));
    |all| == SizeSum(nodes, NodesOf(drawNodes)) &&
    NodesOf(all) == FlattenNodes(nodes, NodesOf(drawNodes), true) &&
    StartsWith(all, drawNodes) &&
    AllShown(nodes, all) &&
    (|drawNodes| > 0 ==> Numbered(all, drawNodes[0].orderNumber) && AllLinked(nodes, all, drawNodes[0].orderNumber))
  }

  lemma FreshLevelFrom(nodes: seq<NodeData>, children: seq<DrawNode>, base: int)
    requires AllTitled(nodes) && CreatedFrom(nodes, children, base)
    ensures FreshLevel(nodes, children)
    ensures |children| > 0 ==> children[0].orderNumber == base
  {
  }

  /** A fresh level whose draw nodes got their child links still shows its nodes under its numbers. */
  lemma UpdatedLevel(nodes: seq<NodeData>, drawNodes: seq<DrawNode>, updated: seq<DrawNode>)
    requires AllTitled(nodes) && FreshLevel(nodes, drawNodes) && |drawNodes| > 0
    requires |updated| == |drawNodes| && forall q | 0 <= q < |drawNodes| :: SameNode(updated[q], drawNodes[q])
    ensures Numbered(updated, drawNodes[0].orderNumber) && AllShown(nodes, updated)
    ensures StartsWith(updated, drawNodes)
  {
  }

  lemma NumberedAppend(a: seq<DrawNode>, b: seq<DrawNode>, top: int)
    requires Numbered(a, top) && Numbered(b, top - |a|)
    ensures Numbered(a + b, top)
  {
  }

  lemma ShownAppend(nodes: seq<NodeData>, a: seq<DrawNode>, b: seq<DrawNode>)
    requires AllTitled(nodes) && AllShown(nodes, a) && AllShown(nodes, b)
    ensures AllShown(nodes, a + b)
  {
  }

  lemma StartsWithAppend(a: seq<DrawNode>, b: seq<DrawNode>, level: seq<DrawNode>)
    requires StartsWith(a, level)
    ensures StartsWith(a + b, level)
  {
  }

  /** What the levels below promise, in the terms LinkedAppend needs. */
  lemma RestLinked(nodes: seq<NodeData>, children: seq<DrawNode>, rest: seq<DrawNode>, base: int)
    requires WellFormed(nodes) && AllTitled(nodes) && FreshLevel(nodes, children)
    requires |children| > 0 ==> children[0].orderNumber == base
    requires LevelDrawn(nodes, children, rest)
    ensures StartsWith(rest, children) && AllLinked(nodes, rest, base) && Numbered(rest, base)
  {
    if children == [] {
      assert NodesOf(children) == [];
    }
  }

  /** The parts of LevelLinks that LinkedAppend needs. */
  lemma LevelLinksParts(nodes: seq<NodeData>, drawNodes: seq<DrawNode>, updated: seq<DrawNode>, children: seq<DrawNode>)
    requires WellFormed(nodes) && AllTitled(nodes) && FreshLevel(nodes, drawNodes)
    requires LevelLinks(nodes, drawNodes, updated, children)
    ensures |drawNodes| > 0 && |updated| == |drawNodes|
    ensures |children| > 0 ==> children[0].orderNumber == drawNodes[0].orderNumber - |updated|
    ensures forall q | 0 <= q < |drawNodes| :: SameNode(updated[q], drawNodes[q])
    ensures forall q | 0 <= q < |updated| ::
      LinkedInLevel(nodes, updated[q], children, drawNodes[0].orderNumber - |updated|)
  {
  }

  /** The level, with its links set, followed by the levels below it, is drawn as promised. */
  lemma LevelDone(nodes: seq<NodeData>, drawNodes: seq<DrawNode>, updated: seq<DrawNode>,
                  children: seq<DrawNode>, rest: seq<DrawNode>)
    requires WellFormed(nodes) && AllTitled(nodes) && FreshLevel(nodes, drawNodes)
    requires LevelLinks(nodes, drawNodes, updated, children)
    requires FreshLevel(nodes, children) && LevelDrawn(nodes, children, rest)
    ensures LevelDrawn(nodes, drawNodes, updated + rest)
  {
    LevelDoneShown(nodes, drawNodes, updated, children, rest);
    var base := drawNodes[0].orderNumber - |drawNodes|;
    RestLinked(nodes, children, rest, base);
    LevelDoneLinked(nodes, drawNodes, updated, children, rest);
    DrawnOrder(nodes, drawNodes, updated, children, rest);
    Assemble(nodes, drawNodes, updated + rest);
  }

  /** The level, with its links set, followed by the levels below it, is numbered and linked from the level's number on. */
  lemma LevelDoneLinked(nodes: seq<NodeData>, drawNodes: seq<DrawNode>, updated: seq<DrawNode>,
                        children: seq<DrawNode>, rest: seq<DrawNode>)
    requires WellFormed(nodes) && AllTitled(nodes) && FreshLevel(nodes, drawNodes)
    requires LevelLinks(nodes, drawNodes, updated, children)
    requires var base := drawNodes[0].orderNumber - |drawNodes|;
      StartsWith(rest, children) && AllLinked(nodes, rest, base) && Numbered(rest, base)
    ensures |drawNodes| > 0
    ensures Numbered(updated + rest, drawNodes[0].orderNumber)
    ensures AllLinked(nodes, updated + rest, drawNodes[0].orderNumber)
  {
    LevelLinksParts(nodes, drawNodes, updated, children);
    LinkedAppend(nodes, drawNodes, updated, children, rest, drawNodes[0].orderNumber, drawNodes[0].orderNumber - |updated|);
  }

  /**
   * The nodes of the level followed by the nodes drawn below it are the
   * level-order listing of the level, right child before left.
   */
  lemma DrawnOrder(nodes: seq<NodeData>, drawNodes: seq<DrawNode>, updated: seq<DrawNode>,
                   children: seq<DrawNode>, rest: seq<DrawNode>)
    requires WellFormed(nodes) && AllTitled(nodes) && FreshLevel(nodes, drawNodes)
    requires LevelLinks(nodes, drawNodes, updated, children)
    requires FreshLevel(nodes, children) && LevelDrawn(nodes, children, rest)
    ensures InRange(nodes, NodesOf(drawNodes))
    ensures NodesOf(updated + rest) == FlattenNodes(nodes, NodesOf(drawNodes), true)
  {
    var ns := NodesOf(drawNodes);
    assert InRange(nodes, ns);
    NodesOfAppend(updated, rest);
    assert NodesOf(updated) == ns;
    FlattenUnfold(nodes, ns, true);
  }

  lemma Assemble(nodes: seq<NodeData>, drawNodes: seq<DrawNode>, all: seq<DrawNode>)
    requires WellFormed(nodes) && AllTitled(nodes) && FreshLevel(nodes, drawNodes) && |drawNodes| > 0
    requires InRange(nodes, NodesOf(drawNodes))
    requires |all| == SizeSum(nodes, NodesOf(drawNodes))
    requires NodesOf(all) == FlattenNodes(nodes, NodesOf(drawNodes), true)
    requires StartsWith(all, drawNodes) && AllShown(nodes, all)
    requires Numbered(all, drawNodes[0].orderNumber)
    requires AllLinked(nodes, all, drawNodes[0].orderNumber)
    ensures LevelDrawn(nodes, drawNodes, all)
  {
  }

  lemma LevelDoneShown(nodes: seq<NodeData>, drawNodes: seq<DrawNode>, updated: seq<DrawNode>,
                       children: seq<DrawNode>, rest: seq<DrawNode>)
    requires WellFormed(nodes) && AllTitled(nodes) && FreshLevel(nodes, drawNodes)
    requires LevelLinks(nodes, drawNodes, updated, children)
    requires FreshLevel(nodes, children) && LevelDrawn(nodes, children, rest)
    ensures |drawNodes| > 0
    ensures |updated + rest| == SizeSum(nodes, NodesOf(drawNodes))
    ensures StartsWith(updated + rest, drawNodes) && AllShown(nodes, updated + rest)
  {
    assert InRange(nodes, NodesOf(drawNodes));
    DrawnSize(nodes, NodesOf(drawNodes), updated, NodesOf(children), rest);
    UpdatedLevel(nodes, drawNodes, updated);
    StartsWithAppend(updated, rest, drawNodes);
    ShownAppend(nodes, updated, rest);
  }

  lemma LinkedAppend(nodes: seq<NodeData>, drawNodes: seq<DrawNode>, updated: seq<DrawNode>,
                     children: seq<DrawNode>, rest: seq<DrawNode>, top: int, base: int)
    requires AllTitled(nodes) && FreshLevel(nodes, drawNodes) && |drawNodes| > 0
    requires top == drawNodes[0].orderNumber && base == top - |updated|
    requires |updated| == |drawNodes| && forall q | 0 <= q < |drawNodes| :: SameNode(updated[q], drawNodes[q])
    requires forall q | 0 <= q < |updated| :: LinkedInLevel(nodes, updated[q], children, base)
    requires StartsWith(rest, children) && AllLinked(nodes, rest, base) && Numbered(rest, base)
    ensures Numbered(updated + rest, top)
    ensures AllLinked(nodes, updated + rest, top)
  {
    UpdatedLevel(nodes, drawNodes, updated);
    NumberedAppend(updated, rest, top);
    LevelLinked(nodes, updated, children, rest, top, base);
  }

  lemma DrawnSize(nodes: seq<NodeData>, ns: seq<nat>, updated: seq<DrawNode>, cs: seq<nat>, rest: seq<DrawNode>)
    requires WellFormed(nodes) && InRange(nodes, ns) && |updated| == |ns|
    requires cs == Children(nodes, ns, true) && |rest| == SizeSum(nodes, cs)
    ensures |updated + rest| == SizeSum(nodes, ns)
    ensures cs == [] ==> rest == []
  {
    ChildrenSize(nodes, ns, true);
  }

  /**
   * The private overload of NodeUtils.PrepareDrawNodes: the level, with its
   * child links set, followed by the draw nodes of the levels below.
   */
  method PrepareLevel(nodes: seq<NodeData>, drawNodes: seq<DrawNode>) returns (all: seq<DrawNode>)
    requires WellFormed(nodes) && AllTitled(nodes) && FreshLevel(nodes, drawNodes)
    ensures LevelDrawn(nodes, drawNodes, all)
    decreases SizeSum(nodes, NodesOf(drawNodes))
  {
    if |drawNodes| == 0 {
      return [];
    }
    var updated, childDrawNodes := LinkLevel(nodes, drawNodes);
    LevelShrinks(nodes, drawNodes, updated, childDrawNodes);
    var rest := PrepareLevel(nodes, childDrawNodes);
    LevelDone(nodes, drawNodes, updated, childDrawNodes, rest);
    all := updated + rest;
  }

  /**
   * NodeUtils.PrepareDrawNodes(node): the draw nodes of the subtree of
   * `node`, one per node, in level order, right child before left; `node` gets
   * GetTreeSize(node) and each following draw node one less, so the numbers
   * are 1..size each once, and every child link points to a later (lower
   * numbered) draw node showing that child.
   */
  method PrepareDrawNodes(nodes: seq<NodeData>, node: nat) returns (all: seq<DrawNode>)
    requires WellFormed(nodes) && AllTitled(nodes) && node < |nodes|
    ensures |all| == GetTreeSize(nodes, node)
    ensures all[0].node == node
    ensures forall q | 0 <= q < |all| :: all[q].orderNumber == |all| - q
    ensures forall q | 0 <= q < |all| :: Shows(nodes, all[q])
    ensures forall q | 0 <= q < |all| :: Linked(nodes, all, |all|, q)
    ensures NodesOf(all) == FlattenNodes(nodes, [node], true)
    ensures Distinct(NodesOf(all))
    ensures forall y | 0 <= y < |nodes| :: y in NodesOf(all) <==> Descends(nodes, y, node)
  {
    var size := GetTreeSize(nodes, node);
    var first := [CreateDrawNode(nodes, node, size)];
    assert NodesOf(first) == [node];
    assert SizeSum(nodes, [node]) == size by {
      assert [node][1..] == [];
    }
    all := PrepareLevel(nodes, first);
    FlattenSubtree(nodes, node, true);
  }
}
