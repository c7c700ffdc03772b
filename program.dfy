// The per-character tree update of Huffman/Program.cs (lines 18-53).
//
// The loop reads one character at a time. A character seen before bumps
// the weight of its leaf; a new one splits the not-yet-transmitted (NYT)
// sentinel: a fresh internal node takes the sentinel's place and gets the
// sentinel and a new weight-1 leaf as its children. Nothing else is done to
// the tree, so after k distinct characters it is a left spine of k internal
// nodes, each with a character leaf on the right and the sentinel at the
// bottom left. Valid() states this closed form and the lemmas below read the
// tree measures of Node.cs off it.
module Spine {
  import opened Nodes
  import NodeUtils

  /** How often `c` occurs in `s`. */
  function Count(s: seq<char>, c: char): (n: nat)
    ensures n <= |s|
  {
    if s == [] then 0
    else Count(s[..|s| - 1], c) + (if s[|s| - 1] == c then 1 else 0)
  }

  lemma CountAppend(s: seq<char>, c: char, d: char)
    ensures Count(s + [c], d) == Count(s, d) + (if c == d then 1 else 0)
  {
    assert (s + [c])[..|s + [c]| - 1] == s;
  }

  /** A character occurs a positive number of times exactly when it is in `s`. */
  lemma {:induction false} CountZero(s: seq<char>, c: char)
    ensures Count(s, c) == 0 <==> c !in s
  {
    if s != [] {
      var p := s[..|s| - 1];
      CountZero(p, c);
      assert s == p + [s[|s| - 1]];
    }
  }

  predicate Unique(s: seq<char>)
  {
    forall i, j | 0 <= i < j < |s| :: s[i] != s[j]
  }

  /**
   * The distinct characters of `s` in the order of their first occurrence:
   * the order in which the loop creates their leaves.
   */
  function FirstOccurrences(s: seq<char>): (chars: seq<char>)
    ensures |chars| <= |s|
  {
    if s == [] then []
    else
      var chars := FirstOccurrences(s[..|s| - 1]);
      var c := s[|s| - 1];
      if c in chars then chars else chars + [c]
  }

  /** FirstOccurrences lists exactly the characters of `s`. */
  lemma {:induction false} FirstOccurrencesMembers(s: seq<char>)
    ensures forall c :: c in FirstOccurrences(s) <==> c in s
  {
    if s != [] {
      var p := s[..|s| - 1];
      FirstOccurrencesMembers(p);
      assert s == p + [s[|s| - 1]];
    }
  }

  /** No character is listed twice. */
  lemma {:induction false} FirstOccurrencesUnique(s: seq<char>)
    ensures Unique(FirstOccurrences(s))
  {
    if s != [] {
      FirstOccurrencesUnique(s[..|s| - 1]);
    }
  }

  lemma FirstOccurrencesAppend(s: seq<char>, c: char)
    ensures FirstOccurrences(s + [c]) ==
      if c in FirstOccurrences(s) then FirstOccurrences(s) else FirstOccurrences(s) + [c]
  {
    assert (s + [c])[..|s + [c]| - 1] == s;
  }

  /** The index of the internal node created for the `m`-th new character. */
  function InternalAt(m: nat): nat { 2 * m + 1 }

  /** The index of the leaf created for the `m`-th new character. */
  function LeafAt(m: nat): nat { 2 * m + 2 }

  /** The index of the root: the sentinel while no character has been read, else the first internal node. */
  function RootAt(k: nat): nat { if k == 0 then 0 else 1 }

  /** The sentinel after `k` new characters: the left child of the newest internal node, or the root. */
  function SentinelNode(k: nat): NodeData
  {
    NodeData(if k == 0 then Nil else At(InternalAt(k - 1)), Nil, Nil, 0, None, Null)
  }

  /**
   * The internal node of the `m`-th new character: below the previous one
   * (or the root), with the next internal node (or, for the newest one, the
   * sentinel) on the left and its character's leaf on the right.
   */
  function InternalNode(k: nat, m: nat): NodeData
  {
    NodeData(if m == 0 then Nil else At(InternalAt(m - 1)),
             if m + 1 == k then At(0) else At(InternalAt(m + 1)),
             At(LeafAt(m)), 0, None, Internal)
  }

  /** The leaf of the `m`-th new character, weighted by the number of its occurrences in `seen`. */
  function LeafNode(chars: seq<char>, seen: seq<char>, m: nat): NodeData
    requires m < |chars|
  {
    NodeData(At(InternalAt(m)), Nil, Nil, Count(seen, chars[m]), Some(chars[m]), Character)
  }

  /**
   * The arena after reading `seen`, whose distinct characters are `chars`:
   * the sentinel is node 0 and the nodes of the `m`-th new character are
   * InternalAt(m) and LeafAt(m), in the order the loop allocates them.
   */
  ghost predicate IsSpine(nodes: seq<NodeData>, chars: seq<char>, seen: seq<char>)
  {
    |nodes| == 2 * |chars| + 1 && nodes[0] == SentinelNode(|chars|) &&
    (forall m {:trigger InternalNode(|chars|, m)} | 0 <= m < |chars| :: nodes[InternalAt(m)] == InternalNode(|chars|, m)) &&
    (forall m {:trigger LeafNode(chars, seen, m)} | 0 <= m < |chars| :: nodes[LeafAt(m)] == LeafNode(chars, seen, m))
  }

  /** Node `i` of the spine, told apart by the parity of its index. */
  function SpineNode(chars: seq<char>, seen: seq<char>, i: nat): NodeData
    requires i <= 2 * |chars|
  {
    if i == 0 then SentinelNode(|chars|)
    else if i % 2 == 1 then InternalNode(|chars|, (i - 1) / 2)
    else LeafNode(chars, seen, (i - 2) / 2)
  }

  /**
   * The arena after reading `seen`: the one arena of the closed form (it
   * exists by SpineExists and is unique by SpineUnique).
   */
  ghost function ArenaOf(seen: seq<char>): seq<NodeData>
  {
    SpineExists(seen);
    var nodes :| IsSpine(nodes, FirstOccurrences(seen), seen); nodes
  }

  /**
   * The character index after reading `s`, as the loop builds it: a new
   * character is registered with the leaf allocated for it, a known one
   * leaves the index as it is.
   */
  ghost function IndexOf(s: seq<char>): map<char, nat>
  {
    if s == [] then map[]
    else
      var prev := IndexOf(s[..|s| - 1]);
      var c := s[|s| - 1];
      if c in prev then prev else prev[c := LeafAt(|FirstOccurrences(s[..|s| - 1])|)]
  }

  /** The state the loop keeps, as values: arena, root, sentinel, character index and the input read so far. */
  ghost predicate State(nodes: seq<NodeData>, root: nat, nyt: nat, byChar: map<char, nat>, seen: seq<char>)
  {
    nodes == ArenaOf(seen) && root == RootAt(|FirstOccurrences(seen)|) && nyt == 0 && byChar == IndexOf(seen)
  }

  /** `byChar` maps exactly the characters of `chars`, the `m`-th to the `m`-th leaf. */
  predicate IsIndex(byChar: map<char, nat>, chars: seq<char>)
  {
    (forall d :: d in byChar <==> d in chars) &&
    forall m | 0 <= m < |chars| :: chars[m] in byChar && byChar[chars[m]] == LeafAt(m)
  }

  /** The closed form can be met: lay out the nodes by SpineNode. */
  lemma SpineExists(seen: seq<char>)
    ensures exists nodes :: IsSpine(nodes, FirstOccurrences(seen), seen)
  {
    var chars := FirstOccurrences(seen);
    var nodes := seq(2 * |chars| + 1, i requires 0 <= i <= 2 * |chars| => SpineNode(chars, seen, i));
    forall m | 0 <= m < |chars| ensures nodes[InternalAt(m)] == InternalNode(|chars|, m) {
      assert (InternalAt(m) - 1) / 2 == m;
    }
    forall m | 0 <= m < |chars| ensures nodes[LeafAt(m)] == LeafNode(chars, seen, m) {
      assert (LeafAt(m) - 2) / 2 == m;
    }
    assert IsSpine(nodes, chars, seen);
  }

  /** Every node of an arena of the closed form is the one SpineNode names. */
  lemma SpineAt(nodes: seq<NodeData>, chars: seq<char>, seen: seq<char>, i: nat)
    requires IsSpine(nodes, chars, seen) && i < |nodes|
    ensures nodes[i] == SpineNode(chars, seen, i)
  {
    if i % 2 == 1 {
      var m := (i - 1) / 2;
      assert i == InternalAt(m) && nodes[InternalAt(m)] == InternalNode(|chars|, m);
    } else if i > 0 {
      var m := (i - 2) / 2;
      assert i == LeafAt(m) && nodes[LeafAt(m)] == LeafNode(chars, seen, m);
    }
  }

  /** The closed form determines the arena. */
  lemma SpineUnique(nodes: seq<NodeData>, chars: seq<char>, seen: seq<char>)
    requires chars == FirstOccurrences(seen) && IsSpine(nodes, chars, seen)
    ensures nodes == ArenaOf(seen)
  {
    var spine := ArenaOf(seen);
    forall i | 0 <= i < |nodes| ensures nodes[i] == spine[i] {
      SpineAt(nodes, chars, seen, i);
      SpineAt(spine, chars, seen, i);
    }
  }

  /** IndexOf registers each distinct character with its leaf. */
  lemma {:induction false} IndexOfLeaves(s: seq<char>)
    ensures IsIndex(IndexOf(s), FirstOccurrences(s))
  {
    if s != [] {
      var p := s[..|s| - 1];
      var c := s[|s| - 1];
      IndexOfLeaves(p);
      assert s == p + [c];
      FirstOccurrencesAppend(p, c);
    }
  }

  /** What State says about the arena, node by node. */
  lemma StateArena(nodes: seq<NodeData>, seen: seq<char>)
    requires nodes == ArenaOf(seen)
    ensures IsSpine(nodes, FirstOccurrences(seen), seen)
  {
  }

  /** What State says about the arena and the index, node by node. */
  lemma StateSpine(nodes: seq<NodeData>, root: nat, nyt: nat, byChar: map<char, nat>, seen: seq<char>)
    requires State(nodes, root, nyt, byChar, seen)
    ensures IsSpine(nodes, FirstOccurrences(seen), seen) && IsIndex(byChar, FirstOccurrences(seen))
  {
    IndexOfLeaves(seen);
  }

  /** The level of node `i` in the spine of `k` characters. */
  function SpineLevel(k: nat, i: int): nat
  {
    if i <= 0 then k else i / 2
  }

  /** `levels` gives every node of the spine of `k` characters its SpineLevel. */
  ghost predicate SpineLevels(levels: seq<nat>, k: nat)
  {
    |levels| == 2 * k + 1 && forall j | 0 <= j < |levels| :: levels[j] == SpineLevel(k, j)
  }

  /** The spine is a well-formed tree: its links agree with the levels SpineLevel. */
  lemma SpineWellFormed(nodes: seq<NodeData>, chars: seq<char>, seen: seq<char>)
    requires IsSpine(nodes, chars, seen)
    ensures WellFormed(nodes)
  {
    var levels := seq(|nodes|, i => SpineLevel(|chars|, i));
    forall i | 0 <= i < |nodes| ensures LinkOk(nodes, levels, i) {
      SpineLinkOk(nodes, chars, seen, levels, i);
    }
    assert Leveled(nodes, levels);
  }

  /** The links of node `i` of the spine agree with SpineLevels. */
  lemma SpineLinkOk(nodes: seq<NodeData>, chars: seq<char>, seen: seq<char>, levels: seq<nat>, i: nat)
    requires IsSpine(nodes, chars, seen) && SpineLevels(levels, |chars|) && i < |nodes|
    ensures LinkOk(nodes, levels, i)
  {
    var k := |chars|;
    if i == 0 {
      if k > 0 {
        assert nodes[InternalAt(k - 1)] == InternalNode(k, k - 1);
      }
    } else if i % 2 == 1 {
      InternalLinkOk(nodes, chars, seen, levels, (i - 1) / 2);
    } else {
      var m := (i - 2) / 2;
      assert i == LeafAt(m);
      assert nodes[i] == LeafNode(chars, seen, m);
      assert nodes[InternalAt(m)] == InternalNode(k, m);
      assert levels[InternalAt(m)] == m && levels[LeafAt(m)] == m + 1;
    }
  }

  /** The links of the `m`-th internal node agree with SpineLevels. */
  lemma InternalLinkOk(nodes: seq<NodeData>, chars: seq<char>, seen: seq<char>, levels: seq<nat>, m: nat)
    requires IsSpine(nodes, chars, seen) && SpineLevels(levels, |chars|) && m < |chars|
    ensures LinkOk(nodes, levels, InternalAt(m))
  {
    var k := |chars|;
    assert nodes[InternalAt(m)] == InternalNode(k, m);
    assert nodes[LeafAt(m)] == LeafNode(chars, seen, m);
    assert levels[InternalAt(m)] == m && levels[LeafAt(m)] == m + 1;
    if m > 0 {
      assert nodes[InternalAt(m - 1)] == InternalNode(k, m - 1);
    }
    if m + 1 < k {
      assert nodes[InternalAt(m + 1)] == InternalNode(k, m + 1);
    }
  }

  /** Below the `m`-th internal node hang the `k - m` newer internal nodes, their leaves and the sentinel. */
  lemma {:induction false} SpineBelow(nodes: seq<NodeData>, chars: seq<char>, seen: seq<char>, m: nat)
    requires IsSpine(nodes, chars, seen) && m < |chars|
    ensures WellFormed(nodes)
    ensures GetTreeSize(nodes, InternalAt(m)) == 2 * (|chars| - m) + 1
    ensures GetTreeHeight(nodes, InternalAt(m)) == |chars| - m + 1
    decreases |chars| - m
  {
    SpineWellFormed(nodes, chars, seen);
    var k := |chars|;
    assert nodes[InternalAt(m)] == InternalNode(k, m);
    assert nodes[LeafAt(m)] == LeafNode(chars, seen, m);
    assert GetTreeSize(nodes, LeafAt(m)) == 1 && GetTreeHeight(nodes, LeafAt(m)) == 1;
    if m + 1 == k {
      assert GetTreeSize(nodes, 0) == 1 && GetTreeHeight(nodes, 0) == 1;
    } else {
      SpineBelow(nodes, chars, seen, m + 1);
    }
  }

  /** The `m`-th internal node is `m + 1` nodes from the root. */
  lemma {:induction false} SpineDepth(nodes: seq<NodeData>, chars: seq<char>, seen: seq<char>, m: nat)
    requires IsSpine(nodes, chars, seen) && m < |chars|
    ensures WellFormed(nodes)
    ensures GetDeepnes(nodes, InternalAt(m)) == m + 1
  {
    SpineWellFormed(nodes, chars, seen);
    assert nodes[InternalAt(m)] == InternalNode(|chars|, m);
    if m > 0 {
      SpineDepth(nodes, chars, seen, m - 1);
    }
  }

  /**
   * After `k` distinct characters the tree has 2k+1 nodes and height k+1,
   * and the root has no parent.
   */
  lemma SpineShape(nodes: seq<NodeData>, root: nat, nyt: nat, byChar: map<char, nat>, seen: seq<char>)
    requires State(nodes, root, nyt, byChar, seen)
    ensures WellFormed(nodes) && root < |nodes|
    ensures var k := |FirstOccurrences(seen)|;
            GetTreeSize(nodes, root) == 2 * k + 1 && GetTreeHeight(nodes, root) == k + 1 &&
            nodes[root].parent == Nil
  {
    var chars := FirstOccurrences(seen);
    var k := |chars|;
    StateArena(nodes, seen);
    SpineWellFormed(nodes, chars, seen);
    if k > 0 {
      SpineBelow(nodes, chars, seen, 0);
      assert nodes[InternalAt(0)] == InternalNode(k, 0);
    }
  }

  /** The sentinel is a Null node k+1 nodes deep: at the bottom of the spine. */
  lemma SentinelDepth(nodes: seq<NodeData>, root: nat, nyt: nat, byChar: map<char, nat>, seen: seq<char>)
    requires State(nodes, root, nyt, byChar, seen)
    ensures WellFormed(nodes) && nyt < |nodes|
    ensures GetDeepnes(nodes, nyt) == |FirstOccurrences(seen)| + 1 && nodes[nyt].kind == Null
  {
    var chars := FirstOccurrences(seen);
    var k := |chars|;
    StateArena(nodes, seen);
    SpineWellFormed(nodes, chars, seen);
    if k > 0 {
      SpineDepth(nodes, chars, seen, k - 1);
      assert nodes[InternalAt(k - 1)] == InternalNode(k, k - 1);
      DeepnesOfChild(nodes, InternalAt(k - 1), 0);
    }
  }

  /**
   * The level-order listing that the loop takes of the tree after each
   * character (FlattenNodes of the root) has all 2k+1 nodes, each once,
   * starting with the root.
   */
  lemma SpineFlatten(nodes: seq<NodeData>, root: nat, nyt: nat, byChar: map<char, nat>, seen: seq<char>)
    requires State(nodes, root, nyt, byChar, seen)
    ensures WellFormed(nodes) && root < |nodes|
    ensures var flat := NodeUtils.FlattenNodes(nodes, [root], false);
            |flat| == 2 * |FirstOccurrences(seen)| + 1 == |nodes| && NodeUtils.Distinct(flat) &&
            flat[0] == root && forall y | 0 <= y < |nodes| :: y in flat
  {
    SpineShape(nodes, root, nyt, byChar, seen);
    StateArena(nodes, seen);
    NodeUtils.FlattenSubtree(nodes, root, false);
    NodeUtils.FlattenPrefix(nodes, [root], false);
    var flat := NodeUtils.FlattenNodes(nodes, [root], false);
    assert flat[0 + 0] == [root][0];
    forall y | 0 <= y < |nodes| ensures y in flat {
      SpineReaches(nodes, FirstOccurrences(seen), seen, y);
      NodeUtils.DescendantInFlatten(nodes, root, false, y);
    }
  }

  /**
   * The tree the loop draws after each character (PrepareDrawNodes of the
   * root) meets what drawing needs: a well-formed tree whose character
   * leaves all hold their character, so every node has a title.
   */
  lemma StateDrawable(nodes: seq<NodeData>, root: nat, nyt: nat, byChar: map<char, nat>, seen: seq<char>)
    requires State(nodes, root, nyt, byChar, seen)
    ensures WellFormed(nodes) && root < |nodes| && NodeUtils.AllTitled(nodes)
  {
    SpineShape(nodes, root, nyt, byChar, seen);
    StateArena(nodes, seen);
    forall i | 0 <= i < |nodes| ensures NodeUtils.Titled(nodes[i]) {
      SpineAt(nodes, FirstOccurrences(seen), seen, i);
    }
  }

  /** Every node of the spine lies below the root. */
  lemma SpineReaches(nodes: seq<NodeData>, chars: seq<char>, seen: seq<char>, y: nat)
    requires IsSpine(nodes, chars, seen) && y < |nodes|
    ensures WellFormed(nodes) && NodeUtils.Descends(nodes, y, RootAt(|chars|))
  {
    SpineWellFormed(nodes, chars, seen);
    var k := |chars|;
    if y == RootAt(k) {
      assert NodeUtils.Descends(nodes, y, y);
    } else if y % 2 == 1 {
      SpineDescends(nodes, chars, seen, (y - 1) / 2);
    } else {
      var m := if y == 0 then k - 1 else (y - 2) / 2;
      SpineDescends(nodes, chars, seen, m);
      if y > 0 {
        assert y == LeafAt(m) && nodes[LeafAt(m)] == LeafNode(chars, seen, m);
      }
      assert nodes[y].parent == At(InternalAt(m));
      assert NodeUtils.Descends(nodes, y, RootAt(k));
    }
  }

  /** Walking up from the `m`-th internal node reaches the first one, the root. */
  lemma {:induction false} SpineDescends(nodes: seq<NodeData>, chars: seq<char>, seen: seq<char>, m: nat)
    requires IsSpine(nodes, chars, seen) && m < |chars|
    ensures WellFormed(nodes)
    ensures NodeUtils.Descends(nodes, InternalAt(m), InternalAt(0))
  {
    SpineWellFormed(nodes, chars, seen);
    if m > 0 {
      assert nodes[InternalAt(m)] == InternalNode(|chars|, m);
      SpineDescends(nodes, chars, seen, m - 1);
    }
  }

  /**
   * The internal nodes are the odd-numbered ones; each has both children,
   * a leaf on the right, and weight 0: no statement of the loop writes an
   * internal weight.
   */
  lemma InternalNodes(nodes: seq<NodeData>, root: nat, nyt: nat, byChar: map<char, nat>, seen: seq<char>, i: nat)
    requires State(nodes, root, nyt, byChar, seen) && i < |nodes|
    ensures nodes[i].kind == Internal <==> i % 2 == 1
    ensures nodes[i].kind == Internal ==>
      nodes[i].left.At? && nodes[i].right.At? && nodes[i].weight == 0 &&
      nodes[i].right.index < |nodes| && nodes[nodes[i].right.index].kind == Character
  {
    StateArena(nodes, seen);
    var chars := FirstOccurrences(seen);
    if i % 2 == 1 {
      var m := (i - 1) / 2;
      assert i == InternalAt(m) && nodes[i] == InternalNode(|chars|, m);
      assert nodes[LeafAt(m)] == LeafNode(chars, seen, m);
    } else if i > 0 {
      var m := (i - 2) / 2;
      assert i == LeafAt(m) && nodes[i] == LeafNode(chars, seen, m);
    }
  }

  /**
   * The index maps exactly the characters read so far, each to a leaf that
   * holds it and whose weight is the number of its occurrences.
   */
  lemma CharacterLeaves(nodes: seq<NodeData>, root: nat, nyt: nat, byChar: map<char, nat>, seen: seq<char>, c: char)
    returns (n: nat)
    requires State(nodes, root, nyt, byChar, seen)
    ensures c in byChar <==> c in seen
    ensures c in byChar ==>
      n < |FirstOccurrences(seen)| && FirstOccurrences(seen)[n] == c && byChar[c] == LeafAt(n)
    ensures c in byChar ==>
      byChar[c] < |nodes| && nodes[byChar[c]].kind == Character &&
      nodes[byChar[c]].character == Some(c) && nodes[byChar[c]].weight == Count(seen, c)
  {
    StateSpine(nodes, root, nyt, byChar, seen);
    FirstOccurrencesMembers(seen);
    var chars := FirstOccurrences(seen);
    assert c in byChar <==> c in chars;
    n := 0;
    if c in chars {
      n :| 0 <= n < |chars| && chars[n] == c;
      assert nodes[LeafAt(n)] == LeafNode(chars, seen, n);
    }
  }

  /** Distinct characters have distinct leaves. */
  lemma LeavesDistinct(nodes: seq<NodeData>, root: nat, nyt: nat, byChar: map<char, nat>, seen: seq<char>, c: char, d: char)
    requires State(nodes, root, nyt, byChar, seen)
    requires c in byChar && d in byChar && c != d
    ensures byChar[c] != byChar[d]
  {
    var _ := CharacterLeaves(nodes, root, nyt, byChar, seen, c);
    var _ := CharacterLeaves(nodes, root, nyt, byChar, seen, d);
  }

  /** A known character, the `n`-th to have appeared: the loop only bumps the weight of its leaf. */
  lemma KnownStep(nodes: seq<NodeData>, root: nat, nyt: nat, byChar: map<char, nat>, seen: seq<char>, n: nat)
    requires State(nodes, root, nyt, byChar, seen) && n < |FirstOccurrences(seen)|
    ensures LeafAt(n) < |nodes|
    ensures State(nodes[LeafAt(n) := nodes[LeafAt(n)].(weight := nodes[LeafAt(n)].weight + 1)],
                  root, nyt, byChar, seen + [FirstOccurrences(seen)[n]])
  {
    StateSpine(nodes, root, nyt, byChar, seen);
    var chars := FirstOccurrences(seen);
    var seen' := seen + [chars[n]];
    var nodes' := nodes[LeafAt(n) := nodes[LeafAt(n)].(weight := nodes[LeafAt(n)].weight + 1)];
    FirstOccurrencesAppend(seen, chars[n]);
    WeightBumped(nodes, nodes', chars, seen, n);
    SpineUnique(nodes', chars, seen');
    assert seen'[..|seen'| - 1] == seen;
  }

  /**
   * A new character, the arena part: the split of the sentinel gives the
   * closed form for one more character, the root is the new internal node
   * when the sentinel was the root and stays otherwise, and the index gets
   * the new leaf.
   */
  lemma NewStep(nodes: seq<NodeData>, root: nat, byChar: map<char, nat>, seen: seq<char>, c: char)
    requires State(nodes, root, 0, byChar, seen) && c !in byChar
    ensures Splittable(nodes, 0)
    ensures State(SplitArena(nodes, 0, c), if nodes[0].parent.Nil? then |nodes| else root, 0,
                  byChar[c := |nodes| + 1], seen + [c])
  {
    StateSpine(nodes, root, 0, byChar, seen);
    var chars := FirstOccurrences(seen);
    FirstOccurrencesMembers(seen);
    assert c !in seen;
    NewArena(nodes, chars, seen, c);
    FirstOccurrencesAppend(seen, c);
    IndexOfNew(seen, c);
    assert LeafAt(|chars|) == |nodes| + 1;
    assert nodes[0].parent.Nil? <==> |chars| == 0;
  }

  /** The arena after the split of the sentinel is the closed form for one more character. */
  lemma NewArena(nodes: seq<NodeData>, chars: seq<char>, seen: seq<char>, c: char)
    requires chars == FirstOccurrences(seen) && IsSpine(nodes, chars, seen) && c !in chars
    ensures Splittable(nodes, 0) && SplitArena(nodes, 0, c) == ArenaOf(seen + [c])
  {
    SplitShape(nodes, chars, seen, c);
    var nodes' := SplitArena(nodes, 0, c);
    NytSplit(nodes, nodes', chars, seen, c);
    FirstOccurrencesAppend(seen, c);
    FirstOccurrencesMembers(seen);
    SpineUnique(nodes', chars + [c], seen + [c]);
  }

  /** A new character is registered with the leaf allocated after the spine so far. */
  lemma IndexOfNew(s: seq<char>, c: char)
    requires c !in s
    ensures IndexOf(s + [c]) == IndexOf(s)[c := LeafAt(|FirstOccurrences(s)|)]
  {
    IndexOfLeaves(s);
    FirstOccurrencesMembers(s);
    assert (s + [c])[..|s|] == s;
  }

  /** The sentinel's parent, if any, is an internal node whose right child is a leaf. */
  lemma NytParent(nodes: seq<NodeData>, root: nat, nyt: nat, byChar: map<char, nat>, seen: seq<char>)
    requires State(nodes, root, nyt, byChar, seen)
    ensures nyt < |nodes| && RefIn(nodes[nyt].parent, |nodes|)
    ensures nodes[nyt].parent.At? ==>
      var p := nodes[nyt].parent.index;
      p != nyt && nodes[p].kind == Internal && nodes[p].left == At(nyt) &&
      nodes[p].right.At? && nodes[p].right.index < |nodes| && nodes[p].right.index != p &&
      nodes[nodes[p].right.index].kind == Character && nodes[nodes[p].right.index].parent == At(p)
  {
    StateArena(nodes, seen);
    var chars := FirstOccurrences(seen);
    var k := |chars|;
    if k > 0 {
      assert nodes[InternalAt(k - 1)] == InternalNode(k, k - 1);
      assert nodes[LeafAt(k - 1)] == LeafNode(chars, seen, k - 1);
    }
  }

  /** A known character: bumping the weight of its leaf, the `n`-th, keeps the closed form. */
  lemma WeightBumped(nodes: seq<NodeData>, nodes': seq<NodeData>, chars: seq<char>, seen: seq<char>, n: nat)
    requires chars == FirstOccurrences(seen) && IsSpine(nodes, chars, seen) && n < |chars|
    requires nodes' == nodes[LeafAt(n) := nodes[LeafAt(n)].(weight := nodes[LeafAt(n)].weight + 1)]
    ensures IsSpine(nodes', chars, seen + [chars[n]])
  {
    var k := |chars|;
    var c := chars[n];
    FirstOccurrencesUnique(seen);
    forall m | 0 <= m < k ensures nodes'[InternalAt(m)] == InternalNode(k, m) {
      assert nodes[InternalAt(m)] == InternalNode(k, m);
    }
    assert nodes[LeafAt(n)] == LeafNode(chars, seen, n);
    forall m | 0 <= m < k ensures nodes'[LeafAt(m)] == LeafNode(chars, seen + [c], m) {
      assert nodes[LeafAt(m)] == LeafNode(chars, seen, m);
      CountAppend(seen, c, chars[m]);
    }
  }

  /**
   * `nodes'` is `nodes` after the split of the sentinel (node 0) for the new
   * character `c`: a new internal node at |nodes| between the sentinel and
   * its old parent, whose left slot it takes, and a new weight-1 leaf for
   * `c` to its right; every other node is as it was.
   */
  ghost predicate Split(nodes: seq<NodeData>, nodes': seq<NodeData>, c: char)
  {
    |nodes| > 0 && |nodes'| == |nodes| + 2 &&
    nodes'[|nodes|] == NodeData(nodes[0].parent, At(0), At(|nodes| + 1), 0, None, Internal) &&
    nodes'[|nodes| + 1] == NodeData(At(|nodes|), Nil, Nil, 1, Some(c), Character) &&
    nodes'[0] == nodes[0].(parent := At(|nodes|)) &&
    (nodes[0].parent.At? ==>
       nodes[0].parent.index < |nodes| &&
       nodes'[nodes[0].parent.index] == nodes[nodes[0].parent.index].(left := At(|nodes|))) &&
    forall j | 0 < j < |nodes| && nodes[0].parent != At(j) :: nodes'[j] == nodes[j]
  }

  /**
   * The loop's statements for a new character can run: the sentinel's
   * parent, if any, is a node whose right child is set.
   */
  predicate Splittable(nodes: seq<NodeData>, nyt: nat)
  {
    nyt < |nodes| &&
    (nodes[nyt].parent.At? ==>
       nodes[nyt].parent.index < |nodes| && nodes[nodes[nyt].parent.index].right.At? &&
       nodes[nodes[nyt].parent.index].right.index < |nodes|)
  }

  /**
   * The arena after the loop's statements for a new character `c`, in their
   * order: allocate the internal node and the leaf, put the internal node
   * into the sentinel's place below its old parent (keeping that parent's
   * right child) if there is one, and hang the sentinel and the leaf below
   * the internal node.
   */
  function SplitArena(nodes: seq<NodeData>, nyt: nat, c: char): seq<NodeData>
    requires Splittable(nodes, nyt)
  {
    var n := |nodes|;
    var grown := nodes + [Fresh(Internal, None, 0), Fresh(Character, Some(c), 1)];
    var oldNytParent := nodes[nyt].parent;
    var linked :=
      if oldNytParent.At? then WithChildren(grown, oldNytParent.index, n, nodes[oldNytParent.index].right.index)
      else grown;
    WithChildren(linked, n, nyt, n + 1)
  }

  /** The arenas the loop's statements for a new character pass through end in SplitArena. */
  lemma SplitArenaSteps(nodes: seq<NodeData>, nyt: nat, c: char, grown: seq<NodeData>, linked: seq<NodeData>,
                        nodes': seq<NodeData>)
    requires Splittable(nodes, nyt)
    requires grown == nodes + [Fresh(Internal, None, 0)] + [Fresh(Character, Some(c), 1)]
    requires nodes[nyt].parent.Nil? ==> linked == grown
    requires nodes[nyt].parent.At? ==>
      var p := nodes[nyt].parent.index;
      linked == WithChildren(grown, p, |nodes|, nodes[p].right.index)
    requires nodes' == WithChildren(linked, |nodes|, nyt, |nodes| + 1)
    ensures nodes' == SplitArena(nodes, nyt, c)
  {
    assert grown == nodes + [Fresh(Internal, None, 0), Fresh(Character, Some(c), 1)];
  }

  /** On the spine, the loop's statements for a new character perform Split. */
  lemma SplitShape(nodes: seq<NodeData>, chars: seq<char>, seen: seq<char>, c: char)
    requires IsSpine(nodes, chars, seen)
    ensures Splittable(nodes, 0) && Split(nodes, SplitArena(nodes, 0, c), c)
  {
    var k := |chars|;
    var n := |nodes|;
    if k > 0 {
      assert nodes[InternalAt(k - 1)] == InternalNode(k, k - 1);
      assert nodes[LeafAt(k - 1)] == LeafNode(chars, seen, k - 1);
    }
    var grown := nodes + [Fresh(Internal, None, 0), Fresh(Character, Some(c), 1)];
    var p := nodes[0].parent;
    var linked := grown;
    if p.At? {
      linked := WithChildren(grown, p.index, n, nodes[p.index].right.index);
      ChildrenSetBy(grown, p.index, n, nodes[p.index].right.index);
    }
    var nodes' := WithChildren(linked, n, 0, n + 1);
    ChildrenSetBy(linked, n, 0, n + 1);
    assert nodes' == SplitArena(nodes, 0, c);
    forall j | 0 < j < n && p != At(j) ensures nodes'[j] == nodes[j] {
      if k > 0 && j == LeafAt(k - 1) {
        assert linked[j] == grown[j];
      }
    }
  }

  /** A new character: the split of the sentinel extends the closed form by one internal node and one leaf. */
  lemma NytSplit(nodes: seq<NodeData>, nodes': seq<NodeData>, chars: seq<char>, seen: seq<char>, c: char)
    requires chars == FirstOccurrences(seen) && IsSpine(nodes, chars, seen) && c !in chars
    requires Split(nodes, nodes', c)
    ensures IsSpine(nodes', chars + [c], seen + [c])
  {
    SplitInternals(nodes, nodes', chars, seen, c);
    SplitLeaves(nodes, nodes', chars, seen, c);
  }

  lemma SplitInternals(nodes: seq<NodeData>, nodes': seq<NodeData>, chars: seq<char>, seen: seq<char>, c: char)
    requires chars == FirstOccurrences(seen) && IsSpine(nodes, chars, seen) && c !in chars
    requires Split(nodes, nodes', c)
    ensures forall m | 0 <= m < |chars| + 1 :: nodes'[InternalAt(m)] == InternalNode(|chars| + 1, m)
  {
    var k := |chars|;
    forall m | 0 <= m < k + 1 ensures nodes'[InternalAt(m)] == InternalNode(k + 1, m) {
      if m < k {
        assert nodes[InternalAt(m)] == InternalNode(k, m);
      }
    }
  }

  lemma SplitLeaves(nodes: seq<NodeData>, nodes': seq<NodeData>, chars: seq<char>, seen: seq<char>, c: char)
    requires chars == FirstOccurrences(seen) && IsSpine(nodes, chars, seen) && c !in chars
    requires Split(nodes, nodes', c)
    ensures forall m | 0 <= m < |chars| + 1 :: nodes'[LeafAt(m)] == LeafNode(chars + [c], seen + [c], m)
  {
    forall m | 0 <= m < |chars| + 1 ensures nodes'[LeafAt(m)] == LeafNode(chars + [c], seen + [c], m) {
      SplitLeaf(nodes, nodes', chars, seen, c, m);
    }
  }

  /** One leaf of SplitLeaves: the old leaves keep their place and count, the new one has count 1. */
  lemma SplitLeaf(nodes: seq<NodeData>, nodes': seq<NodeData>, chars: seq<char>, seen: seq<char>, c: char, m: nat)
    requires chars == FirstOccurrences(seen) && IsSpine(nodes, chars, seen) && c !in chars
    requires Split(nodes, nodes', c) && m < |chars| + 1
    ensures nodes'[LeafAt(m)] == LeafNode(chars + [c], seen + [c], m)
  {
    var chars' := chars + [c];
    FirstOccurrencesMembers(seen);
    CountZero(seen, c);
    CountAppend(seen, c, chars'[m]);
    if m < |chars| {
      assert nodes[LeafAt(m)] == LeafNode(chars, seen, m);
      assert chars'[m] == chars[m] != c;
    }
  }
}

// The loop of Program.Main over the input, on the arena of Nodes.
module Program {
  import opened Nodes
  import opened Spine

  /** The variables of Program.Main that the loop updates. */
  class Encoder {
    const arena: Arena
    var root: nat
    var nyt: nat
    var nodesByCharacter: map<char, nat>
    /** The input read so far. */
    ghost var seen: seq<char>

    ghost predicate Valid()
      reads this, arena
    {
      State(arena.nodes, root, nyt, nodesByCharacter, seen)
    }

    /** Before the loop: the root is the weight-0 sentinel and no character is known. */
    constructor ()
      ensures Valid() && seen == []
      ensures arena.nodes == [Fresh(Null, None, 0)] && root == 0 && nyt == 0
      ensures fresh(arena)
    {
      var a := new Arena();
      var n := a.NewNode(Fresh(Null, None, 0));
      arena := a;
      root := n;
      nyt := n;
      nodesByCharacter := map[];
      seen := [];
    }

    /** One pass of the loop of Program.Main for the character `c`. */
    method Update(c: char)
      requires Valid()
      modifies this, arena
      ensures Valid() && seen == old(seen) + [c]
      ensures c in old(nodesByCharacter) ==>
        var i := old(nodesByCharacter)[c];
        i < |old(arena.nodes)| &&
        arena.nodes == old(arena.nodes)[i := old(arena.nodes)[i].(weight := old(arena.nodes)[i].weight + 1)] &&
        root == old(root) && nodesByCharacter == old(nodesByCharacter)
      ensures c !in old(nodesByCharacter) ==>
        Splittable(old(arena.nodes), old(nyt)) && arena.nodes == SplitArena(old(arena.nodes), old(nyt), c) &&
        nyt == old(nyt) &&
        root == (if old(arena.nodes)[old(nyt)].parent.Nil? then |old(arena.nodes)| else old(root)) &&
        nodesByCharacter == old(nodesByCharacter)[c := |old(arena.nodes)| + 1]
    {
      if c in nodesByCharacter {
        CountAgain(c);
      } else {
        AddCharacter(c);
      }
    }

    /** The `TryGetValue` branch of the loop: the leaf of a known character gains one in weight. */
    method CountAgain(c: char)
      requires Valid() && c in nodesByCharacter
      modifies this, arena
      ensures Valid() && seen == old(seen) + [c]
      ensures var i := old(nodesByCharacter)[c];
        i < |old(arena.nodes)| &&
        arena.nodes == old(arena.nodes)[i := old(arena.nodes)[i].(weight := old(arena.nodes)[i].weight + 1)] &&
        root == old(root) && nodesByCharacter == old(nodesByCharacter)
    {
      ghost var n := CharacterLeaves(arena.nodes, root, nyt, nodesByCharacter, seen, c);
      var i := nodesByCharacter[c];
      KnownStep(arena.nodes, root, nyt, nodesByCharacter, seen, n);
      arena.SetWeight(i, arena.nodes[i].weight + 1);
      seen := seen + [c];
    }

    /**
     * The other branch of the loop: a new internal node takes the place of
     * the sentinel, with the sentinel on its left and a new weight-1 leaf
     * for `c` on its right; the leaf is entered in the index.
     */
    method AddCharacter(c: char)
      requires Valid() && c !in nodesByCharacter
      modifies this, arena
      ensures Valid() && seen == old(seen) + [c]
      ensures Splittable(old(arena.nodes), old(nyt)) && arena.nodes == SplitArena(old(arena.nodes), old(nyt), c)
      ensures nyt == old(nyt)
      ensures root == if old(arena.nodes)[old(nyt)].parent.Nil? then |old(arena.nodes)| else old(root)
      ensures nodesByCharacter == old(nodesByCharacter)[c := |old(arena.nodes)| + 1]
    {
      NewStep(arena.nodes, root, nodesByCharacter, seen, c);
      var internalNode := arena.NewNode(Fresh(Internal, None, 0));
      var newCharacterNode := arena.NewNode(Fresh(Character, Some(c), 1));
      ghost var grown := arena.nodes;
      var oldNytParent := arena.nodes[nyt].parent;
      if oldNytParent.At? {
        arena.SetChildren(oldNytParent.index, internalNode, arena.nodes[oldNytParent.index].right.index);
      } else {
        root := internalNode;
      }
      ghost var linked := arena.nodes;
      arena.SetChildren(internalNode, nyt, newCharacterNode);
      SplitArenaSteps(old(arena.nodes), nyt, c, grown, linked, arena.nodes);
      // Dictionary.Add: the key is new, since TryGetValue failed above.
      nodesByCharacter := nodesByCharacter[c := newCharacterNode];
      seen := seen + [c];
    }
  }

  /** The loop of Program.Main over the whole input. */
  method Encode(input: seq<char>) returns (e: Encoder)
    ensures fresh(e) && fresh(e.arena)
    ensures e.Valid() && e.seen == input
  {
    e := new Encoder();
    for i := 0 to |input|
      invariant fresh(e) && fresh(e.arena)
      invariant e.Valid() && e.seen == input[..i]
    {
      e.Update(input[i]);
      assert input[..i + 1] == input[..i] + [input[i]];
    }
    assert input[..|input|] == input;
  }
}
