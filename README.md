# Adaptive Huffman tree bookkeeping

This project models the tree bookkeeping of the adaptive (NYT-splitting) Huffman
coder in the `Huffman` console program, and proves properties of it in Dafny.

- **Node tree** (`nodes.dfy`, module `Nodes`). The C# `Node` objects with their
  `Parent`, `Left` and `Right` references live in an arena: a `seq<NodeData>`
  indexed by `nat`, with `Ref = Nil | At(index)` for a reference. The class
  `Arena` holds this sequence and performs the in-place updates of `Node`:
  allocation (`new Node { ... }`), the `Weight` setter and `SetChildren`.
  `GetTreeSize`, `GetTreeHeight` and `GetDeepnes` are recursive functions over
  the links. They are defined on well-formed arenas, where every node has a
  level and every link is consistent.
- **Traversal and labelling** (`node_utils.dfy`, module `NodeUtils`).
  `FlattenNodes` is the level-order listing. It takes a flag for the order
  in which each node's children are collected: left before right is the
  source's `FlattenNodes`, and right before left is the order in which
  `PrepareDrawNodes` numbers the nodes.
  `GetNodeTitle` labels a node. `PrepareDrawNodes` gives each node its order
  number, counting down from the tree size, level by level, right child before
  left. It also sets the `LeftOrderNumber` and `RightOrderNumber` links between
  draw nodes.
- **Per-character update loop** (`program.dfy`, modules `Spine` and
  `Program`). The class `Program.Encoder` holds the loop variables of
  `Program.Main`: the arena, `root`, `nyt` and `nodesByCharacter`. Its method
  `Update` is one pass of the loop:
  - a known character bumps its leaf's weight;
  - a new character splits the NYT sentinel into a new internal node, which
    has the sentinel on its left and a new weight-1 leaf on its right.

  Module `Spine` gives the closed form of the arena after any input
  (`ArenaOf`). It proves that `Update` keeps the loop state equal to that
  closed form, and proves the tree facts that follow from it.

The program has no exchange of nodes and no weight propagation. New internal
nodes keep weight 0, and only leaf weights ever change. The tree is therefore
always a left spine: each internal node has a character leaf on its right, and
the sentinel sits at the bottom left. The model follows the code in this. An
adaptive Huffman coder would also keep the sibling property (weights
non-decreasing along the order numbers) and propagate weights to the root.
None of that is done by `Node.cs` or `Program.cs`, so none of it is modelled.
For example, after the input "aa" the root's weight is 0, not 2.

In the closed form, node 0 is the sentinel. The internal node and the leaf
made for the `m`-th distinct character are nodes `2m+1` and `2m+2`. These are
the indices the loop allocates them at.

## Model

| member | source | states |
|---|---|---|
| Nodes.GetTreeSize | Huffman/Node.cs:19-25 | the size of a subtree is at least 1, and exactly 1 for a node without children |
| Nodes.GetTreeHeight | Huffman/Node.cs:27-33 | 1 ≤ height ≤ size, and the height is 1 exactly when the node has no children |
| Nodes.GetDeepnes | Huffman/Node.cs:35-38 | depth is the node's level in the tree plus one; it is 1 exactly when the node has no parent |
| Nodes.DeepnesOfChild | Huffman/Node.cs:35-38 | a child (left or right) is exactly one deeper than its parent |
| Nodes.ChildrenSetBy | Huffman/Node.cs:40-47 | after `p.SetChildren(l, r)`, `p` has children `l` and `r` and both point back to `p`; weight, character and kind of every node are kept; no other child slot and no other parent link changes, so the replaced children keep their stale parent; every other node is untouched |
| Nodes.Arena.SetChildren | Huffman/Node.cs:40-47 | the arena becomes the result of the four assignments of `SetChildren`, in source order (`WithChildren`, characterised by ChildrenSetBy) |
| Nodes.Arena.SetWeight | Huffman/Node.cs:13 | the weight setter changes the weight of one node and nothing else |
| Nodes.Arena.NewNode | Huffman/Program.cs:37-38 | a new node is appended to the arena, and its index is the old arena size |
| Nodes.FreshJoins | Huffman/Program.cs:37-38 | a node made by `new Node { ... }` (`Fresh`, as at Program.cs:18 too) has no links; added to a well-formed arena it keeps the arena well formed and is a one-node tree of size, height and depth 1 |
| NodeUtils.FlattenNodes | Huffman/NodeUtils.cs:12-29 | the listing holds only nodes of the arena, and its length is the sum of the subtree sizes of the input level (0 for an empty level) |
| NodeUtils.FlattenPrefix | Huffman/NodeUtils.cs:19-28 | the listing starts with the input level, in its order |
| NodeUtils.FlattenChildrenFollow | Huffman/NodeUtils.cs:21-25 | the children of the node at position q appear together at a later position, in the order they are collected (left before right for `FlattenNodes`) |
| NodeUtils.ChildInFlatten | Huffman/NodeUtils.cs:21-28 | every child of a listed node is listed |
| NodeUtils.FlattenDistinct | Huffman/NodeUtils.cs:12-29 | a level of distinct nodes, all on one tree level, flattens to a listing without repetitions |
| NodeUtils.DescendantInFlatten | Huffman/NodeUtils.cs:12-29 | every descendant of a node is in the listing of that node |
| NodeUtils.FlattenSubtree | Huffman/NodeUtils.cs:12-29 | for one root, the listing has `GetTreeSize` entries, lists no node twice, and lists exactly the nodes below the root |
| NodeUtils.GetNodeTitle | Huffman/NodeUtils.cs:107-118 | the title is "nyt" exactly for the sentinel and "" exactly for internal nodes; a character leaf is titled "space" exactly when its character is ' ', and otherwise by its character as a one-letter string |
| NodeUtils.GetNodeTitleInjective | Huffman/NodeUtils.cs:107-118 | equal titles mean the same kind of node, and for character leaves the same character |
| NodeUtils.LinkChildren | Huffman/NodeUtils.cs:64-88 | for one draw node, creates draw nodes for the right and then the left child, numbered down from the next order number; a link is set exactly when the child exists, points at that child's draw node, and the right number is the left number plus 1 |
| NodeUtils.LinkLevel | Huffman/NodeUtils.cs:54-89 | for a whole level, every draw node is linked to its children's draw nodes in the next level; the next level lists the children right first and is numbered on below the level |
| NodeUtils.CreateDrawNode | Huffman/NodeUtils.cs:94-105 | a new draw node shows the given node's weight and title under the given order number, with no child links |
| NodeUtils.DrawnOrder | Huffman/NodeUtils.cs:62-91 | a level (with its links set) followed by the draw nodes of the levels below lists the level-order listing of the level, right child before left |
| NodeUtils.PrepareLevel | Huffman/NodeUtils.cs:45-92 | the draw nodes of a level and all levels below it: their nodes are exactly the level-order listing of the level with right children before left, numbered consecutively downwards in that order, each showing its node's weight and title, and linked to its children's draw nodes; an empty level gives nothing |
| NodeUtils.PrepareDrawNodes | Huffman/NodeUtils.cs:34-43 | the draw nodes show exactly the right-first level-order listing of the tree, so there is one per node of the subtree and none for other nodes; the root's comes first with number `GetTreeSize`; the numbers are size, size-1, …, 1 in that order; each shows its node's weight and title; a child link is set exactly when the child exists, names a later draw node showing that child (so a parent's number exceeds its children's), and right = left + 1 when both exist |
| Spine.FirstOccurrencesMembers | Huffman/Program.cs:31-52 | the characters registered are exactly the characters read |
| Spine.FirstOccurrencesUnique | Huffman/Program.cs:31-52 | no character is registered twice |
| Spine.CountZero | Huffman/Program.cs:31-38 | a character's count is 0 exactly when it was never read |
| Spine.SpineUnique | Huffman/Program.cs:27-53 | the closed-form arena for an input is unique |
| Spine.SpineWellFormed | Huffman/Program.cs:37-50 | the closed-form arena is a well-formed tree: every link has its back-link and every node has a level |
| Spine.SpineBelow | Huffman/Program.cs:41-50 | after k distinct characters, the subtree of the `m`-th internal node has size 2(k-m)+1 and height k-m+1 |
| Spine.SpineDepth | Huffman/Program.cs:41-50 | the `m`-th internal node is at depth m+1 |
| Spine.SpineShape | Huffman/Program.cs:27-53 | after k distinct characters the tree is well formed, the root has no parent, the tree has 2k+1 nodes and its height is k+1 |
| Spine.SentinelDepth | Huffman/Program.cs:19-50 | the sentinel is still a Null node, and after k distinct characters its depth is k+1 |
| Spine.StateDrawable | Huffman/Program.cs:55 | after every character the tree meets what `PrepareDrawNodes(root)` needs: it is well formed and every character leaf holds its character |
| Spine.SpineFlatten | Huffman/Program.cs:57 | the level-order listing starts at the root and lists every node of the arena exactly once (2k+1 entries) |
| Spine.SpineReaches | Huffman/Program.cs:41-50 | every node of the arena lies below the root |
| Spine.InternalNodes | Huffman/Program.cs:37-50 | exactly the odd-indexed nodes are internal; each has two children, weight 0, and a character leaf on its right |
| Spine.CharacterLeaves | Huffman/Program.cs:31-38 | `nodesByCharacter` holds exactly the characters read; each maps to a Character leaf holding that character whose weight is the number of its occurrences |
| Spine.LeavesDistinct | Huffman/Program.cs:52 | different characters map to different leaves |
| Spine.KnownStep | Huffman/Program.cs:31-34 | bumping the weight of a known character's leaf turns the state for an input into the state for that input plus the character |
| Spine.WeightBumped | Huffman/Program.cs:33 | the bump changes exactly that leaf's count in the closed form |
| Spine.NewStep | Huffman/Program.cs:35-53 | the split for a new character is possible and turns the state into the state for the input plus the character; the root becomes the new internal node only on the first character; the character is registered with its new leaf |
| Spine.NewArena | Huffman/Program.cs:37-50 | the split of the closed-form arena is the closed-form arena of the longer input |
| Spine.SplitShape | Huffman/Program.cs:37-50 | the split makes a new internal node in the sentinel's slot under its old parent (whose right child is kept), with the sentinel on its left and a new weight-1 leaf on its right; no other node changes |
| Spine.NytSplit | Huffman/Program.cs:37-50 | a split of the spine is again a spine, one character longer |
| Spine.SplitInternals | Huffman/Program.cs:37-50 | after a split every internal node is in its closed-form place |
| Spine.SplitLeaves | Huffman/Program.cs:37-50 | after a split every leaf is in its closed-form place |
| Spine.SplitArenaSteps | Huffman/Program.cs:37-50 | the arenas the loop's statements for a new character pass through end in the split arena |
| Spine.NytParent | Huffman/Program.cs:39-44 | the sentinel's parent, when it has one, is an internal node with the sentinel on its left and, on its right, a character leaf that points back to it |
| Spine.IndexOfNew | Huffman/Program.cs:52 | registering a new character adds exactly that character to the index, with the leaf allocated for it |
| Program.Encoder.constructor | Huffman/Program.cs:18-24 | before the loop the arena is one weight-0 sentinel that is both root and `nyt`, and the index is empty |
| Program.Encoder.Update | Huffman/Program.cs:27-53 | one pass of the loop keeps the state equal to the closed form for the input read so far. A known character changes only its leaf's weight, which goes up by 1. A new character performs the split: `nyt` is unchanged, the root changes only on the first character, and the character is registered with its new leaf |
| Program.Encoder.CountAgain | Huffman/Program.cs:31-34 | the known-character branch bumps one leaf's weight by 1; the root, the links and the index are unchanged |
| Program.Encoder.AddCharacter | Huffman/Program.cs:35-53 | the new-character branch produces the split arena, keeps `nyt`, replaces the root only on the first character, and adds the character to the index |
| Program.Encode | Huffman/Program.cs:27-53 | after the whole input the state is the closed form for the input; with an empty input it is the single sentinel |

## Left out

- Positions, shapes and colours of draw nodes, and the drawing of the tree to PNG files (`TreeDrawer`): floating point and graphics output. A draw node keeps its node, order number, weight, title and child links.
- The code table built by `BuildDataTable`, and the row dictionary built from the flattened nodes (Program.cs lines 57-68). `BuildDataTable` is not part of this model.
- Average code-word length and entropy: floating-point arithmetic.
- Reading the input file, clearing the image directory, the CSV and table writers, and console output: I/O. The input is a parameter `seq<char>` of `Program.Encode`.
- Program.Encode: a Dafny `char` is a Unicode scalar value and cannot be a UTF-16 surrogate. The source reads the input one UTF-16 code unit at a time (Program.cs:29), so a character outside the Basic Multilingual Plane gives it two surrogate halves, each registered with its own leaf and internal node. The model covers input made of BMP characters only.
- Program.Encoder.Update: weights and order numbers are unbounded integers, while the source's are 32-bit `int`. No wrap can occur in `Main`: a .NET string holds fewer than 2^30 characters, so no weight or tree size reaches 2^31.
- Nodes.Arena.SetChildren: object identity is modelled by arena indices, so two `Node` references are equal exactly when their indices are.
- NodeUtils.LinkLevel: the draw nodes of a level are values in a sequence, and setting `LeftOrderNumber`/`RightOrderNumber` is a sequence update. Sharing of the `DrawNode` objects between the level lists is not modelled. The body of the loop is factored into `LinkChildren` and `LinkStep`.
- NodeUtils.LinkChildren: requires a draw node whose child links are unset. The source does not reset a link when the child is missing, and every call passes a draw node just made by `CreateDrawNode`.
- NodeUtils.GetNodeTitle: requires a Character node to hold a character. The source would throw on an empty `Character`, which `Program.cs` never creates.
- Program.Encoder.Update: the two branches are factored into `CountAgain` and `AddCharacter`. The exception `Dictionary.Add` throws on a duplicate key cannot occur, because the branch runs only after `TryGetValue` fails. The model shows this with `c !in nodesByCharacter`.
- Spine.SplitArena: defined only where the sentinel's parent has a right child (`Splittable`). The loop state always satisfies this (NewStep, NytParent). The source would throw a null reference otherwise.
- Sibling-property maintenance, node exchange and weight propagation: the source does none of them, so internal weights stay 0 and the model has no restructuring.
