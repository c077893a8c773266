# binrange in Dafny

A model of `src/binrange/binary_range.py`: a value range `[minvalue, maxvalue]`
is split recursively into a binary tree. A node stops splitting when half its
span, floor-divided, is below the granularity `floor_range`; otherwise it is cut
at `minvalue + floor(half / floor_range) * floor_range`, the largest
granularity-aligned point within half the span. The model covers the node type
with its span-only comparisons and its pre-order iteration, `build_tree`, and
`walk`, proved over unbounded integers.

Modules:

- `Wrappers` (`wrappers.dfy`): `Option`, standing in for Python's `None`.
- `ValueRanges` (`value_range.dfy`): the `ValueRange` datatype with two independent
  optional children, `Span` (`_range`), the comparisons `Eq`/`Lt`/`Le`/`Gt`/`Ge`,
  `Enumerate` (`__iter__`) and node addresses (paths of `Left`/`Right` steps).
- `TreeBuilder` (`build_tree.dfy`): `BuildTree` and the partition it produces.
- `TreeWalker` (`walk.dfy`): `Walk`, which returns the nodes the callback is called on.

`BuildTree` follows the code on any input node. A node that stops is returned
unchanged, and a node that splits gets two freshly built children. The
properties of built trees are stated for `BuildTree(NewRange(lo, hi), f)`, that
is, for a fresh node as the constructor makes it. Line 57 divides with true
division. The model does this in exact `real` arithmetic (`Floors`), and two
lemmas show that the stopping test and the `math.floor` are the integer
operations `h < f` and `h / f`.

`walk` does not stop the whole traversal when the callback returns `False`,
although its docstring (src/binrange/binary_range.py:72-74) says such a
result terminates the walk. The `return` on line 77 leaves only the current
recursive call, and the caller then goes on to the right subtree. So a `False` hides that node's descendants and
nothing else. The model follows the code. `WalkVisitsReachedNodes` states the
behaviour in general: the walk visits, in pre-order, exactly the nodes whose
strict ancestors were all accepted. `ExampleWalkContinuesAfterRejection` gives
a concrete case: the callback rejects the second node visited, and all five
nodes are still visited.

## Model

| member | source | states |
|---|---|---|
| ValueRanges.EqIsEquivalence | src/binrange/binary_range.py:28-32 | span equality between nodes is reflexive, symmetric and transitive |
| ValueRanges.ComparisonsAreTotal | src/binrange/binary_range.py:28-44 | exactly one of `<`, `==`, `>` holds between two nodes; `<=` is `<` or `==`, `>=` is `>` or `==`, and `a > b` is `b < a` |
| ValueRanges.ComparisonsSeeOnlySpan | src/binrange/binary_range.py:28-44 | replacing a node by any node of the same span, whatever its bounds or children, changes no comparison result, and the two compare equal |
| ValueRanges.DisjointEqualSpansCompareEqual | src/binrange/binary_range.py:31-32 | [0,5] and [100,105] compare equal although they are different values |
| ValueRanges.Enumerate | src/binrange/binary_range.py:19-26 | iteration yields the node itself first; a node without children yields exactly itself |
| ValueRanges.EnumerateAddresses | src/binrange/binary_range.py:19-26 | iteration yields one element per node (its length is the node count), and its i-th element is the node at the i-th pre-order address: self, then the left subtree, then the right subtree |
| ValueRanges.AddressesArePositions | src/binrange/binary_range.py:19-26 | the pre-order addresses are pairwise distinct and include every path that leads to a node, so with `EnumerateAddresses` the iteration yields each node position exactly once |
| TreeBuilder.FloorsBelowOne | src/binrange/binary_range.py:57-58 | for a positive granularity, `floors < 1` holds exactly when the floor-halved span is below the granularity |
| TreeBuilder.FloorOfFloors | src/binrange/binary_range.py:57-61 | `math.floor(floors)` equals the integer quotient of the floor-halved span by the granularity |
| TreeBuilder.SplitPoint | src/binrange/binary_range.py:61 | when the node splits, the mid point lies strictly inside the range, its distance from `minvalue` is a multiple of the granularity and the largest one not above half the span, and the left part is no wider than the right |
| TreeBuilder.GranularSplitIsSplitPoint | src/binrange/binary_range.py:57-61 | any point whose offset from `minvalue` is the largest multiple of the granularity not above half the span is the point line 61 computes |
| TreeBuilder.BuildTree | src/binrange/binary_range.py:46-65 | the result keeps the input's bounds; it is the input unchanged when half the span is below the granularity, and has both children otherwise |
| TreeBuilder.BuildTreePartitioned | src/binrange/binary_range.py:55-65 | in a tree built from a fresh node, every leaf has half-span below the granularity, and every other node has exactly two children that split it without gap or overlap at a granularity-aligned point |
| TreeBuilder.PartitionedIsBuilt | src/binrange/binary_range.py:55-65 | every tree with that property is the tree built from a fresh node with its root's bounds |
| TreeBuilder.BuildTreeCharacterized | src/binrange/binary_range.py:55-65 | a tree satisfies the partition property if and only if it is what building from its root's bounds produces |
| TreeBuilder.BuildTreeNodes | src/binrange/binary_range.py:57-63 | in a built tree, a node is a leaf iff its half-span is below the granularity, never has exactly one child, and both children of a split node are non-empty and strictly narrower than it; the left child's span is a multiple of the granularity, at most half the parent's span, and no wider than the right child |
| TreeBuilder.SmallRangeIsLeaf | src/binrange/binary_range.py:57-59 | a range narrower than twice the granularity, including an inverted one, is built into a single leaf |
| TreeBuilder.PartitionedLeavesTile | src/binrange/binary_range.py:61-63 | the leaves of a partitioned tree, in pre-order, lie end to end from its `minvalue` to its `maxvalue` |
| TreeBuilder.BuildTreeLeavesTile | src/binrange/binary_range.py:55-65 | the leaves of a built tree tile `[minvalue, maxvalue]` contiguously in pre-order, each with half-span below the granularity |
| TreeBuilder.ExampleRightHalf | src/binrange/binary_range.py:57-63 | building [3,10] with granularity 3 splits at 6 into the leaves [3,6] and [6,10] |
| TreeBuilder.ExampleRoot | src/binrange/binary_range.py:57-63 | building [0,10] with granularity 3 splits at 3 into the leaf [0,3] and the tree built from [3,10] |
| TreeBuilder.WorkedExample | src/binrange/binary_range.py:46-65 | building [0,10] with granularity 3 enumerates as (0,10), (0,3), (3,10), (3,6), (6,10), with leaves (0,3), (3,6), (6,10) |
| TreeWalker.Walk | src/binrange/binary_range.py:68-81 | the callback is called first on the start node, the sequence of calls is never longer than the pre-order enumeration, and when the start node is rejected it is the only call |
| TreeWalker.WalkVisitsReachedNodes | src/binrange/binary_range.py:76-81 | the callback is called, in pre-order, on exactly the nodes all of whose strict ancestors it accepted |
| TreeWalker.WalkAcceptingAll | src/binrange/binary_range.py:76-81 | a callback that accepts every node is called on the whole pre-order enumeration |
| TreeWalker.WalkRejectedLeftChild | src/binrange/binary_range.py:76-81 | rejecting a left child skips only that child's subtree; the whole right sibling subtree is walked afterwards |
| TreeWalker.RejectedNodeHidesDescendants | src/binrange/binary_range.py:76-77 | no node strictly below a rejected node is reached |
| TreeWalker.ExampleWalkContinuesAfterRejection | src/binrange/binary_range.py:68-81 | on the tree built from [0,10] with granularity 3, rejecting the second visited node (0,3) still leads to all five nodes being visited |
| TreeWalker.ExampleWalkPrunesSubtree | src/binrange/binary_range.py:68-81 | on the same tree, rejecting (3,10) visits (0,10), (0,3), (3,10) and not its children |

## Left out

- Floating-point `Numeric`: only integers are modelled. The float quotient on line 57 is taken as an exact real, so the rounding of very large integer quotients is not modelled. Nor is the `OverflowError` that the true division on line 57 raises when the quotient is too large for a float: `build_tree(ValueRange(0, 10**400), 1)` raises in Python, while `BuildTree` returns a tree.
- TreeBuilder.BuildTree: requires `floor_range > 0`. With `floor_range == 0` line 57 raises `ZeroDivisionError`, and a negative granularity is outside the intended use.
- Object identity: `build_tree` mutates its argument and returns that same object. The model returns a new value with the same root bounds, which is what a caller can observe.
- TreeWalker.Walk: the callback is a pure predicate. Side effects in it, such as collecting or counting, are not modelled; the returned sequence of visited nodes stands in for them.
- ValueRanges.Enumerate: it returns the whole sequence at once. The laziness of the Python generator is not modelled.
- The `dataclass`-generated `__init__` and `__repr__` are not modelled, and neither is the unhashability caused by overriding `__eq__`. The constructor is `NewRange`.
- Comparison with an object that is not a `ValueRange` is not modelled; in Python it fails with `AttributeError`. The Dafny types rule it out.
- Python's recursion depth limit, which deep trees could reach in `build_tree`, `walk` and `__iter__`, is not modelled.
