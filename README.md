# BSP room splitter

A Dafny model of the binary space partitioning (BSP) room splitter of a tabletop map
generator. `BSPTree` takes an initial rectangle and a minimum room width and height. It
recursively cuts the rectangle in half, choosing at random at each node whether the
cut runs horizontally or vertically. Halving stops when a half would be smaller than
the minimum. `CollectRooms` then lists the room of every node in pre-order.

Files and modules, one per source file:

- `rectangle.dfy` (module `Geometry`) models `Rectangle.cs`. It defines the value type
  `Rectangle` and its size check `IsLargeEnough`. It also defines the geometric notions
  the properties need: containment, points, interior-disjointness and area. The
  datatype constructor is the struct constructor, so each field is exactly its argument.
  `IsLargeEnough` is a predicate on a value, so it cannot modify the rectangle.
- `bsp_tree_node.dfy` (module `TreeNodes`) models `BSPTreeNode.cs` as a class. It has a
  `room` field and nullable `left` and `right` fields. The constructor makes a leaf, and
  one setter method models each child property setter.
- `bsp_tree.dfy` (module `Partitioning`) models `BSPTree.cs`, in two layers:
  - The pure layer is the function `Build`. It produces a `Tree` value, with `Nil`
    standing for a null node, and is the specification of the recursion.
  - The heap layer is the class `BSPTree`. Its method `BuildTree` allocates
    `BSPTreeNode` objects and is proved to build exactly the tree `Build` describes
    (predicate `Shaped`). The two child assignments `node.Left = BuildTree(…)` and
    `node.Right = BuildTree(…)` are done together by `Link` once both subtrees exist;
    nothing reads the new node between them, so the order is not observable. Its
    method `CollectRooms` appends to a caller-owned
    `RoomList`, which stands for `List<Rectangle>`. It is proved to append exactly
    `PreOrder` of the tree.
- `bsp_properties.dfy` (module `PartitionProperties`) holds what every built tree
  satisfies, for every sequence of random draws:
  - the invariant `ValidPartition`;
  - every node has no child or two children;
  - the leaf rooms tile the initial space: they cover it, no two share an interior
    point, and their areas add up to its area;
  - the result depends only on the draws consumed.

Randomness: each `BuildTree` call on a large-enough room makes one `Random.Next(2)`
draw, where 0 means a horizontal split. The model takes the draws as a parameter:
`draws: nat -> Draw` gives the k-th draw of one build. `Build` and `BuildTree` thread
the index of the next unused draw. Every property holds for every `draws`.

Arithmetic: the source uses C# `float`. Coordinates here are exact `real`s, so the
midpoint split yields exactly two halves of half the parent's size.

Termination: `Build`, `BuildTree` and the `BSPTree` constructor require
`minRoomWidth > 0` and `minRoomHeight > 0`. The source has no such check, so the model
excludes every input with a non-positive minimum. For a non-positive minimum the source
behaves as follows:
- A space that fails the size check still returns null at once.
- With both minima at most 0 and non-negative sides, the recursion never ends (lemma
  `NonPositiveMinimaKeepSplitting`).
- With exactly one minimum at most 0, the recursion ends only for some draw sequences.
  Cuts along that minimum's axis always recurse (lemmas
  `NonPositiveMinWidthKeepsSplittingVertically` and
  `NonPositiveMinHeightKeepsSplittingHorizontally`), while a cut along the other axis
  can stop (lemma `OneNonPositiveMinimumDependsOnDraws`).

A total function cannot follow a non-termination that depends on the draws. The
termination measure is `floor(width / minW) + floor(height / minH)`. It strictly drops
on every split, because a split side is at least twice the minimum.

Where the comments and the code differ, the model follows the code:
- The comment at `BSPTree.cs:66` says the function returns null there. The code at line
  67 returns a leaf node holding the room, and the model returns a leaf node too.
- The modelled code has no tile grid, no doors, no wall seams, no quantization to a
  tile unit, no depth-based split chance, no aspect-ratio limit, no random split
  position and no merge pass for small rooms. It always cuts at the exact midpoint,
  and the model does the same.

## Model

| member | source | states |
|---|---|---|
| Geometry.ConstructorStoresArguments | NoiseDemo/BSP/Rectangle.cs:1-14 | the constructed rectangle has exactly the given X, Y, Width and Height, and rebuilding a rectangle from its four fields gives back the same rectangle |
| Geometry.IsLargeEnoughIffMinimumFits | NoiseDemo/BSP/Rectangle.cs:16-19 | a room passes the size check (Width ≥ minWidth and Height ≥ minHeight) exactly when a room of the minimum size placed at its top-left corner fits inside it, in both directions |
| Geometry.IsLargeEnoughMonotone | NoiseDemo/BSP/Rectangle.cs:16-19 | a room large enough for some thresholds is large enough for any lower thresholds |
| Geometry.TooNarrowOrTooShort | NoiseDemo/BSP/Rectangle.cs:18 | falling short of the minimum in either dimension alone fails the size check |
| Geometry.DisjointInteriorsShareNoPoint | NoiseDemo/BSP/BSPTree.cs:45-51 | rooms separated by a line (as sibling halves are) have no interior point in common, so they meet only along that line |
| TreeNodes.BSPTreeNode.constructor | NoiseDemo/BSP/BSPTreeNode.cs:13-18 | a new node stores the given room and has no left and no right child |
| TreeNodes.BSPTreeNode.SetLeft | NoiseDemo/BSP/BSPTreeNode.cs:9 | setting Left changes the left child only; Room and Right keep their values |
| TreeNodes.BSPTreeNode.SetRight | NoiseDemo/BSP/BSPTreeNode.cs:10 | setting Right changes the right child only; Room and Left keep their values |
| Partitioning.SplitHalves | NoiseDemo/BSP/BSPTree.cs:28-52 | a horizontal cut keeps X and Width, the left half starts at the parent's Y, the right half starts where the left ends, each is half the parent's height; a vertical cut is the same with X/Width and Y/Height swapped |
| Partitioning.HalvesTileSpace | NoiseDemo/BSP/BSPTree.cs:45-51 | both halves lie inside the parent, their areas add up to the parent's area, they share no interior point, and every point of the parent lies in one of them |
| Partitioning.MeasureDrops | NoiseDemo/BSP/BSPTree.cs:55-61 | when both halves pass the size check, each has a strictly smaller non-negative termination measure than the parent, so the recursion ends |
| Partitioning.Build | NoiseDemo/BSP/BSPTree.cs:14-68 | the result is null exactly when the space fails the size check; otherwise it is a node holding the space; it has children exactly when both midpoint halves along the drawn axis pass the check, and those children hold exactly those halves (never one child without the other); one draw is consumed per node |
| Partitioning.PreOrderLength | NoiseDemo/BSP/BSPTree.cs:72-82 | the pre-order room list has exactly one entry per node |
| Partitioning.RoomList.Add | NoiseDemo/BSP/BSPTree.cs:77 | adding a room appends it at the end of the list and leaves the earlier entries unchanged |
| Partitioning.BSPTree.constructor | NoiseDemo/BSP/BSPTree.cs:7-10 | the new tree's root is the heap structure of Build for the initial space, starting from the first draw, allocated fresh |
| Partitioning.BSPTree.BuildTree | NoiseDemo/BSP/BSPTree.cs:14-68 | the returned node and the nodes below it, all freshly allocated, have exactly the shape and rooms of Build's tree for the same space and draws (returned as a ghost value), and the next unused draw is Build's |
| Partitioning.BSPTree.Link | NoiseDemo/BSP/BSPTree.cs:58-61 | setting the children of a new node that lies outside both subtrees keeps its room, makes its children exactly the two subtree roots, and gives it the shape of the node value over the two subtree values |
| Partitioning.BSPTree.CollectRooms | NoiseDemo/BSP/BSPTree.cs:72-82 | the list afterwards is its old contents followed by the subtree's rooms in pre-order (node, left subtree, right subtree); nothing is appended for null |
| Partitioning.BSPTree.GetRoot | NoiseDemo/BSP/BSPTree.cs:85-88 | returns the root built by the constructor |
| PartitionProperties.BuildIsValidPartition | NoiseDemo/BSP/BSPTree.cs:18-67 | for every sequence of draws, every room of the built tree passes the size check, and every node's children are the two midpoint halves along one axis when both pass the check and absent otherwise |
| PartitionProperties.BuildUsesOnlyItsDraws | NoiseDemo/BSP/BSPTree.cs:25-26 | two draw sequences that agree on the draws a build consumes give identical trees, so the result is determined by those draws alone |
| PartitionProperties.FullBinaryTree | NoiseDemo/BSP/BSPTree.cs:55-67 | every node of a built tree has zero or two children, so a tree with n leaves lists 2n - 1 rooms |
| PartitionProperties.ChildrenTileParent | NoiseDemo/BSP/BSPTree.cs:55-61 | the two children of an interior node lie inside its room, meet only along the split line, and their areas add up to its area |
| PartitionProperties.ChildrenCoverParent | NoiseDemo/BSP/BSPTree.cs:45-61 | every point of an interior node's room lies in its left or its right child |
| PartitionProperties.RoomsInsideRoot | NoiseDemo/BSP/BSPTree.cs:18-61 | every room in the pre-order list of a built subtree passes the size check and lies inside the subtree's room |
| PartitionProperties.LeavesInsideRoot | NoiseDemo/BSP/BSPTree.cs:55-67 | every leaf room lies inside the root room |
| PartitionProperties.LeavesDisjoint | NoiseDemo/BSP/BSPTree.cs:45-61 | no two leaf rooms share an interior point |
| PartitionProperties.LeavesCoverRoot | NoiseDemo/BSP/BSPTree.cs:45-61 | every point of the root room lies in some leaf room |
| PartitionProperties.LeafAreasSum | NoiseDemo/BSP/BSPTree.cs:45-61 | the areas of the leaf rooms add up to the root room's area |
| PartitionProperties.BuildTilesSpace | NoiseDemo/BSP/BSPTree.cs:14-82 | for a large-enough initial space and any draws, the first room collected is the space itself, every collected room lies inside it and passes the size check, and the leaf rooms tile it |
| PartitionProperties.NonPositiveMinimaKeepSplitting | NoiseDemo/BSP/BSPTree.cs:18-55 | with both minima non-positive, a room with non-negative sides always has two halves along either axis that pass the size check and again have non-negative sides, so the source's recursion never ends |
| PartitionProperties.NonPositiveMinWidthKeepsSplittingVertically | NoiseDemo/BSP/BSPTree.cs:18-55 | with a non-positive minimum width, a vertical cut of a large-enough room with non-negative width always has two halves that pass the size check, again with non-negative width, so a build whose draws are all vertical never ends |
| PartitionProperties.NonPositiveMinHeightKeepsSplittingHorizontally | NoiseDemo/BSP/BSPTree.cs:18-55 | with a non-positive minimum height, a horizontal cut of a large-enough room with non-negative height always has two halves that pass the size check, again with non-negative height, so a build whose draws are all horizontal never ends |
| PartitionProperties.OneNonPositiveMinimumDependsOnDraws | NoiseDemo/BSP/BSPTree.cs:18-67 | for minimum width 1 and minimum height 0, the room (0, 0, 1.5, 1) passes the size check; a vertical draw makes it a leaf, a horizontal draw splits it again, so whether the build ends depends on the draws |

## Left out

- The axis choice `new Random().Next(2)` is not modelled as a generator. It is an explicit sequence of draws supplied as a parameter.
- C# single-precision `float` rounding is not modelled: coordinates are exact reals.
- Partitioning.Build: the model excludes every input with a non-positive minimum. With both minima ≤ 0 and non-negative sides the recursion never ends. With exactly one ≤ 0 it ends only for some draw sequences, which a total function over all draws cannot follow.
- Partitioning.BSPTree.BuildTree: requires positive minima as Build does. With a non-positive minimum the source may not terminate, or may terminate only for some draws.
- Partitioning.BSPTree.constructor: requires positive minima as Build does. The source passes any minima on to BuildTree, and with a non-positive minimum it may not terminate, or may terminate only for some draws.
- Partitioning.BSPTree.CollectRooms: the list is never null. With a null list and a non-null node, the source throws a NullReferenceException at `BSPTree.cs:77`, and this error path is not modelled.
- Partitioning.BSPTree.BuildTree: the contract does not state that distinct positions in the tree are distinct objects. Every node is freshly allocated, but the predicate `Shaped` does not exclude sharing.
- The `Room` property setter of `BSPTreeNode` is never called in this code. It is represented only by `room` being a mutable field.
- `NoiseController` and `BSPController` (HTTP plumbing, plus a noise generator built on an external library) are not part of this model. `CollectRoomsWithDoors` and `RoomWithDoors`, which that controller calls, do not exist in the modelled `BSPTree.cs`, so they are not modelled either.
