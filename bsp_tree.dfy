/**
 * The binary space partitioning room splitter (NoiseDemo/BSP/BSPTree.cs).
 *
 * The recursion is specified by the function Build over the value Tree; the class
 * BSPTree builds the same tree out of heap-allocated BSPTreeNode objects and is proved
 * to produce exactly what Build describes (predicate Shaped).
 *
 * Each call of BuildTree on a large-enough room makes one `Random.Next(2)` draw to pick
 * the split axis. The draws are an explicit oracle: `draws(k)` is the outcome of the
 * k-th draw of one build, and every property is proved for every oracle.
 */
module Partitioning {
  import opened Geometry
  import opened TreeNodes

  /** One outcome of `Random.Next(2)`; 0 means a horizontal split. */
  type Draw = d: int | 0 <= d < 2

  /** The successive axis draws of one build. */
  type Draws = nat -> Draw

  /** The value of a (possibly null) node and the subtree below it. */
  datatype Tree = Nil | Node(room: Rectangle, left: Tree, right: Tree)

  /** A built subtree and the index of the first draw it left unused. */
  datatype Built = Built(tree: Tree, next: nat)

  /** The two rooms cut from a space. */
  datatype Halves = Halves(left: Rectangle, right: Rectangle)

  /** The number of nodes of a tree. */
  function Size(t: Tree): nat
  {
    match t
    case Nil => 0
    case Node(_, l, r) => 1 + Size(l) + Size(r)
  }

  /** The rooms of a tree in pre-order: a node, then its left, then its right subtree. */
  function PreOrder(t: Tree): seq<Rectangle>
  {
    match t
    case Nil => []
    case Node(room, l, r) => [room] + PreOrder(l) + PreOrder(r)
  }

  /** Pre-order lists exactly one room per node. */
  lemma {:induction false} PreOrderLength(t: Tree)
    ensures |PreOrder(t)| == Size(t)
  {
    match t
    case Nil =>
    case Node(_, l, r) =>
      PreOrderLength(l);
      PreOrderLength(r);
  }

  /** Cutting a space at its midpoint: through a horizontal line at half its height, or
      through a vertical line at half its width. The halves are computed from the split
      line exactly as BuildTree computes them. */
  function SplitHalves(space: Rectangle, splitHorizontally: bool): (h: Halves)
    ensures splitHorizontally ==>
      h.left.x == space.x && h.right.x == space.x &&
      h.left.width == space.width && h.right.width == space.width &&
      h.left.y == space.y && h.right.y == h.left.y + h.left.height &&
      h.left.height == space.height / 2.0 && h.right.height == space.height / 2.0
    ensures !splitHorizontally ==>
      h.left.y == space.y && h.right.y == space.y &&
      h.left.height == space.height && h.right.height == space.height &&
      h.left.x == space.x && h.right.x == h.left.x + h.left.width &&
      h.left.width == space.width / 2.0 && h.right.width == space.width / 2.0
  {
    var splitLine := if splitHorizontally then space.y + space.height / 2.0
                     else space.x + space.width / 2.0;
    if splitHorizontally then
      Halves(Rectangle(space.x, space.y, space.width, splitLine - space.y),
             Rectangle(space.x, splitLine, space.width, space.y + space.height - splitLine))
    else
      Halves(Rectangle(space.x, space.y, splitLine - space.x, space.height),
             Rectangle(splitLine, space.y, space.x + space.width - splitLine, space.height))
  }

  /** The two halves tile their space: each lies inside it, their areas add up to its
      area, they share no interior point, and every point of the space is in one of them. */
  lemma HalvesTileSpace(space: Rectangle, splitHorizontally: bool)
    requires space.width >= 0.0 && space.height >= 0.0
    ensures var h := SplitHalves(space, splitHorizontally);
      && space.Contains(h.left) && space.Contains(h.right)
      && h.left.Area() + h.right.Area() == space.Area()
      && InteriorsDisjoint(h.left, h.right)
      && forall px, py :: space.ContainsPoint(px, py) ==>
           h.left.ContainsPoint(px, py) || h.right.ContainsPoint(px, py)
  {
  }

  /** The condition under which BuildTree recurses into both halves. */
  predicate BothLargeEnough(h: Halves, minRoomWidth: real, minRoomHeight: real)
  {
    h.left.IsLargeEnough(minRoomWidth, minRoomHeight) &&
    h.right.IsLargeEnough(minRoomWidth, minRoomHeight)
  }

  /** Termination measure: how many minimum rooms fit along each side. */
  function Measure(space: Rectangle, minRoomWidth: real, minRoomHeight: real): int
    requires minRoomWidth > 0.0 && minRoomHeight > 0.0
  {
    (space.width / minRoomWidth).Floor + (space.height / minRoomHeight).Floor
  }

  lemma HalfFloorDrops(side: real, min: real)
    requires min > 0.0 && side / 2.0 >= min
    ensures 0 <= ((side / 2.0) / min).Floor < (side / min).Floor
  {
    var q := side / min;
    assert (side / 2.0) / min == q / 2.0;
    assert q >= 2.0 by {
      assert side >= 2.0 * min;
      assert q * min == side;
    }
  }

  lemma FloorAtLeastOne(side: real, min: real)
    requires min > 0.0 && side >= min
    ensures (side / min).Floor >= 1
  {
    var q := side / min;
    assert q >= 1.0 by {
      assert q * min == side;
    }
  }

  /** A split that BuildTree recurses on makes the measure drop for both halves. */
  lemma MeasureDrops(space: Rectangle, splitHorizontally: bool, minRoomWidth: real, minRoomHeight: real)
    requires minRoomWidth > 0.0 && minRoomHeight > 0.0
    requires BothLargeEnough(SplitHalves(space, splitHorizontally), minRoomWidth, minRoomHeight)
    ensures var h := SplitHalves(space, splitHorizontally);
      && 0 <= Measure(h.left, minRoomWidth, minRoomHeight) < Measure(space, minRoomWidth, minRoomHeight)
      && 0 <= Measure(h.right, minRoomWidth, minRoomHeight) < Measure(space, minRoomWidth, minRoomHeight)
  {
    if splitHorizontally {
      FloorAtLeastOne(space.width, minRoomWidth);
      HalfFloorDrops(space.height, minRoomHeight);
    } else {
      FloorAtLeastOne(space.height, minRoomHeight);
      HalfFloorDrops(space.width, minRoomWidth);
    }
  }

  /** BuildTree (BSPTree.cs:14-68) on values: no node for a space below the minimum;
      otherwise a node for the space, split at the midpoint along the drawn axis, with a
      subtree for each half when both halves are large enough, and no children when not.
      Draws are consumed in call order, one per node. */
  function Build(space: Rectangle, minRoomWidth: real, minRoomHeight: real, draws: Draws, k: nat): (b: Built)
    requires minRoomWidth > 0.0 && minRoomHeight > 0.0
    ensures b.tree.Nil? <==> !space.IsLargeEnough(minRoomWidth, minRoomHeight)
    ensures b.tree.Node? ==> b.tree.room == space
    ensures b.tree.Node? ==>
      var h := SplitHalves(space, draws(k) == 0);
      && (b.tree.left.Node? <==> BothLargeEnough(h, minRoomWidth, minRoomHeight))
      && (b.tree.right.Node? <==> BothLargeEnough(h, minRoomWidth, minRoomHeight))
      && (b.tree.left.Node? ==> b.tree.left.room == h.left && b.tree.right.room == h.right)
    ensures b.next == k + Size(b.tree)
    decreases Measure(space, minRoomWidth, minRoomHeight)
  {
    if !space.IsLargeEnough(minRoomWidth, minRoomHeight) then
      Built(Nil, k)
    else
      var splitHorizontally := draws(k) == 0;
      var h := SplitHalves(space, splitHorizontally);
      if BothLargeEnough(h, minRoomWidth, minRoomHeight) then
        MeasureDrops(space, splitHorizontally, minRoomWidth, minRoomHeight);
        var l := Build(h.left, minRoomWidth, minRoomHeight, draws, k + 1);
        var r := Build(h.right, minRoomWidth, minRoomHeight, draws, l.next);
        Built(Node(space, l.tree, r.tree), r.next)
      else
        Built(Node(space, Nil, Nil), k + 1)
  }

  /** One step of Build on a space whose two halves are both large enough. */
  lemma BuildSplits(space: Rectangle, minRoomWidth: real, minRoomHeight: real, draws: Draws, k: nat)
    requires minRoomWidth > 0.0 && minRoomHeight > 0.0
    requires space.IsLargeEnough(minRoomWidth, minRoomHeight)
    requires BothLargeEnough(SplitHalves(space, draws(k) == 0), minRoomWidth, minRoomHeight)
    ensures var h := SplitHalves(space, draws(k) == 0);
      var l := Build(h.left, minRoomWidth, minRoomHeight, draws, k + 1);
      var r := Build(h.right, minRoomWidth, minRoomHeight, draws, l.next);
      Build(space, minRoomWidth, minRoomHeight, draws, k) == Built(Node(space, l.tree, r.tree), r.next)
  {
  }

  /** One step of Build on a space that is large enough but has a half that is not. */
  lemma BuildStops(space: Rectangle, minRoomWidth: real, minRoomHeight: real, draws: Draws, k: nat)
    requires minRoomWidth > 0.0 && minRoomHeight > 0.0
    requires space.IsLargeEnough(minRoomWidth, minRoomHeight)
    requires !BothLargeEnough(SplitHalves(space, draws(k) == 0), minRoomWidth, minRoomHeight)
    ensures Build(space, minRoomWidth, minRoomHeight, draws, k) == Built(Node(space, Nil, Nil), k + 1)
  {
  }

  /** The heap below `n` has the shape and rooms of `t`, through nodes in `repr`. */
  ghost predicate Shaped(n: BSPTreeNode?, t: Tree, repr: set<BSPTreeNode>)
    reads repr
    decreases t
  {
    match t
    case Nil => n == null
    case Node(room, l, r) =>
      n != null && n in repr && n.room == room &&
      Shaped(n.left, l, repr) && Shaped(n.right, r, repr)
  }

  lemma {:induction false} ShapedGrows(n: BSPTreeNode?, t: Tree, repr: set<BSPTreeNode>, repr': set<BSPTreeNode>)
    requires Shaped(n, t, repr) && repr <= repr'
    ensures Shaped(n, t, repr')
    decreases t
  {
    match t
    case Nil =>
    case Node(_, l, r) =>
      ShapedGrows(n.left, l, repr, repr');
      ShapedGrows(n.right, r, repr, repr');
  }

  /** A node whose children have the shapes of `l` and `r` has the shape of the node
      value built from its room and them. */
  lemma ShapedJoin(parent: BSPTreeNode, l: Tree, r: Tree, leftRepr: set<BSPTreeNode>, rightRepr: set<BSPTreeNode>)
    requires Shaped(parent.left, l, leftRepr) && Shaped(parent.right, r, rightRepr)
    ensures Shaped(parent, Node(parent.room, l, r), {parent} + leftRepr + rightRepr)
  {
    ShapedGrows(parent.left, l, leftRepr, {parent} + leftRepr + rightRepr);
    ShapedGrows(parent.right, r, rightRepr, {parent} + leftRepr + rightRepr);
  }

  /** The caller-owned `List<Rectangle>` that CollectRooms appends to. */
  class RoomList {
    var items: seq<Rectangle>

    constructor ()
      ensures items == []
    {
      items := [];
    }

    method Add(room: Rectangle)
      modifies this
      ensures items == old(items) + [room]
    {
      items := items + [room];
    }
  }

  class BSPTree {
    var root: BSPTreeNode?
    /** The value of the tree below `root`, and the nodes it is made of. */
    ghost var tree: Tree
    ghost var Repr: set<BSPTreeNode>

    ghost predicate Valid()
      reads this, Repr
    {
      Shaped(root, tree, Repr)
    }

    /** Builds the tree for the initial space; the first draw of the build is draws(0). */
    constructor (initialSpace: Rectangle, minRoomWidth: real, minRoomHeight: real, draws: Draws)
      requires minRoomWidth > 0.0 && minRoomHeight > 0.0
      ensures Valid() && fresh(Repr)
      ensures tree == Build(initialSpace, minRoomWidth, minRoomHeight, draws, 0).tree
    {
      new;
      var next;
      root, next, tree, Repr := BuildTree(initialSpace, minRoomWidth, minRoomHeight, draws, 0);
    }

    /** Allocates the nodes of Build's tree, first draw at index k; returns the root
        (null for a space below the minimum), the index of the next unused draw, and,
        as ghosts, the tree built and the nodes allocated for it. */
    method BuildTree(space: Rectangle, minRoomWidth: real, minRoomHeight: real, draws: Draws, k: nat)
      returns (node: BSPTreeNode?, next: nat, ghost t: Tree, ghost repr: set<BSPTreeNode>)
      requires minRoomWidth > 0.0 && minRoomHeight > 0.0
      ensures Built(t, next) == Build(space, minRoomWidth, minRoomHeight, draws, k)
      ensures fresh(repr) && Shaped(node, t, repr)
      decreases Measure(space, minRoomWidth, minRoomHeight)
    {
      if !space.IsLargeEnough(minRoomWidth, minRoomHeight) {
        return null, k, Nil, {};
      }
      var splitHorizontally := draws(k) == 0;
      var halves := SplitHalves(space, splitHorizontally);
      if BothLargeEnough(halves, minRoomWidth, minRoomHeight) {
        var parent := new BSPTreeNode(space);
        MeasureDrops(space, splitHorizontally, minRoomWidth, minRoomHeight);
        var l, afterLeft, leftTree, leftRepr := BuildTree(halves.left, minRoomWidth, minRoomHeight, draws, k + 1);
        var r, afterRight, rightTree, rightRepr := BuildTree(halves.right, minRoomWidth, minRoomHeight, draws, afterLeft);
        Link(parent, l, r, leftTree, rightTree, leftRepr, rightRepr);
        BuildSplits(space, minRoomWidth, minRoomHeight, draws, k);
        return parent, afterRight, Node(space, leftTree, rightTree), {parent} + leftRepr + rightRepr;
      }
      var leaf := new BSPTreeNode(space);
      BuildStops(space, minRoomWidth, minRoomHeight, draws, k);
      return leaf, k + 1, Node(space, Nil, Nil), {leaf};
    }

    /** The two assignments `node.Left = …` and `node.Right = …` of BuildTree, done once
        both subtrees are built (nothing reads `node` in between): sets the children of
        `parent`, which lies outside both subtrees, and the parent then has the shape of
        the node value over the two subtree values. */
    static method Link(parent: BSPTreeNode, l: BSPTreeNode?, r: BSPTreeNode?, ghost leftTree: Tree, ghost rightTree: Tree,
                       ghost leftRepr: set<BSPTreeNode>, ghost rightRepr: set<BSPTreeNode>)
      requires parent !in leftRepr && parent !in rightRepr
      requires Shaped(l, leftTree, leftRepr) && Shaped(r, rightTree, rightRepr)
      modifies parent
      ensures parent.room == old(parent.room) && parent.left == l && parent.right == r
      ensures Shaped(parent, Node(parent.room, leftTree, rightTree), {parent} + leftRepr + rightRepr)
    {
      parent.SetLeft(l);
      parent.SetRight(r);
      ShapedJoin(parent, leftTree, rightTree, leftRepr, rightRepr);
    }

    /** Appends the rooms of the subtree below `node` to `rooms` in pre-order, one per
        node, after what `rooms` already holds. */
    method CollectRooms(node: BSPTreeNode?, rooms: RoomList, ghost t: Tree, ghost repr: set<BSPTreeNode>)
      requires Shaped(node, t, repr)
      modifies rooms
      ensures rooms.items == old(rooms.items) + PreOrder(t)
      decreases t
    {
      if node == null {
        return;
      }
      rooms.Add(node.room);
      CollectRooms(node.left, rooms, t.left, repr);
      CollectRooms(node.right, rooms, t.right, repr);
    }

    method GetRoot() returns (r: BSPTreeNode?)
      requires Valid()
      ensures r == root && Shaped(r, tree, Repr)
    {
      return root;
    }
  }
}
