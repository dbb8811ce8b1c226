/**
 * What the room splitter guarantees about every tree it builds, for every sequence of
 * axis draws: the structural invariant ValidPartition, and that the leaf rooms tile the
 * initial space.
 */
module PartitionProperties {
  import opened Geometry
  import opened Partitioning

  /** The children of `room` are what BuildTree makes of a midpoint split along the
      given axis: both halves when both are large enough, no child otherwise. */
  predicate SplitConsistent(room: Rectangle, splitHorizontally: bool, l: Tree, r: Tree,
                            minRoomWidth: real, minRoomHeight: real)
  {
    var h := SplitHalves(room, splitHorizontally);
    if BothLargeEnough(h, minRoomWidth, minRoomHeight) then
      l.Node? && r.Node? && l.room == h.left && r.room == h.right
    else
      l.Nil? && r.Nil?
  }

  /** Invariant of a built tree: every room is large enough, and every node's children
      are consistent with a midpoint split along one of the two axes. */
  ghost predicate ValidPartition(t: Tree, minRoomWidth: real, minRoomHeight: real)
    decreases t
  {
    match t
    case Nil => true
    case Node(room, l, r) =>
      && room.IsLargeEnough(minRoomWidth, minRoomHeight)
      && (SplitConsistent(room, true, l, r, minRoomWidth, minRoomHeight) ||
          SplitConsistent(room, false, l, r, minRoomWidth, minRoomHeight))
      && ValidPartition(l, minRoomWidth, minRoomHeight)
      && ValidPartition(r, minRoomWidth, minRoomHeight)
  }

  /** Every tree Build returns, whatever the draws, satisfies the invariant. */
  lemma {:induction false} BuildIsValidPartition(space: Rectangle, minRoomWidth: real, minRoomHeight: real,
                                                 draws: Draws, k: nat)
    requires minRoomWidth > 0.0 && minRoomHeight > 0.0
    ensures ValidPartition(Build(space, minRoomWidth, minRoomHeight, draws, k).tree, minRoomWidth, minRoomHeight)
    decreases Measure(space, minRoomWidth, minRoomHeight)
  {
    if space.IsLargeEnough(minRoomWidth, minRoomHeight) {
      var splitHorizontally := draws(k) == 0;
      var h := SplitHalves(space, splitHorizontally);
      if BothLargeEnough(h, minRoomWidth, minRoomHeight) {
        MeasureDrops(space, splitHorizontally, minRoomWidth, minRoomHeight);
        var l := Build(h.left, minRoomWidth, minRoomHeight, draws, k + 1);
        BuildIsValidPartition(h.left, minRoomWidth, minRoomHeight, draws, k + 1);
        BuildIsValidPartition(h.right, minRoomWidth, minRoomHeight, draws, l.next);
      }
      assert SplitConsistent(space, splitHorizontally,
                             Build(space, minRoomWidth, minRoomHeight, draws, k).tree.left,
                             Build(space, minRoomWidth, minRoomHeight, draws, k).tree.right,
                             minRoomWidth, minRoomHeight);
    }
  }

  /** Build depends only on the draws it consumes, those at indices k up to b.next. */
  lemma {:induction false} BuildUsesOnlyItsDraws(space: Rectangle, minRoomWidth: real, minRoomHeight: real,
                                                 draws: Draws, draws': Draws, k: nat)
    requires minRoomWidth > 0.0 && minRoomHeight > 0.0
    requires forall j :: k <= j < Build(space, minRoomWidth, minRoomHeight, draws, k).next ==> draws(j) == draws'(j)
    ensures Build(space, minRoomWidth, minRoomHeight, draws', k) == Build(space, minRoomWidth, minRoomHeight, draws, k)
    decreases Measure(space, minRoomWidth, minRoomHeight)
  {
    if space.IsLargeEnough(minRoomWidth, minRoomHeight) {
      assert draws(k) == draws'(k);
      var splitHorizontally := draws(k) == 0;
      var h := SplitHalves(space, splitHorizontally);
      if BothLargeEnough(h, minRoomWidth, minRoomHeight) {
        MeasureDrops(space, splitHorizontally, minRoomWidth, minRoomHeight);
        var l := Build(h.left, minRoomWidth, minRoomHeight, draws, k + 1);
        var r := Build(h.right, minRoomWidth, minRoomHeight, draws, l.next);
        BuildUsesOnlyItsDraws(h.left, minRoomWidth, minRoomHeight, draws, draws', k + 1);
        BuildUsesOnlyItsDraws(h.right, minRoomWidth, minRoomHeight, draws, draws', l.next);
      }
    }
  }

  /** The rooms of the terminal nodes, left to right. */
  function Leaves(t: Tree): seq<Rectangle>
  {
    match t
    case Nil => []
    case Node(room, l, r) =>
      if l.Nil? && r.Nil? then [room] else Leaves(l) + Leaves(r)
  }

  function TotalArea(rooms: seq<Rectangle>): real
  {
    if rooms == [] then 0.0 else rooms[0].Area() + TotalArea(rooms[1..])
  }

  lemma {:induction false} TotalAreaAppend(a: seq<Rectangle>, b: seq<Rectangle>)
    ensures TotalArea(a + b) == TotalArea(a) + TotalArea(b)
    decreases |a|
  {
    if a == [] {
      assert a + b == b;
    } else {
      assert (a + b)[1..] == a[1..] + b;
      TotalAreaAppend(a[1..], b);
    }
  }

  /** Every node has no child or two children, so a tree of n leaves has 2n - 1 nodes,
      and CollectRooms lists that many rooms. */
  lemma {:induction false} FullBinaryTree(t: Tree, minRoomWidth: real, minRoomHeight: real)
    requires ValidPartition(t, minRoomWidth, minRoomHeight)
    requires t.Node?
    ensures (t.left.Nil? <==> t.right.Nil?)
    ensures |PreOrder(t)| == 2 * |Leaves(t)| - 1
    decreases t
  {
    if t.left.Node? {
      FullBinaryTree(t.left, minRoomWidth, minRoomHeight);
      FullBinaryTree(t.right, minRoomWidth, minRoomHeight);
    }
  }

  /** What BuildTree promises about a node's two children, on each interior node: they lie
      inside it, meet only along the split line and their areas sum to its area. */
  lemma ChildrenTileParent(t: Tree, minRoomWidth: real, minRoomHeight: real)
    requires minRoomWidth > 0.0 && minRoomHeight > 0.0
    requires ValidPartition(t, minRoomWidth, minRoomHeight)
    requires t.Node? && t.left.Node?
    ensures t.room.Contains(t.left.room) && t.room.Contains(t.right.room)
    ensures InteriorsDisjoint(t.left.room, t.right.room)
    ensures t.left.room.Area() + t.right.room.Area() == t.room.Area()
  {
  }

  /** Every point of an interior node's room lies in one of its two children. */
  lemma ChildrenCoverParent(t: Tree, minRoomWidth: real, minRoomHeight: real, px: real, py: real)
    requires minRoomWidth > 0.0 && minRoomHeight > 0.0
    requires ValidPartition(t, minRoomWidth, minRoomHeight)
    requires t.Node? && t.left.Node? && t.room.ContainsPoint(px, py)
    ensures t.left.room.ContainsPoint(px, py) || t.right.room.ContainsPoint(px, py)
  {
  }

  /** Every room CollectRooms reports for a subtree is large enough and lies inside the
      subtree's own room. */
  lemma {:induction false} RoomsInsideRoot(t: Tree, minRoomWidth: real, minRoomHeight: real)
    requires minRoomWidth > 0.0 && minRoomHeight > 0.0
    requires ValidPartition(t, minRoomWidth, minRoomHeight)
    requires t.Node?
    ensures forall q :: q in PreOrder(t) ==> t.room.Contains(q) && q.IsLargeEnough(minRoomWidth, minRoomHeight)
    decreases t
  {
    if t.left.Node? {
      ChildrenTileParent(t, minRoomWidth, minRoomHeight);
      RoomsInsideRoot(t.left, minRoomWidth, minRoomHeight);
      RoomsInsideRoot(t.right, minRoomWidth, minRoomHeight);
      forall q | q in PreOrder(t.left) + PreOrder(t.right)
        ensures t.room.Contains(q)
      {
        if q in PreOrder(t.left) {
          ContainsTransitive(t.room, t.left.room, q);
        } else {
          ContainsTransitive(t.room, t.right.room, q);
        }
      }
    }
  }

  /** Every leaf room lies inside the root room. */
  lemma {:induction false} LeavesInsideRoot(t: Tree, minRoomWidth: real, minRoomHeight: real)
    requires minRoomWidth > 0.0 && minRoomHeight > 0.0
    requires ValidPartition(t, minRoomWidth, minRoomHeight)
    requires t.Node?
    ensures forall i :: 0 <= i < |Leaves(t)| ==> t.room.Contains(Leaves(t)[i])
    decreases t
  {
    if t.left.Node? {
      var a, b := Leaves(t.left), Leaves(t.right);
      assert Leaves(t) == a + b;
      ChildrenTileParent(t, minRoomWidth, minRoomHeight);
      LeavesInsideRoot(t.left, minRoomWidth, minRoomHeight);
      LeavesInsideRoot(t.right, minRoomWidth, minRoomHeight);
      forall i | 0 <= i < |a + b|
        ensures t.room.Contains((a + b)[i])
      {
        if i < |a| {
          ContainsTransitive(t.room, t.left.room, a[i]);
        } else {
          ContainsTransitive(t.room, t.right.room, b[i - |a|]);
        }
      }
    }
  }

  /** No two leaf rooms share an interior point. */
  lemma {:induction false} LeavesDisjoint(t: Tree, minRoomWidth: real, minRoomHeight: real)
    requires minRoomWidth > 0.0 && minRoomHeight > 0.0
    requires ValidPartition(t, minRoomWidth, minRoomHeight)
    requires t.Node?
    ensures forall i, j :: 0 <= i < j < |Leaves(t)| ==> InteriorsDisjoint(Leaves(t)[i], Leaves(t)[j])
    decreases t
  {
    if t.left.Node? {
      var a, b := Leaves(t.left), Leaves(t.right);
      assert Leaves(t) == a + b;
      ChildrenTileParent(t, minRoomWidth, minRoomHeight);
      LeavesInsideRoot(t.left, minRoomWidth, minRoomHeight);
      LeavesInsideRoot(t.right, minRoomWidth, minRoomHeight);
      LeavesDisjoint(t.left, minRoomWidth, minRoomHeight);
      LeavesDisjoint(t.right, minRoomWidth, minRoomHeight);
      forall i, j | 0 <= i < j < |a + b|
        ensures InteriorsDisjoint((a + b)[i], (a + b)[j])
      {
        if j < |a| {
          assert (a + b)[i] == a[i] && (a + b)[j] == a[j];
        } else if |a| <= i {
          assert (a + b)[i] == b[i - |a|] && (a + b)[j] == b[j - |a|];
        } else {
          InteriorsDisjointShrink(t.left.room, t.right.room, a[i], b[j - |a|]);
        }
      }
    }
  }

  /** Every point of the root room lies in some leaf room. */
  lemma {:induction false} LeavesCoverRoot(t: Tree, minRoomWidth: real, minRoomHeight: real, px: real, py: real)
    requires minRoomWidth > 0.0 && minRoomHeight > 0.0
    requires ValidPartition(t, minRoomWidth, minRoomHeight)
    requires t.Node? && t.room.ContainsPoint(px, py)
    ensures exists i :: 0 <= i < |Leaves(t)| && Leaves(t)[i].ContainsPoint(px, py)
    decreases t
  {
    if t.left.Nil? {
      assert Leaves(t)[0] == t.room;
    } else {
      var a, b := Leaves(t.left), Leaves(t.right);
      assert Leaves(t) == a + b;
      ChildrenCoverParent(t, minRoomWidth, minRoomHeight, px, py);
      if t.left.room.ContainsPoint(px, py) {
        LeavesCoverRoot(t.left, minRoomWidth, minRoomHeight, px, py);
        var i :| 0 <= i < |a| && a[i].ContainsPoint(px, py);
        assert (a + b)[i] == a[i];
      } else {
        LeavesCoverRoot(t.right, minRoomWidth, minRoomHeight, px, py);
        var i :| 0 <= i < |b| && b[i].ContainsPoint(px, py);
        assert (a + b)[|a| + i] == b[i];
      }
    }
  }

  /** The leaf rooms' areas add up to the root room's area. */
  lemma {:induction false} LeafAreasSum(t: Tree, minRoomWidth: real, minRoomHeight: real)
    requires minRoomWidth > 0.0 && minRoomHeight > 0.0
    requires ValidPartition(t, minRoomWidth, minRoomHeight)
    requires t.Node?
    ensures TotalArea(Leaves(t)) == t.room.Area()
    decreases t
  {
    if t.left.Nil? {
      assert TotalArea(Leaves(t)) == t.room.Area() + TotalArea([]);
    } else {
      ChildrenTileParent(t, minRoomWidth, minRoomHeight);
      LeafAreasSum(t.left, minRoomWidth, minRoomHeight);
      LeafAreasSum(t.right, minRoomWidth, minRoomHeight);
      TotalAreaAppend(Leaves(t.left), Leaves(t.right));
    }
  }

  /** The rooms of one build of a large-enough space: its leaves tile the space, and every
      room collected lies inside the space and passes the size check. */
  lemma BuildTilesSpace(space: Rectangle, minRoomWidth: real, minRoomHeight: real, draws: Draws)
    requires minRoomWidth > 0.0 && minRoomHeight > 0.0
    requires space.IsLargeEnough(minRoomWidth, minRoomHeight)
    ensures var t := Build(space, minRoomWidth, minRoomHeight, draws, 0).tree;
      && PreOrder(t)[0] == space
      && (forall q :: q in PreOrder(t) ==> space.Contains(q) && q.IsLargeEnough(minRoomWidth, minRoomHeight))
      && (forall i, j :: 0 <= i < j < |Leaves(t)| ==> InteriorsDisjoint(Leaves(t)[i], Leaves(t)[j]))
      && (forall px, py :: space.ContainsPoint(px, py) ==>
            exists i :: 0 <= i < |Leaves(t)| && Leaves(t)[i].ContainsPoint(px, py))
      && TotalArea(Leaves(t)) == space.Area()
  {
    var t := Build(space, minRoomWidth, minRoomHeight, draws, 0).tree;
    BuildIsValidPartition(space, minRoomWidth, minRoomHeight, draws, 0);
    RoomsInsideRoot(t, minRoomWidth, minRoomHeight);
    LeavesDisjoint(t, minRoomWidth, minRoomHeight);
    LeafAreasSum(t, minRoomWidth, minRoomHeight);
    forall px, py | space.ContainsPoint(px, py)
      ensures exists i :: 0 <= i < |Leaves(t)| && Leaves(t)[i].ContainsPoint(px, py)
    {
      LeavesCoverRoot(t, minRoomWidth, minRoomHeight, px, py);
    }
  }

  /** Why BuildTree needs positive minima: with non-positive ones, a room with
      non-negative sides that passes the size check has two halves that pass it too,
      along either axis, so the recursion never reaches a leaf. */
  lemma NonPositiveMinimaKeepSplitting(space: Rectangle, splitHorizontally: bool,
                                       minRoomWidth: real, minRoomHeight: real)
    requires minRoomWidth <= 0.0 && minRoomHeight <= 0.0
    requires space.width >= 0.0 && space.height >= 0.0
    ensures var h := SplitHalves(space, splitHorizontally);
      && BothLargeEnough(h, minRoomWidth, minRoomHeight)
      && h.left.width >= 0.0 && h.left.height >= 0.0
      && h.right.width >= 0.0 && h.right.height >= 0.0
  {
  }

  /** With a non-positive minimum width, a vertical cut of a large-enough room with
      non-negative width always has two halves that pass the size check, again with
      non-negative width; so a build whose draws are all vertical never reaches a leaf. */
  lemma NonPositiveMinWidthKeepsSplittingVertically(space: Rectangle, minRoomWidth: real, minRoomHeight: real)
    requires minRoomWidth <= 0.0
    requires space.IsLargeEnough(minRoomWidth, minRoomHeight) && space.width >= 0.0
    ensures var h := SplitHalves(space, false);
      && BothLargeEnough(h, minRoomWidth, minRoomHeight)
      && h.left.width >= 0.0 && h.right.width >= 0.0
  {
  }

  /** The same along the other axis: with a non-positive minimum height, horizontal cuts
      never stop. */
  lemma NonPositiveMinHeightKeepsSplittingHorizontally(space: Rectangle, minRoomWidth: real, minRoomHeight: real)
    requires minRoomHeight <= 0.0
    requires space.IsLargeEnough(minRoomWidth, minRoomHeight) && space.height >= 0.0
    ensures var h := SplitHalves(space, true);
      && BothLargeEnough(h, minRoomWidth, minRoomHeight)
      && h.left.height >= 0.0 && h.right.height >= 0.0
  {
  }

  /** With one non-positive minimum, whether the recursion ends depends on the draws: for
      minimum width 1 and minimum height 0, the room (0, 0, 1.5, 1) becomes a leaf when the
      draw is vertical, but splits into two rooms when it is horizontal. */
  lemma OneNonPositiveMinimumDependsOnDraws()
    ensures var space := Rectangle(0.0, 0.0, 1.5, 1.0);
      && space.IsLargeEnough(1.0, 0.0)
      && !BothLargeEnough(SplitHalves(space, false), 1.0, 0.0)
      && BothLargeEnough(SplitHalves(space, true), 1.0, 0.0)
  {
  }
}
