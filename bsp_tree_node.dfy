/**
 * The binary tree node of the room splitter (NoiseDemo/BSP/BSPTreeNode.cs): a room
 * and two settable, initially absent, sub-rooms.
 */
module TreeNodes {
  import opened Geometry

  class BSPTreeNode {
    var room: Rectangle
    var left: BSPTreeNode?
    var right: BSPTreeNode?

    /** A new node holds the given room and is a leaf. */
    constructor (room: Rectangle)
      ensures this.room == room
      ensures left == null && right == null
    {
      this.room := room;
      left := null;
      right := null;
    }

    /** The `Left` property setter: replaces the left child only. */
    method SetLeft(node: BSPTreeNode?)
      modifies this
      ensures left == node
      ensures room == old(room) && right == old(right)
    {
      left := node;
    }

    /** The `Right` property setter: replaces the right child only. */
    method SetRight(node: BSPTreeNode?)
      modifies this
      ensures right == node
      ensures room == old(room) && left == old(left)
    {
      right := node;
    }
  }
}
