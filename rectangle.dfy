/**
 * The axis-aligned region value of the room splitter (NoiseDemo/BSP/Rectangle.cs).
 * The C# struct stores single-precision floats; here coordinates are exact reals,
 * so that halving a side is exact.
 */
module Geometry {

  /** A region: top-left corner (x, y) and its size. The datatype constructor is the
      struct's constructor: each field is exactly the argument given for it. */
  datatype Rectangle = Rectangle(x: real, y: real, width: real, height: real)
  {
    /** The room's size check: at least the minimum in both dimensions. */
    predicate IsLargeEnough(minWidth: real, minHeight: real)
    {
      width >= minWidth && height >= minHeight
    }

    /** The closed region holds the point (px, py). */
    predicate ContainsPoint(px: real, py: real)
    {
      x <= px <= x + width && y <= py <= y + height
    }

    /** The point (px, py) lies strictly inside the region (not on its border). */
    predicate HasInteriorPoint(px: real, py: real)
    {
      x < px < x + width && y < py < y + height
    }

    /** The region `inner` lies within this one. */
    predicate Contains(inner: Rectangle)
    {
      x <= inner.x && inner.x + inner.width <= x + width &&
      y <= inner.y && inner.y + inner.height <= y + height
    }

    function Area(): real
    {
      width * height
    }
  }

  /** Two regions are separated by a vertical or a horizontal line: they can share at
      most border points. */
  predicate InteriorsDisjoint(a: Rectangle, b: Rectangle)
  {
    a.x + a.width <= b.x || b.x + b.width <= a.x ||
    a.y + a.height <= b.y || b.y + b.height <= a.y
  }

  /** The struct constructor stores each argument in its own field, and rebuilding a
      rectangle from its four fields gives back the same value. */
  lemma ConstructorStoresArguments(x: real, y: real, width: real, height: real, r: Rectangle)
    ensures var c := Rectangle(x, y, width, height);
      c.x == x && c.y == y && c.width == width && c.height == height
    ensures Rectangle(r.x, r.y, r.width, r.height) == r
  {
  }

  /** A room passes the size check exactly when a room of the minimum size placed at its
      top-left corner fits inside it. */
  lemma IsLargeEnoughIffMinimumFits(r: Rectangle, minWidth: real, minHeight: real)
    ensures r.IsLargeEnough(minWidth, minHeight) <==> r.Contains(Rectangle(r.x, r.y, minWidth, minHeight))
  {
  }

  /** Lowering either threshold keeps a room large enough. */
  lemma IsLargeEnoughMonotone(r: Rectangle, minWidth: real, minHeight: real, minWidth': real, minHeight': real)
    requires r.IsLargeEnough(minWidth, minHeight)
    requires minWidth' <= minWidth && minHeight' <= minHeight
    ensures r.IsLargeEnough(minWidth', minHeight')
  {
  }

  /** Falling short in one dimension alone fails the size check, whatever the other is. */
  lemma TooNarrowOrTooShort(r: Rectangle, minWidth: real, minHeight: real)
    requires r.width < minWidth || r.height < minHeight
    ensures !r.IsLargeEnough(minWidth, minHeight)
  {
  }

  lemma ContainsTransitive(a: Rectangle, b: Rectangle, c: Rectangle)
    requires a.Contains(b) && b.Contains(c)
    ensures a.Contains(c)
  {
  }

  /** Separated regions have no interior point in common. */
  lemma DisjointInteriorsShareNoPoint(a: Rectangle, b: Rectangle, px: real, py: real)
    requires InteriorsDisjoint(a, b)
    ensures !(a.HasInteriorPoint(px, py) && b.HasInteriorPoint(px, py))
  {
  }

  /** Regions inside two separated regions are separated too. */
  lemma InteriorsDisjointShrink(outerA: Rectangle, outerB: Rectangle, a: Rectangle, b: Rectangle)
    requires InteriorsDisjoint(outerA, outerB)
    requires outerA.Contains(a) && outerB.Contains(b)
    ensures InteriorsDisjoint(a, b)
  {
  }
}
