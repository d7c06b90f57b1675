/**
 * Text placement of `create_icon`: the draw origin is computed from the
 * text's measured bounding box (left, top, right, bottom), taken at origin
 * (0, 0), with Python's floor division by two. For a positive divisor
 * Dafny's `/` on `int` is the same floor division, negative numerators included.
 */
module Centering {
  datatype BBox = BBox(left: int, top: int, right: int, bottom: int)
  datatype Point = Point(x: int, y: int)

  function Width(b: BBox): int { b.right - b.left }
  function Height(b: BBox): int { b.bottom - b.top }

  /**
   * The origin handed to the text renderer. Its x is the floor of half the
   * horizontal slack; its y is chosen so that y + top, where the box's top
   * edge lands, is the floor of half the vertical slack.
   */
  function TextOrigin(size: int, b: BBox): (o: Point)
    ensures 2 * o.x <= size - Width(b) < 2 * o.x + 2
    ensures 2 * (o.y + b.top) <= size - Height(b) < 2 * (o.y + b.top) + 2
  {
    Point((size - Width(b)) / 2, (size - Height(b)) / 2 - b.top)
  }

  /**
   * A box no wider than the canvas placed at x = TextOrigin(..).x stays on
   * the canvas, and its right margin equals its left margin or exceeds it by one.
   */
  lemma HorizontalSpanCentred(size: int, b: BBox)
    requires 0 <= Width(b) <= size
    ensures var o := TextOrigin(size, b);
      0 <= o.x && o.x + Width(b) <= size &&
      0 <= (size - (o.x + Width(b))) - o.x <= 1
  {
  }

  /**
   * The box's top edge, at y + top, sits on the canvas with its bottom edge,
   * and the bottom margin equals the top margin or exceeds it by one.
   */
  lemma VerticalSpanCentred(size: int, b: BBox)
    requires 0 <= Height(b) <= size
    ensures var o := TextOrigin(size, b); var top := o.y + b.top;
      0 <= top && top + Height(b) <= size &&
      0 <= (size - (top + Height(b))) - top <= 1
  {
  }

  /**
   * Where the drawn text's box lands when drawn at `o`, given that drawing
   * at `o` shifts the box measured at (0, 0) by `o`.
   */
  function InkBox(o: Point, b: BBox): (ink: BBox)
    ensures Width(ink) == Width(b) && Height(ink) == Height(b)
  {
    BBox(o.x + b.left, o.y + b.top, o.x + b.right, o.y + b.bottom)
  }

  /** Two margins along one axis: equal, or the far one larger by one. */
  predicate Balanced(near: int, far: int)
  {
    0 <= far - near <= 1
  }

  /**
   * Vertically the drawn text is centred on the canvas: the top offset of
   * the box is subtracted from y.
   */
  lemma InkVerticallyCentred(size: int, b: BBox)
    ensures var ink := InkBox(TextOrigin(size, b), b);
      Balanced(ink.top, size - ink.bottom)
  {
  }

  /**
   * Horizontally the left offset of the box is not subtracted from x, so the
   * drawn text is centred exactly when that offset is zero; otherwise its
   * margins are off balance by twice the offset.
   */
  lemma InkHorizontallyCentredIff(size: int, b: BBox)
    ensures var ink := InkBox(TextOrigin(size, b), b);
      Balanced(ink.left, size - ink.right) <==> b.left == 0
    ensures var ink := InkBox(TextOrigin(size, b), b);
      0 <= (size - ink.right) - ink.left + 2 * b.left <= 1
  {
  }

  /** An offset of 10 moves the text 10 pixels right of centre on a 1024 canvas. */
  lemma InkOffCentreExample()
    ensures var b := BBox(10, 0, 110, 100);
      var ink := InkBox(TextOrigin(1024, b), b);
      ink.left == 472 && 1024 - ink.right == 452
  {
  }
}
