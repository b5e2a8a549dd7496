/** Aspect-fit and aspect-fill of a child size in a parent, over real numbers. */
module Geometry {

  datatype Size = Size(width: real, height: real)
  datatype Point = Point(x: real, y: real)
  datatype Rect = Rect(origin: Point, size: Size)

  predicate Positive(s: Size)
  {
    s.width > 0.0 && s.height > 0.0
  }

  function SizeAspectFit(parent: Size, child: Size): Size
    requires Positive(parent) && Positive(child)
  {
    if parent.width / parent.height > child.width / child.height
    then Size(child.width * parent.height / child.height, parent.height)
    else Size(parent.width, child.height * parent.width / child.width)
  }

  function SizeAspectFill(parent: Size, child: Size): Size
    requires Positive(parent) && Positive(child)
  {
    if parent.width / parent.height > child.width / child.height
    then Size(parent.width, child.height * parent.width / child.width)
    else Size(child.width * parent.height / child.height, parent.height)
  }

  /** The rectangle of a size around the centre of another. */
  function Centred(parent: Rect, size: Size): Rect
  {
    Rect(Point(parent.origin.x + (parent.size.width - size.width) / 2.0,
               parent.origin.y + (parent.size.height - size.height) / 2.0), size)
  }

  function RectAspectFit(parent: Rect, child: Size): Rect
    requires Positive(parent.size) && Positive(child)
  {
    Centred(parent, SizeAspectFit(parent.size, child))
  }

  function RectAspectFill(parent: Rect, child: Size): Rect
    requires Positive(parent.size) && Positive(child)
  {
    Centred(parent, SizeAspectFill(parent.size, child))
  }

  /** Same proportions, without division. */
  predicate Similar(a: Size, b: Size)
  {
    a.width * b.height == a.height * b.width
  }

  predicate Within(a: Size, b: Size)
  {
    a.width <= b.width && a.height <= b.height
  }

  /** Both results have the child's proportions; fit lies within the parent, fill around it. */
  lemma FitAndFillEnclose(parent: Size, child: Size)
    requires Positive(parent) && Positive(child)
    ensures var fit, fill := SizeAspectFit(parent, child), SizeAspectFill(parent, child);
      && Positive(fit) && Positive(fill) && Similar(fit, child) && Similar(fill, child)
      && Within(fit, parent) && Within(parent, fill)
  {
  }

  lemma Proportional(a: Size, b: Size, c: Size)
    requires Positive(c) && Similar(a, c) && Similar(b, c)
    ensures a.width <= b.width <==> a.height <= b.height
  {
    assert a.width == a.height * (c.width / c.height);
    assert b.width == b.height * (c.width / c.height);
  }

  /** Fit touches the parent in one direction, and so does fill. */
  lemma FitAndFillTouch(parent: Size, child: Size)
    requires Positive(parent) && Positive(child)
    ensures var fit, fill := SizeAspectFit(parent, child), SizeAspectFill(parent, child);
      && (fit.width == parent.width || fit.height == parent.height)
      && (fill.width == parent.width || fill.height == parent.height)
  {
  }

  /** Fit is the largest size with the child's proportions that lies within the parent, fill the
      smallest that covers it; so each is the only such size. */
  lemma FitIsLargestAndFillSmallest(parent: Size, child: Size, s: Size)
    requires Positive(parent) && Positive(child) && Similar(s, child)
    ensures Within(s, parent) <==> Within(s, SizeAspectFit(parent, child))
    ensures Within(parent, s) <==> Within(SizeAspectFill(parent, child), s)
  {
    FitAndFillEnclose(parent, child);
    FitAndFillTouch(parent, child);
    Proportional(s, SizeAspectFit(parent, child), child);
    Proportional(SizeAspectFill(parent, child), s, child);
  }

  /** The parent is the middle: fit is to it as it is to fill, crosswise. */
  lemma FitTimesFill(parent: Size, child: Size)
    requires Positive(parent) && Positive(child)
    ensures var fit, fill := SizeAspectFit(parent, child), SizeAspectFill(parent, child);
      fit.width * fill.height == parent.width * parent.height && fit.height * fill.width == parent.width * parent.height
  {
    var fit, fill := SizeAspectFit(parent, child), SizeAspectFill(parent, child);
    var w, h := child.width * parent.height / child.height, child.height * parent.width / child.width;
    assert w * h == parent.width * parent.height;
    assert fit.width * fill.height == w * h || fit.width * fill.height == parent.width * parent.height;
  }

  /** Only the child's proportions matter, fitting again changes nothing, and the parent itself is the
      result exactly if it has these proportions. */
  lemma OnlyProportionsMatter(parent: Size, child: Size, other: Size)
    requires Positive(parent) && Positive(child) && Positive(other) && Similar(child, other)
    ensures SizeAspectFit(parent, other) == SizeAspectFit(parent, child)
    ensures SizeAspectFill(parent, other) == SizeAspectFill(parent, child)
    ensures SizeAspectFit(parent, child) == parent <==> Similar(parent, child)
    ensures SizeAspectFill(parent, child) == parent <==> Similar(parent, child)
  {
    assert child.width / child.height == other.width / other.height;
    assert child.height / child.width == other.height / other.width;
  }

  /* ----- rectangles ----- */

  predicate Contains(outer: Rect, inner: Rect)
  {
    && outer.origin.x <= inner.origin.x && inner.origin.x + inner.size.width <= outer.origin.x + outer.size.width
    && outer.origin.y <= inner.origin.y && inner.origin.y + inner.size.height <= outer.origin.y + outer.size.height
  }

  function Centre(r: Rect): Point
  {
    Point(r.origin.x + r.size.width / 2.0, r.origin.y + r.size.height / 2.0)
  }

  /** The rectangles nest, around one centre. */
  lemma RectsNest(parent: Rect, child: Size)
    requires Positive(parent.size) && Positive(child)
    ensures Contains(parent, RectAspectFit(parent, child)) && Contains(RectAspectFill(parent, child), parent)
    ensures Centre(RectAspectFit(parent, child)) == Centre(parent) == Centre(RectAspectFill(parent, child))
  {
    FitAndFillEnclose(parent.size, child);
  }

  lemma ContainedIsWithin(outer: Rect, inner: Rect)
    requires Contains(outer, inner)
    ensures Within(inner.size, outer.size)
  {
  }

  /** Both rectangles have the child's proportions and touch the parent in one direction. No rectangle with these
      proportions that lies in the parent is larger than fit, and none that contains the parent is smaller than
      fill. */
  lemma RectFitIsLargestAndFillSmallest(parent: Rect, child: Size, r: Rect)
    requires Positive(parent.size) && Positive(child)
    ensures var fit, fill := RectAspectFit(parent, child), RectAspectFill(parent, child);
      && Similar(fit.size, child) && (fit.size.width == parent.size.width || fit.size.height == parent.size.height)
      && Similar(fill.size, child) && (fill.size.width == parent.size.width || fill.size.height == parent.size.height)
      && (Similar(r.size, child) && Contains(parent, r) ==> Within(r.size, fit.size))
      && (Similar(r.size, child) && Contains(r, parent) ==> Within(fill.size, r.size))
  {
    FitAndFillEnclose(parent.size, child);
    FitAndFillTouch(parent.size, child);
    if Similar(r.size, child) {
      FitIsLargestAndFillSmallest(parent.size, child, r.size);
    }
  }

  lemma SameRect(a: Rect, b: Rect)
    requires a.size == b.size && Centre(a) == Centre(b)
    ensures a == b
  {
  }

  lemma SameSize(a: Size, b: Size, child: Size, parent: Size)
    requires Positive(child) && Similar(a, child) && Similar(b, child) && Within(a, b)
    requires a.width == parent.width || a.height == parent.height
    requires Within(b, parent)
    ensures a == b
  {
    Proportional(b, a, child);
  }

  /** Fit is the only rectangle around the parent's centre that has the child's proportions, lies in the parent, and
      touches it in one direction. */
  lemma RectFitExactly(parent: Rect, child: Size, r: Rect)
    requires Positive(parent.size) && Positive(child)
    ensures r == RectAspectFit(parent, child) <==>
      && Similar(r.size, child) && Contains(parent, r) && Centre(r) == Centre(parent)
      && (r.size.width == parent.size.width || r.size.height == parent.size.height)
  {
    var fit := RectAspectFit(parent, child);
    RectFitIsLargestAndFillSmallest(parent, child, r);
    RectsNest(parent, child);
    if && Similar(r.size, child) && Contains(parent, r) && Centre(r) == Centre(parent)
       && (r.size.width == parent.size.width || r.size.height == parent.size.height) {
      ContainedIsWithin(parent, fit);
      SameSize(r.size, fit.size, child, parent.size);
      SameRect(r, fit);
    }
  }

  /** Fill is the only one that contains the parent and agrees with it in one direction. */
  lemma RectFillExactly(parent: Rect, child: Size, r: Rect)
    requires Positive(parent.size) && Positive(child)
    ensures r == RectAspectFill(parent, child) <==>
      && Similar(r.size, child) && Contains(r, parent) && Centre(r) == Centre(parent)
      && (r.size.width == parent.size.width || r.size.height == parent.size.height)
  {
    var fill := RectAspectFill(parent, child);
    RectFitIsLargestAndFillSmallest(parent, child, r);
    RectsNest(parent, child);
    if && Similar(r.size, child) && Contains(r, parent) && Centre(r) == Centre(parent)
       && (r.size.width == parent.size.width || r.size.height == parent.size.height) {
      ContainedIsWithin(fill, parent);
      OnlyCover(fill.size, r.size, child, parent.size);
      SameRect(r, fill);
    }
  }

  lemma OnlyCover(fill: Size, r: Size, child: Size, parent: Size)
    requires Positive(child) && Similar(fill, child) && Similar(r, child) && Within(fill, r) && Within(parent, fill)
    requires r.width == parent.width || r.height == parent.height
    ensures r == fill
  {
    Proportional(r, fill, child);
  }
}
