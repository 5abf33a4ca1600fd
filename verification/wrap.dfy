/**
 * Edge re-injection (`wrapPosition`): each axis is checked on its own against
 * the viewport widened by `PADDING`; a coordinate that has left that range is
 * put back at a fixed point `CENTER_PUSH` pixels in from the opposite edge.
 * Coordinates are reals (the component works on floating-point pixels).
 */
module Wrap {

  const PADDING: real := 60.0
  const CENTER_PUSH: real := 200.0

  datatype Point = Point(x: real, y: real)

  /** The viewport size (`dimensions` in the component). */
  datatype Dimensions = Dimensions(width: real, height: real)

  datatype WrapResult = WrapResult(position: Point, wrapped: bool)

  /** A coordinate inside `[-PADDING, dim + PADDING]`. */
  predicate InRange(v: real, dim: real) {
    -PADDING <= v <= dim + PADDING
  }

  predicate InBox(p: Point, dims: Dimensions) {
    InRange(p.x, dims.width) && InRange(p.y, dims.height)
  }

  /**
   * `wrapPosition(pos)` against the viewport `dims`. The low edge is tested
   * first, so on a (degenerate) viewport where both tests hold it wins.
   */
  function WrapPosition(pos: Point, dims: Dimensions): (r: WrapResult)
    ensures r.wrapped <==> !InBox(pos, dims)
    ensures InRange(pos.x, dims.width) ==> r.position.x == pos.x
    ensures pos.x < -PADDING ==> r.position.x == dims.width - CENTER_PUSH
    ensures -PADDING <= pos.x && pos.x > dims.width + PADDING ==> r.position.x == CENTER_PUSH
    ensures InRange(pos.y, dims.height) ==> r.position.y == pos.y
    ensures pos.y < -PADDING ==> r.position.y == dims.height - CENTER_PUSH
    ensures -PADDING <= pos.y && pos.y > dims.height + PADDING ==> r.position.y == CENTER_PUSH
  {
    var (newX, wrappedX) :=
      if pos.x < -PADDING then (dims.width - CENTER_PUSH, true)
      else if pos.x > dims.width + PADDING then (CENTER_PUSH, true)
      else (pos.x, false);
    var (newY, wrappedY) :=
      if pos.y < -PADDING then (dims.height - CENTER_PUSH, true)
      else if pos.y > dims.height + PADDING then (CENTER_PUSH, true)
      else (pos.y, false);
    WrapResult(Point(newX, newY), wrappedX || wrappedY)
  }

  /** A position inside the padded box is left exactly where it is. */
  lemma WrapKeepsInside(pos: Point, dims: Dimensions)
    requires InBox(pos, dims)
    ensures WrapPosition(pos, dims) == WrapResult(pos, false)
  {
  }

  /**
   * The smallest viewport side for which the re-injection points lie inside
   * the padded box: `dim - CENTER_PUSH >= -PADDING` and `CENTER_PUSH <= dim + PADDING`.
   */
  const MIN_SIDE: real := CENTER_PUSH - PADDING

  /** On a viewport at least `MIN_SIDE` wide and high, a wrapped position lands inside the box. */
  lemma WrapLandsInside(pos: Point, dims: Dimensions)
    requires dims.width >= MIN_SIDE && dims.height >= MIN_SIDE
    ensures InBox(WrapPosition(pos, dims).position, dims)
  {
  }

  /** On such a viewport, wrapping twice is wrapping once, and the second pass reports no wrap. */
  lemma WrapIdempotent(pos: Point, dims: Dimensions)
    requires dims.width >= MIN_SIDE && dims.height >= MIN_SIDE
    ensures var r := WrapPosition(pos, dims);
            WrapPosition(r.position, dims) == WrapResult(r.position, false)
  {
    WrapLandsInside(pos, dims);
    WrapKeepsInside(WrapPosition(pos, dims).position, dims);
  }

  /**
   * On a viewport narrower than `MIN_SIDE` the re-injection point is itself
   * outside the box: the position wraps again on the next flee step.
   */
  lemma NarrowViewportRewraps()
    ensures var dims := Dimensions(100.0, 600.0);
            var r := WrapPosition(Point(-80.0, 300.0), dims);
            r == WrapResult(Point(-100.0, 300.0), true) && !InBox(r.position, dims)
  {
  }

  /**
   * The x-coordinate of the result depends only on `pos.x` and the width, and
   * y only on `pos.y` and the height.
   */
  lemma WrapAxesIndependent(p: Point, q: Point, d1: Dimensions, d2: Dimensions)
    ensures p.x == q.x && d1.width == d2.width ==>
      WrapPosition(p, d1).position.x == WrapPosition(q, d2).position.x
    ensures p.y == q.y && d1.height == d2.height ==>
      WrapPosition(p, d1).position.y == WrapPosition(q, d2).position.y
  {
  }
}
