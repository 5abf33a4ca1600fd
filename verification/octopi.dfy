/**
 * The octopus records and the updates applied to the whole collection: the
 * catch pass run on every mouse move, the idle movement tick, and the spiral
 * seeding. Each update is the function a `setOctopi(prev => ...)` updater
 * computes; positions that the component computes with trigonometry or
 * `Math.random` are given as opaque functions (`flee`, `wander`, `spiral`).
 */
module Octopi {
  import opened Wrap

  const NUM_OCTOPI: nat := 100
  const CATCH_DISTANCE: real := 50.0
  const DETECTION_RADIUS: real := 350.0

  /** One octopus (`OctopusData`); an absent `isPopping` is `false`. */
  datatype Octopus = Octopus(
    id: int,
    position: Point,
    isMoving: bool,
    justWrapped: bool,
    isCaught: bool,
    isPopping: bool)

  /** `dx * dx + dy * dy` between the cursor and a position. */
  function DistanceSquared(a: Point, b: Point): real {
    (a.x - b.x) * (a.x - b.x) + (a.y - b.y) * (a.y - b.y)
  }

  /**
   * `Math.sqrt(dx * dx + dy * dy) < radius`, stated without the square root;
   * `SquareRootComparison` shows the two tests agree.
   */
  predicate Within(a: Point, b: Point, radius: real): (r: bool)
    ensures 0.0 <= radius ==>
      forall dist :: 0.0 <= dist && Square(dist) == DistanceSquared(a, b) ==> (r <==> dist < radius)
  {
    RootTest(DistanceSquared(a, b), radius);
    DistanceSquared(a, b) < radius * radius
  }

  function Square(v: real): real {
    v * v
  }

  /** Every non-negative square root of `d` compares with `radius` as `d` compares with its square. */
  lemma RootTest(d: real, radius: real)
    ensures 0.0 <= radius ==>
      forall dist :: 0.0 <= dist && Square(dist) == d ==> (dist < radius <==> d < radius * radius)
  {
    forall dist | 0.0 <= radius && 0.0 <= dist && Square(dist) == d
      ensures dist < radius <==> d < radius * radius
    {
      SquareRootComparison(d, dist, radius);
    }
  }

  /** For a non-negative root `dist` of `d`, `dist < radius` exactly when `d < radius * radius`. */
  lemma SquareRootComparison(d: real, dist: real, radius: real)
    requires 0.0 <= dist && 0.0 <= radius && dist * dist == d
    ensures dist < radius <==> d < radius * radius
  {
    if dist < radius {
      assert (radius - dist) * radius > 0.0;
      assert (radius - dist) * dist >= 0.0;
    } else {
      assert (dist - radius) * radius >= 0.0;
      assert (dist - radius) * dist >= 0.0;
    }
  }

  // ---------------------------------------------------------------------
  // The catch pass (one mouse move)
  // ---------------------------------------------------------------------

  /**
   * What the catch pass does to one octopus, with the cursor at `mouse`.
   * `fleeTo` is the unwrapped position one flee step away from the cursor.
   */
  function CatchStep(o: Octopus, mouse: Point, fleeTo: Point, dims: Dimensions): (r: Octopus)
    ensures r.id == o.id
    ensures o.isCaught ==> r == o
    ensures r.isCaught <==> o.isCaught || Within(mouse, o.position, CATCH_DISTANCE)
    ensures !o.isCaught && r.isCaught ==> r == o.(isCaught := true, isPopping := true, isMoving := false)
    ensures !r.isCaught ==> r.isPopping == o.isPopping
    ensures !r.isCaught ==> (r.isMoving <==> Within(mouse, o.position, DETECTION_RADIUS) || o.justWrapped)
    ensures !r.isCaught && r.isMoving ==>
              r == o.(position := WrapPosition(fleeTo, dims).position,
                      isMoving := true,
                      justWrapped := WrapPosition(fleeTo, dims).wrapped || o.justWrapped)
    ensures !r.isCaught && !r.isMoving ==> r == o.(isMoving := false)
  {
    if o.isCaught then o
    else if Within(mouse, o.position, CATCH_DISTANCE) then
      o.(isCaught := true, isPopping := true, isMoving := false)
    else if Within(mouse, o.position, DETECTION_RADIUS) || o.justWrapped then
      var w := WrapPosition(fleeTo, dims);
      o.(position := w.position, isMoving := true, justWrapped := if w.wrapped then true else o.justWrapped)
    else
      o.(isMoving := false)
  }

  /** A fresh octopus at (100, 100) with the cursor at (105, 102) is caught on that move. */
  lemma CatchAtCloseRange(fleeTo: Point, dims: Dimensions)
    ensures var o := Octopus(0, Point(100.0, 100.0), false, false, false, false);
            CatchStep(o, Point(105.0, 102.0), fleeTo, dims) == o.(isCaught := true, isPopping := true)
  {
  }

  /** The list the catch pass hands back: every octopus stepped, in the same order. */
  function CatchPass(os: seq<Octopus>, mouse: Point, flee: Octopus -> Point, dims: Dimensions): (r: seq<Octopus>)
    ensures |r| == |os|
    ensures forall i :: 0 <= i < |os| ==> r[i].id == os[i].id
    ensures forall i :: 0 <= i < |os| && os[i].isCaught ==> r[i] == os[i]
  {
    seq(|os|, i requires 0 <= i < |os| => CatchStep(os[i], mouse, flee(os[i]), dims))
  }

  /** The number of octopi with `isCaught` set. */
  function CountCaught(os: seq<Octopus>): (r: nat)
    ensures r <= |os|
    decreases |os|
  {
    if os == [] then 0
    else CountCaught(os[..|os| - 1]) + (if os[|os| - 1].isCaught then 1 else 0)
  }

  lemma CountCaughtAppend(os: seq<Octopus>, o: Octopus)
    ensures CountCaught(os + [o]) == CountCaught(os) + (if o.isCaught then 1 else 0)
  {
    assert (os + [o])[..|os|] == os;
  }

  /**
   * The mouse-move updater: maps `CatchStep` over the list while counting the
   * octopi that are caught afterwards (`newCaughtCount`).
   */
  method RunCatchPass(os: seq<Octopus>, mouse: Point, flee: Octopus -> Point, dims: Dimensions)
    returns (updated: seq<Octopus>, newCaughtCount: nat)
    ensures updated == CatchPass(os, mouse, flee, dims)
    ensures newCaughtCount == CountCaught(updated)
  {
    updated, newCaughtCount := [], 0;
    var i := 0;
    while i < |os|
      invariant 0 <= i <= |os|
      invariant |updated| == i
      invariant forall k :: 0 <= k < i ==> updated[k] == CatchStep(os[k], mouse, flee(os[k]), dims)
      invariant newCaughtCount == CountCaught(updated)
    {
      var octopus := os[i];
      var next: Octopus;
      if octopus.isCaught {
        newCaughtCount := newCaughtCount + 1;
        next := octopus;
      } else if Within(mouse, octopus.position, CATCH_DISTANCE) {
        newCaughtCount := newCaughtCount + 1;
        next := octopus.(isCaught := true, isPopping := true, isMoving := false);
      } else if Within(mouse, octopus.position, DETECTION_RADIUS) || octopus.justWrapped {
        var w := WrapPosition(flee(octopus), dims);
        next := octopus.(position := w.position, isMoving := true,
                         justWrapped := if w.wrapped then true else octopus.justWrapped);
      } else {
        next := octopus.(isMoving := false);
      }
      CountCaughtAppend(updated, next);
      updated := updated + [next];
      i := i + 1;
    }
  }

  // ---------------------------------------------------------------------
  // Counting
  // ---------------------------------------------------------------------

  /** The count never exceeds the length, and reaches it exactly when every octopus is caught. */
  lemma {:induction false} CountCaughtFull(os: seq<Octopus>)
    ensures CountCaught(os) <= |os|
    ensures CountCaught(os) == |os| <==> forall i :: 0 <= i < |os| ==> os[i].isCaught
    decreases |os|
  {
    if os != [] {
      var init := os[..|os| - 1];
      CountCaughtFull(init);
      if forall i :: 0 <= i < |os| ==> os[i].isCaught {
        assert forall i :: 0 <= i < |init| ==> init[i].isCaught by {
          forall i | 0 <= i < |init| ensures init[i].isCaught {
            assert init[i] == os[i];
          }
        }
      }
    }
  }

  /** The count is zero exactly when no octopus is caught. */
  lemma {:induction false} CountCaughtZero(os: seq<Octopus>)
    ensures CountCaught(os) == 0 <==> forall i :: 0 <= i < |os| ==> !os[i].isCaught
    decreases |os|
  {
    if os != [] {
      var init := os[..|os| - 1];
      CountCaughtZero(init);
      if forall i :: 0 <= i < |os| ==> !os[i].isCaught {
        assert forall i :: 0 <= i < |init| ==> !init[i].isCaught by {
          forall i | 0 <= i < |init| ensures !init[i].isCaught {
            assert init[i] == os[i];
          }
        }
      }
    }
  }

  /** If every octopus caught in `a` is caught at the same place in `b`, `b` counts at least as many. */
  lemma {:induction false} CountCaughtMonotone(a: seq<Octopus>, b: seq<Octopus>)
    requires |a| == |b|
    requires forall i :: 0 <= i < |a| && a[i].isCaught ==> b[i].isCaught
    ensures CountCaught(a) <= CountCaught(b)
    decreases |a|
  {
    if a != [] {
      var n := |a| - 1;
      assert forall i :: 0 <= i < n && a[..n][i].isCaught ==> b[..n][i].isCaught by {
        forall i | 0 <= i < n && a[..n][i].isCaught ensures b[..n][i].isCaught {
          assert a[..n][i] == a[i] && b[..n][i] == b[i];
        }
      }
      CountCaughtMonotone(a[..n], b[..n]);
    }
  }

  /** The same capture flags give the same count. */
  lemma CountCaughtSameFlags(a: seq<Octopus>, b: seq<Octopus>)
    requires |a| == |b|
    requires forall i :: 0 <= i < |a| ==> a[i].isCaught == b[i].isCaught
    ensures CountCaught(a) == CountCaught(b)
  {
    CountCaughtMonotone(a, b);
    CountCaughtMonotone(b, a);
  }

  /** Capture is terminal, so a catch pass never lowers the caught count. */
  lemma CatchPassCountGrows(os: seq<Octopus>, mouse: Point, flee: Octopus -> Point, dims: Dimensions)
    ensures CountCaught(os) <= CountCaught(CatchPass(os, mouse, flee, dims))
  {
    CountCaughtMonotone(os, CatchPass(os, mouse, flee, dims));
  }

  // ---------------------------------------------------------------------
  // The idle movement tick
  // ---------------------------------------------------------------------

  /** What the idle tick does to one octopus; `newPosition` is `moveTowardsCenter(o)`. */
  function IdleStep(o: Octopus, newPosition: Point): (r: Octopus)
    ensures o.isMoving || o.isCaught ==> r == o
    ensures !o.isMoving && !o.isCaught ==> r == o.(position := newPosition, isMoving := true)
  {
    if !o.isMoving && !o.isCaught then o.(position := newPosition, isMoving := true) else o
  }

  function IdlePass(os: seq<Octopus>, wander: Octopus -> Point): (r: seq<Octopus>)
    ensures |r| == |os|
    ensures forall i :: 0 <= i < |os| ==> r[i].id == os[i].id && r[i].isCaught == os[i].isCaught
  {
    seq(|os|, i requires 0 <= i < |os| => IdleStep(os[i], wander(os[i])))
  }

  /**
   * The idle-tick updater: every octopus that is neither caught nor already
   * moving is sent to its next position and marked moving; the rest are kept.
   */
  method RunIdlePass(os: seq<Octopus>, wander: Octopus -> Point) returns (updated: seq<Octopus>)
    ensures |updated| == |os|
    ensures forall i :: 0 <= i < |os| && (os[i].isMoving || os[i].isCaught) ==> updated[i] == os[i]
    ensures forall i :: 0 <= i < |os| && !os[i].isMoving && !os[i].isCaught ==>
              updated[i] == os[i].(position := wander(os[i]), isMoving := true)
  {
    updated := [];
    var i := 0;
    while i < |os|
      invariant 0 <= i <= |os|
      invariant |updated| == i
      invariant forall k :: 0 <= k < i ==> updated[k] == IdleStep(os[k], wander(os[k]))
    {
      var octopus := os[i];
      if !octopus.isMoving && !octopus.isCaught {
        updated := updated + [octopus.(position := wander(octopus), isMoving := true)];
      } else {
        updated := updated + [octopus];
      }
      i := i + 1;
    }
  }

  /** The idle tick changes no capture flag, so it keeps the caught count. */
  lemma IdlePassKeepsCount(os: seq<Octopus>, wander: Octopus -> Point)
    ensures CountCaught(IdlePass(os, wander)) == CountCaught(os)
  {
    CountCaughtSameFlags(os, IdlePass(os, wander));
  }

  /**
   * The deferred reset after a wrap: the octopus with this id drops its
   * `justWrapped` flag; nothing else changes.
   */
  function ClearWrapFlag(os: seq<Octopus>, id: int): (r: seq<Octopus>)
    ensures |r| == |os|
    ensures forall i :: 0 <= i < |os| ==> r[i] == os[i].(justWrapped := os[i].justWrapped && os[i].id != id)
  {
    seq(|os|, i requires 0 <= i < |os| => if os[i].id == id then os[i].(justWrapped := false) else os[i])
  }

  // ---------------------------------------------------------------------
  // Seeding
  // ---------------------------------------------------------------------

  /** Octopus `i` as the seeding loop creates it: every flag false. */
  function Hatchling(i: int, position: Point): Octopus {
    Octopus(i, position, false, false, false, false)
  }

  /** Ids are the list positions: distinct, and in order. */
  predicate IdsAreIndices(os: seq<Octopus>) {
    forall i :: 0 <= i < |os| ==> os[i].id == i
  }

  /** `NUM_OCTOPI` octopi with ids `0 .. NUM_OCTOPI - 1`, none moving, wrapped, caught or popping. */
  predicate FreshFlock(os: seq<Octopus>) {
    |os| == NUM_OCTOPI && IdsAreIndices(os)
    && forall i :: 0 <= i < |os| ==>
         !os[i].isMoving && !os[i].justWrapped && !os[i].isCaught && !os[i].isPopping
  }

  /** The spiral seeding loop; `spiral(i)` is octopus `i`'s place on the spiral. */
  method SeedOctopi(spiral: int -> Point) returns (os: seq<Octopus>)
    ensures FreshFlock(os)
    ensures forall i :: 0 <= i < |os| ==> os[i].position == spiral(i)
  {
    os := [];
    for i := 0 to NUM_OCTOPI
      invariant |os| == i
      invariant forall k :: 0 <= k < i ==> os[k] == Hatchling(k, spiral(k))
    {
      os := os + [Hatchling(i, spiral(i))];
    }
  }

  /** A fresh flock has nobody caught. */
  lemma FreshFlockNoneCaught(os: seq<Octopus>)
    requires FreshFlock(os)
    ensures CountCaught(os) == 0
  {
    CountCaughtZero(os);
  }

  /** Ids equal to list positions are distinct. */
  lemma IdsDistinct(os: seq<Octopus>)
    requires IdsAreIndices(os)
    ensures forall i, j :: 0 <= i < j < |os| ==> os[i].id < os[j].id
  {
  }
}
