/**
 * The game controller: the component's state (`octopi`, `caughtCount`,
 * `startTime`, `endTime`, `isGameComplete`) as the fields of one object,
 * and the handlers that update it. "Now" (`Date.now()`) is a parameter.
 */
module Session {
  import opened Wrappers
  import opened Wrap
  import opened Octopi
  import TimeFormat

  class Game {
    var octopi: seq<Octopus>
    var caughtCount: nat
    var startTime: Option<int>
    var endTime: Option<int>
    var isGameComplete: bool

    /**
     * The state every handler keeps: a full flock indexed by id, a counter
     * that matches the capture flags, and completion (with its end time)
     * exactly when every octopus is caught.
     */
    ghost predicate Valid()
      reads this
    {
      |octopi| == NUM_OCTOPI && IdsAreIndices(octopi)
      && caughtCount == CountCaught(octopi)
      && (isGameComplete <==> caughtCount == NUM_OCTOPI)
      && (isGameComplete <==> endTime.Some?)
    }

    /** Mounting the component: the spiral seeding, with the clock not yet started. */
    constructor (spiral: int -> Point)
      ensures Valid()
      ensures FreshFlock(octopi)
      ensures forall i :: 0 <= i < |octopi| ==> octopi[i].position == spiral(i)
      ensures caughtCount == 0 && startTime == None && endTime == None && !isGameComplete
    {
      var seeded := SeedOctopi(spiral);
      FreshFlockNoneCaught(seeded);
      octopi := seeded;
      caughtCount := 0;
      startTime := None;
      endTime := None;
      isGameComplete := false;
    }

    /** The timer effect's first run: the clock starts unless it already has. */
    method StartClock(now: int)
      requires Valid()
      modifies this
      ensures Valid()
      ensures startTime == if TimeFormat.NotStarted(old(startTime)) then Some(now) else old(startTime)
      ensures octopi == old(octopi) && caughtCount == old(caughtCount)
      ensures endTime == old(endTime) && isGameComplete == old(isGameComplete)
    {
      if TimeFormat.NotStarted(startTime) {
        startTime := Some(now);
      }
    }

    /** One tick of the idle movement interval; `wander(o)` is `moveTowardsCenter(o)`. */
    method IdleTick(wander: Octopus -> Point)
      requires Valid()
      modifies this
      ensures Valid()
      ensures octopi == IdlePass(old(octopi), wander)
      ensures caughtCount == old(caughtCount) && startTime == old(startTime)
      ensures endTime == old(endTime) && isGameComplete == old(isGameComplete)
    {
      var updated := RunIdlePass(octopi, wander);
      assert updated == IdlePass(octopi, wander);
      IdlePassKeepsCount(octopi, wander);
      octopi := updated;
    }

    /**
     * A mouse move to `mouse`. Once the game is complete no listener is
     * attached, so nothing changes. Otherwise the catch pass runs, the
     * counter is replaced by the number caught, and the first time that
     * number reaches `NUM_OCTOPI` the end time is recorded.
     */
    method HandleMouseMove(mouse: Point, flee: Octopus -> Point, dims: Dimensions, now: int)
      requires Valid()
      modifies this
      ensures Valid()
      ensures startTime == old(startTime)
      ensures old(isGameComplete) ==>
                octopi == old(octopi) && caughtCount == old(caughtCount)
                && endTime == old(endTime) && isGameComplete
      ensures !old(isGameComplete) ==> octopi == CatchPass(old(octopi), mouse, flee, dims)
      ensures caughtCount == CountCaught(octopi) && old(caughtCount) <= caughtCount
      ensures isGameComplete <==> caughtCount == NUM_OCTOPI
      ensures !old(isGameComplete) && isGameComplete ==> endTime == Some(now)
    {
      if isGameComplete {
        return;
      }
      var updated, newCaughtCount := RunCatchPass(octopi, mouse, flee, dims);
      CatchPassCountGrows(octopi, mouse, flee, dims);
      caughtCount := newCaughtCount;
      if newCaughtCount == NUM_OCTOPI && !isGameComplete {
        endTime := Some(now);
        isGameComplete := true;
      }
      octopi := updated;
    }

    /** The deferred callback after a wrap: the octopus with this id loses its `justWrapped` flag. */
    method ClearJustWrapped(id: int)
      requires Valid()
      modifies this
      ensures Valid()
      ensures octopi == ClearWrapFlag(old(octopi), id)
      ensures caughtCount == old(caughtCount) && startTime == old(startTime)
      ensures endTime == old(endTime) && isGameComplete == old(isGameComplete)
    {
      var updated := ClearWrapFlag(octopi, id);
      CountCaughtSameFlags(octopi, updated);
      octopi := updated;
    }

    /** The restart button: a fresh flock on the spiral, the clock restarted at `now`, nothing caught. */
    method Restart(now: int, spiral: int -> Point)
      modifies this
      ensures Valid()
      ensures FreshFlock(octopi)
      ensures forall i :: 0 <= i < |octopi| ==> octopi[i].position == spiral(i)
      ensures caughtCount == 0 && startTime == Some(now) && endTime == None && !isGameComplete
    {
      caughtCount := 0;
      startTime := Some(now);
      endTime := None;
      isGameComplete := false;
      var seeded := SeedOctopi(spiral);
      FreshFlockNoneCaught(seeded);
      octopi := seeded;
    }
  }
}
