# Octotag game core in Dafny

Octotag is a browser mini-game: a hundred octopus sprites roam the viewport,
flee from the cursor, and are caught when the cursor comes within 50 pixels
of one. A heads-up display shows the caught count and a running `MM:SS.hh`
timer that freezes once every octopus is caught; a restart button re-seeds the
flock. This project models the game logic of `app/components/Octopus.tsx`:

- `time_format.dfy` (module `TimeFormat`): `formatTime` and `getTimeDisplay`,
  with JavaScript's `Math.floor`, `%` (sign of the dividend), `toString` and
  `padStart` written out, plus a parser for the `MM:SS.hh` read-out used to
  state what the string means.
- `wrap.dfy` (module `Wrap`): `wrapPosition`, the edge re-injection rule, over
  real-valued coordinates.
- `octopi.dfy` (module `Octopi`): the `OctopusData` record, the per-octopus
  catch step and the mouse-move catch pass with its counter, the idle movement
  tick, the deferred `justWrapped` reset, and the spiral seeding loop. The
  mouse-move and idle-tick `setOctopi(prev => ...)` updaters are each a
  function on the list plus a value-returning method with a loop proved
  equal to it. The deferred `justWrapped` reset is a function on the list only.
- `game.dfy` (module `Session`): class `Game`, whose fields are the component's
  state (`octopi`, `caughtCount`, `startTime`, `endTime`, `isGameComplete`),
  and whose methods are the handlers that update it. Its invariant `Valid()`
  keeps a full flock whose ids are the list positions. It also keeps the
  counter equal to the number of captured octopi. The game is complete exactly
  when all are caught, and exactly when an end time is recorded.
- `wrappers.dfy` (module `Wrappers`): an option type for the `number | null` state.

Positions that the component computes with trigonometry, `Math.random` or the
clock are opaque function parameters. These are `flee` (the unwrapped flee
step), `wander` (`moveTowardsCenter`) and `spiral` (the spiral layout).
`Date.now()` is a `now` parameter. The viewport size is a `Dimensions`
parameter. The catch test `Math.sqrt(dx*dx + dy*dy) < 50` is modelled as
`dx*dx + dy*dy < 2500`, and `SquareRootComparison` proves the two agree.

Behaviours of the code that the model keeps, some of them easy to miss:

- Restart sets `startTime` to the current time. It does not clear the clock.
- The idle tick skips octopi that are already moving, as well as caught ones.
- `getTimeDisplay` treats a start time of `0` like a missing one, because it
  tests `!startTime`.
- With no end time, `getTimeDisplay` would subtract `null`, which JavaScript
  reads as 0. The invariant `Valid()` rules that state out for a completed game.

On a viewport narrower or shorter than 140 pixels (`CENTER_PUSH - PADDING`),
the re-injection point lies outside the padded box itself.
`NarrowViewportRewraps` exhibits this. `WrapLandsInside` and `WrapIdempotent`
hold only from 140 pixels up.

## Model

| member | source | states |
|---|---|---|
| `TimeFormat.NatToString` | app/components/Octopus.tsx:61 | `toString` of a non-negative integer is a non-empty digit string without a leading zero; 0 gives exactly `"0"` |
| `TimeFormat.IntToString` | app/components/Octopus.tsx:61 | `toString` of any integer: starts with `-` exactly when negative, and the digits after it denote the magnitude, with no leading zero, and 0 gives exactly `"0"` |
| `TimeFormat.NatToStringValue` | app/components/Octopus.tsx:61 | the digits `toString` produces denote the number again |
| `TimeFormat.PadStart` | app/components/Octopus.tsx:61 | `padStart(w, '0')` has length max(len, w), ends with the original string and is `'0'` before it |
| `TimeFormat.Pad2` | app/components/Octopus.tsx:61 | `toString().padStart(2, '0')`: at least 2 wide, ends with the decimal form, zeros before it; a negative field is left unpadded |
| `TimeFormat.PaddedValue` | app/components/Octopus.tsx:61 | zero-padding a number's digits keeps its value |
| `TimeFormat.Pad2Field` | app/components/Octopus.tsx:61 | a padded field is all digits, denotes its number, and is exactly 2 wide below 100, at least 3 from 100 up |
| `TimeFormat.JsRem` | app/components/Octopus.tsx:59-60 | JavaScript `%` by a positive divisor: magnitude below the divisor, same sign as the dividend, and differs from the dividend by a multiple of the divisor |
| `TimeFormat.ClockOf` | app/components/Octopus.tsx:58-60 | seconds ∈ [0,59], hundredths ∈ [0,99], and ⌊t/10⌋ = 6000·minutes + 100·seconds + hundredths |
| `TimeFormat.FormatTime` | app/components/Octopus.tsx:57-62 | the read-out has at least 8 characters and starts with `-` exactly for a negative duration |
| `TimeFormat.FormatTimeFields` | app/components/Octopus.tsx:57-62 | for t ≥ 0 the read-out is padded ⌊t/60000⌋, ⌊(t mod 60000)/1000⌋, ⌊(t mod 1000)/10⌋ joined by `:` and `.` |
| `TimeFormat.FormatParseRoundTrip` | app/components/Octopus.tsx:57-62 | reading a formatted non-negative time back yields exactly its minutes, seconds and hundredths |
| `TimeFormat.FormatTimeLength` | app/components/Octopus.tsx:57-62 | the read-out has at least 8 characters, and exactly 8 iff t < 6,000,000 |
| `TimeFormat.FormatTimeInjective` | app/components/Octopus.tsx:57-62 | two non-negative times format the same iff they agree to the hundredth (⌊a/10⌋ = ⌊b/10⌋) |
| `TimeFormat.FormatTimeZero` | app/components/Octopus.tsx:57-66 | zero elapsed time formats as `00:00.00`, the literal shown before the clock starts |
| `TimeFormat.FormatTimeNegative` | app/components/Octopus.tsx:57-62 | a negative duration keeps JavaScript's signs in every field: −1 ms formats as `-1:-1.-1` |
| `TimeFormat.NotStarted` | app/components/Octopus.tsx:66 | `!startTime` holds for a null start time and for a start time of 0, and for nothing else |
| `TimeFormat.ShownDuration` | app/components/Octopus.tsx:67-70 | running: `startTime` plus the duration is `now`; complete: it is `endTime`, and with a null `endTime` the duration is `−startTime` |
| `TimeFormat.TimeDisplay` | app/components/Octopus.tsx:65-71 | before the clock starts (null or 0 start time) the display is `formatTime(0)` |
| `TimeFormat.DisplayShowsDuration` | app/components/Octopus.tsx:65-71 | once started and for a non-negative shown duration, the display reads back as the clock fields of `endTime − startTime` when complete, `now − startTime` otherwise (negative durations are covered only by the `FormatTimeNegative` example) |
| `TimeFormat.CompletedDisplayFrozen` | app/components/Octopus.tsx:67-69 | once complete the display does not depend on the current time |
| `Wrap.WrapPosition` | app/components/Octopus.tsx:82-104 | per axis: in `[−60, dim+60]` unchanged, below → `dim − 200`, above → `200`; `wrapped` iff some axis was out of range |
| `Wrap.WrapKeepsInside` | app/components/Octopus.tsx:82-104 | a position inside the padded box is returned unchanged and unwrapped |
| `Wrap.WrapLandsInside` | app/components/Octopus.tsx:46-47 | on a viewport of at least 140 × 140 the wrapped position lies inside the padded box |
| `Wrap.WrapIdempotent` | app/components/Octopus.tsx:82-104 | on such a viewport wrapping a wrapped position changes nothing and reports no wrap |
| `Wrap.NarrowViewportRewraps` | app/components/Octopus.tsx:87-89 | on a 100-pixel-wide viewport, x = −80 is re-injected at −100, outside the box |
| `Wrap.WrapAxesIndependent` | app/components/Octopus.tsx:87-101 | for any two positions and any two viewports, equal x and equal width give the same output x, and equal y and equal height the same output y |
| `Octopi.Within` | app/components/Octopus.tsx:311-337 | for a non-negative radius, the squared-distance test agrees with comparing every non-negative square root of the squared distance with the radius |
| `Octopi.SquareRootComparison` | app/components/Octopus.tsx:311-316 | for the non-negative root of d, `root < r` iff `d < r²`, so the squared catch test equals the source's |
| `Octopi.CatchStep` | app/components/Octopus.tsx:304-375 | caught stays unchanged; within 50 px becomes caught, popping, not moving, in place; else in 350 px or just wrapped it flees to the wrapped position with `justWrapped` = wrapped or old flag; else only stops moving |
| `Octopi.CatchAtCloseRange` | app/components/Octopus.tsx:316-335 | an octopus at (100,100) with the cursor at (105,102) is caught on that move |
| `Octopi.CatchPass` | app/components/Octopus.tsx:304-375 | same length, same ids in the same order, already-caught octopi returned unchanged |
| `Octopi.RunCatchPass` | app/components/Octopus.tsx:302-378 | the updater loop returns the catch pass, and its counter equals the number caught afterwards |
| `Octopi.CountCaught` | app/components/Octopus.tsx:303-317 | the number of caught octopi is at most the length of the list |
| `Octopi.CountCaughtFull` | app/components/Octopus.tsx:380 | the count is at most the length, and equals it iff every octopus is caught |
| `Octopi.CountCaughtZero` | app/components/Octopus.tsx:446 | the count is zero iff no octopus is caught |
| `Octopi.CountCaughtMonotone` | app/components/Octopus.tsx:305-308 | keeping every capture flag set keeps the count from falling |
| `Octopi.CountCaughtSameFlags` | app/components/Octopus.tsx:250-260 | the same capture flags give the same count |
| `Octopi.CatchPassCountGrows` | app/components/Octopus.tsx:303-317 | capture is terminal, so a pass never lowers the count |
| `Octopi.IdleStep` | app/components/Octopus.tsx:251-259 | a caught or moving octopus is unchanged; any other gets its new position and `isMoving` |
| `Octopi.IdlePass` | app/components/Octopus.tsx:250-260 | same length; ids and capture flags unchanged |
| `Octopi.RunIdlePass` | app/components/Octopus.tsx:249-261 | the updater loop keeps caught or moving octopi and moves every other one |
| `Octopi.IdlePassKeepsCount` | app/components/Octopus.tsx:250-260 | the idle tick keeps the caught count |
| `Octopi.ClearWrapFlag` | app/components/Octopus.tsx:356-360 | the octopus with the given id loses `justWrapped`; all else is unchanged |
| `Octopi.SeedOctopi` | app/components/Octopus.tsx:180-198 | exactly 100 octopi, ids 0..99 in order, every flag false, each at its spiral place |
| `Octopi.FreshFlockNoneCaught` | app/components/Octopus.tsx:185-198 | a freshly seeded flock has a caught count of 0 |
| `Octopi.IdsDistinct` | app/components/Octopus.tsx:189 | ids equal to list positions are strictly increasing, hence distinct |
| `Session.Game.constructor` | app/components/Octopus.tsx:179-200 | mounting seeds a fresh flock with nothing caught, no start or end time, not complete |
| `Session.Game.StartClock` | app/components/Octopus.tsx:269-271 | the clock starts at `now` unless a (non-zero) start time exists; nothing else changes |
| `Session.Game.IdleTick` | app/components/Octopus.tsx:249-261 | the flock becomes the idle pass of the old one; count, times and completion unchanged; invariant kept |
| `Session.Game.HandleMouseMove` | app/components/Octopus.tsx:287-394 | when complete nothing changes; otherwise the flock becomes the catch pass, the counter matches the flags and never falls, and the end time is set to `now` exactly when the count first reaches 100 |
| `Session.Game.ClearJustWrapped` | app/components/Octopus.tsx:355-361 | the deferred reset clears one octopus's `justWrapped`, nothing else changes, invariant kept |
| `Session.Game.Restart` | app/components/Octopus.tsx:444-475 | a fresh flock of 100 with all flags false, count 0, start time `now`, no end time, not complete |

## Left out

- Floating-point and trigonometric movement is not modelled; coordinates are exact reals. This covers `getOctopusTargetPosition`, `moveTowardsCenter`, the flee angle and speed, the spiral coordinates and `getRandomTankPosition`. Their results enter as the opaque `flee`, `wander` and `spiral` parameters, because they depend on `Math.random`, `Date.now` and floating-point trigonometry.
- Timers (`setInterval`, `setTimeout`) are not modelled. The clock-start effect (`StartClock`) and the timer callbacks (`IdleTick`, `ClearJustWrapped`) are separate methods, and when they run is up to the caller.
- Interleavings of React state updates are not modelled. A second mouse event can be handled before the listener is detached; its stale closure still sees `isGameComplete` false and would record the end time again. The model reads the current state, so it records completion once.
- The resize handler, cursor element, mouse-down/up styling and event-listener registration are DOM wiring. The viewport size is a parameter.
- The bubble and catch-bubble particle lists are left out, including their clearing on restart, because they are decoration. `mousePos` and `finalDuration` are also left out: they feed rendering only, or are never read.
- The timer's `setOctopi(prev => [...prev])` updater is left out. It copies the list unchanged only to force a re-render of the clock, so it changes no modelled state.
- `console.log` on completion is left out, as output only.
- Rendering (JSX and CSS) is left out.
- `app/page.tsx` is left out, as layout only.
- `app/components/SeaShanty.tsx` is left out, because it is the browser audio API.
