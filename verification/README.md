# Screen-time interval timer, modelled in Dafny

The page is a work/break interval timer. It keeps one session record. Five buttons change it: start, pause, reset, continue and stop. So does a callback that fires once a second while the timer runs. Work intervals cycle through 43, 37 and 25 minutes. When an interval is used up the timer stops and shows "Break Time!". From there the user either continues into the next interval, which credits five minutes of break, or stops, which counts a completed session and resets.

The project models that state machine as pure functions over an immutable record. It also models the integer arithmetic and the zero-padded text of the two clocks.

- `wrappers.dfy`: `Option`, which stands for JavaScript's `null`.
- `jsmath.dfy` (module `JsMath`): JavaScript's `%`, which truncates toward zero.
- `timer.dfy` (module `Timer`): the `State` record, the interval table, and one function per transition (`Start`, `Pause`, `Reset`, `Tick`, `Continue`, `Stop`). It also holds `Event`, `Step` and `Run`, which apply button presses and passing seconds in order. Every transition keeps the invariant `Inv`: the interval index is in range, `totalSeconds` matches it, and the two run flags are never both set.
- `timer_properties.dfy` (module `TimerProperties`): the phase the page shows (Ready, Running, Paused, Break Time!) and the phase table. It also has a stronger invariant `Consistent`, which holds as long as start is not pressed during a break. The rest covers the exact number of seconds before a break, a worked scenario, and the counters as exact tallies of the events.
- `display.dfy` (module `Display`): `String(n)` and `padStart`. It also has the mm:ss interval clock and the hh:mm session clock, with round-trip lemmas showing that the padded text reads back as the number.

The browser clock `Date.now()` becomes an explicit `now` argument, in milliseconds.

Where the code differs from the behaviour the timer is meant to have, the model follows the code:

- Start overwrites the session start stamp every time it runs. That includes resuming from a pause and the start inside continue. The intended behaviour is that a resume keeps the original stamp, so the session clock keeps counting from the first start. `ResumeRestartsSessionClock` states the code's behaviour.
- Continue has no guard. Its field updates happen even while the timer runs, and the start that follows is then a no-op.
- The break test is `currentTime >= totalSeconds`, not equality. The intended invariant is that a running timer keeps `currentTime < totalSeconds`. That holds only because the page disables the start button during a break. `GuardedRunKeepsConsistent` proves it under that guard. `StartDuringBreakOvershoots` shows what the unguarded transition does: the clock passes the interval length, and only the `>=` test stops the timer again.

## Model

| member | source | states |
|---|---|---|
| Timer.IntervalSeconds | script.js:1-2 | an interval's length in seconds is its table entry times 60, between 25 and 43 minutes, a whole number of minutes |
| Timer.NextIndex | script.js:153 | JavaScript's `(i + 1) % 3`: for any non-negative index the result is in range and equals the mathematical remainder; from an index in range it is `i + 1`, except after the last interval, where it wraps to 0 |
| Timer.NextIndexOutOfRange | script.js:153 | from out-of-range indices 3, 7, -1 and -4 the next index is back in range, but from -2 it is -1, which names no interval |
| Timer.Start | script.js:64-68 | a no-op while running; otherwise running, not paused and stamped with `now`; interval progress and counters unchanged; keeps the invariant |
| Timer.Pause | script.js:94-97 | a no-op unless running; otherwise paused and not running, with the stamp, interval progress and counters unchanged; keeps the invariant |
| Timer.Reset | script.js:111-118 | the declared initial record, except that sessions completed and total break time carry over |
| Timer.Tick | script.js:77-80 | the clock advances by exactly one second; still running exactly when it was running and the new time is below the interval length; the paused flag, interval and counters are unchanged (the break clears only the running flag, line 137) |
| Timer.Continue | script.js:150-159 | next interval index, `totalSeconds` to match, clock at 0, one more continuation, five more break minutes, sessions unchanged; running afterwards, stamped with `now` only if it was not already running |
| Timer.Stop | script.js:163-169 | one more completed session; equal to a reset with the session counter bumped, and so to the initial record with both lifetime counters carried over |
| Timer.Step | script.js:39-43 | every button press and every second keeps the invariant; a second that passes while stopped changes nothing, since the callback runs only between start and pause, reset or break (lines 76-85, 99, 120, 134) |
| Timer.Run | script.js:39-43 | the invariant holds after any sequence of events |
| TimerProperties.PhaseOf | script.js:74-138 | no contract of its own: derives the status label from the run flags and the interval clock instead of storing it; `PhaseTable` and `LabelTracksPhase` relate it to the label each handler writes |
| TimerProperties.LabelTracksPhase | script.js:74-138 | from any state whose label shows its phase, every event leaves the label showing the new phase: each handler that writes a label ("Running" at line 74, "Paused" at 105, "Ready" at 127, "Break Time!" at 138) writes the one of the phase it lands in, and each that writes none stays in its phase |
| TimerProperties.LabelTracksPhaseRun | script.js:74-138 | along any event sequence, including start during a break, the label the handlers leave equals the derived phase's label |
| TimerProperties.InitialConsistent | script.js:6-16 | the declared initial record satisfies the invariants and shows Ready |
| TimerProperties.PhaseTable | script.js:64-169 | Ready and Paused start into Running, and a resume keeps the clock; Running pauses into Paused; start while running and pause while not running are no-ops; reset and stop give Ready; a second from Running gives Break Time exactly when it reaches the interval length; continue always gives Running |
| TimerProperties.StepKeepsConsistent | script.js:64-169 | every event except start during a break keeps the clock within its interval, keeps a stopped timer either fresh or at its interval's end, keeps the stamp set outside Ready, and keeps break credit covering the continuations |
| TimerProperties.GuardedRunKeepsConsistent | script.js:70-72 | with start disabled during a break, as the page's buttons arrange, consistency holds along any event sequence |
| TimerProperties.StartDuringBreakOvershoots | script.js:79 | start during a break, then one second, leaves the clock one past the interval length and the timer stopped again by the `>=` test |
| TimerProperties.ResumeRestartsSessionClock | script.js:68 | pause then start keeps the interval progress and counters but replaces the session stamp with the new `now` |
| TimerProperties.TicksBeforeBreak | script.js:76-81 | from a running state, `k` seconds that do not pass the interval's end advance the clock by `k`, and the timer stops exactly when the clock reaches the interval length |
| TimerProperties.TicksWhileStopped | script.js:133-137 | after the break, further seconds change nothing |
| TimerProperties.ExactlyTotalSecondsToBreak | script.js:77-80 | from a freshly started interval the timer runs through every earlier second and breaks at exactly `totalSeconds`; any extra seconds leave that state alone |
| TimerProperties.FirstIntervalScenario | script.js:64-159 | start plus 2580 seconds gives Break Time with no completed session; continue then gives index 1, 2220 seconds, one continuation and 5 break minutes |
| TimerProperties.ContinueCycles | script.js:153-156 | three continuations return to the same interval and add three continuations and 15 break minutes |
| TimerProperties.ResetIdempotent | script.js:111-118 | resetting a reset or stopped record changes nothing |
| TimerProperties.LifetimeCounters | script.js:150-169 | over any event sequence, sessions completed grows by the number of stops and total break time by five times the number of continuations |
| JsMath.JsRem | script.js:180 | JavaScript's remainder takes the sign of the dividend: for a non-negative dividend it lies in `[0, b)` and equals the mathematical remainder; for a negative one it lies in `(-b, 0]` and is the negated remainder of the dividend's absolute value |
| Display.NatToString | script.js:182 | decimal digits, at least one, with no leading zero, and a single digit exactly below 10 |
| Display.NatToStringRoundTrip | script.js:182 | the decimal digits of `n` read back as `n` |
| Display.IntToString | script.js:182 | `String(i)` is a numeral that starts with a minus sign exactly when `i` is negative |
| Display.PadStart | script.js:182-183 | the result has the requested width, or the original length if that is larger; it ends with the original string, and everything before it is the fill character |
| Display.ZeroPadKeepsValue | script.js:182-183 | padding a digit string with zeros keeps its value |
| Display.PaddedNumeralKeepsValue | script.js:182-183 | two-character zero padding of `String(i)` reads back as `i`, negatives included |
| Display.TwoDigits | script.js:182-183 | the padded text is a numeral denoting the number, at least two characters long and exactly two for 0..99 |
| Display.MinutesSeconds | script.js:179-180 | for a non-negative clock, `minutes * 60 + seconds` is the clock and the seconds lie in `[0, 60)` |
| Display.TimerText | script.js:179-183 | both fields are numerals that read back as the minutes and seconds; both are two characters below 100 minutes |
| Display.ConsistentTimerText | script.js:179-183 | in every consistent state both fields are two characters and the minutes never exceed the 43-minute interval |
| Display.ElapsedSeconds | script.js:201 | the elapsed whole seconds, rounded down, bracket the millisecond difference |
| Display.ClockParts | script.js:202-203 | for non-negative elapsed seconds, the hours are non-negative, the minutes lie in `[0, 60)`, and `hours * 3600 + minutes * 60` is at most the elapsed time and less than a minute below it |
| Display.ClockText | script.js:204 | below 100 hours the text is `hh:mm`, five characters with a colon in the middle, and each half reads back as its number |
| Display.ClockPartsFromMillis | script.js:201-203 | for `d` milliseconds from the stamp to `now`, under 100 hours, the hours shown are `d / 3600000` and the minutes are `(d / 60000) % 60` |
| Display.ClockTextFromMillis | script.js:201-204 | for `d` milliseconds from the stamp to `now`, under 100 hours, the `hh:mm` text is five characters whose halves read back as `d / 3600000` and `(d / 60000) % 60` |
| Display.SessionClock | script.js:199-205 | the clock text changes exactly when the stamp is present and non-zero, since the page tests it for truthiness; the text is then the `hh:mm` of the whole seconds elapsed |
| Display.SessionClockInMillis | script.js:199-205 | with a truthy stamp and `d` milliseconds since it, under 100 hours, the session clock shows five characters `hh:mm` whose halves read back as `d / 3600000` and `(d / 60000) % 60` |

## Left out

- The DOM: element lookups, button `disabled` flags, the break modal, and the interval and counter labels (script.js:19-32, 70-73, 102-104, 123-125, 140-141, 185-196). The button guard enters the model only as the `Allowed` assumption of `GuardedRunKeepsConsistent`, which says that start is disabled during a break.
- The status label is not stored in the model. It is derived as `PhaseOf`, and `LabelTracksPhase` shows that the text the handlers write (script.js:74, 105, 127, 138) always equals the derived phase's label. The label's text before any handler runs comes from the page's markup, which is not part of this model. After a load the derived phase and the label can disagree, because `loadState` (script.js:50-56) never calls `updateStatus`.
- Local storage: `loadState`, `saveState` and the unload handler (script.js:49-61, 247-250). Storage and JSON are browser services. A loaded record is merged field by field and can break every invariant, so no property is claimed after a load. The serialisation round trip is not modelled either.
- Timer scheduling: `setInterval`, `clearInterval` and the 3.5-hour reminder `setTimeout` (script.js:3, 76-89, 99-100, 120-121, 134-135, 171-174). A passing second is the `Second` event. The second callback, which only redraws the session clock, is `SessionClock` evaluated at a given `now`.
- The Web Audio beep and the system notification (script.js:208-245). They are browser side channels with floating-point parameters, and they do not touch the state.
- The visibility handler (script.js:252-258). It only calls pause, which is modelled.
- Timer.Continue: requires that the next index `(i + 1) % 3`, computed with JavaScript's remainder, is in range. It fails only for negative indices such as -2, where the page looks up `INTERVALS[-1]`, gets `undefined` and computes a non-number `totalSeconds`, which integers cannot represent. Any index of 0 or more, and indices such as -1 and -4, are covered. Out-of-range indices arise only from a corrupted stored record.
- Numbers are unbounded integers. JavaScript doubles lose integer precision above 2^53, which no counter or timestamp here reaches.
