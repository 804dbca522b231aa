# node-status-bar: the statistics state machine and its formatters, in Dafny

`node-status-bar` is a writable stream that counts the bytes piped into it and
repeatedly calls a user `render` function with a statistics snapshot: bytes so
far, bytes remaining, percentage, a smoothed speed, elapsed seconds and an
estimated remaining time. This project models two parts of `lib/index.js`:

- The `StatusBar` state machine: the constructor, `update` with
  `_updateStats`, the one-second elapsed-time interval, the render interval
  and `cancel`. The state is an immutable record (`Tracker.StatusBar`). Each
  event is a pure function of it: `Create`, `Update`, `Tick`, `RenderTick`
  and `Cancel`. The wall clock (`Date.now()`) and the nanoseconds between
  chunks (`process.hrtime`) are parameters of `Update`. Interval firings are
  explicit events. The `render` and `finish` callbacks are counted, not run.
- The formatter helpers: `space`, `zero`, the rung choice of `unit`, and
  `Formatter.time`, `storage`, `speed` and `percentage` on their integer
  parts.

JavaScript's `~~` (truncate toward zero, then wrap into 32 signed bits), the
quotient `~~(a / b)` that it makes of JavaScript's floating-point `/` (taken
here as exact real division), the `%` that keeps the dividend's sign, and
`n + ""` for integers with |n| < 10^21 are spelled out in `JsNumber` and
`Format.IntToString`. Real-valued expressions are exact reals,
not IEEE doubles.

Files: `wrappers.dfy` (Option, Result), `js_number.dfy` (JsNumber),
`format.dfy` (Format), `tracker.dfy` (Tracker), `runs.dfy` (Runs: event
sequences and the properties that relate several events).

Behaviours of the code a reader may not expect, all modelled as written:

- An update after completion or after `cancel` is not ignored. It adds its
  length, may push the count past the total, and recomputes the snapshot.
- Completion is detected only when the count equals the total exactly
  (`===`). A chunk that overshoots the total never completes the transfer.
- A zero-size transfer is born complete, but its `finish` callback is never
  called by the constructor: only `update` calls it.
- A numeric `update(0)` on a completed bar meets `_current === _total`
  again: it renders and calls `finish` a second time
  (`Runs.EmptyWriteFinishesAgain`). "Finish once" needs positive numeric
  lengths. An empty chunk written through the stream is not `update(0)`: see
  "## Left out".
- A transfer completed by its first chunk keeps speed 0 and an undefined
  remaining time, because speed and time are only computed once a previous
  chunk left a timestamp (`Runs.OneChunkTransfer`).
- `~~options.total` wraps. A total from 2^31 to 2^32 - 1 bytes becomes
  negative: no render timer starts, the count never equals it, `finish`
  never runs, and the elapsed timer keeps running until `cancel` (for example
  from the `unpipe` listener) clears it (`Runs.NegativeTotalNeverFinishes`). A total of 2^32 + n, for n below 2^31,
  completes after n bytes (`Runs.TotalPast2To32FinishesEarly`).
- `cancel` does not reset the elapsed-timer handle. An elapsed timer that was
  created is therefore never restarted. But if `cancel` runs before the first
  chunk, that chunk still starts the elapsed timer.
- The stall test is `=== 3`. Only the third silent tick clears the speed and
  the remaining time; later ticks leave them as they are.
- `options.frequency || 200` turns a zero frequency into 200. So the render
  timer exists exactly when the total is positive.
- The `~~` in the remaining-time formula wraps. A quotient from 2^31 to
  2^32 - 2 seconds gives a negative estimate, 2^32 - 1 seconds give 0, and
  larger quotients wrap again (`Tracker.EtaWrapsPastInt32`).
- `Formatter.time` compares a number of seconds with 86400000 and 3600000.
  So " > 1h" starts at 1000 hours, and an hour is shown as "60:00".
- `Formatter.time` does not clamp negative times (an overshoot, or a wrapped
  estimate). Both parts keep the minus sign, and 15 seconds too many show as
  "00:0-15" (`Format.NegativeTime`, `Format.NegativeUnderAMinute`).
- `storage` and `speed` apply `~~` too. A count from 2^31 to 2^32 - 1 wraps to
  a negative number shown in the base unit (`Format.StorageWrapsPastInt32`).
- The fallback of `unit` past the ninth rung appends `arr[7]`.

## Model

| member | source | states |
|---|---|---|
| `JsNumber.ToInt32` | lib/index.js:96 | `~~` on an integer gives a signed 32-bit value congruent to it modulo 2^32, and leaves int32 values unchanged |
| `JsNumber.TruncDiv` | lib/index.js:57 | `~~(s/60)` before wrapping: the quotient's magnitude is \|a\| div \|b\|, it is negative only for operands of opposite signs and never positive for them, and it is Euclidean division for non-negative operands |
| `JsNumber.TruncRem` | lib/index.js:58 | JavaScript `%`: a == q*b + r with \|r\| < \|b\|, and r takes the dividend's sign |
| `JsNumber.TruncReal` | lib/index.js:176 | truncating a real toward zero keeps the sign and loses less than 1 in magnitude |
| `Format.DecimalRoundTrip` | lib/index.js:16 | reading back the decimal text of a natural number gives the number |
| `Format.NatToStringOfValue` | lib/index.js:16 | rendering the value of a canonical digit string gives the string back, so the decimal text is a bijection |
| `Format.Space` | lib/index.js:15-22 | `space(s, max)` is max(\|s\|, max) long and consists of blanks followed by `s` |
| `Format.SpaceRoundTrip` | lib/index.js:15-22 | removing the leading blanks of `space(s, max)` gives `s` back, and `s` is its suffix |
| `Format.ZeroReadsBack` | lib/index.js:36-38 | `zero(n)` starts with "0" iff n < 10, has at least two digits (exactly two iff n < 100), and reads back as n |
| `Format.Time` | lib/index.js:52-60 | undefined gives "--:--", >= 86400000 gives " > 1d", >= 3600000 gives " > 1h", and from 0 up to the caps `zero` of the minutes, ":" and `zero` of the seconds below 60 |
| `Format.NegativeTime` | lib/index.js:57-59 | a negative 32-bit time is not clamped: minutes and seconds are those of \|s\| with the minus sign, each passed through `zero` |
| `Format.NegativeUnderAMinute` | lib/index.js:36-59 | a time from -59 to -1 shows as "00:0-" followed by its magnitude, as in "00:0-15" |
| `Format.ClockReadsBack` | lib/index.js:56-59 | below the caps the clock is minutes, a colon and two-digit seconds below 60, and minutes*60 + seconds equals the input |
| `Format.TimeCapsAreInMilliseconds` | lib/index.js:54-55 | the caps apply to seconds: 3600 seconds is "60:00", 3599999 is not capped, 3600000 is " > 1h" |
| `Format.RepeatedDivision` | lib/index.js:28-30 | dividing by `pow` once more gives n / pow^i, and that quotient is below `pow` iff n < pow^(i+1) |
| `Format.Unit` | lib/index.js:24-34 | base suffix iff n < pow; otherwise the rung i in 1..8 with pow^i <= n < pow^(i+1), scaled value n / pow^i and suffix arr[i]; past the ladder ">=" + pow + arr[7] |
| `Format.RungIsUnique` | lib/index.js:27-32 | at most one rung i satisfies pow^i <= n < pow^(i+1) |
| `Format.Storage` | lib/index.js:44-46 | int32 counts below 1024 keep the base suffix " B  "; from 1024 to 2^31 - 1 the rung i with 1024^i <= b < 1024^(i+1), value b / 1024^i and suffix arr[i]; from 2^31 to 2^32 - 1 the wrapped negative count in the base unit |
| `Format.Speed` | lib/index.js:48-50 | int32 speeds below 1000 keep "B/s"; from 1000 to 2^31 - 1 the rung i with 1000^i <= bps < 1000^(i+1), value bps / 1000^i and suffix arr[i]; from 2^31 to 2^32 - 1 the wrapped negative speed in the base unit |
| `Format.StorageWrapsPastInt32` | lib/index.js:45 | 3 GiB wraps through `~~` to -1073741824 bytes in the base unit |
| `Format.StorageSwitchesAt1024` | lib/index.js:44-46 | 1023 bytes are "1023" padded to six columns and " B  ", ten characters; 1024 bytes are 1.0 on the KiB rung, width 6 |
| `Format.Percentage` | lib/index.js:62-64 | a rounded percent from 0 to 100 renders as four columns ending in "%" |
| `Format.PercentageReadsBack` | lib/index.js:62-64 | trimming the percentage column and dropping "%" reads back the percent |
| `Tracker.Frequency` | lib/index.js:88 | the render period is never 0; an absent or zero frequency becomes 200 |
| `Tracker.Create` | lib/index.js:70-132 | missing total throws first, then missing render; otherwise one render, zero counters, start 0, the frequency `options.frequency || 200`, no elapsed timer, a render timer iff total > 0, and for total 0 percentage 1 and remaining time 0 (else percentage 0 and no remaining time) |
| `Tracker.SmoothedSpeed` | lib/index.js:175-177 | the smoothed speed is a signed 32-bit value, and 0 when no time passed between chunks |
| `Tracker.ColdStartIsInstantaneousRate` | lib/index.js:175-177 | with no previous speed, the moving average equals the chunk's instantaneous rate |
| `Tracker.SpeedIsAnAverage` | lib/index.js:175-177 | below 2^31 the smoothed speed is non-negative and lies between the previous speed and the new sample, up to truncation |
| `Tracker.Eta` | lib/index.js:183-185 | the remaining-time estimate minus 1 is a signed 32-bit value |
| `Tracker.EtaBracketsAverageRate` | lib/index.js:183-185 | without wrap-around the estimate is at least 1, and the time left at the average rate so far lies in [estimate - 1, estimate) |
| `Tracker.EtaWrapsPastInt32` | lib/index.js:184-185 | two bytes after 6 s of a 10^9-byte transfer give a negative estimate, because `~~` wraps; a quotient of 2^32 - 1 gives 0 and 2^32 gives 1 |
| `Tracker.Cancel` | lib/index.js:190-193 | no timer runs afterwards, both handles stay set or unset as they were, nothing else changes, and validity is kept |
| `Tracker.CancelIsIdempotent` | lib/index.js:190-193 | cancelling twice equals cancelling once |
| `Tracker.Update` | lib/index.js:141-215 | the count grows by exactly the length; the snapshot mirrors count and remainder; the stall counter resets; start is set once; the first chunk keeps speed and ETA; the terminal chunk forces 0 and 0; other chunks get the smoothed speed and the ETA; the elapsed timer is created only when unset; completion clears both timers, renders once more and finishes once |
| `Tracker.Tick` | lib/index.js:150-157 | a running elapsed timer adds one second and one silent tick; on exactly the third silent tick speed becomes 0 and remaining time undefined; nothing else changes; a stopped timer does not fire |
| `Tracker.RenderTick` | lib/index.js:128-130 | a running render timer renders once more without changing the state; a stopped one does nothing |
| `Runs.RunKeepsValid` | lib/index.js:95-120 | every sequence of events keeps the state invariant |
| `Runs.RunIsMonotone` | lib/index.js:156 | the count grows by exactly the bytes written; the total is fixed; elapsed seconds, renders and finishes never decrease |
| `Runs.QuietRunChangesNothing` | lib/index.js:190-193 | once both timers are stopped, ticks and cancels leave the state unchanged |
| `Runs.CompletesExactlyOnce` | lib/index.js:209-214 | positive chunks adding up to the missing bytes, with any ticks and cancels in between, end at the total with percentage 1, both timers stopped and exactly one more finish |
| `Runs.TransferFinishesOnce` | lib/index.js:209-214 | from construction, positive chunks summing to a total below 2^31 end with percentage 1 and `finish` called exactly once |
| `Runs.EmptyWriteFinishesAgain` | lib/index.js:195-214 | after a completed transfer, a numeric `update(0)` renders again and calls `finish` a second time |
| `Runs.OneChunkTransfer` | lib/index.js:164-214 | a transfer completed by its first chunk ends at percentage 1 with speed 0, an undefined remaining time, two renders, one `finish` call if one was supplied, and no timer running |
| `Runs.NegativeTotalNeverFinishes` | lib/index.js:96-214 | with a negative total, every run adds exactly the bytes written, never renders or finishes again, and without `cancel` keeps a started elapsed timer running |
| `Runs.HugeTotalNeverFinishes` | lib/index.js:96-125 | a total of 3 * 10^9 wraps to -1294967296: no render timer, and writing all of it neither finishes nor stops the elapsed timer |
| `Runs.TotalPast2To32FinishesEarly` | lib/index.js:96-214 | a total of 2^32 + 10 wraps to 10, and ten bytes complete the transfer and call `finish` |
| `Runs.SilentTicks` | lib/index.js:150-157 | k silent ticks add k seconds and k to the stall counter; speed and ETA are cleared iff the counter passes 3 during them, and are otherwise unchanged |
| `Runs.StallAndResume` | lib/index.js:150-157 | after a chunk, two silent ticks keep speed and ETA, the third clears them, and the next chunk resets the counter and restarts the speed from the instantaneous rate |
| `Runs.CancelFreezesTimers` | lib/index.js:148-158 | after `cancel` ticks do nothing, and a chunk does not restart an elapsed timer that had been created |
| `Runs.CancelBeforeFirstChunk` | lib/index.js:148-158 | a `cancel` before the first chunk does not stop that chunk from starting the elapsed timer |
| `Runs.ZeroSizeIsBornComplete` | lib/index.js:112-131 | total 0 gives percentage 1, remaining time 0, no timer, one render and no finish, and no tick or cancel changes it |
| `Runs.ThreeChunkTransfer` | lib/index.js:195-215 | 1000 bytes as 250, 250 and 500 one second apart, from any positive clock time: 25% with no speed, then speed 250 with 500 left and ETA 2, then 100% with speed 0, ETA 0, two renders and one finish |

## Left out

- The `stream.Writable` plumbing: `_write`, the `unpipe` listener that calls `cancel`, and `util.inherits`. This is framework glue; `cancel` is an explicit event instead.
- `setInterval`, `clearInterval`, `process.hrtime` and `Date.now`. Timers are `Timer` fields plus `Tick`/`RenderTick` events, and the times are `Update` parameters. Real scheduling cannot be stated in the model.
- The `progress-bar-formatter` library (`pbf.create`, `Formatter.progressBar`). It is a foreign library whose code is not part of this model.
- The `toFixed(decimals)` text inside `unit`. `Format.Unit` returns the scaled value, its rung and its column width instead of the text.
- `Math.round(n*100)` in `percentage`. `Format.Percentage` takes the rounded integer.
- IEEE double rounding. Speeds and the remaining-time quotient are computed over exact reals and integers.
- The `chunk.length || chunk` dispatch in `update`. The length is a non-negative integer parameter, and `Write(0, ..)` stands for a numeric `update(0)`. The dispatch changes exactly the zero-length case: a chunk whose `length` is 0 (an empty Buffer) is itself added to the count, which turns `_current` into a string, so no later `===` with the total holds and `finish` is not called again.
- The effects of the user's `render` and `finish` callbacks. Their invocations are counted in `renders` and `finishes`.
- A NaN or non-numeric `frequency`, `total` or chunk length. All are integers here.
- `Tracker.EtaBracketsAverageRate`: it requires the quotient to fit in 32 bits. Beyond that, `~~` wraps and the estimate can be below 1 (`Tracker.EtaWrapsPastInt32`).
- `Tracker.SpeedIsAnAverage`: it requires the averaged speed to be below 2^31. Beyond that, `~~` wraps it negative.
- `Runs.TransferFinishesOnce`: it requires a total below 2^31. Larger totals wrap at `~~options.total`; they never finish or finish early (`Runs.NegativeTotalNeverFinishes`, `Runs.TotalPast2To32FinishesEarly`).
- `Format.Time`: the clock text is stated for times from -2^31 up to the caps. The status bar never produces a time below -2^31 + 1; for a caller's time below -60 * 2^31 the minutes would also wrap through `~~`.
- `Format.IntToString`: JavaScript writes integers of magnitude 10^21 or more in exponent notation ("1e+21"); the model writes all digits. Every count the status bar formats passes through `~~` first and stays far below that bound.
