# Daily Hold: the hold timer, the midnight countdown and the wake lock

Daily Hold is a one-page habit widget: once a day the user presses START and
holds for 60 seconds; on completion the page celebrates, stores the completion
time in `localStorage`, and on a load or reload opens on "already completed"
until a reload happens on a later local day.
This project models the page's only logic, the two hooks behind it:

- `useTimerLogic` (`client/src/hooks/use-timer-logic.ts`): the session state
  (`status`, `timeLeft`, `completionDate`), the mount effect that reads
  storage, the tick effect, and the handlers `handleStart`, `handleGiveUp`,
  `handleComplete` and `handleCloseModal`. Module `TimerLogic`.
- `useNextMidnightCountdown` (same file): the `HH:MM:SS` countdown to the
  next local midnight. Modules `Clock` and `Countdown`.
- `useWakeLock` (`client/src/hooks/use-wake-lock.ts`): the sentinel reference,
  the `isActive` flag, `requestWakeLock`, `releaseWakeLock`, the sentinel's
  `release` listener and the `visibilitychange` handler. Module `WakeLock`.
- Module `HoldTrace` puts these together: the page is mounted once, then runs
  a sequence of events. A user action counts only when the page offers it
  (`client/src/pages/home.tsx`): START in the idle view; GIVE UP in the hold
  view, which stays rendered under the completion modal while completed.
  The modal's backdrop stops mouse and touch clicks but traps no focus, so GIVE UP
  stays reachable from the keyboard. Closing the modal is offered while
  completed. A view that is leaving stays mounted and clickable for its exit
  animation. So START is still offered just after it was pressed, before the
  first tick. GIVE UP and the modal's backdrop are still offered just after the
  page went back to idle. The model does not time these windows: it offers
  GIVE UP in every idle state, and the backdrop's close in every idle state
  that still has a completion date, a superset of the exit windows. The
  "already completed" view replaces the whole page,
  so nothing exits into it, and it has no controls. An effect run counts
  only when the hook's state arms it. Wake-lock platform events can happen at
  any time.

Time is a local calendar day number plus a second of that day (`Clock.Instant`).
So `isSameDay` is equality of days, and the ISO string in storage is that
instant. Every platform answer is a parameter: a wake-lock request granted or
rejected, a release resolving or throwing. The stored value is one of three
cases: nothing (a missing key or an empty string), a timestamp, or a string
`parseISO` cannot read.

## What the proofs show about the code as written

- The 60th tick leaves the hook running with 0 seconds left. Completion is a
  separate run of the tick effect (`HoldTrace.StartThenTicks`), not part of
  the last tick.
- `handleStart` and `handleGiveUp` check no status. Only the page's rendering
  keeps START to the idle view and its exit animation. Start therefore keeps whatever completion date
  was there (`TimerLogic.Start`).
- Storage errors are not caught. The model has no soft-failure path for them.
- An idle page has 60 seconds on its timer, so "time left > 0" does not imply
  "running".
- At exactly local midnight the countdown reads `24:00:00`, not `00:00:00`
  (`Countdown.AtMidnight`).
- The "already completed" view never returns to idle while the page stays
  open, even past midnight. Only a reload re-reads storage
  (`HoldTrace.AlreadyCompletedIsFinal`).
- Giving up from the completion modal by keyboard returns to idle with the
  completion date still set and START offered again. A second hold that same
  day then replaces the stored completion (`HoldTrace.SecondHoldSameDay`).
- A double click on START lands its second click on the leaving idle view.
  If both wake-lock requests are granted, the first sentinel stays held but
  unreferenced: the hook never releases it, and only the platform's
  revocation does (`HoldTrace.DoubleStartLeavesStray`).
- Giving up from the completion modal by keyboard, then clicking its backdrop
  while it fades out, shows "already completed" after all
  (`HoldTrace.BackdropAfterGiveUp`).
- The wake-lock recovery never recovers. The platform revokes the lock when
  the page is hidden. The sentinel's `release` listener clears `isActive`, and
  the visibility handler re-requests only when `isActive` is set. So after a
  revocation nothing is requested (`WakeLock.RevokedLockIsNotRecovered`,
  `WakeLock.InactiveStaysInactive`). When the handler does request, the old
  sentinel is still held, and a granted request leaves it held but
  unreferenced (`WakeLock.VisibilityRequestsOnlyWhileHeld`).

## Model

| member | source | states |
|---|---|---|
| `Clock.SecondsUntilMidnight` | client/src/hooks/use-timer-logic.ts:97-99 | the seconds to the next local midnight lie in [1, 86400]; that many seconds later it is exactly midnight of the next day, and any fewer stays on the same day |
| `Clock.Advance` | client/src/hooks/use-timer-logic.ts:98-99 | moving an instant forward by k seconds adds exactly k seconds to its position on the timeline and never goes back a day |
| `Countdown.Decimal` | client/src/hooks/use-timer-logic.ts:105 | `toString` of a non-negative integer is a non-empty digit string: one digit below 10, two digits in [10, 100), and no leading zero unless the number is 0 |
| `Countdown.DecimalRoundTrip` | client/src/hooks/use-timer-logic.ts:105 | reading the digits of `toString(n)` back gives n |
| `Countdown.PadStart` | client/src/hooks/use-timer-logic.ts:105 | `padStart` keeps the string as a suffix, fills the rest with the fill character, and yields max(length, width) characters |
| `Countdown.Pad` | client/src/hooks/use-timer-logic.ts:105 | the padded field is all digits, at least 2 characters, and exactly 2 characters precisely when the number is below 100 |
| `Countdown.PadTwoDigits` | client/src/hooks/use-timer-logic.ts:105 | below 100 the padded field is the tens digit followed by the units digit |
| `Countdown.Split` | client/src/hooks/use-timer-logic.ts:101-103 | hours·3600 + minutes·60 + seconds equals the duration, minutes and seconds are below 60, and at most a day gives at most 24 hours |
| `Countdown.SplitUnique` | client/src/hooks/use-timer-logic.ts:101-103 | any decomposition with minutes and seconds below 60 is the one the floor/modulo arithmetic computes |
| `Countdown.Format` | client/src/hooks/use-timer-logic.ts:101-106 | for any duration under 100 hours the countdown is two digits, a colon, two digits, a colon, two digits |
| `Countdown.Join` | client/src/hooks/use-timer-logic.ts:106 | the template joins three 2-character fields into the 8 characters hh:mm:ss |
| `Countdown.MidnightCountdown` | client/src/hooks/use-timer-logic.ts:96-106 | the string shown at any instant has the `HH:MM:SS` shape and reads back as the seconds until the next local midnight |
| `Countdown.FormatParse` | client/src/hooks/use-timer-logic.ts:101-106 | formatting then parsing gives back every duration under 100 hours |
| `Countdown.ParseFormat` | client/src/hooks/use-timer-logic.ts:101-106 | a well-formed `HH:MM:SS` string with minutes and seconds below 60 is exactly what the formatter prints for the duration it reads as, so every canonical string is printed by the formatter; `Countdown.FormatParse` makes the display injective |
| `Countdown.OneSecondLeft` | client/src/hooks/use-timer-logic.ts:97-106 | one second before midnight the page reads `00:00:01` |
| `Countdown.AtMidnight` | client/src/hooks/use-timer-logic.ts:97-106 | at exactly midnight the page reads `24:00:00` |
| `Countdown.OneSecondPastMidnight` | client/src/hooks/use-timer-logic.ts:97-106 | one second after midnight the page reads `23:59:59` |
| `WakeLock.Fresh` | client/src/hooks/use-wake-lock.ts:4-8 | on mount the support flag is the platform's, no sentinel is referenced or held, and the flag is clear |
| `WakeLock.Request` | client/src/hooks/use-wake-lock.ts:10-32 | resolves to true exactly when supported and granted; then a fresh unreleased sentinel replaces the reference, the flag is set and one more sentinel is held, since the old one is not released; unsupported or rejected changes nothing |
| `WakeLock.Release` | client/src/hooks/use-wake-lock.ts:34-45 | only a referenced unreleased sentinel is released; on success the reference and flag are cleared and one sentinel fewer is held; a failure or a missing or already-released sentinel changes nothing; strays are untouched |
| `WakeLock.Revoke` | client/src/hooks/use-wake-lock.ts:22-25 | the platform's release of the referenced sentinel marks it released and its listener clears the flag |
| `WakeLock.RevokeStray` | client/src/hooks/use-wake-lock.ts:22-25 | the release of an unreferenced sentinel also runs the listener and clears the flag, leaving the reference as it was |
| `WakeLock.OnVisibilityChange` | client/src/hooks/use-wake-lock.ts:47-53 | the handler does nothing unless the page is visible and the flag is set; then an unsupported or rejected re-request changes nothing, and a granted one keeps the flag, holds a fresh sentinel and leaves one more sentinel held in all |
| `WakeLock.RevokedLockIsNotRecovered` | client/src/hooks/use-wake-lock.ts:48-52 | after the platform revokes the referenced sentinel, a visible event requests nothing |
| `WakeLock.VisibilityRequestsOnlyWhileHeld` | client/src/hooks/use-wake-lock.ts:48-52 | the handler requests only when a sentinel is already held, and a granted re-request leaves the old sentinel held but unreferenced |
| `WakeLock.InactiveStaysInactive` | client/src/hooks/use-wake-lock.ts:48-52 | with the flag clear, no sequence of visibility changes changes anything |
| `WakeLock.ReleaseIdempotent` | client/src/hooks/use-wake-lock.ts:35-43 | releasing twice with the same platform answer is releasing once |
| `WakeLock.StrayRevocationClearsFlagWhileHeld` | client/src/hooks/use-wake-lock.ts:22-25 | a stray's revocation clears the flag although the referenced sentinel is still held |
| `TimerLogic.CompletedToday` | client/src/hooks/use-timer-logic.ts:19-22 | a stored date passes the mount test only when it lies less than a day from now |
| `TimerLogic.SameDayIsNotWithinADay` | client/src/hooks/use-timer-logic.ts:22 | a stamp two minutes old fails the mount test when midnight lies between: the test is the calendar day, not elapsed time |
| `TimerLogic.CompletionDue` | client/src/hooks/use-timer-logic.ts:33-39 | the completion branch excludes the tick branch, and a running session with no negative time arms exactly one of the two |
| `TimerLogic.Mount` | client/src/hooks/use-timer-logic.ts:18-27 | the page opens on "already completed" exactly when storage holds a completion on today's date, with that date; otherwise it stays idle with 60 seconds and no date |
| `TimerLogic.Tick` | client/src/hooks/use-timer-logic.ts:33-36 | a tick happens only while running with time left, takes off exactly one second, and leaves either another tick or the completion due |
| `TimerLogic.Complete` | client/src/hooks/use-timer-logic.ts:56-63 | completion shows the modal with 0 seconds and `now` as the date, overwrites storage with `now`, and releases the wake lock |
| `TimerLogic.Start` | client/src/hooks/use-timer-logic.ts:44-48 | starting gives a running 60-second hold whatever the wake-lock request did and whatever the previous status and time were; storage and date are untouched |
| `TimerLogic.GiveUp` | client/src/hooks/use-timer-logic.ts:50-54 | giving up returns to idle with 60 seconds, arms nothing, and touches neither storage nor the completion date |
| `TimerLogic.CloseModal` | client/src/hooks/use-timer-logic.ts:75-80 | closing the modal shows "already completed" and changes nothing else |
| `TimerLogic.GiveUpIdempotent` | client/src/hooks/use-timer-logic.ts:50-54 | giving up twice with the same platform answer is giving up once |
| `TimerLogic.GiveUpWhileIdle` | client/src/hooks/use-timer-logic.ts:50-54 | giving up on the idle page changes neither the hook's state nor storage |
| `TimerLogic.StartIgnoresWakeLock` | client/src/hooks/use-timer-logic.ts:44-48 | whatever the wake-lock request does, starting gives the same session and storage |
| `HoldTrace.Armed` | client/src/pages/home.tsx:20-122 | the idle page never arms the interval or the completion, and its leaving modal can be closed only when a completion date is left over; the "already completed" view arms nothing but the platform's wake-lock events |
| `HoldTrace.Next` | client/src/hooks/use-timer-logic.ts:44-80 | wake-lock events never change the session or storage, and only the completion effect writes storage |
| `HoldTrace.MountInv` | client/src/hooks/use-timer-logic.ts:12-27 | the mounted page satisfies the reachability invariant whatever storage held |
| `HoldTrace.NextInv` | client/src/hooks/use-timer-logic.ts:33-80 | every step the page can take keeps the invariant |
| `HoldTrace.RunInv` | client/src/hooks/use-timer-logic.ts:33-80 | every run keeps the invariant |
| `HoldTrace.Reachable` | client/src/hooks/use-timer-logic.ts:12-80 | in every reachable state the time left is in [0, 60], idle means 60, a finished status has its date and storage holds that date, and the wake-lock flag implies a held sentinel; this covers giving up from the completion modal by keyboard |
| `HoldTrace.CountDown` | client/src/hooks/use-timer-logic.ts:33-36 | while running, n ticks with n at most the time left take off exactly n seconds and change nothing else |
| `HoldTrace.StartThenTicks` | client/src/hooks/use-timer-logic.ts:33-48 | start then n ticks gives running with 60 − n and the page's earlier completion date, if any; ticks stay armed until the 60th, and the completion is due only after it, in a running state with 0 left |
| `HoldTrace.HoldCompletes` | client/src/hooks/use-timer-logic.ts:44-80 | start, 60 ticks, completion at `now` and closing the modal end in "already completed" with date `now`, and storage holds `now` |
| `HoldTrace.SecondHoldSameDay` | client/src/hooks/use-timer-logic.ts:44-63 | giving up from the completion modal and holding again is feasible the same day and ends in "already completed" with the second instant in state and storage |
| `HoldTrace.DoubleStartLeavesStray` | client/src/pages/home.tsx:49-69 | a double click on START, with both requests granted, runs a fresh 60-second hold and leaves the first sentinel held but unreferenced, so no later release by the hook frees it and only the platform's revocation of that sentinel does |
| `HoldTrace.BackdropAfterGiveUp` | client/src/components/completion-modal.tsx:36-44 | giving up from the completion modal and then clicking its fading backdrop is feasible and shows "already completed" with the earlier completion in state and storage |
| `HoldTrace.ReloadAfterHold` | client/src/hooks/use-timer-logic.ts:18-27 | after a completed hold, a reload opens on "already completed" with that date exactly on the same local day, and on a fresh idle timer on any other day |
| `HoldTrace.CompletedJustBeforeMidnight` | client/src/hooks/use-timer-logic.ts:18-27 | a completion at 23:59 followed by a reload at 00:01 the next day gives the idle page |
| `HoldTrace.AlreadyCompletedIsFinal` | client/src/pages/home.tsx:22-43 | the "already completed" view offers no action and arms nothing, so session and storage stay as they are for the rest of the run |

## Left out

- Rendering (`home.tsx`, `completion-modal.tsx`, `layout-shell.tsx`, `not-found.tsx`): no logic. `home.tsx` is used only to decide which handler the page offers in which status.
- The progress ring in `timer-display.tsx`: floating-point percentages and animation.
- Sharing and copying to the clipboard (`completion-modal.tsx:16-33`): browser APIs and a date format.
- The confetti call (`use-timer-logic.ts:66-72`): a visual side effect with no state.
- `console.log` calls.
- React scheduling. Each interval firing and each effect run is one atomic step. A wake-lock request or release is awaited within its step; `handleComplete` does not wait for its release, and the model collapses that release into the completion step. Clicks on a view during its exit animation are modelled (`HoldTrace.Armed`). Interleavings inside an `await` are not: for example, a second press of START before the first request resolves.
- Unmount cleanup (`use-wake-lock.ts:55-62`, the `clearInterval` calls): it ends the page.
- The midnight countdown's own interval: each refresh is one evaluation of `Countdown.MidnightCountdown` at that instant.
- Time zones, days that are not 86400 seconds long, and the date-fns internals. Time is a day number plus a second of the day.
- Clock.SecondsUntilMidnight: `differenceInSeconds` truncates milliseconds, so during the last 999 ms before midnight the page shows `00:00:00`. The model counts whole seconds, so the least value is 1.
- One page, one writer: the model's storage slot changes only through this page's completion. A second tab completing a hold, or the user clearing site data, changes `localStorage` under an open page (last writer wins, and the hook has no `storage` listener). So the invariant "storage holds the page's completion date" is stated for a single tab with no outside writes.
- Storage failures: `getItem` and `setItem` are not guarded by the code, and an exception there is outside the model.
- `server/` and `shared/`: a health endpoint and a database table the page never uses.
