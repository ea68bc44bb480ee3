# Pomodoro study/break timer, modelled in Dafny

The repository is a browser page (`script.js`) with a study/break timer: a
work phase and a break phase alternate, each of a configurable number of
minutes; while the timer runs, every second takes one second off the phase
and, during work, adds one second to a study total; at zero the phase flips
and restarts at the other phase's configured length. The study total is
stored in the cookie `totalStudyTime` on pause, on reset and when the page
is left, and is read back when the page loads.

The model:

- `TimerSteps` (timer_steps.dfy): the four closure variables `isWorking`,
  `timeInSeconds`, `isPaused` and `totalStudyTimeInSeconds` (script.js:14-17)
  as a `TimerState` value, whose field for the last one is named
  `totalStudyTime`, and
  each timer operation as a function from state to state. The interval handle
  is not a variable of its own: an interval exists exactly when the timer is
  not paused. Lemmas cover runs of many ticks.
- `Timer` (timer.dfy): the class `PhaseTimer`, whose fields the methods update
  in place, as the closures do. The fields are the four variables, the values
  of the two duration inputs (read when a phase flips, not when the timer
  starts) and the browser's cookie jar. Each method's new state is stated
  through the `TimerSteps` functions and the cookie functions. The module also
  holds the startup reading of the stored total.
- `Cookies` (cookies.dfy): the text `setCookie` assigns, the browser's jar as
  an ordered list of name/value pairs, the string `document.cookie` returns,
  and `getCookie`'s loop over that string.
- `Numbers` (numbers.dfy): `String(n)` for integers, and the digit-prefix
  reading of `parseInt(s, 10)`.
- `Display` (display.dfy): the numbers and text of `updateDisplay` (MM:SS)
  and `updateStudyTimeDisplay` (hours and minutes). `Math.floor` and
  JavaScript's truncating `%` are written out.
- `Wrappers` (wrappers.dfy): `Option`, for `null` and `NaN`.

Behaviours of the code that the model keeps as written:

- At startup the time is the constant 25 × 60 (script.js:15). It is not the
  configured work minutes × 60.
- `setCookie` writes `value || ""` (script.js:27), so a total of 0 is stored
  as the empty string, not as `"0"`. A reload still seeds 0, because
  `parseInt("")` is `NaN`. `PersistRoundTrip` proves this.
- `parseInt` accepts a sign and ignores trailing text, so `"-5"` seeds −5 and
  `"12abc"` seeds 12 (`Timer.TrailingTextSeeds`). A stored value need not be
  non-negative.
- A duration input's value changes as the user types, before its `change`
  handler runs (script.js:146, 153). A phase flip in between reads the new,
  uncommitted value (script.js:83). `PhaseTimer.TypeWorkMinutes` and
  `PhaseTimer.TypeBreakMinutes` model the typing on its own.
- The durations are not validated (script.js:83, 111, 148, 155): every method
  accepts any integer. `Bounded` holds only under positive durations, and the
  lemmas about it say so in their preconditions.
- The phase flips when the time reaches `<= 0` (script.js:81), not exactly 0.

## Model

| member | source | states |
|---|---|---|
| `Numbers.NatToString` | script.js:27 | the text of a non-negative number is non-empty, all decimal digits and has no leading zero |
| `Numbers.IntToString` | script.js:27 | the text of any integer is non-empty and uses only digits and `-`; `IntToStringForm` states its exact form |
| `Numbers.IntToStringForm` | script.js:27 | the text starts with `-` exactly when the integer is negative; the digits after any sign are non-empty, have no leading zero unless the integer is 0, and denote its absolute value |
| `Numbers.LeadingZeros` | script.js:45 | `'0'`s put in front of a string of digits leave it all digits and do not change the number it denotes |
| `Numbers.DigitPrefixLength` | script.js:163 | `parseInt` reads exactly the longest digit prefix: every character before it is a digit and the next one is not |
| `Numbers.ParseInt` | script.js:163 | `parseInt` gives a number exactly when a digit comes first, or right after a leading sign; otherwise `NaN` |
| `Numbers.NatRoundTrip` | script.js:164 | reading back the digits written for `n` gives `n` |
| `Numbers.IntRoundTrip` | script.js:163-164 | `parseInt(String(i), 10) == i` for every integer |
| `Numbers.DigitPrefixOfDigitsThen` | script.js:163 | the digit prefix of digits followed by a non-digit is exactly those digits |
| `Numbers.TrailingTextIgnored` | script.js:163-164 | `parseInt` of the text of any integer followed by text that does not start with a digit gives that integer (`"12abc"` → 12, `"-5"` → −5) |
| `Numbers.NoLeadingDigitIsNaN` | script.js:163 | a value that starts with neither a sign nor a digit parses to `NaN` (None) |
| `Cookies.IndexOf` | script.js:33 | the scan inside `split(';')`: the first position of the separator, or the length when it is absent |
| `Cookies.Split` | script.js:33 | `split(';')` always yields at least one part |
| `Cookies.StripLeadingSpaces` | script.js:36 | the inner `while` loop removes only spaces, from the front, and leaves a suffix of the entry that does not start with a space |
| `Cookies.Upsert` | script.js:27 | assigning a cookie keeps the jar's length (replace) or appends the cookie |
| `Cookies.SkipSpaces` | script.js:36 | the `while` loop leaves the entry stripped of its leading spaces |
| `Cookies.FirstMatchAt` | script.js:34-37 | one pass of the `for` loop: entry `i` matches `name=` and gives what follows, or the search goes on at entry `i + 1` |
| `Cookies.GetCookie` | script.js:31-40 | the `for`/`while` loops return the text after `name=` in the first stripped entry that starts with it, and None when no entry does |
| `Cookies.SplitCons` | script.js:33 | splitting a `;`-free part, a `;` and a rest gives that part followed by the parts of the rest |
| `Cookies.SplitJoin` | script.js:33 | splitting a `;`-joined list of `;`-free parts gives back the parts |
| `Cookies.StripEntry` | script.js:36 | stripping leaves a jar entry as it is, with or without the space the browser puts before it |
| `Cookies.EntryPrefix` | script.js:37 | a jar entry starts with `name=` exactly when its name is `name` |
| `Cookies.EntryValue` | script.js:37 | the text after `name=` in an entry is the cookie's value |
| `Cookies.LaterSegmentsFree` | script.js:33 | no entry after the first contains a `;` |
| `Cookies.SegmentsFree` | script.js:33 | no entry of `document.cookie` contains a `;`, so `split(';')` finds them all |
| `Cookies.LaterSegmentsMatch` | script.js:34-38 | the loop over the entries after the first finds the same value as looking the name up in the rest of the jar |
| `Cookies.SegmentsMatch` | script.js:34-38 | over a non-empty jar the loop finds the first cookie of that name: the first entry, or else one of the later ones |
| `Cookies.CookieValueOfJar` | script.js:31-40 | `getCookie` over what `document.cookie` returns gives the jar's value of that name |
| `Cookies.SetCookieString` | script.js:27 | for a valid name and a value without `;`, the browser reads back from the assigned text exactly the pair (name, value) |
| `Cookies.PairWithAttributes` | script.js:25-27 | whatever attributes follow the first `;` (`; expires=…`, `; path=/`), the browser takes exactly the pair written before them |
| `Cookies.MatchIndex` | script.js:34-37 | the index of the first entry that starts with the prefix once its leading spaces are dropped; no earlier entry does; the number of entries when none does |
| `Cookies.FirstMatch` | script.js:34-39 | nothing exactly when no entry matches; otherwise the first matching entry, after its leading spaces, is the prefix followed by the result |
| `Cookies.CookieValueFirst` | script.js:31-40 | `getCookie(name)` returns null exactly when no `;`-separated entry starts, after its leading spaces, with `name=`; otherwise it returns the rest of the first entry that does |
| `Cookies.UpsertLookup` | script.js:27 | after assigning a cookie its name reads its new value, and every other name reads as before |
| `Cookies.UpsertValid` | script.js:27 | assigning a well-formed cookie keeps the jar well formed |
| `Cookies.CookieRoundTrip` | script.js:27-40 | after `setCookie(name, value)`, `getCookie(name)` returns `value`, other cookies are unchanged and the jar stays well formed |
| `Display.JsRem` | script.js:44 | JavaScript's `%`: `a == trunc(a/b)*b + r`, `abs(r) < b`, and `r` has the sign of `a` |
| `Display.ClockParts` | script.js:42-44 | the minutes are the floor of seconds/60; for non-negative seconds, minutes*60 + seconds-part == seconds with the part in 0..59 |
| `Display.StudyParts` | script.js:59-61 | for a non-negative total, the minutes lie in 0..59 and hours*3600 + minutes*60 is the total rounded down to a whole minute |
| `Display.PadStart2` | script.js:45 | `padStart(2, '0')` gives length max(2, len): the original text preceded by nothing but `'0'`s |
| `Display.TwoDigits` | script.js:45 | a number below 100 is shown as exactly its tens and units digits |
| `Display.ClockText` | script.js:42-45 | for a time that is not negative: the text is a minutes field, its only `:`, and the two digits of seconds mod 60; exactly five characters below 100 minutes |
| `Display.StudyText` | script.js:59-62 | starts with the label `累計勉強時間: `; for a total that is not negative, ends in `時間`, the two digits of the minutes past the hour, and `分` |
| `Display.PaddedDigits` | script.js:45 | a non-negative number padded to two characters is all digits and still denotes that number |
| `Display.ClockFields` | script.js:45 | `m` minutes and `sec` < 60 seconds are laid out as the minutes, the only `:`, and the two digits of `sec`; five characters when `m` < 100 |
| `Display.ClockTextMinutes` | script.js:42-45 | for any time that is not negative, however many digits the minutes take, the text before `:SS` is all digits and denotes the whole minutes |
| `Display.StudyTextHours` | script.js:59-62 | for any total that is not negative, however many digits the hours take, the text between the label and `時間MM分` is all digits and denotes the whole hours |
| `Display.LeadingField` | script.js:45 | the padded number at the front of a text denotes that number, whatever follows it |
| `Display.InnerField` | script.js:62 | the padded number between an 8-character head and a 5-character tail denotes that number |
| `Display.ClockTextDigits` | script.js:42-45 | below 100 minutes the clock text is `MM:SS` made of the digits of minutes and seconds |
| `Display.StudyTextDigits` | script.js:59-62 | below 100 hours the study text carries the two digits of hours and of minutes between its labels |
| `TimerSteps.Start` | script.js:65-68 | after start the timer runs, and nothing but `isPaused` differs from before |
| `TimerSteps.Tick` | script.js:71-83 | a tick adds 1 to the total iff working; the phase flips iff the time reaches `<= 0`; without a flip the time drops by exactly 1; after a flip it is the new phase's configured minutes × 60 |
| `TimerSteps.Pause` | script.js:98-100 | after pause the timer is paused, and phase, time and total are unchanged |
| `TimerSteps.EditWork` | script.js:146-151 | an edit of the work duration changes only the time, and only when paused in a work phase, where it becomes minutes × 60 |
| `TimerSteps.EditBreak` | script.js:153-158 | an edit of the break duration changes only the time, and only when paused in a break, where it becomes minutes × 60 |
| `TimerSteps.StartIdempotent` | script.js:65-66 | starting twice is starting once, and starting a running timer changes nothing, so only one interval runs |
| `TimerSteps.PauseThenStart` | script.js:98-100 | pause then start resumes the identical phase, time and total; a second pause changes nothing |
| `TimerSteps.TicksSplit` | script.js:71-95 | `a + b` ticks are `a` ticks followed by `b` ticks, and so are their working-phase counts |
| `TimerSteps.TickAccounting` | script.js:72-77 | over any run of ticks the total grows by exactly the number of ticks that began in a work phase, never more than the number of ticks |
| `TimerSteps.CountDown` | script.js:72-81 | before the time runs out, `k` ticks take `k` seconds off, keep the phase, and add `k` to the total only when working |
| `TimerSteps.PhaseRunsOut` | script.js:72-83 | a phase with `t` seconds left keeps its phase for `t - 1` ticks and flips at the `t`-th, to the other phase's configured length |
| `TimerSteps.PomodoroScenario` | script.js:71-95 | with 25/5 minutes from 25:00: 1500 ticks give a break at 300 s with 1500 s added; 300 more give work at 1500 s with nothing more added |
| `TimerSteps.TickBounded` | script.js:81-83 | with positive durations a tick keeps the time within 1 and the current phase's length |
| `TimerSteps.TicksBounded` | script.js:71-95 | the same bound holds after any number of ticks |
| `TimerSteps.TicksPositive` | script.js:71-83 | with positive durations, from any time of at least 1 second (bounded or not, such as 25:00 at page load under a shorter work input), the time stays at least 1 after any number of ticks |
| `TimerSteps.EditsBounded` | script.js:146-158 | with a positive new duration an edit keeps the bound, unless the timer is running in the phase that was edited |
| `TimerSteps.Reset` | script.js:108-118 | a pause, then a work phase of the work minutes × 60 seconds and a zero total; nothing of the state before survives |
| `TimerSteps.ResetBounded` | script.js:108-111 | a reset with a positive work duration starts within the bound |
| `Timer.PersistedText` | script.js:27 | the stored text contains no `;`, and is empty exactly when the total is 0 |
| `Timer.SeededTotal` | script.js:161-165 | 0 when there is no `totalStudyTime` cookie; when the cookie's value parses, exactly the number `parseInt` reads from it; any non-zero seed comes from such a cookie |
| `Timer.TrailingTextSeeds` | script.js:161-165 | a stored value made of the text of an integer and then anything not starting with a digit seeds that integer (`"12abc"` seeds 12) |
| `Timer.StoreTotal` | script.js:105 | the jar after any of the three saves (script.js:105, 120, 169) holds the stored text of the total under `totalStudyTime`, every other name reads as before, and a well-formed jar stays well formed |
| `Timer.LoadTotal` | script.js:161-165 | the startup code's total is the one `SeededTotal` reads out of `document.cookie` |
| `Timer.SetCookieStoresTotal` | script.js:105 | `setCookie('totalStudyTime', total, 365)` stores exactly the cookie (`totalStudyTime`, the stored text of `total`) |
| `Timer.PersistRoundTrip` | script.js:161-165 | storing any total and reloading seeds exactly that total; other cookies are unaffected |
| `Timer.MissingCookieSeedsZero` | script.js:161-165 | with no `totalStudyTime` cookie, startup seeds 0 |
| `Timer.CorruptCookieSeedsZero` | script.js:163 | a corrupt cookie `"abc"` seeds 0 and is no error |
| `Timer.PhaseTimer.constructor` | script.js:13-17 | the closure starts as a paused work phase at 25:00 with a zero total, the inputs' durations and the unchanged jar |
| `Timer.PhaseTimer.SeedTotal` | script.js:161-165 | the page-load code sets the total to what `SeededTotal` reads from `document.cookie`, and changes nothing else |
| `Timer.PhaseTimer.Start` | script.js:65-68 | the new state is `TimerSteps.Start` of the old; a running timer is left entirely unchanged |
| `Timer.PhaseTimer.Tick` | script.js:71-95 | the new state is `TimerSteps.Tick` of the old, with the durations read at that moment; durations and cookies are untouched |
| `Timer.PhaseTimer.SaveTotal` | script.js:20-28 | the jar gets the cookie `totalStudyTime` holding the stored text of the total, and stays well formed |
| `Timer.PhaseTimer.Pause` | script.js:98-106 | paused, with phase, time and total kept, and the total stored (by `PersistRoundTrip`, a reload reads it back) |
| `Timer.PhaseTimer.Reset` | script.js:108-121 | a paused work phase at the work minutes × 60 with total 0; the old total is stored, then 0, so a reload reads 0 |
| `Timer.PhaseTimer.TypeWorkMinutes` | script.js:83 | typing into the work input changes its value, which the next phase flip reads, and nothing else |
| `Timer.PhaseTimer.TypeBreakMinutes` | script.js:83 | typing into the break input changes its value, which the next phase flip reads, and nothing else |
| `Timer.PhaseTimer.SetWorkDuration` | script.js:146-151 | typing the new value and then its `change` handler: the work minutes become the new value; the state changes as `TimerSteps.EditWork` says |
| `Timer.PhaseTimer.SetBreakDuration` | script.js:153-158 | typing the new value and then its `change` handler: the break minutes become the new value; the state changes as `TimerSteps.EditBreak` says |
| `Timer.PhaseTimer.Unload` | script.js:168-170 | the timer state is unchanged and the total is stored, whether or not the timer was paused |

## Left out

- DOM lookups and every `textContent`/`style` write (script.js:2-11, 45, 50-54, 62). Only the computed numbers and text are modelled. `updateStatus` (script.js:48-56) only picks a label and a colour for the phase, so it is not modelled.
- Real time: `setInterval`/`clearInterval` (script.js:71, 99). An interval exists exactly when `isPaused` is false. `PhaseTimer.Tick` is one firing and requires a running timer.
- The audio element (script.js:69, 86-93, 101-103, 114-117, 123-128, 138-144): `loop`, `play()` and its rejection, `pause()`, `currentTime` and object URLs are media APIs outside the timer's state.
- The `expires` attribute of `setCookie` (script.js:21-26): it depends on the clock and on `Date` formatting. `SetCookieString` keeps only `name=value; path=/`. `Cookies.PairWithAttributes` shows that the pair the browser reads back does not depend on the attributes after the first `;`, `expires` included.
- The browser's cookie jar is simplified to an ordered list of name/value pairs with replace-or-append. Paths, expiry, size limits and the browser's whitespace trimming are not modelled. `getCookie` itself is modelled in full over the string that jar produces.
- The `DOMContentLoaded` and `beforeunload` event wiring (script.js:1, 168). Startup is the constructor (the closure variables, script.js:13-17) followed by `PhaseTimer.SeedTotal` (script.js:161-165), and unload is `PhaseTimer.Unload`.
- Coercion of `input.value` to a number (script.js:83, 111, 148, 155): durations are integers. A non-numeric input, which gives `NaN` seconds, is not modelled.
- Numbers.ParseInt: does not skip leading whitespace, and does not lose precision beyond 2^53. The model's totals are unbounded integers, while JavaScript's numbers are doubles.
- Timer.PhaseTimer.Reset: the second write stores the field `totalStudyTime` right after it was set to 0. The source passes the literal 0 (script.js:120). The stored text is the same.
