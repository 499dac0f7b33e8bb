# ChallengeMe landing page: countdown and page helpers

A Dafny model of the only real logic in the ChallengeMe marketing site:

- the **launch countdown** (`src/app/LaunchCountdown.tsx`). A one-second interval
  splits the milliseconds left until launch into days, hours, minutes and seconds.
  Once that difference is no longer positive, it raises the `isLaunched` flag and
  cancels itself. Each field is displayed as `toString().padStart(2, "0")`. The
  background particles are coloured by `i % 4`.
- the **landing page helpers** (`src/app/page.tsx`). `AnimatedCounter` animates to
  `parseInt` of a stat's digits and shows a `"+"` suffix when the stat has one.
  `InfiniteCarousel` renders its items twice. A feature's icon name selects its
  icon. `AnimatedText` selects its animation variants by name.

Modules:

- `Arith` (arith.dfy): uniqueness of Euclidean quotient and remainder, used by the countdown and the carousel.
- `Options` (options.dfy): `Option`. `None` stands for JavaScript's `NaN`.
- `Decimal` (decimal.dfy): `toString` of a natural number, `padStart` with a
  one-character pad, and `parseInt` of a string of ASCII digits. It also proves
  that printing and parsing are inverse.
- `Countdown` (countdown.dfy): the `TimeLeft` record and its decomposition. The
  component state is `(timeLeft, isLaunched, running)`, where `running` says the
  interval is still scheduled. The `Tick(now)` and `Cleanup` events drive it,
  and the module also covers the rendered view and the particle colours.
- `LandingPage` (landing_page.dfy): the digit filter, the counter target, the
  suffix, the doubled carousel list, the icon choice and the variant choice.

The launch instant and the clock are integer milliseconds passed in as
parameters. For a positive difference, Dafny's Euclidean `/` and `%` agree with
JavaScript's `Math.floor(a / b)` and `a % b`. The `difference > 0` branch is the
only place where they are used.

On launch the interval callback (LaunchCountdown.tsx lines 41-44) only sets
`isLaunched` and cancels the interval; `timeLeft` keeps its last value. That
value is all zeros unless the last tick before launch saw at least one whole
second left. The launched view never shows it. `Countdown.LaunchTick` and
`Countdown.LaunchKeepsLastRecord` state this.

## Model

| member | source | states |
|---|---|---|
| Countdown.Decompose | src/app/LaunchCountdown.tsx:32-40 | for a positive difference: hours < 24, minutes < 60, seconds < 60 and days = difference div one day. The fields rebuild the difference minus its sub-second remainder, so they count exactly the whole seconds left |
| Countdown.DecomposeReconstructs | src/app/LaunchCountdown.tsx:34-39 | the four chained div/mod expressions, exactly as written, satisfy those bounds and that reconstruction identity |
| Countdown.LexLeIffTotalSeconds | src/app/LaunchCountdown.tsx:34-39 | for records within the field bounds, lexicographic order equals the order of the total seconds they stand for (both directions) |
| Countdown.DecomposeMonotone | src/app/LaunchCountdown.tsx:30-40 | a smaller positive difference never gives a lexicographically larger record. The records compare exactly as the whole seconds do |
| Countdown.Step | src/app/LaunchCountdown.tsx:27-48 | one interval tick or cleanup: a launched flag is never cleared, a stopped interval changes nothing, and the flag can only go up on a live tick with a difference ≤ 0, which also cancels the interval |
| Countdown.Initial | src/app/LaunchCountdown.tsx:16-22 | the state set up on mount: the record is the least of all in lexicographic order (all zeros), not launched, interval scheduled, state invariant holding |
| Countdown.RefreshTick | src/app/LaunchCountdown.tsx:32-40 | a live tick with a positive difference replaces the record with the decomposition of that difference and leaves the flag and the interval as they were |
| Countdown.LaunchTick | src/app/LaunchCountdown.tsx:41-44 | a live tick with a difference ≤ 0 sets the flag and cancels the interval. It leaves the record unchanged rather than zeroing it |
| Countdown.CleanupTick | src/app/LaunchCountdown.tsx:47 | the effect's cleanup cancels the interval and leaves the record and the flag as they were |
| Countdown.UnmountStopsTimer | src/app/LaunchCountdown.tsx:47 | after a cleanup no further event changes anything: the state stays the one the cleanup left, with no running interval |
| Countdown.InvariantPreserved | src/app/LaunchCountdown.tsx:27-48 | every sequence of events keeps the record within its bounds and keeps "launched implies interval cancelled" |
| Countdown.LaunchedIsMonotone | src/app/LaunchCountdown.tsx:42-43 | once launched, no sequence of events clears the flag |
| Countdown.StoppedIsTerminal | src/app/LaunchCountdown.tsx:43-47 | once the interval is cancelled, by launch or by cleanup, any further events leave the state exactly as it is |
| Countdown.NothingBeforeFirstTick | src/app/LaunchCountdown.tsx:16-28 | until the first tick fires, the mounted countdown shows all zeros and is not launched, whatever cleanups happen |
| Countdown.LaunchedIffDeadlineReached | src/app/LaunchCountdown.tsx:30-44 | without cleanup, a live countdown ends up launched exactly when one of its ticks fired at or after the launch instant |
| Countdown.LaunchKeepsLastRecord | src/app/LaunchCountdown.tsx:32-44 | a refreshing tick followed by a launching tick leaves the record from the refresh, launched and stopped. That record is all zeros exactly when the refresh saw less than one second left |
| Countdown.CountdownNeverIncreases | src/app/LaunchCountdown.tsx:29-40 | two live ticks in clock order before launch: the second record is lexicographically no larger than the first |
| Countdown.DayBeforeAndSecondAfter | src/app/LaunchCountdown.tsx:25-44 | a tick one day before launch shows 1 day 0 h 0 min 0 s. A tick one second after launch launches and stops the interval |
| Countdown.DisplayField | src/app/LaunchCountdown.tsx:343 | the padded text has length max(2, number of digits), starts with '0' exactly when the value is ≤ 9, and parses back to the value |
| Countdown.Render | src/app/LaunchCountdown.tsx:83-84 | the celebration view is shown exactly when the flag is set |
| Countdown.RenderedFields | src/app/LaunchCountdown.tsx:276-297 | in every reachable countdown view, hours, minutes and seconds are exactly two characters, days at least two, and each field parses back to its number |
| Countdown.ParticleColour | src/app/LaunchCountdown.tsx:155-163 | the colour class of particle i is entry i mod 4 of the cycle pink, purple, orange, green |
| Countdown.ParticleColourPeriodic | src/app/LaunchCountdown.tsx:155-163 | the particle colour has period 4, and any four consecutive particles use all four colours |
| Countdown.ParticlePalette | src/app/LaunchCountdown.tsx:152-163 | of the eight particles drawn, particle i and particle i + 4 share a colour, and particles 0-3 are pink, purple, orange, green |
| Decimal.ToDecimal | src/app/LaunchCountdown.tsx:343 | `toString` of a natural gives canonical digits, with no leading zero except "0" itself, and as many characters as the number has decimal digits |
| Decimal.PadStart | src/app/LaunchCountdown.tsx:343 | the result has length max(width, \|s\|), ends with s, and everything before s is the pad character |
| Decimal.ParseDigits | src/app/page.tsx:134 | `parseInt` of a digit string has no value (NaN) exactly when the string is empty |
| Decimal.ParseToDecimal | src/app/page.tsx:134 | parsing what `toString` prints gives back the number |
| Decimal.LeadingZerosIgnored | src/app/page.tsx:134 | leading zeros do not change the parsed value |
| Decimal.DecimalBijection | src/app/page.tsx:134 | on canonical digit strings, parsing to n and printing n are the same relation (both directions) |
| LandingPage.DigitFilter | src/app/page.tsx:134 | removing the non-digits leaves only ASCII digits and never lengthens the text |
| LandingPage.DigitFilterAppend | src/app/page.tsx:134 | the filter distributes over concatenation, so it keeps the digits in their original order |
| LandingPage.DigitFilterFixedPoint | src/app/page.tsx:134 | a string passes through unchanged exactly when it is all digits |
| LandingPage.DigitFilterIdempotent | src/app/page.tsx:134 | filtering twice equals filtering once |
| LandingPage.DigitFilterCounts | src/app/page.tsx:134 | each digit occurs in the output as often as in the input, and no other character occurs |
| LandingPage.DigitFilterEmpty | src/app/page.tsx:134 | removing the non-digits leaves the empty string exactly when the text has no digit |
| LandingPage.CounterTarget | src/app/page.tsx:134 | the number the counter animates to, `parseInt` of the stat's digits, is NaN exactly when the stat contains no digit. `StatRoundTrip` gives its value for numeric stats |
| LandingPage.StatRoundTrip | src/app/page.tsx:799-803 | a stat written as a number, with or without "+", animates to that number and gets exactly its own "+" as suffix, so the final counter text equals the stat |
| LandingPage.ShippedStats | src/data/app-content.ts:48-53 | the stats "5+", "100+", "10+" and "50+" animate to 5, 100, 10 and 50, each with suffix "+" |
| LandingPage.Suffix | src/app/page.tsx:802 | the suffix is "+" exactly when the stat contains '+', and "" otherwise |
| LandingPage.Doubled | src/app/page.tsx:236 | the rendered carousel list is twice as long as the items, and both halves equal the items |
| LandingPage.DoubledIsCyclic | src/app/page.tsx:236 | position i of the rendered list shows item i mod \|items\| |
| LandingPage.IconFor | src/app/page.tsx:1087-1094 | the choice is total: "zap", "heart" and "gamepad2" give Zap, Heart and Gamepad2, and every other name gives Coffee |
| LandingPage.IconNamesRoundTrip | src/app/page.tsx:1087-1094 | each icon is chosen by its listed name, so no icon is unreachable |
| LandingPage.ShippedFeatureIcons | src/data/app-content.ts:17-45 | the four features get four different icons: Zap, Heart, Gamepad2, Coffee |
| LandingPage.VariantsFor | src/app/page.tsx:168-177 | "slideFromLeft" and "slideFromRight" select their slide variants, and every other name selects the text variants |
| LandingPage.VariantNamesRoundTrip | src/app/page.tsx:157-177 | each variants object is selected by its own name, and the default name "visible" selects the text variants |

## Left out

- React scheduling: `useEffect`, `setInterval`, `clearInterval` and re-renders become the explicit `Tick(now)` and `Cleanup` events. The model assumes a tick never fires after its interval is cancelled.
- Reading the clock (`new Date().getTime()`) and parsing the launch literal `"2025-10-09T22:00:00"`: both instants are integer parameters. The literal has no UTC offset, so its value depends on the host's time zone, which the model does not represent.
- JavaScript numbers are doubles. The model uses unbounded integers. `Math.floor` of the rounded quotient equals the exact integer quotient for every difference below 2^52 ms (about 140,000 years); larger differences are not modelled.
- Decimal.ParseDigits: models `parseInt` only on strings of ASCII digits, the only input the page gives it. Leading whitespace, signs, radix prefixes and the loss of precision beyond 2^53 are not modelled.
- The counter's animation (`animate`, `useMotionValue`, `Math.round` of intermediate floats, the start delay, the in-view trigger): only its target value is modelled.
- All framer-motion variants, transitions, durations and delays, particle positions and the `Math.random` placement in the launched view: presentation values, most of them floating point. The variant selector returns a tag naming the variants object, not its contents.
- `InfiniteCarousel`'s scroll direction and animation. The carousel is declared in page.tsx but never rendered there; only its doubled item list is modelled.
- VideoHomePage.tsx and VideoChallenges.tsx (a scroll-driven video scrubber over a third-party scroll library and the media element, with a floating-point seek threshold), ComingSoon.tsx (presentational), and the layout, Tailwind and Next.js configuration files are not part of this model.
