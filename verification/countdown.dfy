/**
  The launch countdown of the landing page.

  Every second an interval callback reads the clock, takes the difference to the
  launch instant in milliseconds and either refreshes the remaining days, hours,
  minutes and seconds, or, once the difference is no longer positive, marks the
  app as launched and cancels its own interval. Unmounting the component cancels
  the interval too. Instants are integer milliseconds given as parameters.
 */
module Countdown {

  import opened Options
  import opened Decimal
  import opened Arith

  const MsPerSecond: nat := 1000
  const MsPerMinute: nat := 60 * MsPerSecond
  const MsPerHour: nat := 60 * MsPerMinute
  const MsPerDay: nat := 24 * MsPerHour

  /** The `TimeLeft` record shown by the countdown. */
  datatype TimeLeft = TimeLeft(days: nat, hours: nat, minutes: nat, seconds: nat)

  /** The component's state: its two pieces of React state, and whether its
      one-second interval is still scheduled. */
  datatype State = State(timeLeft: TimeLeft, isLaunched: bool, running: bool)

  /** What can happen to a mounted countdown: the interval fires at instant `now`,
      or the effect's cleanup runs. */
  datatype Event = Tick(now: int) | Cleanup

  predicate WellFormed(t: TimeLeft) {
    t.hours < 24 && t.minutes < 60 && t.seconds < 60
  }

  /** The whole seconds that a record stands for. */
  function TotalSeconds(t: TimeLeft): nat {
    ((t.days * 24 + t.hours) * 60 + t.minutes) * 60 + t.seconds
  }

  /** The whole milliseconds that a record stands for. */
  function TotalMs(t: TimeLeft): nat {
    t.days * MsPerDay + t.hours * MsPerHour + t.minutes * MsPerMinute + t.seconds * MsPerSecond
  }

  /** Lexicographic order on (days, hours, minutes, seconds). */
  predicate LexLe(a: TimeLeft, b: TimeLeft) {
    || a.days < b.days
    || (a.days == b.days && a.hours < b.hours)
    || (a.days == b.days && a.hours == b.hours && a.minutes < b.minutes)
    || (a.days == b.days && a.hours == b.hours && a.minutes == b.minutes && a.seconds <= b.seconds)
  }

  // ---------------------------------------------------------------------------
  // Decomposition of a positive difference

  /** The record built in the interval callback from a positive difference.
      Division and remainder agree with JavaScript's `Math.floor(a / b)` and
      `a % b` because the difference is positive. */
  function Decompose(difference: int): (t: TimeLeft)
    requires difference > 0
    ensures WellFormed(t)
    ensures t.days == difference / MsPerDay
    ensures TotalMs(t) == difference - difference % MsPerSecond
    ensures TotalSeconds(t) == difference / MsPerSecond
  {
    var t := TimeLeft(
      difference / MsPerDay,
      (difference % MsPerDay) / MsPerHour,
      (difference % MsPerHour) / MsPerMinute,
      (difference % MsPerMinute) / MsPerSecond);
    DecomposeReconstructs(difference);
    t
  }

  /** Taking the remainder by a multiple `a * k` first does not change the remainder by `a`. */
  lemma ModOfMultiple(x: int, a: int, k: int)
    requires a > 0 && k > 0
    ensures (x % (a * k)) % a == x % a
    ensures (x % (a * k)) / a < k
  {
    var r := x % (a * k);
    DivModUnique(x, a, (x / (a * k)) * k + r / a, r % a);
    MulMonotone(r / a, k, a);
  }

  /** One stage of the decomposition: the unit count taken from the remainder by the
      next larger unit accounts for everything between the two remainders. */
  lemma Stage(x: int, unit: int, ratio: int)
    requires unit > 0 && ratio > 0
    ensures ((x % (unit * ratio)) / unit) * unit == x % (unit * ratio) - x % unit
    ensures (x % (unit * ratio)) / unit < ratio
  {
    ModOfMultiple(x, unit, ratio);
  }

  lemma DecomposeReconstructs(difference: int)
    requires difference > 0
    ensures
      var days := difference / MsPerDay;
      var hours := (difference % MsPerDay) / MsPerHour;
      var minutes := (difference % MsPerHour) / MsPerMinute;
      var seconds := (difference % MsPerMinute) / MsPerSecond;
      && hours < 24 && minutes < 60 && seconds < 60
      && days * MsPerDay + hours * MsPerHour + minutes * MsPerMinute + seconds * MsPerSecond
         == difference - difference % MsPerSecond
  {
    Stage(difference, MsPerHour, 24);
    Stage(difference, MsPerMinute, 60);
    Stage(difference, MsPerSecond, 60);
  }

  /** For bounded records, lexicographic order is the order of the seconds they stand for. */
  lemma LexLeIffTotalSeconds(a: TimeLeft, b: TimeLeft)
    requires WellFormed(a) && WellFormed(b)
    ensures LexLe(a, b) <==> TotalSeconds(a) <= TotalSeconds(b)
  {
  }

  /** The remaining time never goes up as the clock advances: a smaller positive
      difference gives a lexicographically smaller or equal record, and the
      record only goes down when the whole seconds go down. */
  lemma DecomposeMonotone(d1: int, d2: int)
    requires 0 < d1 && 0 < d2
    ensures d1 <= d2 ==> LexLe(Decompose(d1), Decompose(d2))
    ensures LexLe(Decompose(d1), Decompose(d2)) <==> d1 / MsPerSecond <= d2 / MsPerSecond
  {
    LexLeIffTotalSeconds(Decompose(d1), Decompose(d2));
  }

  // ---------------------------------------------------------------------------
  // The tick machine

  const Zero := TimeLeft(0, 0, 0, 0)

  /** State right after mounting: the least record of all, not launched, interval scheduled. */
  function Initial(): (s: State)
    ensures Invariant(s)
    ensures forall t :: LexLe(s.timeLeft, t)
    ensures !s.isLaunched && s.running
  {
    State(Zero, false, true)
  }

  /** One event. A tick of a cancelled interval does nothing. A live tick refreshes
      the record while the difference is positive; otherwise it sets the flag and
      cancels the interval, leaving the record as it was. */
  function Step(launchDate: int, s: State, e: Event): (s': State)
    ensures s.isLaunched ==> s'.isLaunched
    ensures !s.running ==> s' == s
    ensures s'.isLaunched != s.isLaunched ==>
              e.Tick? && s.running && launchDate - e.now <= 0 && !s'.running
  {
    match e
    case Cleanup => s.(running := false)
    case Tick(now) =>
      if !s.running then s
      else
        var difference := launchDate - now;
        if difference > 0 then s.(timeLeft := Decompose(difference))
        else s.(isLaunched := true, running := false)
  }

  function Run(launchDate: int, s: State, events: seq<Event>): State
    decreases |events|
  {
    if |events| == 0 then s else Run(launchDate, Step(launchDate, s, events[0]), events[1..])
  }

  /** What every reachable state satisfies: a bounded record, and a launched
      countdown has no interval left. */
  predicate Invariant(s: State) {
    WellFormed(s.timeLeft) && (s.isLaunched ==> !s.running)
  }

  /** A tick while the difference is positive recomputes the record from it. */
  lemma RefreshTick(launchDate: int, s: State, now: int)
    requires s.running && launchDate - now > 0
    ensures
      var s' := Step(launchDate, s, Tick(now));
      && s'.timeLeft == Decompose(launchDate - now)
      && s'.isLaunched == s.isLaunched
      && s'.running
  {
  }

  /** A tick once the difference is no longer positive: the flag goes up, the
      interval is cancelled, and the record is left unchanged, not zeroed. */
  lemma LaunchTick(launchDate: int, s: State, now: int)
    requires s.running && launchDate - now <= 0
    ensures
      var s' := Step(launchDate, s, Tick(now));
      && s'.isLaunched
      && !s'.running
      && s'.timeLeft == s.timeLeft
  {
  }

  /** Cleanup on unmount cancels the interval and changes nothing else. */
  lemma CleanupTick(launchDate: int, s: State)
    ensures
      var s' := Step(launchDate, s, Cleanup);
      && !s'.running
      && s'.timeLeft == s.timeLeft
      && s'.isLaunched == s.isLaunched
  {
  }

  lemma {:induction false} InvariantPreserved(launchDate: int, s: State, events: seq<Event>)
    requires Invariant(s)
    ensures Invariant(Run(launchDate, s, events))
    decreases |events|
  {
    if |events| > 0 {
      InvariantPreserved(launchDate, Step(launchDate, s, events[0]), events[1..]);
    }
  }

  /** No sequence of events lowers the launched flag. */
  lemma {:induction false} LaunchedIsMonotone(launchDate: int, s: State, events: seq<Event>)
    requires s.isLaunched
    ensures Run(launchDate, s, events).isLaunched
    decreases |events|
  {
    if |events| > 0 {
      LaunchedIsMonotone(launchDate, Step(launchDate, s, events[0]), events[1..]);
    }
  }

  /** Once the interval is cancelled, by launch or by cleanup, nothing changes any more. */
  lemma {:induction false} StoppedIsTerminal(launchDate: int, s: State, events: seq<Event>)
    requires !s.running
    ensures Run(launchDate, s, events) == s
    decreases |events|
  {
    if |events| > 0 {
      StoppedIsTerminal(launchDate, Step(launchDate, s, events[0]), events[1..]);
    }
  }

  /** Unmounting leaves no running timer: after a cleanup, whatever events follow,
      the state stays the one the cleanup left, with the interval cancelled. */
  lemma UnmountStopsTimer(launchDate: int, s: State, events: seq<Event>)
    ensures Run(launchDate, s, [Cleanup] + events) == s.(running := false)
  {
    var all := [Cleanup] + events;
    assert all[0] == Cleanup && all[1..] == events;
    CleanupTick(launchDate, s);
    StoppedIsTerminal(launchDate, Step(launchDate, s, Cleanup), events);
  }

  /** Until the first tick fires the countdown shows zeros and is not launched. */
  lemma {:induction false} NothingBeforeFirstTick(launchDate: int, events: seq<Event>)
    requires forall i :: 0 <= i < |events| ==> events[i].Cleanup?
    ensures Run(launchDate, Initial(), events).timeLeft == Zero
    ensures !Run(launchDate, Initial(), events).isLaunched
  {
    var init := Initial();
    assert init == State(Zero, false, true);
    if |events| > 0 {
      assert Step(launchDate, init, events[0]) == State(Zero, false, false);
      StoppedIsTerminal(launchDate, Step(launchDate, init, events[0]), events[1..]);
    }
  }

  predicate HasDeadlineTick(launchDate: int, events: seq<Event>) {
    exists i :: 0 <= i < |events| && events[i].Tick? && launchDate - events[i].now <= 0
  }

  /** Without cleanup, a live countdown ends up launched exactly when one of its
      ticks fired at or after the launch instant. */
  lemma {:induction false} LaunchedIffDeadlineReached(launchDate: int, s: State, events: seq<Event>)
    requires s.running && !s.isLaunched
    requires forall i :: 0 <= i < |events| ==> events[i].Tick?
    ensures Run(launchDate, s, events).isLaunched <==> HasDeadlineTick(launchDate, events)
    decreases |events|
  {
    if |events| > 0 {
      var s' := Step(launchDate, s, events[0]);
      var rest := events[1..];
      if launchDate - events[0].now <= 0 {
        LaunchedIsMonotone(launchDate, s', rest);
      } else {
        LaunchedIffDeadlineReached(launchDate, s', rest);
        if HasDeadlineTick(launchDate, events) {
          var i :| 0 <= i < |events| && events[i].Tick? && launchDate - events[i].now <= 0;
          assert rest[i - 1] == events[i];
        }
        if HasDeadlineTick(launchDate, rest) {
          var j :| 0 <= j < |rest| && rest[j].Tick? && launchDate - rest[j].now <= 0;
          assert events[j + 1] == rest[j];
        }
      }
    }
  }

  /** The record a launched countdown keeps is the one computed by the last tick
      before launch; it is all zeros exactly when that tick saw less than one
      whole second left. */
  lemma LaunchKeepsLastRecord(launchDate: int, s: State, now1: int, now2: int)
    requires s.running && launchDate - now1 > 0 && launchDate - now2 <= 0
    ensures
      var s2 := Step(launchDate, Step(launchDate, s, Tick(now1)), Tick(now2));
      && s2.isLaunched && !s2.running
      && s2.timeLeft == Decompose(launchDate - now1)
      && (s2.timeLeft == Zero <==> launchDate - now1 < MsPerSecond)
  {
    RefreshTick(launchDate, s, now1);
    LaunchTick(launchDate, Step(launchDate, s, Tick(now1)), now2);
  }

  /** Two live ticks in clock order before launch: the second record is no larger. */
  lemma CountdownNeverIncreases(launchDate: int, s: State, now1: int, now2: int)
    requires s.running && now1 <= now2 && launchDate - now2 > 0
    ensures
      var s1 := Step(launchDate, s, Tick(now1));
      var s2 := Step(launchDate, s1, Tick(now2));
      LexLe(s2.timeLeft, s1.timeLeft)
  {
    DecomposeMonotone(launchDate - now2, launchDate - now1);
  }

  /** One day before launch the countdown reads 1 day, 0 hours, 0 minutes, 0 seconds;
      one second after launch it is launched. */
  lemma DayBeforeAndSecondAfter(launchDate: int)
    ensures Step(launchDate, Initial(), Tick(launchDate - MsPerDay))
            == State(TimeLeft(1, 0, 0, 0), false, true)
    ensures Step(launchDate, Initial(), Tick(launchDate + MsPerSecond))
            == State(Zero, true, false)
  {
    assert Initial() == State(Zero, false, true);
    assert Decompose(MsPerDay) == TimeLeft(1, 0, 0, 0);
  }

  // ---------------------------------------------------------------------------
  // Display

  /** `value.toString().padStart(2, "0")`. */
  function DisplayField(value: nat): (r: string)
    ensures |r| == if NumDigits(value) >= 2 then NumDigits(value) else 2
    ensures r[0] == '0' <==> value <= 9
    ensures AllDigits(r) && ParseDigits(r) == Some(value)
  {
    var digits := ToDecimal(value);
    var r := PadStart(digits, 2, '0');
    ParseToDecimal(value);
    assert r == Repeat('0', |r| - |digits|) + digits;
    LeadingZerosIgnored(|r| - |digits|, digits);
    r
  }

  datatype View =
    | LaunchedView
    | CountdownView(days: string, hours: string, minutes: string, seconds: string)

  /** The launched celebration, or the four padded fields of the record. */
  function Render(s: State): (v: View)
    ensures v.LaunchedView? <==> s.isLaunched
  {
    if s.isLaunched then LaunchedView
    else
      var t := s.timeLeft;
      CountdownView(DisplayField(t.days), DisplayField(t.hours),
                    DisplayField(t.minutes), DisplayField(t.seconds))
  }

  /** In every reachable countdown view the hours, minutes and seconds are exactly
      two digits, and every field reads back as the number it shows. */
  lemma RenderedFields(s: State)
    requires Invariant(s) && !s.isLaunched
    ensures
      var v := Render(s);
      && |v.hours| == 2 && |v.minutes| == 2 && |v.seconds| == 2 && |v.days| >= 2
      && ParseDigits(v.days) == Some(s.timeLeft.days)
      && ParseDigits(v.hours) == Some(s.timeLeft.hours)
      && ParseDigits(v.minutes) == Some(s.timeLeft.minutes)
      && ParseDigits(v.seconds) == Some(s.timeLeft.seconds)
  {
  }

  // ---------------------------------------------------------------------------
  // Background particles

  datatype Colour = Pink | Purple | Orange | Green

  const ParticleCount: nat := 8

  /** Colour class of particle `i`: chosen by `i % 4`. */
  function ParticleColour(i: nat): (c: Colour)
    ensures c == [Pink, Purple, Orange, Green][i % 4]
  {
    if i % 4 == 0 then Pink
    else if i % 4 == 1 then Purple
    else if i % 4 == 2 then Orange
    else Green
  }

  /** The colour cycle has period four and uses all four colours. */
  lemma ParticleColourPeriodic(i: nat)
    ensures ParticleColour(i + 4) == ParticleColour(i)
    ensures {ParticleColour(i), ParticleColour(i + 1), ParticleColour(i + 2), ParticleColour(i + 3)}
            == {Pink, Purple, Orange, Green}
  {
  }

  /** The eight particles the page draws: each colour exactly twice, in the cycle
      pink, purple, orange, green. */
  lemma ParticlePalette()
    ensures forall i :: 0 <= i < ParticleCount - 4 ==> ParticleColour(i) == ParticleColour(i + 4)
    ensures [ParticleColour(0), ParticleColour(1), ParticleColour(2), ParticleColour(3)]
            == [Pink, Purple, Orange, Green]
  {
  }
}
