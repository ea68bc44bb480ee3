/**
 * The study/break timer of script.js as values: one `TimerState` holds the
 * four closure variables (the interval handle exists exactly when the timer
 * is not paused), and each operation is a function from the state before to
 * the state after. The configured work and break minutes are arguments,
 * read at the moment the operation runs.
 */
module TimerSteps {

  datatype TimerState = TimerState(isWorking: bool, timeInSeconds: int, isPaused: bool, totalStudyTime: int)

  /** The minutes configured for a phase. */
  function PhaseMinutes(working: bool, workMinutes: int, breakMinutes: int): int {
    if working then workMinutes else breakMinutes
  }

  /** `startTimer`: does nothing while running, otherwise starts the (single) interval. */
  function Start(s: TimerState): (r: TimerState)
    ensures !r.isPaused
    ensures r.(isPaused := s.isPaused) == s
  {
    if !s.isPaused then s else s.(isPaused := false)
  }

  /** One firing of the interval callback. */
  function Tick(s: TimerState, workMinutes: int, breakMinutes: int): (r: TimerState)
    ensures r.isPaused == s.isPaused
    ensures r.totalStudyTime == s.totalStudyTime + (if s.isWorking then 1 else 0)
    ensures r.isWorking != s.isWorking <==> s.timeInSeconds - 1 <= 0
    ensures r.isWorking == s.isWorking ==> r.timeInSeconds == s.timeInSeconds - 1
    ensures r.isWorking != s.isWorking ==> r.timeInSeconds == PhaseMinutes(r.isWorking, workMinutes, breakMinutes) * 60
  {
    var time := s.timeInSeconds - 1;
    var total := if s.isWorking then s.totalStudyTime + 1 else s.totalStudyTime;
    if time <= 0 then
      var working := !s.isWorking;
      TimerState(working, (if working then workMinutes else breakMinutes) * 60, s.isPaused, total)
    else
      TimerState(s.isWorking, time, s.isPaused, total)
  }

  /** `pauseTimer`: clears the interval; phase, time and total stay. */
  function Pause(s: TimerState): (r: TimerState)
    ensures r.isPaused
    ensures r.(isPaused := s.isPaused) == s
  {
    s.(isPaused := true)
  }

  /**
   * `resetTimer`: a pause, then the start of a work phase of `workMinutes`
   * with a zero total; nothing of the state before survives.
   */
  function Reset(s: TimerState, workMinutes: int): (r: TimerState)
    ensures r == Pause(s).(isWorking := true, timeInSeconds := workMinutes * 60, totalStudyTime := 0)
  {
    TimerState(true, workMinutes * 60, true, 0)
  }

  /** The `change` handler of the work-duration input. */
  function EditWork(s: TimerState, minutes: int): (r: TimerState)
    ensures r.(timeInSeconds := s.timeInSeconds) == s
    ensures r.timeInSeconds != s.timeInSeconds ==> s.isPaused && s.isWorking && r.timeInSeconds == minutes * 60
    ensures s.isPaused && s.isWorking ==> r.timeInSeconds == minutes * 60
  {
    if s.isPaused && s.isWorking then s.(timeInSeconds := minutes * 60) else s
  }

  /** The `change` handler of the break-duration input. */
  function EditBreak(s: TimerState, minutes: int): (r: TimerState)
    ensures r.(timeInSeconds := s.timeInSeconds) == s
    ensures r.timeInSeconds != s.timeInSeconds ==> s.isPaused && !s.isWorking && r.timeInSeconds == minutes * 60
    ensures s.isPaused && !s.isWorking ==> r.timeInSeconds == minutes * 60
  {
    if s.isPaused && !s.isWorking then s.(timeInSeconds := minutes * 60) else s
  }

  /** `n` firings of the interval with a fixed configuration. */
  function Ticks(s: TimerState, workMinutes: int, breakMinutes: int, n: nat): TimerState
    decreases n
  {
    if n == 0 then s else Ticks(Tick(s, workMinutes, breakMinutes), workMinutes, breakMinutes, n - 1)
  }

  /** How many of those `n` firings happen in a work phase. */
  function WorkingTicks(s: TimerState, workMinutes: int, breakMinutes: int, n: nat): nat
    decreases n
  {
    if n == 0 then 0
    else (if s.isWorking then 1 else 0) + WorkingTicks(Tick(s, workMinutes, breakMinutes), workMinutes, breakMinutes, n - 1)
  }

  /** The seconds left lie between 1 and the current phase's configured length. */
  predicate Bounded(s: TimerState, workMinutes: int, breakMinutes: int) {
    1 <= s.timeInSeconds <= PhaseMinutes(s.isWorking, workMinutes, breakMinutes) * 60
  }

  // ---------------------------------------------------------------------------
  // Lemmas

  /** A second start changes nothing: at most one interval ever runs. */
  lemma StartIdempotent(s: TimerState)
    ensures Start(Start(s)) == Start(s)
    ensures !s.isPaused ==> Start(s) == s
  {
  }

  /** Pausing and starting again resumes the identical phase, time and total. */
  lemma PauseThenStart(s: TimerState)
    ensures Start(Pause(s)) == s.(isPaused := false)
    ensures !s.isPaused ==> Start(Pause(s)) == s
    ensures Pause(Pause(s)) == Pause(s)
  {
  }

  lemma {:induction false} TicksSplit(s: TimerState, workMinutes: int, breakMinutes: int, a: nat, b: nat)
    ensures Ticks(s, workMinutes, breakMinutes, a + b) == Ticks(Ticks(s, workMinutes, breakMinutes, a), workMinutes, breakMinutes, b)
    ensures WorkingTicks(s, workMinutes, breakMinutes, a + b)
         == WorkingTicks(s, workMinutes, breakMinutes, a) + WorkingTicks(Ticks(s, workMinutes, breakMinutes, a), workMinutes, breakMinutes, b)
    decreases a
  {
    if a > 0 {
      TicksSplit(Tick(s, workMinutes, breakMinutes), workMinutes, breakMinutes, a - 1, b);
    }
  }

  /**
   * Over any run of ticks the total grows by exactly the number of ticks
   * that started in a work phase, and the timer stays running or paused.
   */
  lemma {:induction false} TickAccounting(s: TimerState, workMinutes: int, breakMinutes: int, n: nat)
    ensures Ticks(s, workMinutes, breakMinutes, n).totalStudyTime == s.totalStudyTime + WorkingTicks(s, workMinutes, breakMinutes, n)
    ensures WorkingTicks(s, workMinutes, breakMinutes, n) <= n
    ensures Ticks(s, workMinutes, breakMinutes, n).isPaused == s.isPaused
    decreases n
  {
    if n > 0 {
      TickAccounting(Tick(s, workMinutes, breakMinutes), workMinutes, breakMinutes, n - 1);
    }
  }

  /** Before the time runs out, each tick takes one second off and the phase stays. */
  lemma {:induction false} CountDown(s: TimerState, workMinutes: int, breakMinutes: int, k: nat)
    requires k < s.timeInSeconds
    ensures Ticks(s, workMinutes, breakMinutes, k)
         == s.(timeInSeconds := s.timeInSeconds - k, totalStudyTime := s.totalStudyTime + (if s.isWorking then k else 0))
    ensures WorkingTicks(s, workMinutes, breakMinutes, k) == if s.isWorking then k else 0
    decreases k
  {
    if k > 0 {
      CountDown(s, workMinutes, breakMinutes, k - 1);
      TicksSplit(s, workMinutes, breakMinutes, k - 1, 1);
    }
  }

  /**
   * A phase with `t >= 1` seconds left flips exactly at its `t`-th tick, to
   * the other phase at its configured length; the total grows by `t` when
   * the phase was work and not at all when it was a break.
   */
  lemma PhaseRunsOut(s: TimerState, workMinutes: int, breakMinutes: int)
    requires s.timeInSeconds >= 1
    ensures forall k: nat :: k < s.timeInSeconds ==> Ticks(s, workMinutes, breakMinutes, k).isWorking == s.isWorking
    ensures Ticks(s, workMinutes, breakMinutes, s.timeInSeconds)
         == TimerState(!s.isWorking, PhaseMinutes(!s.isWorking, workMinutes, breakMinutes) * 60, s.isPaused,
                       s.totalStudyTime + (if s.isWorking then s.timeInSeconds else 0))
  {
    forall k: nat | k < s.timeInSeconds
      ensures Ticks(s, workMinutes, breakMinutes, k).isWorking == s.isWorking
    {
      CountDown(s, workMinutes, breakMinutes, k);
    }
    var t := s.timeInSeconds;
    CountDown(s, workMinutes, breakMinutes, t - 1);
    TicksSplit(s, workMinutes, breakMinutes, t - 1, 1);
  }

  /**
   * With 25 work minutes and 5 break minutes, started at 25:00: 1500 ticks
   * end in a break at 300 seconds with 1500 seconds of study added; 300 more
   * end back at work with 1500 seconds and no further study time.
   */
  lemma PomodoroScenario(total: int)
    ensures Ticks(TimerState(true, 1500, false, total), 25, 5, 1500) == TimerState(false, 300, false, total + 1500)
    ensures Ticks(TimerState(true, 1500, false, total), 25, 5, 1800) == TimerState(true, 1500, false, total + 1500)
  {
    var s := TimerState(true, 1500, false, total);
    PhaseRunsOut(s, 25, 5);
    var b := Ticks(s, 25, 5, 1500);
    PhaseRunsOut(b, 25, 5);
    TicksSplit(s, 25, 5, 1500, 300);
  }

  /** With positive durations a tick keeps the seconds left within the current phase's length. */
  lemma TickBounded(s: TimerState, workMinutes: int, breakMinutes: int)
    requires workMinutes > 0 && breakMinutes > 0
    requires Bounded(s, workMinutes, breakMinutes)
    ensures Bounded(Tick(s, workMinutes, breakMinutes), workMinutes, breakMinutes)
  {
  }

  lemma {:induction false} TicksBounded(s: TimerState, workMinutes: int, breakMinutes: int, n: nat)
    requires workMinutes > 0 && breakMinutes > 0
    requires Bounded(s, workMinutes, breakMinutes)
    ensures Bounded(Ticks(s, workMinutes, breakMinutes, n), workMinutes, breakMinutes)
    decreases n
  {
    if n > 0 {
      TickBounded(s, workMinutes, breakMinutes);
      TicksBounded(Tick(s, workMinutes, breakMinutes), workMinutes, breakMinutes, n - 1);
    }
  }

  /**
   * With positive durations the seconds left stay at least 1 after any number
   * of ticks from any positive time, in bound or not: the 25:00 of page load
   * under a shorter work input, or a running phase whose input was shortened.
   */
  lemma {:induction false} TicksPositive(s: TimerState, workMinutes: int, breakMinutes: int, n: nat)
    requires workMinutes > 0 && breakMinutes > 0
    requires s.timeInSeconds >= 1
    ensures Ticks(s, workMinutes, breakMinutes, n).timeInSeconds >= 1
    decreases n
  {
    if n > 0 {
      TicksPositive(Tick(s, workMinutes, breakMinutes), workMinutes, breakMinutes, n - 1);
    }
  }

  /**
   * Editing a duration keeps the bound for the new configuration, unless the
   * timer is running in the phase whose duration was edited.
   */
  lemma EditsBounded(s: TimerState, workMinutes: int, breakMinutes: int, minutes: int)
    requires minutes > 0
    requires Bounded(s, workMinutes, breakMinutes)
    ensures s.isPaused || !s.isWorking ==> Bounded(EditWork(s, minutes), minutes, breakMinutes)
    ensures s.isPaused || s.isWorking ==> Bounded(EditBreak(s, minutes), workMinutes, minutes)
  {
  }

  /** Reset starts a bounded state whenever the work duration is positive. */
  lemma ResetBounded(s: TimerState, workMinutes: int, breakMinutes: int)
    requires workMinutes > 0
    ensures Bounded(Reset(s, workMinutes), workMinutes, breakMinutes)
  {
  }
}
