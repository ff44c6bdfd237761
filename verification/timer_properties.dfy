/**
  Properties of the timer across whole event sequences: the user-visible phase
  (Ready, Running, Paused, Break Time!) and how each action moves between
  phases, the invariant the button guard maintains, how many seconds pass
  before a break, and how the counters follow the events.
 */
module TimerProperties {
  import opened Wrappers
  import opened Timer

  /** The four statuses the page can show. */
  datatype Phase = Ready | Running | Paused | BreakTime

  /**
    The status of a state, derived from the run flags and the interval clock.
    The page does not store its status; it writes a label in the handlers,
    and `LabelTracksPhase` shows that label is always this phase's.
   */
  function PhaseOf(s: State): Phase {
    if s.isRunning then Running
    else if s.isPaused then Paused
    else if s.currentTime >= s.totalSeconds then BreakTime
    else Ready
  }

  /** The text of the page's status label for each phase. */
  function StatusLabel(p: Phase): string {
    match p
    case Ready => "Ready"
    case Running => "Running"
    case Paused => "Paused"
    case BreakTime => "Break Time!"
  }

  /**
    The label an event's handler writes, or `None` when it leaves the label
    alone: start and continue write "Running" only when the timer was not
    running, pause writes "Paused" only when it was, reset and stop write
    "Ready", and the second that ends the interval writes "Break Time!".
   */
  function LabelWritten(s: State, e: Event): Option<string> {
    match e
    case StartPressed(_) => if s.isRunning then None else Some("Running")
    case PausePressed => if s.isRunning then Some("Paused") else None
    case ResetPressed => Some("Ready")
    case Second =>
      if s.isRunning && s.currentTime + 1 >= s.totalSeconds then Some("Break Time!") else None
    case ContinuePressed(_) => if s.isRunning then None else Some("Running")
    case StopPressed => Some("Ready")
  }

  /** The page's label after an event, given the label before it. */
  function LabelAfter(shown: string, s: State, e: Event): string {
    match LabelWritten(s, e)
    case Some(written) => written
    case None => shown
  }

  /** The page's label after a sequence of events. */
  function LabelAfterRun(shown: string, s: State, es: seq<Event>): string
    requires Inv(s)
    decreases |es|
  {
    if es == [] then shown else LabelAfterRun(LabelAfter(shown, s, es[0]), Step(s, es[0]), es[1..])
  }

  /**
    If the label shows the state's phase, it still does after any event:
    every handler that writes a label writes the one of the phase it lands in,
    and every handler that leaves it alone stays in the same phase.
   */
  lemma LabelTracksPhase(shown: string, s: State, e: Event)
    requires Inv(s) && shown == StatusLabel(PhaseOf(s))
    ensures LabelAfter(shown, s, e) == StatusLabel(PhaseOf(Step(s, e)))
  {
  }

  /** The label shows the derived phase along any event sequence. */
  lemma {:induction false} LabelTracksPhaseRun(shown: string, s: State, es: seq<Event>)
    requires Inv(s) && shown == StatusLabel(PhaseOf(s))
    ensures LabelAfterRun(shown, s, es) == StatusLabel(PhaseOf(Run(s, es)))
    decreases |es|
  {
    if es != [] {
      LabelTracksPhase(shown, s, es[0]);
      LabelTracksPhaseRun(LabelAfter(shown, s, es[0]), Step(s, es[0]), es[1..]);
    }
  }

  /**
    What holds of every state reached while the start button is disabled during
    a break: the interval clock stays within its interval, a stopped timer is
    either fresh or exactly at the end of its interval, the session clock is set
    outside Ready, and every continuation has been credited.
   */
  predicate Consistent(s: State) {
    && Inv(s)
    && 0 <= s.currentTime <= s.totalSeconds
    && (s.isRunning || s.isPaused ==> s.currentTime < s.totalSeconds)
    && (!s.isRunning && !s.isPaused ==> s.currentTime == 0 || s.currentTime == s.totalSeconds)
    && (s.sessionStartTime.None? <==> PhaseOf(s) == Ready)
    && 0 <= s.continueCount
    && 0 <= s.sessionsCompleted
    && BreakCredit * s.continueCount <= s.totalBreakTime
  }

  /** The page disables the start button from the moment a break begins until continue or stop. */
  predicate Allowed(s: State, e: Event) {
    !(e.StartPressed? && PhaseOf(s) == BreakTime)
  }

  /** Every event of `es` is allowed in the state it meets. */
  predicate Guarded(s: State, es: seq<Event>)
    requires Inv(s)
    decreases |es|
  {
    es == [] || (Allowed(s, es[0]) && Guarded(Step(s, es[0]), es[1..]))
  }

  lemma InitialConsistent()
    ensures Consistent(Initial) && PhaseOf(Initial) == Ready
  {
  }

  /** The state machine of the page, phase by phase. */
  lemma PhaseTable(s: State, now: int)
    requires Consistent(s)
    ensures PhaseOf(s) == Ready ==> PhaseOf(Start(s, now)) == Running
    ensures PhaseOf(s) == Paused ==>
              PhaseOf(Start(s, now)) == Running && Start(s, now).currentTime == s.currentTime
    ensures PhaseOf(s) == Running ==> Start(s, now) == s && PhaseOf(Pause(s)) == Paused
    ensures PhaseOf(s) != Running ==> Pause(s) == s
    ensures PhaseOf(Reset(s)) == Ready && PhaseOf(Stop(s)) == Ready
    ensures PhaseOf(s) == Running ==>
              (PhaseOf(Tick(s)) == BreakTime <==> s.currentTime + 1 == s.totalSeconds)
    ensures PhaseOf(s) == Running ==> PhaseOf(Tick(s)) in {Running, BreakTime}
    ensures PhaseOf(Continue(s, now)) == Running
  {
  }

  /** Each allowed event keeps the state consistent. */
  lemma StepKeepsConsistent(s: State, e: Event)
    requires Consistent(s) && Allowed(s, e)
    ensures Consistent(Step(s, e))
  {
    match e
    case StartPressed(now) =>
      assert PhaseOf(s) in {Ready, Paused, Running};
    case Second =>
      if s.isRunning {
        assert s.currentTime + 1 <= s.totalSeconds;
      }
    case _ =>
  }

  /** With the start button guarded, consistency holds along any event sequence. */
  lemma {:induction false} GuardedRunKeepsConsistent(s: State, es: seq<Event>)
    requires Consistent(s) && Guarded(s, es)
    ensures Consistent(Run(s, es))
    decreases |es|
  {
    if es != [] {
      StepKeepsConsistent(s, es[0]);
      GuardedRunKeepsConsistent(Step(s, es[0]), es[1..]);
    }
  }

  /**
    Without the button guard, start during a break resumes a timer that is
    already at the end of its interval; the next second overshoots the interval,
    and only the `>=` test of the tick stops the timer again.
   */
  lemma StartDuringBreakOvershoots(s: State, now: int)
    requires Consistent(s) && PhaseOf(s) == BreakTime
    ensures var r := Step(Step(s, StartPressed(now)), Second);
            && r.currentTime == r.totalSeconds + 1
            && PhaseOf(r) == BreakTime
            && !Consistent(r)
  {
  }

  /** Resuming from a pause restarts the session clock rather than keeping the old start. */
  lemma ResumeRestartsSessionClock(s: State, now: int)
    requires Consistent(s) && PhaseOf(s) == Running
    ensures var r := Start(Pause(s), now);
            && PhaseOf(r) == Running
            && SameProgress(s, r) && SameCounters(s, r)
            && r.sessionStartTime == Some(now)
  {
  }

  /** `n` seconds passing. */
  function Seconds(n: nat): (es: seq<Event>)
    ensures |es| == n
    ensures forall i :: 0 <= i < |es| ==> es[i] == Second
  {
    if n == 0 then [] else [Second] + Seconds(n - 1)
  }

  lemma {:induction false} RunAppend(s: State, a: seq<Event>, b: seq<Event>)
    requires Inv(s)
    ensures Run(s, a + b) == Run(Run(s, a), b)
    decreases |a|
  {
    if a == [] {
      assert a + b == b;
    } else {
      assert (a + b)[0] == a[0];
      assert (a + b)[1..] == a[1..] + b;
      RunAppend(Step(s, a[0]), a[1..], b);
    }
  }

  lemma {:induction false} SecondsAppend(m: nat, n: nat)
    ensures Seconds(m + n) == Seconds(m) + Seconds(n)
    decreases m
  {
    if m == 0 {
      assert Seconds(m) + Seconds(n) == Seconds(n);
    } else {
      SecondsAppend(m - 1, n);
      assert Seconds(m + n) == [Second] + Seconds(m - 1 + n);
    }
  }

  /**
    While the interval is not used up, each second advances the clock by one;
    the second that reaches the interval length stops the timer.
   */
  lemma {:induction false} TicksBeforeBreak(s: State, k: nat)
    requires Inv(s) && s.isRunning && s.currentTime < s.totalSeconds
    requires s.currentTime + k <= s.totalSeconds
    ensures Run(s, Seconds(k)) ==
            s.(currentTime := s.currentTime + k, isRunning := s.currentTime + k < s.totalSeconds)
    decreases k
  {
    if k > 0 {
      var t := Tick(s);
      assert Seconds(k)[0] == Second && Seconds(k)[1..] == Seconds(k - 1);
      assert Run(s, Seconds(k)) == Run(t, Seconds(k - 1));
      if k > 1 {
        TicksBeforeBreak(t, k - 1);
      }
    }
  }

  /** Once stopped, passing seconds change nothing. */
  lemma {:induction false} TicksWhileStopped(s: State, n: nat)
    requires Inv(s) && !s.isRunning
    ensures Run(s, Seconds(n)) == s
    decreases n
  {
    if n > 0 {
      assert Seconds(n)[0] == Second && Seconds(n)[1..] == Seconds(n - 1);
      TicksWhileStopped(s, n - 1);
    }
  }

  /**
    From a freshly started interval, the break comes after exactly
    `totalSeconds` seconds: the timer runs through every earlier second, stops
    at that one, and stays stopped however many more seconds pass.
   */
  lemma ExactlyTotalSecondsToBreak(s: State, extra: nat)
    requires Inv(s) && s.isRunning && s.currentTime == 0
    ensures forall k :: 0 <= k < s.totalSeconds ==> PhaseOf(Run(s, Seconds(k))) == Running
    ensures PhaseOf(Run(s, Seconds(s.totalSeconds))) == BreakTime
    ensures Run(s, Seconds(s.totalSeconds + extra)) == Run(s, Seconds(s.totalSeconds))
  {
    forall k | 0 <= k < s.totalSeconds
      ensures PhaseOf(Run(s, Seconds(k))) == Running
    {
      TicksBeforeBreak(s, k);
    }
    TicksBeforeBreak(s, s.totalSeconds);
    SecondsAfterBreak(s, s.totalSeconds, extra);
  }

  /** Seconds that pass after a sequence has stopped the timer add nothing. */
  lemma SecondsAfterBreak(s: State, n: nat, extra: nat)
    requires Inv(s) && !Run(s, Seconds(n)).isRunning
    ensures Run(s, Seconds(n + extra)) == Run(s, Seconds(n))
  {
    SecondsAppend(n, extra);
    RunAppend(s, Seconds(n), Seconds(extra));
    TicksWhileStopped(Run(s, Seconds(n)), extra);
  }

  /**
    Start, 43 minutes of seconds, then continue: the break comes with no session
    completed, and continuing moves to the 37-minute interval with one
    continuation and five minutes of break credited.
   */
  lemma FirstIntervalScenario(now: int, later: int)
    ensures var b := Run(Initial, [StartPressed(now)] + Seconds(2580));
            && PhaseOf(b) == BreakTime
            && b.currentTime == 2580
            && b.sessionsCompleted == 0
            && var c := Step(b, ContinuePressed(later));
               && PhaseOf(c) == Running
               && c.currentIntervalIndex == 1
               && c.totalSeconds == 2220
               && c.currentTime == 0
               && c.continueCount == 1
               && c.totalBreakTime == 5
  {
    RunAppend(Initial, [StartPressed(now)], Seconds(2580));
    var started := Start(Initial, now);
    assert Run(Initial, [StartPressed(now)]) == started;
    TicksBeforeBreak(started, 2580);
  }

  /** Three continuations bring the timer back to the same interval. */
  lemma ContinueCycles(s: State, t1: int, t2: int, t3: int)
    requires Inv(s)
    ensures var r := Continue(Continue(Continue(s, t1), t2), t3);
            && r.currentIntervalIndex == s.currentIntervalIndex
            && r.totalSeconds == s.totalSeconds
            && r.continueCount == s.continueCount + 3
            && r.totalBreakTime == s.totalBreakTime + 3 * BreakCredit
  {
  }

  /** Reset and stop both land in the Ready defaults, so repeating reset changes nothing. */
  lemma ResetIdempotent(s: State)
    ensures Reset(Reset(s)) == Reset(s)
    ensures Reset(Stop(s)) == Stop(s)
  {
  }

  function CountStops(es: seq<Event>): (n: nat)
    ensures n <= |es|
  {
    if es == [] then 0 else (if es[0].StopPressed? then 1 else 0) + CountStops(es[1..])
  }

  function CountContinues(es: seq<Event>): (n: nat)
    ensures n <= |es|
  {
    if es == [] then 0 else (if es[0].ContinuePressed? then 1 else 0) + CountContinues(es[1..])
  }

  /**
    The lifetime counters are exact tallies of the events: one completed session
    per stop, and five break minutes per continuation.
   */
  lemma {:induction false} LifetimeCounters(s: State, es: seq<Event>)
    requires Inv(s)
    ensures Run(s, es).sessionsCompleted == s.sessionsCompleted + CountStops(es)
    ensures Run(s, es).totalBreakTime == s.totalBreakTime + BreakCredit * CountContinues(es)
    decreases |es|
  {
    if es != [] {
      LifetimeCounters(Step(s, es[0]), es[1..]);
    }
  }
}
