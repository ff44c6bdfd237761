/**
  The interval timer's session state and the transitions that change it: the
  five button actions (start, pause, reset, continue, stop) and the one-second
  tick. Every transition is a pure function from state to state; the browser's
  clock enters only as an explicit `now` argument in milliseconds.
 */
module Timer {
  import opened Wrappers
  import opened JsMath

  /** Work-interval lengths in minutes, visited cyclically. */
  const Intervals: seq<int> := [43, 37, 25]

  /** Break minutes credited on every continuation. */
  const BreakCredit: int := 5

  /** The single session record the page keeps and persists. */
  datatype State = State(
    isRunning: bool,
    isPaused: bool,
    currentTime: int,               // seconds elapsed in the current interval
    totalSeconds: int,              // length of the current interval, in seconds
    currentIntervalIndex: int,      // position in Intervals
    continueCount: int,             // continuations within this session
    sessionsCompleted: int,         // lifetime count of stopped sessions
    totalBreakTime: int,            // lifetime break credit, in minutes
    sessionStartTime: Option<int>)  // wall clock of the last start, in ms

  /** The record as the page declares it before anything is loaded. */
  const Initial: State := State(false, false, 0, 43 * 60, 0, 0, 0, 0, None)

  predicate ValidIndex(i: int) {
    0 <= i < |Intervals|
  }

  /** Length in seconds of the interval at position `i`. */
  function IntervalSeconds(i: int): (r: int)
    requires ValidIndex(i)
    ensures 25 * 60 <= r <= 43 * 60
    ensures r % 60 == 0
  {
    Intervals[i] * 60
  }

  /**
    Position after `i` in the cyclic interval sequence, computed with
    JavaScript's remainder. For an index below -1 the remainder can be
    negative, and the page then looks up an interval that does not exist.
   */
  function NextIndex(i: int): (j: int)
    ensures -|Intervals| < j < |Intervals|
    ensures 0 <= i ==> ValidIndex(j) && j == (i + 1) % |Intervals|
    ensures 0 <= i < |Intervals| - 1 ==> j == i + 1
    ensures i == |Intervals| - 1 ==> j == 0
  {
    JsRem(i + 1, |Intervals|)
  }

  /**
    Out of range, the page's remainder still lands in range for an index of
    3 or more and for -1 and -4, but not for -2, whose successor is -1.
   */
  lemma NextIndexOutOfRange()
    ensures NextIndex(3) == 1 && NextIndex(7) == 2
    ensures NextIndex(-1) == 0 && NextIndex(-4) == 0
    ensures NextIndex(-2) == -1 && !ValidIndex(NextIndex(-2))
  {
  }

  /** The structural invariant every transition keeps. */
  predicate Inv(s: State) {
    && ValidIndex(s.currentIntervalIndex)
    && s.totalSeconds == IntervalSeconds(s.currentIntervalIndex)
    && !(s.isRunning && s.isPaused)
  }

  /** The two states stand at the same point of the same interval. */
  predicate SameProgress(a: State, b: State) {
    && a.currentTime == b.currentTime
    && a.totalSeconds == b.totalSeconds
    && a.currentIntervalIndex == b.currentIntervalIndex
  }

  /** The two states agree on all three counters. */
  predicate SameCounters(a: State, b: State) {
    && a.continueCount == b.continueCount
    && a.sessionsCompleted == b.sessionsCompleted
    && a.totalBreakTime == b.totalBreakTime
  }

  /** The start button: a no-op while running; otherwise runs and stamps the session clock. */
  function Start(s: State, now: int): (r: State)
    ensures s.isRunning ==> r == s
    ensures !s.isRunning ==> r.isRunning && !r.isPaused && r.sessionStartTime == Some(now)
    ensures SameProgress(s, r) && SameCounters(s, r)
    ensures Inv(s) ==> Inv(r)
  {
    if s.isRunning then s
    else s.(isRunning := true, isPaused := false, sessionStartTime := Some(now))
  }

  /** The pause button: a no-op unless running; otherwise pauses and keeps the progress. */
  function Pause(s: State): (r: State)
    ensures !s.isRunning ==> r == s
    ensures s.isRunning ==> !r.isRunning && r.isPaused && r.sessionStartTime == s.sessionStartTime
    ensures SameProgress(s, r) && SameCounters(s, r)
    ensures Inv(s) ==> Inv(r)
  {
    if s.isRunning then s.(isRunning := false, isPaused := true)
    else s
  }

  /** The reset button: back to the declared defaults, keeping the lifetime counters. */
  function Reset(s: State): (r: State)
    ensures r == Initial.(sessionsCompleted := s.sessionsCompleted, totalBreakTime := s.totalBreakTime)
    ensures Inv(r)
  {
    s.(isRunning := false, isPaused := false, currentTime := 0, currentIntervalIndex := 0,
       totalSeconds := Intervals[0] * 60, continueCount := 0, sessionStartTime := None)
  }

  /**
    One firing of the per-second callback: count the second, and if the
    interval is used up, enter the break (the state part of the break
    notification, which clears only the running flag).
   */
  function Tick(s: State): (r: State)
    ensures r.currentTime == s.currentTime + 1
    ensures r.isRunning <==> s.isRunning && r.currentTime < r.totalSeconds
    ensures r.isPaused == s.isPaused && r.sessionStartTime == s.sessionStartTime
    ensures r.totalSeconds == s.totalSeconds && r.currentIntervalIndex == s.currentIntervalIndex
    ensures SameCounters(s, r)
    ensures Inv(s) ==> Inv(r)
  {
    var t := s.currentTime + 1;
    if t >= s.totalSeconds then s.(currentTime := t, isRunning := false)
    else s.(currentTime := t)
  }

  /**
    The continue button: move to the next interval, credit a break, and start.
    There is no guard, so from a running state the field updates still happen
    and the start that follows is a no-op.
   */
  function Continue(s: State, now: int): (r: State)
    requires ValidIndex(NextIndex(s.currentIntervalIndex))
    ensures r.currentIntervalIndex == NextIndex(s.currentIntervalIndex)
    ensures r.totalSeconds == IntervalSeconds(r.currentIntervalIndex)
    ensures r.currentTime == 0
    ensures r.continueCount == s.continueCount + 1
    ensures r.totalBreakTime == s.totalBreakTime + BreakCredit
    ensures r.sessionsCompleted == s.sessionsCompleted
    ensures r.isRunning
    ensures !s.isRunning ==> !r.isPaused && r.sessionStartTime == Some(now)
    ensures s.isRunning ==> r.isPaused == s.isPaused && r.sessionStartTime == s.sessionStartTime
    ensures Inv(s) ==> Inv(r)
  {
    var i := NextIndex(s.currentIntervalIndex);
    var advanced := s.(continueCount := s.continueCount + 1,
                       currentIntervalIndex := i,
                       totalSeconds := IntervalSeconds(i),
                       currentTime := 0,
                       totalBreakTime := s.totalBreakTime + BreakCredit);
    Start(advanced, now)
  }

  /** The stop button: record a completed session, then reset. */
  function Stop(s: State): (r: State)
    ensures r.sessionsCompleted == s.sessionsCompleted + 1
    ensures r == Reset(s).(sessionsCompleted := s.sessionsCompleted + 1)
    ensures r == Initial.(sessionsCompleted := s.sessionsCompleted + 1, totalBreakTime := s.totalBreakTime)
    ensures Inv(r)
  {
    Reset(s.(sessionsCompleted := s.sessionsCompleted + 1))
  }

  /** Everything that can happen to the state: a button press or a second passing. */
  datatype Event =
    | StartPressed(now: int)
    | PausePressed
    | ResetPressed
    | Second
    | ContinuePressed(now: int)
    | StopPressed

  /**
    The effect of one event. The per-second callback is scheduled exactly while
    the timer runs (start schedules it only when not running; pause, reset and
    the break all cancel it), so a second that passes while stopped changes nothing.
   */
  function Step(s: State, e: Event): (r: State)
    requires Inv(s)
    ensures Inv(r)
    ensures e.Second? && !s.isRunning ==> r == s
  {
    match e
    case StartPressed(now) => Start(s, now)
    case PausePressed => Pause(s)
    case ResetPressed => Reset(s)
    case Second => if s.isRunning then Tick(s) else s
    case ContinuePressed(now) => Continue(s, now)
    case StopPressed => Stop(s)
  }

  /** The effect of a sequence of events, applied in order. */
  function Run(s: State, es: seq<Event>): (r: State)
    requires Inv(s)
    ensures Inv(r)
    decreases |es|
  {
    if es == [] then s else Run(Step(s, es[0]), es[1..])
  }
}
