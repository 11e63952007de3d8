/** The interval timer's state, the commands other threads give it, and one pass through
    its loop.  Times are microseconds; unsigned 64-bit arithmetic wraps. */
module TimerModel {
  import opened Machine

  /** `a - b` in unsigned 64-bit arithmetic. */
  function Sub(a: Word, b: Word): Word {
    if b <= a then a - b else U64 - (b - a)
  }

  lemma SubWraps(a: Word, b: Word)
    ensures Sub(a, b) == (a - b) % U64
  {
    if a < b {
      assert a - b == -1 * U64 + Sub(a, b);
    }
  }

  /** A signed millisecond count cast to unsigned 64-bit and scaled to microseconds. */
  function Micros(ms: Int32): Word {
    if ms >= 0 then ms * 1000 else U64 + ms * 1000
  }

  lemma MicrosWraps(ms: Int32)
    ensures Micros(ms) == (ms % U64) * 1000 % U64
  {
    if ms < 0 {
      assert ms % U64 == U64 + ms;
      assert (U64 + ms) * 1000 == 999 * U64 + Micros(ms);
    }
  }

  /** Seconds whose milliseconds fit a 32-bit int; the source multiplies without a check. */
  type Seconds = s: int | -2147483 <= s <= 2147483

  /** The checks on the parameters of a start.  `parsed` tells whether both times of day are well
      formed; here they are numbers. */
  predicate Accepts(intervalms: int, maxworkms: int, startTime: int, endTime: int, parsed: bool) {
    && intervalms > 0
    && !(maxworkms > 0 && maxworkms >= intervalms - 100)
    && parsed
    && startTime <= endTime
  }

  /** What other threads do to the shared fields.  `Enter` is a second timer thread's entry: a
      start accepted while the timer is inactive spawns one. */
  datatype Command =
    | Start(startTime: int, endTime: int, intervalsecs: Seconds, maxworksecs: Seconds, parsed: bool)
    | Enter
    | UpdateInterval(secs: Seconds)
    | Pause(paused: bool)
    | Stop
    | ResetInterval

  datatype Timer = Timer(active: bool, triggered: bool, paused: bool, resetInterval: bool,
                         startTime: int, endTime: int, intervalUS: Word, maxWorkMS: Int32)

  /** What the thread stores on entry. */
  function Entered(t: Timer): Timer {
    t.(active := true, triggered := false)
  }

  /** The effect of a command on the shared fields. */
  function Exec(t: Timer, c: Command): Timer {
    match c
    case Start(s, e, i, w, parsed) =>
      if !Accepts(i * 1000, w * 1000, s, e, parsed) then t
      else t.(paused := false, startTime := s, endTime := e, maxWorkMS := w * 1000, intervalUS := Micros(i * 1000))
    case Enter => Entered(t)
    case UpdateInterval(i) => t.(intervalUS := Micros(i * 1000))
    case Pause(p) => t.(paused := p)
    case Stop => t.(active := false)
    case ResetInterval => t.(resetInterval := true)
  }

  function ExecAll(t: Timer, cs: seq<Command>): Timer {
    if |cs| == 0 then t else Exec(ExecAll(t, cs[..|cs| - 1]), cs[|cs| - 1])
  }

  datatype TimerState = ERROR | WAIT | START | END

  datatype Callback = TRIGGERED | MAXSECS

  /** What the timer reports: its two callbacks, and the log line for a consumed reset. */
  datatype Event =
    | State(state: TimerState)
    | Interval(interval: Callback, at: Word)
    | Reset(at: Word)

  datatype Flag = Calculating | Working

  /** One pass through the loop: the clock reading, and the commands that land before each
      of the loop's four reads of shared state. */
  datatype Tick = Tick(now: Word, beforeActive: seq<Command>, beforePause: seq<Command>,
                       beforeReset: seq<Command>, beforeInterval: seq<Command>)

  datatype Loop = Loop(t: Timer, running: bool, last: Word, flag: Flag, events: seq<Event>)

  function Emit(l: Loop, e: Event): Loop {
    l.(events := l.events + [e])
  }

  /** The shared state as a pass finds it at each of its four reads: of the active flag, the paused
      flag, the reset flag (which it then clears) and the interval. */
  datatype Reads = Reads(active: Timer, paused: Timer, reset: Timer, interval: Timer)

  function ReadsOf(t: Timer, tick: Tick): (r: Reads) {
    var t1 := ExecAll(t, tick.beforeActive);
    var t2 := ExecAll(t1, tick.beforePause);
    var t3 := ExecAll(t2, tick.beforeReset);
    Reads(t1, t2, t3, ExecAll(t3.(resetInterval := false), tick.beforeInterval))
  }

  /** The loop passes its two guards: not stopped, not paused. */
  predicate Awake(l: Loop, r: Reads) {
    l.running && r.active.active && !r.paused.paused
  }

  /** A pending reset restarts the interval at `now`. */
  function TakeReset(l: Loop, t: Timer, now: Word): Loop {
    if t.resetInterval then Emit(l.(t := t.(resetInterval := false), last := now), Reset(now)) else l.(t := t)
  }

  function Fire(l: Loop, t: Timer, now: Word): Loop {
    if l.flag == Calculating && Sub(now, l.last) >= t.intervalUS
    then Emit(l.(t := t, flag := Working, last := now), Interval(TRIGGERED, now))
    else l.(t := t)
  }

  function Work(l: Loop, now: Word, maxWork: Word): Loop {
    if l.flag == Working && (maxWork == 0 || Sub(now, l.last) >= maxWork)
    then Emit(l.(flag := Calculating), Interval(MAXSECS, now))
    else l
  }

  /** The reset, trigger and work checks, with the shared state at the first and at the second. */
  function Tock(l: Loop, t1: Timer, t2: Timer, now: Word, maxWork: Word): Loop {
    Work(Fire(TakeReset(l, t1, now), t2, now), now, maxWork)
  }

  function Pass(l: Loop, r: Reads, now: Word, maxWork: Word, end: int): Loop {
    if !l.running then l
    else if !r.active.active then l.(t := r.active, running := false)
    else if r.paused.paused then l.(t := r.paused)
    else if now >= end then Emit(l.(t := r.paused.(active := false)), State(END))
    else Tock(l, r.reset, r.interval, now, maxWork)
  }

  function Step(l: Loop, tick: Tick, maxWork: Word, end: int): Loop {
    Pass(l, ReadsOf(l.t, tick), tick.now, maxWork, end)
  }

  function Steps(l: Loop, ticks: seq<Tick>, maxWork: Word, end: int): Loop {
    if |ticks| == 0 then l else Step(Steps(l, ticks[..|ticks| - 1], maxWork, end), ticks[|ticks| - 1], maxWork, end)
  }

  /** An undisturbed tick. */
  ghost function Quiet(now: Word): Tick {
    Tick(now, [], [], [], [])
  }

  /** The clock never goes back. */
  ghost predicate Monotone(ticks: seq<Tick>) {
    forall i, j :: 0 <= i <= j < |ticks| ==> ticks[i].now <= ticks[j].now
  }

  // ----- waiting for the start time

  datatype WaitTick = WaitTick(before: seq<Command>, now: nat)

  datatype Wait = Waiting | Go | GiveUp

  /** The shared state after the wait loop, and how it ended (`Waiting` if it has not). */
  function WaitFor(t: Timer, start: int, end: int, ticks: seq<WaitTick>): (Timer, Wait)
    decreases |ticks|
  {
    if |ticks| == 0 then (t, Waiting)
    else
      var t1 := ExecAll(t, ticks[0].before);
      if !t1.active then (t1, GiveUp)
      else if ticks[0].now >= start then (t1.(triggered := true), Go)
      else if ticks[0].now > end then (t1, GiveUp)
      else WaitFor(t1, start, end, ticks[1..])
  }

  /** The loop as it starts, once the start time has come. */
  function Begin(t: Timer): Loop {
    Loop(t, true, 0, Calculating, [State(WAIT), State(START)])
  }

  /** The commands that land before the thread's reads of shared state outside its two loops:
      of the start time, of the end time, of the triggered flag, of the work limit, and of the
      end time once more. */
  datatype Gaps = Gaps(beforeStart: seq<Command>, beforeEnd: seq<Command>, beforeCheck: seq<Command>,
                       beforeWork: seq<Command>, beforeEndAgain: seq<Command>)

  const NoGaps := Gaps([], [], [], [], [])

  /** How the thread gets to its loop, if it does, and the two values it reads for it once. */
  datatype Launch = Launch(t: Timer, outcome: Wait, maxWork: Word, end: int)

  function Waited(t: Timer, g: Gaps, waits: seq<WaitTick>): (Timer, Wait) {
    var t1 := ExecAll(Entered(t), g.beforeStart);
    var t2 := ExecAll(t1, g.beforeEnd);
    WaitFor(t2.(triggered := false), t1.startTime, t2.endTime, waits)
  }

  /** The thread goes on or not by the triggered flag, not by how the wait ended. */
  function Launched(t: Timer, g: Gaps, waits: seq<WaitTick>): Launch {
    var (t0, outcome) := Waited(t, g, waits);
    if outcome == Waiting then Launch(t0, Waiting, 0, 0)
    else
      var t1 := ExecAll(t0, g.beforeCheck);
      if !t1.triggered then Launch(t1, GiveUp, 0, 0)
      else
        var t2 := ExecAll(t1, g.beforeWork);
        var t3 := ExecAll(t2, g.beforeEndAgain);
        Launch(t3, Go, Micros(t2.maxWorkMS), t3.endTime)
  }

  /** A whole run of the timer thread: the shared state it leaves, and its events. */
  function Run(t: Timer, g: Gaps, waits: seq<WaitTick>, ticks: seq<Tick>): (Timer, seq<Event>) {
    var r := Launched(t, g, waits);
    match r.outcome
    case Waiting => (r.t, [State(WAIT)])
    case GiveUp => (r.t, [State(WAIT), State(ERROR)])
    case Go =>
      var l := Steps(Begin(r.t), ticks, r.maxWork, r.end);
      (l.t, l.events)
  }
}
