/** The interval timer as an object: commands from other threads and the thread's own run. */
module IntervalTimer {
  import opened Machine
  import opened TimerModel

  class IntervalTimer {
    var active: bool
    var triggered: bool
    var paused: bool
    var resetInterval: bool
    var startTime: int
    var endTime: int
    var timerIntervalUS: Word
    var timerMaxWorkMS: Int32
    var lastSent: Word
    /** What the callback object has been told, and the log lines of consumed resets. */
    var events: seq<Event>

    function Fields(): Timer
      reads this
    {
      Timer(active, triggered, paused, resetInterval, startTime, endTime, timerIntervalUS, timerMaxWorkMS)
    }

    constructor ()
      ensures !active && !triggered && !resetInterval && events == []
    {
      active, triggered, paused, resetInterval := false, false, false, false;
      startTime, endTime, timerIntervalUS, timerMaxWorkMS, lastSent := 0, 0, 0, 0, 0;
      events := [];
    }

    /** `spawn` tells whether a timer thread is created: never while one is marked active. */
    method StartTimer(startTime: int, endTime: int, intervalsecs: Seconds, maxworksecs: Seconds, parsed: bool)
      returns (spawn: bool)
      modifies this
      ensures Fields() == Exec(old(Fields()), Start(startTime, endTime, intervalsecs, maxworksecs, parsed))
      ensures spawn <==> Accepts(intervalsecs * 1000, maxworksecs * 1000, startTime, endTime, parsed) && !old(active)
      ensures lastSent == old(lastSent) && events == old(events)
    {
      var intervalms, maxworkms := intervalsecs * 1000, maxworksecs * 1000;
      if intervalms <= 0 || (maxworkms > 0 && maxworkms >= intervalms - 100) || !parsed || endTime < startTime {
        return false;
      }
      paused := false;
      this.startTime, this.endTime := startTime, endTime;
      timerMaxWorkMS := maxworkms;
      UpdateTimerInterval(intervalsecs);
      spawn := !Started();
    }

    method UpdateTimerInterval(secs: Seconds)
      modifies this`timerIntervalUS
      ensures Fields() == Exec(old(Fields()), UpdateInterval(secs))
    {
      timerIntervalUS := Micros(secs * 1000);
    }

    method PauseTimer(paused: bool)
      modifies this`paused
      ensures Fields() == Exec(old(Fields()), Pause(paused))
    {
      this.paused := paused;
    }

    method StopTimer()
      modifies this`active
      ensures Fields() == Exec(old(Fields()), Stop)
    {
      active := false;
    }

    method ResetTimerInterval()
      modifies this`resetInterval
      ensures Fields() == Exec(old(Fields()), ResetInterval)
    {
      resetInterval := true;
    }

    predicate Started()
      reads this
    {
      active
    }

    predicate Triggered()
      reads this
    {
      triggered
    }

    /** The first two stores of a timer thread. */
    method EnterThread()
      modifies this`triggered, this`active
      ensures Fields() == Exec(old(Fields()), Enter)
    {
      triggered := false;
      active := true;
    }

    method Land(c: Command)
      modifies this
      ensures Fields() == Exec(old(Fields()), c)
      ensures lastSent == old(lastSent) && events == old(events)
    {
      match c {
        case Start(s, e, i, w, ok) => var _ := StartTimer(s, e, i, w, ok);
        case Enter => EnterThread();
        case UpdateInterval(i) => UpdateTimerInterval(i);
        case Pause(p) => PauseTimer(p);
        case Stop => StopTimer();
        case ResetInterval => ResetTimerInterval();
      }
    }

    /** Commands of other threads that land at one point of the thread's run. */
    method LandAll(cs: seq<Command>)
      modifies this
      ensures Fields() == ExecAll(old(Fields()), cs)
      ensures lastSent == old(lastSent) && events == old(events)
    {
      for i := 0 to |cs|
        invariant Fields() == ExecAll(old(Fields()), cs[..i])
        invariant lastSent == old(lastSent) && events == old(events)
      {
        assert cs[..i + 1][..i] == cs[..i];
        Land(cs[i]);
      }
      assert cs[..|cs|] == cs;
    }

    /** The wait loop.  `outcome` tells how it ended; the source's caller only has the triggered
        flag to go by. */
    method WaitForStart(g: Gaps, ticks: seq<WaitTick>) returns (outcome: Wait)
      modifies this
      ensures
        var t1 := ExecAll(old(Fields()), g.beforeStart);
        var t2 := ExecAll(t1, g.beforeEnd);
        (Fields(), outcome) == WaitFor(t2.(triggered := false), t1.startTime, t2.endTime, ticks)
      ensures lastSent == old(lastSent) && events == old(events)
    {
      LandAll(g.beforeStart);
      var start := startTime;
      LandAll(g.beforeEnd);
      var end := endTime;
      triggered := false;
      ghost var goal := WaitFor(Fields(), start, end, ticks);
      for i := 0 to |ticks|
        invariant WaitFor(Fields(), start, end, ticks[i..]) == goal
        invariant lastSent == old(lastSent) && events == old(events)
      {
        assert ticks[i..][1..] == ticks[i + 1..];
        LandAll(ticks[i].before);
        if !active {
          return GiveUp;
        }
        if ticks[i].now >= start {
          triggered := true;
          return Go;
        }
        if ticks[i].now > end {
          return GiveUp;
        }
      }
      outcome := Waiting;
    }

    /** The timer thread, against any schedule of ticks and any commands in between. */
    method Run(g: Gaps, waits: seq<WaitTick>, ticks: seq<Tick>)
      requires events == []
      modifies this
      ensures (Fields(), events) == TimerModel.Run(old(Fields()), g, waits, ticks)
      ensures var r := Launched(old(Fields()), g, waits);
        lastSent == if r.outcome == Go then Steps(Begin(r.t), ticks, r.maxWork, r.end).last else old(lastSent)
    {
      EnterThread();
      events := events + [State(WAIT)];
      assert Fields() == Entered(old(Fields())) && events == [State(WAIT)];
      var outcome := WaitForStart(g, waits);
      if outcome == Waiting {
        return;
      }
      LandAll(g.beforeCheck);
      if !Triggered() {
        events := events + [State(ERROR)];
        assert events == [State(WAIT), State(ERROR)];
        return;
      }
      events := events + [State(START)];
      lastSent := 0;
      LandAll(g.beforeWork);
      var maxWorkUS := Micros(timerMaxWorkMS);
      LandAll(g.beforeEndAgain);
      RunLoop(maxWorkUS, endTime, ticks);
    }

    /** The thread's loop. */
    method RunLoop(maxWorkUS: Word, end: int, ticks: seq<Tick>)
      requires events == [State(WAIT), State(START)] && lastSent == 0
      modifies this
      ensures var l := Steps(Begin(old(Fields())), ticks, maxWorkUS, end);
        Fields() == l.t && events == l.events && lastSent == l.last
    {
      var last: Word, flag, running := 0, Calculating, true;
      ghost var l0 := Begin(Fields());
      for i := 0 to |ticks|
        invariant Loop(Fields(), running, last, flag, events) == Steps(l0, ticks[..i], maxWorkUS, end)
        invariant lastSent == last
      {
        assert ticks[..i + 1][..i] == ticks[..i];
        if running {
          var now := ticks[i].now;
          LandAll(ticks[i].beforeActive);
          if !active {
            running := false;
            continue;
          }
          LandAll(ticks[i].beforePause);
          if paused {
            continue;
          }
          if now >= end {
            events := events + [State(END)];
            active := false;
            continue;
          }
          last, flag := Tock(ticks[i], last, flag, maxWorkUS);
        }
      }
      assert ticks[..|ticks|] == ticks;
    }

    /** The body of the loop once awake and before the end time. */
    method Tock(tick: Tick, last0: Word, flag0: Flag, maxWorkUS: Word) returns (last: Word, flag: Flag)
      requires lastSent == last0
      modifies this
      ensures lastSent == last
      ensures
        var t1 := ExecAll(old(Fields()), tick.beforeReset);
        var t2 := ExecAll(t1.(resetInterval := false), tick.beforeInterval);
        Loop(Fields(), true, last, flag, events)
        == TimerModel.Tock(Loop(old(Fields()), true, last0, flag0, old(events)), t1, t2, tick.now, maxWorkUS)
    {
      var now := tick.now;
      last, flag := last0, flag0;
      LandAll(tick.beforeReset);
      var elapsed := Sub(now, last);
      if resetInterval {
        resetInterval := false;
        last, lastSent, elapsed := now, now, 0;
        events := events + [Reset(now)];
      }
      LandAll(tick.beforeInterval);
      if flag == Calculating && elapsed >= timerIntervalUS {
        flag := Working;
        events := events + [Interval(TRIGGERED, now)];
        last, lastSent := now, now;
      }
      if flag == Working {
        var work := Sub(now, last);
        if maxWorkUS == 0 || work >= maxWorkUS {
          flag := Calculating;
          events := events + [Interval(MAXSECS, now)];
        }
      }
    }
  }
}
