/** Undisturbed runs of the interval timer: no drift, and what the work limit does. */
module TimerDrift {
  import opened Machine
  import opened TimerModel
  import opened TimerPace

  // ----- no drift

  ghost function Triggers(ev: seq<Event>): seq<nat> {
    if |ev| == 0 then []
    else Triggers(ev[..|ev| - 1]) + if IsTrigger(ev[|ev| - 1]) then [ev[|ev| - 1].at] else []
  }

  ghost predicate Undisturbed(ticks: seq<Tick>) {
    Monotone(ticks) && forall i :: 0 <= i < |ticks| ==> ticks[i] == Quiet(ticks[i].now)
  }

  /** Undisturbed ticks at most `d` apart. */
  ghost predicate Steady(ticks: seq<Tick>, d: nat) {
    Undisturbed(ticks) && forall i :: 0 < i < |ticks| ==> ticks[i].now - ticks[i - 1].now <= d
  }

  ghost predicate Regular(times: seq<nat>, interval: nat, d: nat) {
    forall k :: 0 < k < |times| ==> interval <= times[k] - times[k - 1] < interval + d
  }

  /** Undisturbed, and on schedule as of the tick at `now`. */
  ghost predicate OnTime(l: Loop, interval: nat, maxWork: Word, d: nat, now: Word) {
    && l.t.intervalUS == interval && !l.t.paused && !l.t.resetInterval
    && Regular(Triggers(l.events), interval, d)
    && l.last <= now
    && var times := Triggers(l.events);
       if |times| == 0 then l.flag == Calculating && l.last == 0
       else
         && l.last == times[|times| - 1]
         && now - l.last < if l.flag == Working then maxWork else interval
  }

  lemma TriggersAppend(ev: seq<Event>, e: Event)
    ensures Triggers(ev + [e]) == Triggers(ev) + if IsTrigger(e) then [e.at] else []
  {
    assert (ev + [e])[..|ev|] == ev;
  }

  lemma PulseTriggers(l: Loop, now: Word, maxWork: Word)
    ensures Triggers(Pulse(l, now, maxWork).events)
         == Triggers(l.events) + if Fire(l, l.t, now).flag != l.flag then [now] else []
  {
    TriggersAppend(l.events, Interval(TRIGGERED, now));
    TriggersAppend(Fire(l, l.t, now).events, Interval(MAXSECS, now));
  }

  lemma PulseFires(l: Loop, now: Word, m: Word)
    requires l.flag == Calculating && l.last + l.t.intervalUS <= now
    ensures var l' := Pulse(l, now, m);
      && l'.t == l.t && l'.last == now && l'.flag == (if m == 0 then Calculating else Working)
      && Triggers(l'.events) == Triggers(l.events) + [now]
  {
    PulseTriggers(l, now, m);
  }

  lemma PulseWorks(l: Loop, now: Word, m: Word)
    requires l.flag == Working && l.last <= now
    ensures var l' := Pulse(l, now, m);
      && l'.t == l.t && l'.last == l.last && l'.flag == (if m <= now - l.last then Calculating else Working)
      && Triggers(l'.events) == Triggers(l.events)
  {
    assert Pulse(l, now, m) == Work(l, now, m);
    TriggersAppend(l.events, Interval(MAXSECS, now));
  }

  lemma PulseIdle(l: Loop, now: Word, m: Word)
    requires l.flag == Calculating && l.last <= now && now - l.last < l.t.intervalUS
    ensures Pulse(l, now, m) == l
  {
  }

  lemma RegularSnoc(times: seq<nat>, t: nat, interval: nat, d: nat)
    requires Regular(times, interval, d)
    requires |times| > 0 ==> interval <= t - times[|times| - 1] < interval + d
    ensures Regular(times + [t], interval, d)
  {
  }

  lemma OnTimeStep(l: Loop, interval: nat, maxWork: Word, d: nat, prev: nat, now: Word)
    requires prev <= now && interval > 0
    requires maxWork == 0 || maxWork + d <= interval
    requires OnTime(l, interval, maxWork, d, prev) && now - prev <= d
    ensures OnTime(Pulse(l, now, maxWork), interval, maxWork, d, now)
  {
    if l.flag == Working {
      PulseWorks(l, now, maxWork);
    } else if now - l.last < interval {
      PulseIdle(l, now, maxWork);
    } else {
      RegularSnoc(Triggers(l.events), now, interval, d);
      PulseFires(l, now, maxWork);
    }
  }

  lemma FirstStep(l: Loop, interval: nat, maxWork: Word, d: nat, now: Word)
    requires interval > 0
    requires maxWork < interval
    requires OnTime(l, interval, maxWork, d, 0) && Triggers(l.events) == []
    ensures OnTime(Pulse(l, now, maxWork), interval, maxWork, d, now)
  {
    if now < interval {
      PulseIdle(l, now, maxWork);
    } else {
      PulseFires(l, now, maxWork);
    }
  }

  lemma SteadyPrefix(ticks: seq<Tick>, d: nat)
    requires |ticks| > 0 && Steady(ticks, d)
    ensures Steady(ticks[..|ticks| - 1], d)
  {
  }

  /** No drift: with an accepted work limit, undisturbed ticks at most `d` apart and no tick at or
      past the end time, consecutive TRIGGERED callbacks are at least the interval and less than
      the interval plus `d` apart.  The work limit leaves room for MAXSECS to have fired in an
      earlier tick. */
  lemma {:induction false} NoDrift(l: Loop, ticks: seq<Tick>, maxWork: Word, end: int, interval: nat, d: nat)
    requires interval > 0 && (maxWork == 0 || maxWork + d <= interval) && maxWork < interval
    requires Steady(ticks, d) && forall i :: 0 <= i < |ticks| ==> ticks[i].now < end
    requires l.running && l.t.active && OnTime(l, interval, maxWork, d, 0) && Triggers(l.events) == []
    ensures var l' := Steps(l, ticks, maxWork, end);
      && l'.running && l'.t == l.t
      && OnTime(l', interval, maxWork, d, if |ticks| == 0 then 0 else ticks[|ticks| - 1].now)
  {
    if |ticks| > 0 {
      var rest, now := ticks[..|ticks| - 1], ticks[|ticks| - 1].now;
      SteadyPrefix(ticks, d);
      NoDrift(l, rest, maxWork, end, interval, d);
      var l1 := Steps(l, rest, maxWork, end);
      assert ticks[|ticks| - 1] == Quiet(now);
      QuietStep(l1, now, maxWork, end);
      if |rest| == 0 {
        FirstStep(l1, interval, maxWork, d, now);
      } else {
        assert ticks[|ticks| - 1].now - ticks[|ticks| - 2].now <= d;
        OnTimeStep(l1, interval, maxWork, d, rest[|rest| - 1].now, now);
      }
    }
  }

  /** A tick at or past the end time reports no interval. */
  lemma LateTick(l: Loop, tick: Tick, maxWork: Word, end: int)
    requires tick.now >= end
    ensures Triggers(Step(l, tick, maxWork, end).events) == Triggers(l.events)
  {
    TriggersAppend(l.events, State(END));
  }

  lemma {:induction false} NoDriftToTheEnd(l: Loop, ticks: seq<Tick>, maxWork: Word, end: int, interval: nat, d: nat)
    requires interval > 0 && (maxWork == 0 || maxWork + d <= interval) && maxWork < interval
    requires Steady(ticks, d)
    requires l.running && l.t.active && OnTime(l, interval, maxWork, d, 0) && Triggers(l.events) == []
    ensures Regular(Triggers(Steps(l, ticks, maxWork, end).events), interval, d)
  {
    if |ticks| == 0 || ticks[|ticks| - 1].now < end {
      NoDrift(l, ticks, maxWork, end, interval, d);
    } else {
      var rest := ticks[..|ticks| - 1];
      SteadyPrefix(ticks, d);
      NoDriftToTheEnd(l, rest, maxWork, end, interval, d);
      LateTick(Steps(l, rest, maxWork, end), ticks[|ticks| - 1], maxWork, end);
    }
  }

  /** A run with accepted limits does not drift: any milliseconds the check accepts leave room for
      ticks up to 100 ms apart ... */
  lemma AcceptedRunDoesNotDrift(t: Timer, intervalms: nat, maxworkms: nat, ticks: seq<Tick>, d: nat)
    requires Accepts(intervalms, maxworkms, t.startTime, t.endTime, true) && intervalms < 0x8000_0000 && d <= 100_000
    requires t.active && !t.paused && !t.resetInterval
    requires t.intervalUS == Micros(intervalms) && t.maxWorkMS == maxworkms
    requires Steady(ticks, d)
    ensures Regular(Triggers(Steps(Begin(t), ticks, Micros(t.maxWorkMS), t.endTime).events), t.intervalUS, d)
  {
    assert Micros(maxworkms) == maxworkms * 1000 && Micros(intervalms) == intervalms * 1000;
    BeginHasNoTriggers(t);
    NoDriftToTheEnd(Begin(t), ticks, Micros(t.maxWorkMS), t.endTime, t.intervalUS, d);
  }

  /** ... and the whole seconds that `Start` passes, for ticks up to a second apart. */
  lemma StartedRunDoesNotDrift(t: Timer, intervalsecs: Seconds, maxworksecs: Seconds, ticks: seq<Tick>, d: nat)
    requires Accepts(intervalsecs * 1000, maxworksecs * 1000, t.startTime, t.endTime, true) && maxworksecs >= 0
    requires d <= 1_000_000
    requires t.active && !t.paused && !t.resetInterval
    requires t.intervalUS == Micros(intervalsecs * 1000) && t.maxWorkMS == maxworksecs * 1000
    requires Steady(ticks, d)
    ensures Regular(Triggers(Steps(Begin(t), ticks, Micros(t.maxWorkMS), t.endTime).events), t.intervalUS, d)
  {
    assert Micros(maxworksecs * 1000) == maxworksecs * 1000000 && Micros(intervalsecs * 1000) == intervalsecs * 1000000;
    BeginHasNoTriggers(t);
    NoDriftToTheEnd(Begin(t), ticks, Micros(t.maxWorkMS), t.endTime, t.intervalUS, d);
  }

  /** ... and so does the whole run of a thread that such a `Start` spawns, when nobody disturbs it. */
  lemma WholeRunDoesNotDrift(t0: Timer, start: Command, waits: seq<WaitTick>, ticks: seq<Tick>, d: nat)
    requires start.Start? && start.maxworksecs >= 0 && d <= 1_000_000 && !t0.resetInterval
    requires Accepts(start.intervalsecs * 1000, start.maxworksecs * 1000, start.startTime, start.endTime, start.parsed)
    requires Steady(ticks, d) && forall i :: 0 <= i < |waits| ==> waits[i].before == []
    ensures Regular(Triggers(Run(Exec(t0, start), NoGaps, waits, ticks).1), Micros(start.intervalsecs * 1000), d)
  {
    var t := Exec(t0, start);
    var r := Launched(t, NoGaps, waits);
    LaunchUndisturbed(t, waits);
    if r.outcome == Go {
      StartedRunDoesNotDrift(r.t, start.intervalsecs, start.maxworksecs, ticks, d);
    } else {
      var ev := Run(t, NoGaps, waits, ticks).1;
      assert ev[..1] == [State(WAIT)] && ev[..1][..0] == [];
      assert Triggers(ev[..1]) == [] && Triggers(ev) == [];
    }
  }

  /** An undisturbed wait changes nothing but the active and the triggered flag. */
  lemma {:induction false} WaitUndisturbed(t: Timer, start: int, end: int, waits: seq<WaitTick>)
    requires forall i :: 0 <= i < |waits| ==> waits[i].before == []
    ensures WaitFor(t, start, end, waits).0 == t.(triggered := t.triggered || WaitFor(t, start, end, waits).1 == Go)
    decreases |waits|
  {
    if |waits| > 0 {
      assert ExecAll(t, []) == t;
      WaitUndisturbed(t, start, end, waits[1..]);
    }
  }

  lemma LaunchUndisturbed(t: Timer, waits: seq<WaitTick>)
    requires forall i :: 0 <= i < |waits| ==> waits[i].before == []
    ensures var r := Launched(t, NoGaps, waits);
      r.outcome == Go ==>
        r.t == t.(active := true, triggered := true) && r.maxWork == Micros(t.maxWorkMS) && r.end == t.endTime
  {
    assert forall u :: ExecAll(u, []) == u;
    WaitUndisturbed(Entered(t), t.startTime, t.endTime, waits);
  }

  // ----- a second trigger

  ghost predicate Stalled(l: Loop, bound: nat) {
    && l.last < bound
    && |Triggers(l.events)| <= if l.flag == Working then 1 else 0
  }

  lemma StalledFire(l: Loop, t: Timer, now: Word, maxWork: Word)
    requires Stalled(l, maxWork) && l.last <= now < maxWork
    ensures var l' := Fire(l, t, now); Stalled(l', maxWork) && l'.last <= now
  {
    TriggersAppend(l.events, Interval(TRIGGERED, now));
  }

  lemma StalledTock(l: Loop, r: Reads, now: Word, maxWork: Word)
    requires 0 < maxWork && Stalled(l, maxWork) && l.last <= now < maxWork
    ensures var l' := Tock(l, r.reset, r.interval, now, maxWork); Stalled(l', maxWork) && l'.last <= now
  {
    TriggersAppend(l.events, Reset(now));
    var l1 := TakeReset(l, r.reset, now);
    assert Stalled(l1, maxWork) && l1.last <= now;
    StalledFire(l1, r.interval, now, maxWork);
  }

  lemma StalledPass(l: Loop, r: Reads, now: Word, maxWork: Word, end: int)
    requires 0 < maxWork && Stalled(l, maxWork) && l.last <= now < maxWork
    ensures var l' := Pass(l, r, now, maxWork, end); Stalled(l', maxWork) && l'.last <= now
  {
    if Awake(l, r) {
      if now >= end {
        TriggersAppend(l.events, State(END));
      } else {
        StalledTock(l, r, now, maxWork);
      }
    }
  }

  /** With a work limit no clock reading can reach, the first TRIGGERED is the last one. */
  lemma {:induction false} UnreachableWorkStalls(l: Loop, ticks: seq<Tick>, maxWork: Word, end: int)
    requires Monotone(ticks) && 0 < maxWork && Stalled(l, maxWork)
    requires forall i :: 0 <= i < |ticks| ==> l.last <= ticks[i].now < maxWork
    ensures Stalled(Steps(l, ticks, maxWork, end), maxWork)
    ensures |ticks| > 0 ==> Steps(l, ticks, maxWork, end).last <= ticks[|ticks| - 1].now
  {
    if |ticks| > 0 {
      var rest, tick := ticks[..|ticks| - 1], ticks[|ticks| - 1];
      UnreachableWorkStalls(l, rest, maxWork, end);
      var l1 := Steps(l, rest, maxWork, end);
      StalledPass(l1, ReadsOf(l1.t, tick), tick.now, maxWork, end);
    }
  }

  lemma BeginHasNoTriggers(t: Timer)
    ensures Triggers(Begin(t).events) == []
  {
    var ev := [State(WAIT), State(START)];
    assert ev[..1] == [State(WAIT)] && ev[..1][..0] == [];
  }

  /** The loop runs undisturbed, last restarted at `last`, having triggered `n` times. */
  ghost predicate Ready(l: Loop, t: Timer, last: Word, flag: Flag, n: nat) {
    && l.running && l.t == t && l.last == last && l.flag == flag && |Triggers(l.events)| == n
    && t.active && !t.paused && !t.resetInterval
  }

  ghost predicate UpTo(ticks: seq<Tick>, upto: Word) {
    Undisturbed(ticks) && forall i :: 0 <= i < |ticks| ==> ticks[i].now <= upto
  }

  /** Undisturbed ticks with readings up to `upto` lead to such a state. */
  ghost predicate Reaches(l: Loop, m: Word, end: int, upto: Word, last: Word, flag: Flag, n: nat) {
    exists ticks :: UpTo(ticks, upto) && Ready(Steps(l, ticks, m, end), l.t, last, flag, n)
  }

  lemma TickNext(l: Loop, ticks: seq<Tick>, now: Word, m: Word, end: int, upto: Word)
    requires UpTo(ticks, upto) && upto <= now < end
    requires var l1 := Steps(l, ticks, m, end); Ready(l1, l.t, l1.last, l1.flag, |Triggers(l1.events)|)
    ensures UpTo(ticks + [Quiet(now)], now)
    ensures Steps(l, ticks + [Quiet(now)], m, end) == Pulse(Steps(l, ticks, m, end), now, m)
  {
    StepsSnoc(l, ticks, Quiet(now), m, end);
    QuietStep(Steps(l, ticks, m, end), now, m, end);
  }

  /** The flag after a trigger: without a work limit its work is finished in the same pass. */
  ghost function FlagAfter(m: Word): Flag {
    if m == 0 then Calculating else Working
  }

  lemma FiresNext(l: Loop, now: Word, m: Word, end: int, upto: Word, last: Word, n: nat)
    requires n > 0 && Reaches(l, m, end, upto, last, Calculating, n - 1)
    requires last + l.t.intervalUS <= now < end && upto <= now
    ensures Reaches(l, m, end, now, now, FlagAfter(m), n)
  {
    var ticks :| UpTo(ticks, upto) && Ready(Steps(l, ticks, m, end), l.t, last, Calculating, n - 1);
    TickNext(l, ticks, now, m, end, upto);
    PulseFires(Steps(l, ticks, m, end), now, m);
  }

  lemma FinishesNext(l: Loop, now: Word, m: Word, end: int, upto: Word, last: Word, n: nat)
    requires Reaches(l, m, end, upto, last, Working, n) && last + m == now < end && upto <= now
    ensures Reaches(l, m, end, now, last, Calculating, n)
  {
    var ticks :| UpTo(ticks, upto) && Ready(Steps(l, ticks, m, end), l.t, last, Working, n);
    TickNext(l, ticks, now, m, end, upto);
    PulseWorks(Steps(l, ticks, m, end), now, m);
  }

  /** The earliest second trigger: an interval, then the larger of the interval and the work. */
  ghost function Second(i: Word, m: Word): nat {
    i + if i < m then m else i
  }

  /** Fire, finish the work, fire again. */
  lemma TwoTriggers(l: Loop, m: Word, end: int)
    requires Ready(l, l.t, 0, Calculating, 0) && Second(l.t.intervalUS, m) < end <= U64
    ensures Reaches(l, m, end, Second(l.t.intervalUS, m), Second(l.t.intervalUS, m), FlagAfter(m), 2)
  {
    var i := l.t.intervalUS;
    assert Reaches(l, m, end, 0, 0, Calculating, 0) by {
      assert UpTo([], 0) && Steps(l, [], m, end) == l;
    }
    FiresNext(l, i, m, end, 0, 0, 1);
    if m == 0 {
      FiresNext(l, i + i, m, end, i, i, 2);
    } else {
      FinishesNext(l, i + m, m, end, i, i, 1);
      FiresNext(l, Second(i, m), m, end, i + m, i, 2);
    }
  }

  /** As of reading `now` of an undisturbed run: the first trigger takes an interval, finishing its
      work takes `m`, and the second trigger takes both after the first. */
  ghost predicate Paced(l: Loop, t: Timer, m: Word, end: int, now: nat) {
    var n := |Triggers(l.events)|;
    && (n >= 2 ==> Second(t.intervalUS, m) < end)
    && (l.running && l.t.active ==>
          && l.t == t && l.last <= now
          && (n == 0 ==> l.flag == Calculating && l.last == 0)
          && (n == 1 ==> t.intervalUS <= l.last && (l.flag == Calculating ==> l.last + m <= now)))
  }

  lemma PacedPulse(l: Loop, t: Timer, m: Word, end: int, prev: nat, now: Word)
    requires Paced(l, t, m, end, prev) && l.running && l.t.active && prev <= now < end
    ensures Paced(Pulse(l, now, m), t, m, end, now)
  {
    if l.flag == Working {
      PulseWorks(l, now, m);
    } else if now - l.last < t.intervalUS {
      PulseIdle(l, now, m);
    } else {
      PulseFires(l, now, m);
    }
  }

  lemma PacedStep(l: Loop, t: Timer, m: Word, end: int, prev: nat, now: Word)
    requires Paced(l, t, m, end, prev) && !t.paused && !t.resetInterval && prev <= now
    ensures Paced(Step(l, Quiet(now), m, end), t, m, end, now)
  {
    assert ExecAll(l.t, []) == l.t;
    if l.running && l.t.active {
      if now < end {
        QuietStep(l, now, m, end);
        PacedPulse(l, t, m, end, prev, now);
      } else {
        TriggersAppend(l.events, State(END));
      }
    }
  }

  lemma {:induction false} UndisturbedIsPaced(l: Loop, ticks: seq<Tick>, t: Timer, m: Word, end: int)
    requires Paced(l, t, m, end, 0) && !t.paused && !t.resetInterval && Undisturbed(ticks)
    ensures Paced(Steps(l, ticks, m, end), t, m, end, if |ticks| == 0 then 0 else ticks[|ticks| - 1].now)
  {
    if |ticks| > 0 {
      var rest, k := ticks[..|ticks| - 1], |ticks| - 1;
      UndisturbedIsPaced(l, rest, t, m, end);
      assert ticks[k] == Quiet(ticks[k].now);
      assert |rest| > 0 ==> ticks[|rest| - 1].now <= ticks[k].now;
      PacedStep(Steps(l, rest, m, end), t, m, end, if |rest| == 0 then 0 else rest[|rest| - 1].now, ticks[k].now);
    }
  }

  /** An undisturbed run can report TRIGGERED a second time if and only if the end time leaves room
      for it: an interval, and then the larger of the interval and the work limit as it is cast,
      which is almost 2^64 microseconds when it is negative. */
  lemma FiresTwiceIffRoom(t: Timer)
    requires t.active && !t.paused && !t.resetInterval && t.endTime <= U64
    ensures var m := Micros(t.maxWorkMS);
      (exists ticks :: Undisturbed(ticks) && |Triggers(Steps(Begin(t), ticks, m, t.endTime).events)| >= 2)
      <==> Second(t.intervalUS, m) < t.endTime
  {
    BeginHasNoTriggers(t);
    var m := Micros(t.maxWorkMS);
    forall ticks | Undisturbed(ticks) && |Triggers(Steps(Begin(t), ticks, m, t.endTime).events)| >= 2
      ensures Second(t.intervalUS, m) < t.endTime
    {
      UndisturbedIsPaced(Begin(t), ticks, t, m, t.endTime);
    }
    if Second(t.intervalUS, m) < t.endTime {
      TwoTriggers(Begin(t), m, t.endTime);
    }
  }

  /** A run with clock readings below 2^62 us, which is some 146000 years. */
  ghost predicate Dated(ticks: seq<Tick>) {
    Monotone(ticks) && forall i :: 0 <= i < |ticks| ==> ticks[i].now < 0x4000_0000_0000_0000
  }

  /** The check accepts negative work limits.  Where the end time leaves room for a second trigger, a
      run, whatever its commands, can report one if and only if its work limit is not negative. */
  lemma FiresTwiceIffWorkNotNegative(t: Timer)
    requires t.active && !t.paused && !t.resetInterval && 0 < t.intervalUS < 0x2000_0000_0000_0000
    requires t.maxWorkMS >= 0 ==> Second(t.intervalUS, Micros(t.maxWorkMS)) < t.endTime <= U64
    ensures var m := Micros(t.maxWorkMS);
      (exists ticks :: Dated(ticks) && |Triggers(Steps(Begin(t), ticks, m, t.endTime).events)| >= 2)
      <==> t.maxWorkMS >= 0
  {
    BeginHasNoTriggers(t);
    var m := Micros(t.maxWorkMS);
    if t.maxWorkMS < 0 {
      forall ticks | Dated(ticks)
        ensures |Triggers(Steps(Begin(t), ticks, m, t.endTime).events)| < 2
      {
        UnreachableWorkStalls(Begin(t), ticks, m, t.endTime);
      }
    } else {
      TwoTriggers(Begin(t), m, t.endTime);
      var second: Word := Second(t.intervalUS, m);
      var ticks :| UpTo(ticks, second) && Ready(Steps(Begin(t), ticks, m, t.endTime), t, second, FlagAfter(m), 2);
      assert Dated(ticks);
    }
  }
}
