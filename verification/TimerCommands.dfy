/** What the commands to the timer come to: the last one that sets a field decides it, a pause is
    silence, and a reset is taken once. */
module TimerCommands {
  import opened Machine
  import opened TimerModel

  predicate IsAccepted(c: Command) {
    c.Start? && Accepts(c.intervalsecs * 1000, c.maxworksecs * 1000, c.startTime, c.endTime, c.parsed)
  }

  /** The check in whole seconds: an interval, a work limit below it (or none), and times in order. */
  lemma AcceptedInSeconds(c: Command)
    requires c.Start?
    ensures IsAccepted(c)
       <==> c.intervalsecs > 0 && (c.maxworksecs <= 0 || c.maxworksecs < c.intervalsecs) && c.parsed
            && c.startTime <= c.endTime
  {
  }

  lemma {:induction false} ExecAppend(t: Timer, xs: seq<Command>, ys: seq<Command>)
    ensures ExecAll(t, xs + ys) == ExecAll(ExecAll(t, xs), ys)
  {
    if |ys| == 0 {
      assert xs + ys == xs;
    } else {
      assert (xs + ys)[..|xs + ys| - 1] == xs + ys[..|ys| - 1];
      ExecAppend(t, xs, ys[..|ys| - 1]);
    }
  }

  // ----- which command decides a field

  predicate SetsPause(c: Command) {
    c.Pause? || IsAccepted(c)
  }

  predicate SetsInterval(c: Command) {
    c.UpdateInterval? || IsAccepted(c)
  }

  function SecondsOf(c: Command): int
    requires SetsInterval(c)
  {
    if c.Start? then c.intervalsecs else c.secs
  }

  /** The `i`-th command is the last that satisfies `sets`. */
  ghost predicate Decides(cs: seq<Command>, i: int, sets: Command -> bool) {
    0 <= i < |cs| && sets(cs[i]) && NoneAfter(cs, i, sets)
  }

  ghost predicate NoneAfter(cs: seq<Command>, i: int, sets: Command -> bool) {
    forall j :: i < j < |cs| && j >= 0 ==> !sets(cs[j])
  }

  /** The last pause or accepted start decides whether the timer is paused; without one it stays. */
  lemma {:induction false} PauseIsLast(t: Timer, cs: seq<Command>, i: int)
    requires i == -1 || Decides(cs, i, SetsPause)
    requires NoneAfter(cs, i, SetsPause)
    ensures ExecAll(t, cs).paused == if i < 0 then t.paused else cs[i].Pause? && cs[i].paused
  {
    if |cs| > 0 && i != |cs| - 1 {
      assert !SetsPause(cs[|cs| - 1]);
      PauseIsLast(t, cs[..|cs| - 1], i);
    }
  }

  lemma SecondsInMicros(secs: Seconds)
    ensures Micros(secs * 1000) == (secs * 1000000) % U64
  {
    if secs < 0 {
      assert secs * 1000000 == -1 * U64 + Micros(secs * 1000);
    }
  }

  /** The last update or accepted start decides the interval: its seconds in wrapped microseconds. */
  lemma {:induction false} IntervalIsLast(t: Timer, cs: seq<Command>, i: int)
    requires i == -1 || Decides(cs, i, SetsInterval)
    requires NoneAfter(cs, i, SetsInterval)
    ensures ExecAll(t, cs).intervalUS == if i < 0 then t.intervalUS else (SecondsOf(cs[i]) * 1000000) % U64
  {
    if |cs| > 0 {
      if i == |cs| - 1 {
        SecondsInMicros(SecondsOf(cs[i]));
      } else {
        assert !SetsInterval(cs[|cs| - 1]);
        IntervalIsLast(t, cs[..|cs| - 1], i);
      }
    }
  }

  /** The last accepted start decides the times and the work limit. */
  lemma {:induction false} SettingsAreLast(t: Timer, cs: seq<Command>, i: int)
    requires i == -1 || Decides(cs, i, IsAccepted)
    requires NoneAfter(cs, i, IsAccepted)
    ensures var u := ExecAll(t, cs);
      if i < 0 then u.startTime == t.startTime && u.endTime == t.endTime && u.maxWorkMS == t.maxWorkMS
      else u.startTime == cs[i].startTime && u.endTime == cs[i].endTime && u.maxWorkMS == 1000 * cs[i].maxworksecs
  {
    if |cs| > 0 && i != |cs| - 1 {
      assert !IsAccepted(cs[|cs| - 1]);
      SettingsAreLast(t, cs[..|cs| - 1], i);
    }
  }

  /** A reset stays pending until a pass takes it. */
  lemma {:induction false} ResetIsPending(t: Timer, cs: seq<Command>)
    ensures ExecAll(t, cs).resetInterval <==> t.resetInterval || ResetInterval in cs
  {
    if |cs| > 0 {
      var rest, c := cs[..|cs| - 1], cs[|cs| - 1];
      assert forall d :: d in cs <==> d in rest || d == c;
      ResetIsPending(t, rest);
    }
  }

  // ----- a pause is silence

  /** A pass before whose second read the last pause or accepted start is a pause reports nothing; one
      before which it is not is awake, if the timer is active. */
  lemma PausedPassIsSilent(l: Loop, tick: Tick, maxWork: Word, end: int, i: int)
    requires var cs := tick.beforeActive + tick.beforePause;
      (i == -1 || Decides(cs, i, SetsPause)) && NoneAfter(cs, i, SetsPause)
    ensures var cs := tick.beforeActive + tick.beforePause;
      var paused := if i < 0 then l.t.paused else cs[i].Pause? && cs[i].paused;
      && (paused ==> Step(l, tick, maxWork, end).events == l.events)
      && (!paused && l.running && ExecAll(l.t, tick.beforeActive).active ==> Awake(l, ReadsOf(l.t, tick)))
  {
    var cs := tick.beforeActive + tick.beforePause;
    ExecAppend(l.t, tick.beforeActive, tick.beforePause);
    PauseIsLast(l.t, cs, i);
  }

  /** No command of the list ends a pause. */
  ghost predicate KeepsPause(cs: seq<Command>) {
    forall c :: c in cs ==> c != Pause(false) && !IsAccepted(c)
  }

  lemma {:induction false} PauseStays(t: Timer, cs: seq<Command>)
    requires t.paused && KeepsPause(cs)
    ensures ExecAll(t, cs).paused
  {
    if |cs| > 0 {
      assert forall c :: c in cs[..|cs| - 1] ==> c in cs;
      assert cs[|cs| - 1] in cs;
      PauseStays(t, cs[..|cs| - 1]);
    }
  }

  /** Once paused, a run reports nothing until it is resumed or started anew. */
  lemma {:induction false} PausedRunIsSilent(l: Loop, ticks: seq<Tick>, maxWork: Word, end: int)
    requires l.t.paused
    requires forall i :: 0 <= i < |ticks| ==> KeepsPause(ticks[i].beforeActive) && KeepsPause(ticks[i].beforePause)
    ensures var l' := Steps(l, ticks, maxWork, end); l'.events == l.events && l'.t.paused
  {
    if |ticks| > 0 {
      var rest, tick := ticks[..|ticks| - 1], ticks[|ticks| - 1];
      PausedRunIsSilent(l, rest, maxWork, end);
      var l1 := Steps(l, rest, maxWork, end);
      PauseStays(l1.t, tick.beforeActive);
      PauseStays(ExecAll(l1.t, tick.beforeActive), tick.beforePause);
    }
  }

  // ----- a reset is taken once

  /** A pass takes a reset exactly when it is awake before the end time and one is pending by its third
      read; then the reset is the first thing it reports, the interval starts at its reading, and a
      positive interval is not over in it. */
  lemma ResetIsTaken(l: Loop, tick: Tick, maxWork: Word, end: int)
    requires Awake(l, ReadsOf(l.t, tick)) && tick.now < end
    ensures var l', n := Step(l, tick, maxWork, end), |l.events|;
      var pending := l.t.resetInterval || ResetInterval in tick.beforeActive || ResetInterval in tick.beforePause
                     || ResetInterval in tick.beforeReset;
      && (pending <==> exists e :: e in l'.events[n..] && e.Reset?)
      && (pending ==> |l'.events| > n && l'.events[n] == Event.Reset(tick.now) && l'.last == tick.now)
      && (pending && ReadsOf(l.t, tick).interval.intervalUS > 0 ==> Interval(TRIGGERED, tick.now) !in l'.events[n..])
      && (l'.t.resetInterval <==> ResetInterval in tick.beforeInterval)
  {
    var r := ReadsOf(l.t, tick);
    ResetIsPending(l.t, tick.beforeActive);
    ResetIsPending(r.active, tick.beforePause);
    ResetIsPending(r.paused, tick.beforeReset);
    ResetIsPending(r.reset.(resetInterval := false), tick.beforeInterval);
    TockTakesReset(l, r.reset, r.interval, tick.now, maxWork);
  }

  lemma FireAdds(l: Loop, t: Timer, now: Word)
    ensures var l' := Fire(l, t, now);
      && l'.t == t && (l'.events == l.events || l'.events == l.events + [Interval(TRIGGERED, now)])
      && (l.last == now && t.intervalUS > 0 ==> l'.events == l.events)
      && (l'.last == l.last || l'.last == now)
  {
  }

  lemma WorkAdds(l: Loop, now: Word, maxWork: Word)
    ensures var l' := Work(l, now, maxWork);
      && l'.t == l.t && l'.last == l.last
      && (l'.events == l.events || l'.events == l.events + [Interval(MAXSECS, now)])
  {
  }

  lemma TockTakesReset(l: Loop, t1: Timer, t2: Timer, now: Word, maxWork: Word)
    ensures var l', n := Tock(l, t1, t2, now, maxWork), |l.events|;
      && |l'.events| >= n && l'.t == t2
      && (t1.resetInterval <==> exists e :: e in l'.events[n..] && e.Reset?)
      && (t1.resetInterval ==> |l'.events| > n && l'.events[n] == Event.Reset(now) && l'.last == now)
      && (t1.resetInterval && t2.intervalUS > 0 ==> Interval(TRIGGERED, now) !in l'.events[n..])
  {
    var l', n := Tock(l, t1, t2, now, maxWork), |l.events|;
    var l1 := TakeReset(l, t1, now);
    var l2 := Fire(l1, t2, now);
    FireAdds(l1, t2, now);
    WorkAdds(l2, now, maxWork);
    if t1.resetInterval {
      assert l1.events[n..] == [Event.Reset(now)];
      assert l'.events[n..][0] == Event.Reset(now);
    } else {
      assert l1.events == l.events;
      assert forall e :: e in l'.events[n..] ==> e.Interval?;
    }
  }

  // ----- entries and late starts

  /** An entry of a second thread between the wait and the check of the triggered flag refuses the run;
      a start that lands after the work limit is read changes the end time only. */
  lemma LaunchReadsInOrder(t: Timer, g: Gaps, waits: seq<WaitTick>, late: seq<Command>)
    ensures var r, r' := Launched(t, g, waits), Launched(t, g.(beforeEndAgain := late), waits);
      r'.outcome == r.outcome && r'.maxWork == r.maxWork
    ensures Waited(t, g, waits).1 == Go && Enter in g.beforeCheck ==> Launched(t, g, waits).outcome == GiveUp
  {
    if Enter in g.beforeCheck {
      EntryUntriggers(Waited(t, g, waits).0, g.beforeCheck);
    }
  }

  lemma {:induction false} EntryUntriggers(t: Timer, cs: seq<Command>)
    ensures ExecAll(t, cs).triggered <==> t.triggered && Enter !in cs
  {
    if |cs| > 0 {
      var rest, c := cs[..|cs| - 1], cs[|cs| - 1];
      assert forall d :: d in cs <==> d in rest || d == c;
      EntryUntriggers(t, rest);
    }
  }
}
