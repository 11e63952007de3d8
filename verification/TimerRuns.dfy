/** State callbacks: properties of every run of the interval timer. */
module TimerRuns {
  import opened Machine
  import opened TimerModel
  import TimerCommands

  // ----- shapes of traces

  /** WAIT, START, then only interval events. */
  ghost predicate Going(ev: seq<Event>) {
    |ev| >= 2 && ev[0] == State(WAIT) && ev[1] == State(START) && forall i :: 2 <= i < |ev| ==> !ev[i].State?
  }

  /** ... and nothing after END. */
  ghost predicate Over(ev: seq<Event>) {
    |ev| >= 3 && Going(ev[..|ev| - 1]) && ev[|ev| - 1] == State(END)
  }

  /** The three kinds of trace: still waiting, refused, or started and perhaps ended. */
  ghost predicate Legal(ev: seq<Event>) {
    ev == [State(WAIT)] || ev == [State(WAIT), State(ERROR)] || Going(ev) || Over(ev)
  }

  // ----- what other threads may do

  /** Stopping and entering are the commands that matter to the active flag: the last one wins. */
  lemma {:induction false} ActiveAfter(t: Timer, cs: seq<Command>)
    requires !t.active
    ensures ExecAll(t, cs).active <==> exists i :: 0 <= i < |cs| && EntersLast(cs, i)
  {
    if |cs| > 0 {
      var rest, k := cs[..|cs| - 1], |cs| - 1;
      ActiveAfter(t, rest);
      forall i | 0 <= i < k
        ensures EntersLast(cs, i) <==> EntersLast(rest, i) && cs[k] != Stop
      {
        assert cs[i + 1..] == rest[i + 1..] + [cs[k]];
      }
      assert cs[k + 1..] == [];
      assert EntersLast(cs, k) <==> cs[k] == Enter;
      assert ExecAll(t, cs) == Exec(ExecAll(t, rest), cs[k]);
    }
  }

  ghost predicate EntersLast(cs: seq<Command>, i: nat)
    requires i < |cs|
  {
    cs[i] == Enter && Stop !in cs[i + 1..]
  }

  /** Without entries a stop is final. */
  lemma {:induction false} ActiveUnlessStopped(t: Timer, cs: seq<Command>)
    requires Enter !in cs
    ensures ExecAll(t, cs).active <==> t.active && Stop !in cs
  {
    if |cs| > 0 {
      var rest, c := cs[..|cs| - 1], cs[|cs| - 1];
      assert forall d :: d in cs <==> d in rest || d == c;
      ActiveUnlessStopped(t, rest);
    }
  }

  // ----- state callbacks

  ghost predicate Shaped(ev: seq<Event>) {
    Going(ev) || Over(ev)
  }

  lemma GoingIsNotOver(ev: seq<Event>)
    requires Going(ev)
    ensures !Over(ev)
  {
    assert |ev| >= 3 ==> !ev[|ev| - 1].State?;
  }

  /** After END the loop's next look finds the timer active again: a second thread has entered. */
  ghost predicate Revived(l: Loop, seen: Timer) {
    Over(l.events) && l.running && seen.active
  }

  ghost predicate NeverRevived(l: Loop, ticks: seq<Tick>, maxWork: Word, end: int) {
    |ticks| > 0 ==>
      var rest, tick := ticks[..|ticks| - 1], ticks[|ticks| - 1];
      var l1 := Steps(l, rest, maxWork, end);
      NeverRevived(l, rest, maxWork, end) && !Revived(l1, ReadsOf(l1.t, tick).active)
  }

  lemma TockGoes(l: Loop, t1: Timer, t2: Timer, now: Word, maxWork: Word)
    requires Going(l.events)
    ensures Going(Tock(l, t1, t2, now, maxWork).events)
  {
    var l1 := TakeReset(l, t1, now);
    assert Going(l1.events);
    var l2 := Fire(l1, t2, now);
    assert Going(l2.events);
  }

  /** A pass keeps the trace's shape unless it is awake after END; one that is stopped or paused
      reports nothing. */
  lemma PassShaped(l: Loop, r: Reads, now: Word, maxWork: Word, end: int)
    requires Shaped(l.events) && !(Over(l.events) && Awake(l, r))
    ensures var ev := Pass(l, r, now, maxWork, end).events;
      && Shaped(ev)
      && (!Awake(l, r) ==> ev == l.events)
      && (Over(ev) <==> Over(l.events) || (Awake(l, r) && now >= end))
  {
    if Awake(l, r) {
      GoingIsNotOver(l.events);
      if now >= end {
        assert (l.events + [State(END)])[..|l.events|] == l.events;
      } else {
        TockGoes(l, r.reset, r.interval, now, maxWork);
        GoingIsNotOver(Tock(l, r.reset, r.interval, now, maxWork).events);
      }
    }
  }

  // ----- interval callbacks come before the end time

  ghost predicate Before(ev: seq<Event>, end: int) {
    forall i :: 0 <= i < |ev| && ev[i].Interval? ==> ev[i].at < end
  }

  lemma PassBefore(l: Loop, r: Reads, now: Word, maxWork: Word, end: int)
    requires Before(l.events, end)
    ensures Before(Pass(l, r, now, maxWork, end).events, end)
  {
    if Awake(l, r) && now < end {
      var l1 := TakeReset(l, r.reset, now);
      assert Before(l1.events, end);
      var l2 := Fire(l1, r.interval, now);
      assert Before(l2.events, end);
    }
  }

  lemma {:induction false} StepsBefore(l: Loop, ticks: seq<Tick>, maxWork: Word, end: int)
    requires Before(l.events, end)
    ensures Before(Steps(l, ticks, maxWork, end).events, end)
  {
    if |ticks| > 0 {
      var rest, tick := ticks[..|ticks| - 1], ticks[|ticks| - 1];
      StepsBefore(l, rest, maxWork, end);
      var l1 := Steps(l, rest, maxWork, end);
      PassBefore(l1, ReadsOf(l1.t, tick), tick.now, maxWork, end);
    }
  }

  // ----- which traces are legal

  /** No pass after END finds the timer awake. */
  ghost predicate AsleepAfterEnd(l: Loop, ticks: seq<Tick>, maxWork: Word, end: int) {
    |ticks| > 0 ==>
      var rest, tick := ticks[..|ticks| - 1], ticks[|ticks| - 1];
      var l1 := Steps(l, rest, maxWork, end);
      AsleepAfterEnd(l, rest, maxWork, end) && !(Over(l1.events) && Awake(l1, ReadsOf(l1.t, tick)))
  }

  /** Something is reported after an END. */
  ghost predicate EndsEarly(ev: seq<Event>) {
    exists i :: 0 <= i < |ev| - 1 && ev[i] == State(END)
  }

  lemma EndsEarlyIsNotLegal(ev: seq<Event>)
    requires EndsEarly(ev)
    ensures !Legal(ev)
  {
    var i :| 0 <= i < |ev| - 1 && ev[i] == State(END);
    if |ev| > 0 {
      assert ev[..|ev| - 1][i] == ev[i];
    }
  }

  /** Once the loop has ended, some reading was at or past the end time. */
  lemma {:induction false} AsleepIsShaped(l: Loop, ticks: seq<Tick>, maxWork: Word, end: int)
    requires Going(l.events) && AsleepAfterEnd(l, ticks, maxWork, end)
    ensures var ev := Steps(l, ticks, maxWork, end).events;
      Shaped(ev) && (Over(ev) ==> exists i :: 0 <= i < |ticks| && ticks[i].now >= end)
  {
    if |ticks| > 0 {
      var rest, k := ticks[..|ticks| - 1], |ticks| - 1;
      AsleepIsShaped(l, rest, maxWork, end);
      var l1 := Steps(l, rest, maxWork, end);
      PassShaped(l1, ReadsOf(l1.t, ticks[k]), ticks[k].now, maxWork, end);
      if Over(l1.events) {
        var i :| 0 <= i < |rest| && rest[i].now >= end;
        assert ticks[i] == rest[i];
      }
    } else {
      GoingIsNotOver(l.events);
    }
  }

  lemma PassAppends(l: Loop, r: Reads, now: Word, maxWork: Word, end: int)
    ensures var ev := Pass(l, r, now, maxWork, end).events; |l.events| <= |ev| && ev[..|l.events|] == l.events
  {
    if Awake(l, r) && now < end {
      var l1 := TakeReset(l, r.reset, now);
      assert l1.events[..|l.events|] == l.events;
      var l2 := Fire(l1, r.interval, now);
      assert l2.events[..|l.events|] == l.events;
    }
  }

  /** A pass that is awake after END and at or past the end time reports END again. */
  lemma AwakePassEndsEarly(l: Loop, r: Reads, now: Word, maxWork: Word, end: int)
    requires Over(l.events) && Awake(l, r) && now >= end
    ensures EndsEarly(Pass(l, r, now, maxWork, end).events)
  {
    var ev := Pass(l, r, now, maxWork, end).events;
    assert ev == l.events + [State(END)];
    assert ev[|l.events| - 1] == State(END);
  }

  lemma EarlyStaysEarly(l: Loop, r: Reads, now: Word, maxWork: Word, end: int)
    requires EndsEarly(l.events)
    ensures EndsEarly(Pass(l, r, now, maxWork, end).events)
  {
    PassAppends(l, r, now, maxWork, end);
    var ev := Pass(l, r, now, maxWork, end).events;
    var i :| 0 <= i < |l.events| - 1 && l.events[i] == State(END);
    assert ev[i] == ev[..|l.events|][i];
  }

  lemma {:induction false} AwakeEndsEarly(l: Loop, ticks: seq<Tick>, maxWork: Word, end: int)
    requires Going(l.events) && Monotone(ticks) && !AsleepAfterEnd(l, ticks, maxWork, end)
    ensures EndsEarly(Steps(l, ticks, maxWork, end).events)
  {
    var rest, k := ticks[..|ticks| - 1], |ticks| - 1;
    var l1 := Steps(l, rest, maxWork, end);
    var r := ReadsOf(l1.t, ticks[k]);
    if AsleepAfterEnd(l, rest, maxWork, end) {
      AsleepIsShaped(l, rest, maxWork, end);
      var i :| 0 <= i < |rest| && rest[i].now >= end;
      assert ticks[i].now <= ticks[k].now;
      AwakePassEndsEarly(l1, r, ticks[k].now, maxWork, end);
    } else {
      AwakeEndsEarly(l, rest, maxWork, end);
      EarlyStaysEarly(l1, r, ticks[k].now, maxWork, end);
    }
  }

  /** Unless the clock goes back, a trace is legal if and only if no pass after END is awake. */
  lemma LegalIffAsleep(l: Loop, ticks: seq<Tick>, maxWork: Word, end: int)
    requires Going(l.events) && Monotone(ticks)
    ensures Legal(Steps(l, ticks, maxWork, end).events) <==> AsleepAfterEnd(l, ticks, maxWork, end)
  {
    if AsleepAfterEnd(l, ticks, maxWork, end) {
      AsleepIsShaped(l, ticks, maxWork, end);
    } else {
      AwakeEndsEarly(l, ticks, maxWork, end);
      EndsEarlyIsNotLegal(Steps(l, ticks, maxWork, end).events);
    }
  }

  /** The same for whole runs: the trace is a prefix of WAIT, ERROR or of WAIT, START, END, if and
      only if no pass after END is awake; and interval events come before the end time, always. */
  lemma RunIsLegalIffAsleep(t: Timer, g: Gaps, waits: seq<WaitTick>, ticks: seq<Tick>)
    requires Monotone(ticks)
    ensures var r := Launched(t, g, waits);
      && (Legal(Run(t, g, waits, ticks).1) <==> r.outcome == Go ==> AsleepAfterEnd(Begin(r.t), ticks, r.maxWork, r.end))
      && Before(Run(t, g, waits, ticks).1, r.end)
  {
    var r := Launched(t, g, waits);
    if r.outcome == Go {
      LegalIffAsleep(Begin(r.t), ticks, r.maxWork, r.end);
      StepsBefore(Begin(r.t), ticks, r.maxWork, r.end);
    }
  }

  // ----- what a caller can see to

  /** Of the commands that land between END and the loop's next look, no entry of a second thread
      is left without a stop after it. */
  ghost predicate NoEntryAfterEnd(l: Loop, ticks: seq<Tick>, maxWork: Word, end: int) {
    |ticks| > 0 ==>
      var rest, tick := ticks[..|ticks| - 1], ticks[|ticks| - 1];
      var l1 := Steps(l, rest, maxWork, end);
      && NoEntryAfterEnd(l, rest, maxWork, end)
      && (Over(l1.events) && l1.running ==>
            forall i :: 0 <= i < |tick.beforeActive| ==> !EntersLast(tick.beforeActive, i))
  }

  /** After END, and until it is revived, the timer is not active. */
  lemma {:induction false} NeverRevivedIsInactive(l: Loop, ticks: seq<Tick>, maxWork: Word, end: int)
    requires Going(l.events) && NeverRevived(l, ticks, maxWork, end)
    ensures AsleepAfterEnd(l, ticks, maxWork, end)
    ensures var l' := Steps(l, ticks, maxWork, end); Shaped(l'.events) && (Over(l'.events) ==> !l'.t.active)
  {
    if |ticks| > 0 {
      var rest, tick := ticks[..|ticks| - 1], ticks[|ticks| - 1];
      NeverRevivedIsInactive(l, rest, maxWork, end);
      var l1 := Steps(l, rest, maxWork, end);
      PassShaped(l1, ReadsOf(l1.t, tick), tick.now, maxWork, end);
    } else {
      GoingIsNotOver(l.events);
    }
  }

  /** The loop is never revived if and only if the commands after END leave no entry standing. */
  lemma {:induction false} NeverRevivedIffNoEntry(l: Loop, ticks: seq<Tick>, maxWork: Word, end: int)
    requires Going(l.events)
    ensures NeverRevived(l, ticks, maxWork, end) <==> NoEntryAfterEnd(l, ticks, maxWork, end)
  {
    if |ticks| > 0 {
      var rest, tick := ticks[..|ticks| - 1], ticks[|ticks| - 1];
      NeverRevivedIffNoEntry(l, rest, maxWork, end);
      if NeverRevived(l, rest, maxWork, end) {
        NeverRevivedIsInactive(l, rest, maxWork, end);
        var l1 := Steps(l, rest, maxWork, end);
        if Over(l1.events) {
          ActiveAfter(l1.t, tick.beforeActive);
        }
      }
    }
  }

  /** Unless an entry of a second thread stands between END and the loop's next look, the trace is
      legal, whatever the clock. */
  lemma RunIsLegal(t: Timer, g: Gaps, waits: seq<WaitTick>, ticks: seq<Tick>)
    requires var r := Launched(t, g, waits); NoEntryAfterEnd(Begin(r.t), ticks, r.maxWork, r.end)
    ensures Legal(Run(t, g, waits, ticks).1)
  {
    var r := Launched(t, g, waits);
    if r.outcome == Go {
      NeverRevivedIffNoEntry(Begin(r.t), ticks, r.maxWork, r.end);
      NeverRevivedIsInactive(Begin(r.t), ticks, r.maxWork, r.end);
    }
  }

  /** Where no second thread enters before a look, none stands after END. */
  lemma {:induction false} AloneHasNoEntry(l: Loop, ticks: seq<Tick>, maxWork: Word, end: int)
    requires forall i :: 0 <= i < |ticks| ==> Enter !in ticks[i].beforeActive
    ensures NoEntryAfterEnd(l, ticks, maxWork, end)
  {
    if |ticks| > 0 {
      AloneHasNoEntry(l, ticks[..|ticks| - 1], maxWork, end);
      assert Enter !in ticks[|ticks| - 1].beforeActive;
    }
  }

  /** For one look: the commands `cs` after END let some pass report once more if and only if an entry
      stands.  Otherwise that look ends the loop. */
  lemma EndsAgainIffRevived(l: Loop, cs: seq<Command>, maxWork: Word, end: Word)
    requires Over(l.events) && l.running && !l.t.active
    ensures var seen := ExecAll(l.t, cs);
      && (Revived(l, seen) <==> exists i :: 0 <= i < |cs| && EntersLast(cs, i))
      && (Revived(l, seen)
          <==> exists r: Reads, now: Word :: r.active == seen && !Legal(Pass(l, r, now, maxWork, end).events))
      && (!Revived(l, seen) ==> forall r: Reads, now: Word :: r.active == seen ==>
            Pass(l, r, now, maxWork, end) == l.(t := seen, running := false))
  {
    ActiveAfter(l.t, cs);
    var seen := ExecAll(l.t, cs);
    if Revived(l, seen) {
      var r := Reads(seen, seen.(paused := false), seen, seen);
      AwakePassEndsEarly(l, r, end, maxWork, end);
      EndsEarlyIsNotLegal(Pass(l, r, end, maxWork, end).events);
      assert r.active == seen;
    } else {
      forall r: Reads, now: Word | r.active == seen
        ensures Legal(Pass(l, r, now, maxWork, end).events)
      {
        PassShaped(l, r, now, maxWork, end);
      }
    }
  }

  /** It does go wrong: a start accepted after END spawns a thread that enters before the look,
      and END is reported again. */
  lemma EndsTwiceExists(t: Timer, start: Command, maxWork: Word, end: Word)
    requires t.active && !t.paused && start.Start?
    ensures var ticks := [Quiet(end), Tick(end, [start, Enter], [], [], [])];
      Steps(Begin(t), ticks, maxWork, end).events == [State(WAIT), State(START), State(END), State(END)]
  {
    var l0, cs := Begin(t), [start, Enter];
    var first, second := Quiet(end), Tick(end, cs, [], [], []);
    var l1 := l0.(t := t.(active := false), events := l0.events + [State(END)]);
    assert Steps(l0, [first], maxWork, end) == l1 by {
      assert [first][..0] == [];
      assert ReadsOf(t, first).active == t && ReadsOf(t, first).paused == t;
    }
    assert cs[..1] == [start] && [start][..0] == [];
    var seen := Exec(Exec(l1.t, start), Enter);
    assert ExecAll(l1.t, [start]) == Exec(l1.t, start);
    assert ReadsOf(l1.t, second).active == seen && ReadsOf(l1.t, second).paused == seen;
    assert [first, second][..1] == [first];
  }

  /** Some tick of the run finds the loop awake at or past the end time. */
  ghost predicate SomeExpires(l: Loop, ticks: seq<Tick>, maxWork: Word, end: int) {
    && |ticks| > 0
    && var rest, tick := ticks[..|ticks| - 1], ticks[|ticks| - 1];
       var l1 := Steps(l, rest, maxWork, end);
       SomeExpires(l, rest, maxWork, end) || (Awake(l1, ReadsOf(l1.t, tick)) && tick.now >= end)
  }

  /** The run has ended exactly when some tick found the loop awake at or past the end time,
      and the first such tick ended it. */
  lemma {:induction false} EndsAtFirstExpiry(l: Loop, ticks: seq<Tick>, maxWork: Word, end: int)
    requires Going(l.events) && AsleepAfterEnd(l, ticks, maxWork, end)
    ensures Over(Steps(l, ticks, maxWork, end).events) <==> SomeExpires(l, ticks, maxWork, end)
  {
    if |ticks| > 0 {
      var rest, tick := ticks[..|ticks| - 1], ticks[|ticks| - 1];
      EndsAtFirstExpiry(l, rest, maxWork, end);
      AsleepIsShaped(l, rest, maxWork, end);
      var l1 := Steps(l, rest, maxWork, end);
      PassShaped(l1, ReadsOf(l1.t, tick), tick.now, maxWork, end);
    } else {
      GoingIsNotOver(l.events);
    }
  }

  // ----- a refused run

  /** The end time never lies before the start time: every accepted start brings both. */
  ghost predicate InOrder(t: Timer) {
    t.startTime <= t.endTime
  }

  lemma {:induction false} ExecInOrder(t: Timer, cs: seq<Command>)
    requires InOrder(t)
    ensures InOrder(ExecAll(t, cs))
    ensures (forall c :: c in cs ==> !c.Start?) ==>
      ExecAll(t, cs).startTime == t.startTime && ExecAll(t, cs).endTime == t.endTime
  {
    if |cs| > 0 {
      var rest := cs[..|cs| - 1];
      assert forall c :: c in cs <==> c in rest || c == cs[|cs| - 1];
      ExecInOrder(t, rest);
    }
  }

  ghost predicate NoEntries(waits: seq<WaitTick>) {
    forall i :: 0 <= i < |waits| ==> Enter !in waits[i].before
  }

  /** No look before the `i`-th decides the wait. */
  ghost predicate Undecided(waits: seq<WaitTick>, i: nat, start: int, end: int)
    requires i <= |waits|
  {
    forall j :: 0 <= j < i ==> waits[j].now < start && waits[j].now <= end
  }

  ghost predicate StoppedBy(waits: seq<WaitTick>, i: nat)
    requires i < |waits|
  {
    exists j :: 0 <= j <= i && Stop in waits[j].before
  }

  /** The `i`-th look gives up: a stop has landed, or the end has passed before the start. */
  ghost predicate GivesUpAt(active: bool, waits: seq<WaitTick>, i: nat, start: int, end: int)
    requires i < |waits|
  {
    Undecided(waits, i, start, end) && (!active || StoppedBy(waits, i) || end < waits[i].now < start)
  }

  lemma {:induction false} WaitGivesUp(t: Timer, start: int, end: int, waits: seq<WaitTick>)
    requires NoEntries(waits)
    ensures WaitFor(t, start, end, waits).1 == GiveUp
       <==> exists i :: 0 <= i < |waits| && GivesUpAt(t.active, waits, i, start, end)
    ensures WaitFor(t, start, end, waits).0.triggered <==> t.triggered || WaitFor(t, start, end, waits).1 == Go
    decreases |waits|
  {
    if |waits| > 0 {
      var t1, rest := ExecAll(t, waits[0].before), waits[1..];
      ActiveUnlessStopped(t, waits[0].before);
      TimerCommands.EntryUntriggers(t, waits[0].before);
      if t1.active && waits[0].now < start && waits[0].now <= end {
        WaitGivesUp(t1, start, end, rest);
        LaterLooks(t, waits, start, end);
      } else if t1.active && waits[0].now >= start {
        assert forall i :: 0 < i < |waits| ==> !Undecided(waits, i, start, end);
        assert !GivesUpAt(t.active, waits, 0, start, end);
      } else {
        assert GivesUpAt(t.active, waits, 0, start, end);
      }
    }
  }

  lemma LaterLooks(t: Timer, waits: seq<WaitTick>, start: int, end: int)
    requires |waits| > 0 && t.active && Stop !in waits[0].before
    requires waits[0].now < start && waits[0].now <= end
    ensures (exists i :: 0 <= i < |waits| && GivesUpAt(true, waits, i, start, end))
       <==> exists i :: 0 <= i < |waits[1..]| && GivesUpAt(true, waits[1..], i, start, end)
  {
    var rest := waits[1..];
    assert !GivesUpAt(true, waits, 0, start, end);
    forall i | 0 <= i < |rest|
      ensures GivesUpAt(true, rest, i, start, end) <==> GivesUpAt(true, waits, i + 1, start, end)
    {
      assert forall j :: 0 <= j < i ==> rest[j] == waits[j + 1];
      assert Undecided(rest, i, start, end) <==> Undecided(waits, i + 1, start, end);
      if StoppedBy(waits, i + 1) {
        var j :| 0 <= j <= i + 1 && Stop in waits[j].before;
        assert rest[j - 1] == waits[j];
      }
      if StoppedBy(rest, i) {
        var j :| 0 <= j <= i && Stop in rest[j].before;
        assert waits[j + 1] == rest[j];
      }
    }
    if i :| 0 <= i < |waits| && GivesUpAt(true, waits, i, start, end) {
      assert GivesUpAt(true, rest, i - 1, start, end);
    }
    if i :| 0 <= i < |rest| && GivesUpAt(true, rest, i, start, end) {
      assert GivesUpAt(true, waits, i + 1, start, end);
    }
  }

  /** A stop has landed by the `i`-th look, and no earlier reading has reached the start time. */
  ghost predicate StoppedInTime(g: Gaps, waits: seq<WaitTick>, i: nat, start: int)
    requires i < |waits|
  {
    && (forall j :: 0 <= j < i ==> waits[j].now < start)
    && (Stop in g.beforeStart || Stop in g.beforeEnd || StoppedBy(waits, i))
  }

  /** An accepted run is refused if and only if it is stopped before some look, no earlier reading
      having reached the start time.  (Provided no second thread enters, and no start lands
      between the reads of the two times, which could mix old and new ones.) */
  lemma RefusedIffStopped(t: Timer, g: Gaps, waits: seq<WaitTick>)
    requires InOrder(t) && NoEntries(waits) && forall c :: c in g.beforeEnd ==> !c.Start?
    requires Enter !in g.beforeStart && Enter !in g.beforeEnd && Enter !in g.beforeCheck
    ensures var start := ExecAll(Entered(t), g.beforeStart).startTime;
      Launched(t, g, waits).outcome == GiveUp
      <==> exists i :: 0 <= i < |waits| && StoppedInTime(g, waits, i, start)
  {
    var t1 := ExecAll(Entered(t), g.beforeStart);
    var t2 := ExecAll(t1, g.beforeEnd);
    var start, end := t1.startTime, t2.endTime;
    ExecInOrder(Entered(t), g.beforeStart);
    ExecInOrder(t1, g.beforeEnd);
    ActiveUnlessStopped(Entered(t), g.beforeStart);
    ActiveUnlessStopped(t1, g.beforeEnd);
    WaitGivesUp(t2.(triggered := false), start, end, waits);
    TimerCommands.EntryUntriggers(Waited(t, g, waits).0, g.beforeCheck);
    assert start <= end;
    assert t2.active <==> !(Stop in g.beforeStart || Stop in g.beforeEnd);
    assert Launched(t, g, waits).outcome == GiveUp <==> Waited(t, g, waits).1 == GiveUp;
    forall i | 0 <= i < |waits|
      ensures GivesUpAt(t2.active, waits, i, start, end) <==> StoppedInTime(g, waits, i, start)
    {
    }
  }
}
