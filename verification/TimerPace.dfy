/** Interval callbacks: their order, their spacing and their rate in every run, and what a clock
    that goes back does to them. */
module TimerPace {
  import opened Machine
  import opened TimerModel

  // ----- marks in traces

  ghost predicate IsTrigger(e: Event) {
    e.Interval? && e.interval == TRIGGERED
  }

  /** Events that restart the interval. */
  ghost predicate IsMark(e: Event) {
    IsTrigger(e) || e.Reset?
  }

  /** Reading only the interval callbacks: TRIGGERED and MAXSECS in turn, TRIGGERED first;
      `working` tells whether the last one was TRIGGERED. */
  ghost predicate Alternates(ev: seq<Event>, working: bool) {
    if |ev| == 0 then !working
    else
      var rest := ev[..|ev| - 1];
      match ev[|ev| - 1]
      case Interval(TRIGGERED, _) => working && Alternates(rest, false)
      case Interval(MAXSECS, _) => !working && Alternates(rest, true)
      case _ => Alternates(rest, working)
  }

  /** From any TRIGGERED or consumed reset to any later TRIGGERED at least `gap` passes. */
  ghost predicate Spaced(ev: seq<Event>, gap: nat) {
    forall a, b :: 0 <= a < b < |ev| && IsMark(ev[a]) && IsTrigger(ev[b]) ==> ev[b].at - ev[a].at >= gap
  }

  ghost predicate MarksBy(ev: seq<Event>, last: nat) {
    forall a :: 0 <= a < |ev| && IsMark(ev[a]) ==> ev[a].at <= last
  }

  // ----- what the environment may do

  ghost predicate CommandKeeps(c: Command, gap: nat) {
    match c
    case Start(s, e, i, w, parsed) => Accepts(i * 1000, w * 1000, s, e, parsed) ==> Micros(i * 1000) >= gap
    case UpdateInterval(i) => Micros(i * 1000) >= gap
    case _ => true
  }

  ghost predicate CommandsKeep(cs: seq<Command>, gap: nat) {
    forall c :: c in cs ==> CommandKeeps(c, gap)
  }

  /** No command of the run sets an interval below `gap`. */
  ghost predicate TickKeeps(tick: Tick, gap: nat) {
    && CommandsKeep(tick.beforeActive, gap) && CommandsKeep(tick.beforePause, gap)
    && CommandsKeep(tick.beforeReset, gap) && CommandsKeep(tick.beforeInterval, gap)
  }

  ghost predicate TicksKeep(ticks: seq<Tick>, gap: nat) {
    forall i :: 0 <= i < |ticks| ==> TickKeeps(ticks[i], gap)
  }

  // ----- marks and the clock

  /** `last` is the time of the last mark, and no mark is later. */
  ghost predicate Anchored(l: Loop) {
    && MarksBy(l.events, l.last)
    && (l.last == 0 || exists a :: 0 <= a < |l.events| && IsMark(l.events[a]) && l.events[a].at == l.last)
  }

  /** A trace's marks from index `n` on never lie before an earlier mark, and TRIGGERED comes at
      least `interval` after every earlier mark. */
  ghost predicate InPace(ev: seq<Event>, n: nat, interval: nat) {
    forall a, b :: 0 <= a < b < |ev| && n <= b && IsMark(ev[a]) && IsMark(ev[b]) ==>
      ev[b].at - ev[a].at >= if IsTrigger(ev[b]) then interval else 0
  }

  /** What a pass owes, by the interval it reads itself. */
  ghost predicate Punctual(l: Loop, r: Reads, now: Word, maxWork: Word, end: int) {
    InPace(Pass(l, r, now, maxWork, end).events, |l.events|, r.interval.intervalUS)
  }

  /** The clock reads below the last mark, and the pass acts on it: it takes a reset, or it
      calculates and the wrapped difference reaches the interval. */
  ghost predicate Setback(l: Loop, r: Reads, now: Word, end: int) {
    && Awake(l, r) && now < end && now < l.last
    && (r.reset.resetInterval || (l.flag == Calculating && r.interval.intervalUS <= U64 - (l.last - now)))
  }

  ghost predicate Fires(l: Loop, r: Reads, now: Word) {
    l.flag == Calculating && r.interval.intervalUS <= if r.reset.resetInterval then 0 else Sub(now, l.last)
  }

  /** `ev` adds the mark of a taken reset, then that of a trigger, then no further mark. */
  ghost predicate Adds(before: seq<Event>, ev: seq<Event>, reset: bool, fires: bool, now: Word) {
    var n := |before|;
    var f := if reset then n + 1 else n;
    && n <= |ev| && ev[..n] == before
    && (reset ==> n < |ev| && ev[n] == Event.Reset(now))
    && (fires ==> f < |ev| && ev[f] == Interval(TRIGGERED, now))
    && (forall b :: n <= b < |ev| && IsMark(ev[b]) ==> (reset && b == n) || (fires && b == f))
  }

  lemma TockAdds(l: Loop, r: Reads, now: Word, maxWork: Word)
    ensures var l' := Tock(l, r.reset, r.interval, now, maxWork);
      && Adds(l.events, l'.events, r.reset.resetInterval, Fires(l, r, now), now)
      && l'.last == if r.reset.resetInterval || Fires(l, r, now) then now else l.last
  {
    var l1 := TakeReset(l, r.reset, now);
    assert Sub(now, now) == 0;
    assert Adds(l.events, l1.events, r.reset.resetInterval, false, now);
    var l2 := Fire(l1, r.interval, now);
    assert Adds(l.events, l2.events, r.reset.resetInterval, Fires(l, r, now), now);
  }

  lemma MarksInPace(l: Loop, l': Loop, reset: bool, fires: bool, now: Word, interval: nat)
    requires Anchored(l)
    requires Adds(l.events, l'.events, reset, fires, now) && l'.last == if reset || fires then now else l.last
    requires fires ==> interval <= if reset then 0 else Sub(now, l.last)
    ensures InPace(l'.events, |l.events|, interval) <==> !(now < l.last && (reset || fires))
    ensures !(now < l.last && (reset || fires)) ==> Anchored(l')
  {
    var ev, n := l'.events, |l.events|;
    assert forall a :: 0 <= a < n ==> ev[a] == l.events[a];
    if l.last > 0 {
      var a :| 0 <= a < n && IsMark(l.events[a]) && l.events[a].at == l.last;
      assert IsMark(ev[a]) && ev[a].at == l.last;
    }
    if reset || fires {
      assert IsMark(ev[n]) && ev[n].at == now;
    }
  }

  /** A pass is punctual if and only if it is no setback, and then `last` stays the last mark. */
  lemma PunctualIffNoSetback(l: Loop, r: Reads, now: Word, maxWork: Word, end: int)
    requires Anchored(l)
    ensures Punctual(l, r, now, maxWork, end) <==> !Setback(l, r, now, end)
    ensures !Setback(l, r, now, end) ==> Anchored(Pass(l, r, now, maxWork, end))
  {
    var l' := Pass(l, r, now, maxWork, end);
    if Awake(l, r) && now < end {
      TockAdds(l, r, now, maxWork);
      MarksInPace(l, l', r.reset.resetInterval, Fires(l, r, now), now, r.interval.intervalUS);
    } else if Awake(l, r) {
      assert Adds(l.events, l'.events, false, false, now);
      MarksInPace(l, l', false, false, now, r.interval.intervalUS);
    } else {
      assert l'.events == l.events && l'.last == l.last;
    }
  }

  lemma {:induction false} ExecKeeps(t: Timer, cs: seq<Command>, gap: nat)
    requires t.intervalUS >= gap && CommandsKeep(cs, gap)
    ensures ExecAll(t, cs).intervalUS >= gap
  {
    if |cs| > 0 {
      ExecKeeps(t, cs[..|cs| - 1], gap);
      assert cs[|cs| - 1] in cs;
    }
  }

  ghost predicate AllPunctual(l: Loop, ticks: seq<Tick>, maxWork: Word, end: int) {
    |ticks| > 0 ==>
      var rest, tick := ticks[..|ticks| - 1], ticks[|ticks| - 1];
      var l1 := Steps(l, rest, maxWork, end);
      AllPunctual(l, rest, maxWork, end) && Punctual(l1, ReadsOf(l1.t, tick), tick.now, maxWork, end)
  }

  ghost predicate NoSetbacks(l: Loop, ticks: seq<Tick>, maxWork: Word, end: int) {
    |ticks| > 0 ==>
      var rest, tick := ticks[..|ticks| - 1], ticks[|ticks| - 1];
      var l1 := Steps(l, rest, maxWork, end);
      NoSetbacks(l, rest, maxWork, end) && !Setback(l1, ReadsOf(l1.t, tick), tick.now, end)
  }

  /** A whole run is punctual if and only if it has no setback, whatever pauses, resets, interval
      changes and clock readings it has. */
  lemma {:induction false} RunPunctualIffNoSetbacks(l: Loop, ticks: seq<Tick>, maxWork: Word, end: int)
    requires Anchored(l)
    ensures AllPunctual(l, ticks, maxWork, end) <==> NoSetbacks(l, ticks, maxWork, end)
    ensures NoSetbacks(l, ticks, maxWork, end) ==> Anchored(Steps(l, ticks, maxWork, end))
  {
    if |ticks| > 0 {
      var rest, tick := ticks[..|ticks| - 1], ticks[|ticks| - 1];
      RunPunctualIffNoSetbacks(l, rest, maxWork, end);
      if NoSetbacks(l, rest, maxWork, end) {
        var l1 := Steps(l, rest, maxWork, end);
        PunctualIffNoSetback(l1, ReadsOf(l1.t, tick), tick.now, maxWork, end);
      }
    }
  }

  /** A pass adds events at the end, and moves `last` to its own reading or not at all. */
  lemma PassMoves(l: Loop, r: Reads, now: Word, maxWork: Word, end: int)
    ensures var l' := Pass(l, r, now, maxWork, end);
      && |l.events| <= |l'.events| && l'.events[..|l.events|] == l.events
      && (l'.last == l.last || l'.last == now)
  {
    TockAdds(l, r, now, maxWork);
  }

  /** A clock that never goes back makes no setbacks. */
  lemma {:induction false} MonotoneHasNoSetbacks(l: Loop, ticks: seq<Tick>, maxWork: Word, end: int)
    requires Monotone(ticks) && (|ticks| > 0 ==> l.last <= ticks[0].now)
    ensures NoSetbacks(l, ticks, maxWork, end)
    ensures |ticks| > 0 ==> Steps(l, ticks, maxWork, end).last <= ticks[|ticks| - 1].now
  {
    if |ticks| > 0 {
      var rest, tick := ticks[..|ticks| - 1], ticks[|ticks| - 1];
      MonotoneHasNoSetbacks(l, rest, maxWork, end);
      assert |rest| > 0 ==> rest[|rest| - 1].now <= tick.now;
      var l1 := Steps(l, rest, maxWork, end);
      PassMoves(l1, ReadsOf(l1.t, tick), tick.now, maxWork, end);
    }
  }

  // ----- interval callbacks

  lemma AlternatesAppend(ev: seq<Event>, e: Event, working: bool)
    requires Alternates(ev, working)
    ensures !e.Interval? ==> Alternates(ev + [e], working)
    ensures e.Interval? && e.interval == TRIGGERED && !working ==> Alternates(ev + [e], true)
    ensures e.Interval? && e.interval == MAXSECS && working ==> Alternates(ev + [e], false)
  {
    assert (ev + [e])[..|ev|] == ev;
  }

  /** The callbacks reported so far alternate, and the flag tells which comes next. */
  ghost predicate InTurn(l: Loop) {
    Alternates(l.events, l.flag == Working)
  }

  lemma ChecksInTurn(l: Loop, t: Timer, now: Word, maxWork: Word)
    requires InTurn(l)
    ensures InTurn(TakeReset(l, t, now)) && InTurn(Fire(l, t, now)) && InTurn(Work(l, now, maxWork))
  {
    AlternatesAppend(l.events, Reset(now), l.flag == Working);
    AlternatesAppend(l.events, Interval(TRIGGERED, now), l.flag == Working);
    AlternatesAppend(l.events, Interval(MAXSECS, now), l.flag == Working);
  }

  lemma TockInTurn(l: Loop, t1: Timer, t2: Timer, now: Word, maxWork: Word)
    requires InTurn(l)
    ensures InTurn(Tock(l, t1, t2, now, maxWork))
  {
    ChecksInTurn(l, t1, now, maxWork);
    ChecksInTurn(TakeReset(l, t1, now), t2, now, maxWork);
    ChecksInTurn(Fire(TakeReset(l, t1, now), t2, now), t2, now, maxWork);
  }

  lemma PassInTurn(l: Loop, r: Reads, now: Word, maxWork: Word, end: int)
    requires InTurn(l)
    ensures InTurn(Pass(l, r, now, maxWork, end))
  {
    if Awake(l, r) {
      if now >= end {
        AlternatesAppend(l.events, State(END), l.flag == Working);
      } else {
        TockInTurn(l, r.reset, r.interval, now, maxWork);
      }
    }
  }

  /** The callbacks alternate whatever the commands, and whatever the clock. */
  lemma {:induction false} StepsAlternate(l: Loop, ticks: seq<Tick>, maxWork: Word, end: int)
    requires InTurn(l)
    ensures InTurn(Steps(l, ticks, maxWork, end))
  {
    if |ticks| > 0 {
      var rest, tick := ticks[..|ticks| - 1], ticks[|ticks| - 1];
      StepsAlternate(l, rest, maxWork, end);
      var l1 := Steps(l, rest, maxWork, end);
      PassInTurn(l1, ReadsOf(l1.t, tick), tick.now, maxWork, end);
    }
  }

  /** What every pass keeps, whatever the commands, provided no interval falls below `gap`. */
  ghost predicate Timely(l: Loop, gap: nat) {
    l.t.intervalUS >= gap && Spaced(l.events, gap) && Anchored(l)
  }

  ghost predicate ReadsKeep(r: Reads, gap: nat) {
    && r.active.intervalUS >= gap && r.paused.intervalUS >= gap
    && r.reset.intervalUS >= gap && r.interval.intervalUS >= gap
  }

  lemma TickReadsKeep(t: Timer, tick: Tick, gap: nat)
    requires t.intervalUS >= gap && TickKeeps(tick, gap)
    ensures ReadsKeep(ReadsOf(t, tick), gap)
  {
    var r := ReadsOf(t, tick);
    ExecKeeps(t, tick.beforeActive, gap);
    ExecKeeps(r.active, tick.beforePause, gap);
    ExecKeeps(r.paused, tick.beforeReset, gap);
    ExecKeeps(r.reset.(resetInterval := false), tick.beforeInterval, gap);
  }

  lemma PassTimely(l: Loop, r: Reads, now: Word, maxWork: Word, end: int, gap: nat)
    requires Timely(l, gap) && ReadsKeep(r, gap) && !Setback(l, r, now, end)
    ensures Timely(Pass(l, r, now, maxWork, end), gap)
  {
    PunctualIffNoSetback(l, r, now, maxWork, end);
    PassMoves(l, r, now, maxWork, end);
    PaceKeepsSpacing(l.events, Pass(l, r, now, maxWork, end).events, r.interval.intervalUS, gap);
  }

  lemma PaceKeepsSpacing(before: seq<Event>, ev: seq<Event>, interval: nat, gap: nat)
    requires |before| <= |ev| && ev[..|before|] == before
    requires Spaced(before, gap) && InPace(ev, |before|, interval) && interval >= gap
    ensures Spaced(ev, gap)
  {
    forall a, b | 0 <= a < b < |ev| && IsMark(ev[a]) && IsTrigger(ev[b])
      ensures ev[b].at - ev[a].at >= gap
    {
      if b < |before| {
        assert ev[a] == before[a] && ev[b] == before[b];
      }
    }
  }

  /** For any run with arbitrary pauses, resets and interval changes, as long as no interval is
      set below `gap` and there is no setback: at least `gap` passes before each TRIGGERED since
      the previous one and since every reset. */
  lemma {:induction false} StepsTimely(l: Loop, ticks: seq<Tick>, maxWork: Word, end: int, gap: nat)
    requires Timely(l, gap) && TicksKeep(ticks, gap) && NoSetbacks(l, ticks, maxWork, end)
    ensures Timely(Steps(l, ticks, maxWork, end), gap)
  {
    if |ticks| > 0 {
      var rest, tick := ticks[..|ticks| - 1], ticks[|ticks| - 1];
      StepsTimely(l, rest, maxWork, end, gap);
      var l1 := Steps(l, rest, maxWork, end);
      TickReadsKeep(l1.t, tick, gap);
      PassTimely(l1, ReadsOf(l1.t, tick), tick.now, maxWork, end, gap);
    }
  }

  ghost function CountIn(ev: seq<Event>, from: nat, to: nat): nat {
    if |ev| == 0 then 0
    else
      var e := ev[|ev| - 1];
      CountIn(ev[..|ev| - 1], from, to) + if IsTrigger(e) && from <= e.at <= to then 1 else 0
  }

  /** `n` callbacks in a window take up at least `n - 1` gaps. */
  lemma {:induction false} CountSpaced(ev: seq<Event>, from: nat, to: nat, gap: nat) returns (last: nat)
    requires Spaced(ev, gap)
    ensures CountIn(ev, from, to) > 0 ==>
      && last < |ev| && IsTrigger(ev[last]) && from <= ev[last].at <= to
      && (CountIn(ev, from, to) - 1) * gap <= ev[last].at - from
  {
    last := 0;
    if |ev| > 0 {
      var rest, e := ev[..|ev| - 1], ev[|ev| - 1];
      var before := CountSpaced(rest, from, to, gap);
      var n := CountIn(rest, from, to);
      if IsTrigger(e) && from <= e.at <= to {
        last := |ev| - 1;
        if n > 0 {
          assert rest[before] == ev[before] && e.at - ev[before].at >= gap;
          assert n * gap == (n - 1) * gap + gap;
        }
      } else {
        last := before;
      }
    }
  }

  /** Any window of length `length` holds at most `1 + length / gap` TRIGGERED callbacks. */
  lemma RateBound(ev: seq<Event>, gap: nat, from: nat, length: nat)
    requires gap > 0 && Spaced(ev, gap)
    ensures CountIn(ev, from, from + length) <= 1 + length / gap
  {
    var last := CountSpaced(ev, from, from + length, gap);
    var n := CountIn(ev, from, from + length);
    if n > 0 {
      DivideBound(n - 1, gap, length);
    }
  }

  lemma DivideBound(k: nat, gap: nat, length: nat)
    requires gap > 0 && k * gap <= length
    ensures k <= length / gap
  {
    var q := length / gap;
    assert length < q * gap + gap;
    if k > q {
      MulMono(q + 1, k, gap);
    }
  }

  lemma MulMono(a: nat, b: nat, c: nat)
    requires a <= b
    ensures a * c <= b * c
  {
  }

  /** A run that has just started meets these conditions. */
  lemma BeginTimely(t: Timer, gap: nat)
    requires t.intervalUS >= gap
    ensures Timely(Begin(t), gap) && Alternates(Begin(t).events, false)
  {
    var ev := [State(WAIT), State(START)];
    assert ev[..1] == [State(WAIT)] && ev[..1][..0] == [];
  }

  lemma {:induction false} WaitKeeps(t: Timer, start: int, end: int, waits: seq<WaitTick>, gap: nat)
    requires t.intervalUS >= gap && forall i :: 0 <= i < |waits| ==> CommandsKeep(waits[i].before, gap)
    ensures WaitFor(t, start, end, waits).0.intervalUS >= gap
    decreases |waits|
  {
    if |waits| > 0 {
      ExecKeeps(t, waits[0].before, gap);
      WaitKeeps(ExecAll(t, waits[0].before), start, end, waits[1..], gap);
    }
  }

  ghost predicate GapsKeep(g: Gaps, gap: nat) {
    && CommandsKeep(g.beforeStart, gap) && CommandsKeep(g.beforeEnd, gap) && CommandsKeep(g.beforeCheck, gap)
    && CommandsKeep(g.beforeWork, gap) && CommandsKeep(g.beforeEndAgain, gap)
  }

  lemma LaunchKeeps(t: Timer, g: Gaps, waits: seq<WaitTick>, gap: nat)
    requires t.intervalUS >= gap && GapsKeep(g, gap)
    requires forall i :: 0 <= i < |waits| ==> CommandsKeep(waits[i].before, gap)
    ensures Launched(t, g, waits).t.intervalUS >= gap
  {
    var t1 := ExecAll(Entered(t), g.beforeStart);
    ExecKeeps(Entered(t), g.beforeStart, gap);
    ExecKeeps(t1, g.beforeEnd, gap);
    var t2 := ExecAll(t1, g.beforeEnd);
    WaitKeeps(t2.(triggered := false), t1.startTime, t2.endTime, waits, gap);
    var t3 := Waited(t, g, waits).0;
    ExecKeeps(t3, g.beforeCheck, gap);
    ExecKeeps(ExecAll(t3, g.beforeCheck), g.beforeWork, gap);
    ExecKeeps(ExecAll(ExecAll(t3, g.beforeCheck), g.beforeWork), g.beforeEndAgain, gap);
  }

  /** The same for whole runs, from the call that enters the thread. */
  lemma RunIsTimely(t: Timer, g: Gaps, waits: seq<WaitTick>, ticks: seq<Tick>, gap: nat, from: nat, length: nat)
    requires t.intervalUS >= gap > 0 && TicksKeep(ticks, gap) && GapsKeep(g, gap)
    requires forall i :: 0 <= i < |waits| ==> CommandsKeep(waits[i].before, gap)
    requires var r := Launched(t, g, waits); NoSetbacks(Begin(r.t), ticks, r.maxWork, r.end)
    ensures var ev := Run(t, g, waits, ticks).1;
      && (Alternates(ev, false) || Alternates(ev, true))
      && Spaced(ev, gap)
      && CountIn(ev, from, from + length) <= 1 + length / gap
  {
    var r, ev := Launched(t, g, waits), Run(t, g, waits, ticks).1;
    LaunchKeeps(t, g, waits, gap);
    BeginTimely(r.t, gap);
    if r.outcome == Go {
      StepsTimely(Begin(r.t), ticks, r.maxWork, r.end, gap);
      StepsAlternate(Begin(r.t), ticks, r.maxWork, r.end);
    } else {
      assert ev[..1] == [State(WAIT)] && ev[..1][..0] == [];
    }
    RateBound(ev, gap, from, length);
  }

  // ----- a falling clock

  /** An undisturbed pass. */
  ghost function Pulse(l: Loop, now: Word, maxWork: Word): Loop {
    Work(Fire(l, l.t, now), now, maxWork)
  }

  lemma QuietStep(l: Loop, now: Word, maxWork: Word, end: int)
    requires l.running && l.t.active && !l.t.paused && !l.t.resetInterval && now < end
    ensures Step(l, Quiet(now), maxWork, end) == Pulse(l, now, maxWork)
  {
    assert ExecAll(l.t, []) == l.t;
    assert ReadsOf(l.t, Quiet(now)) == Reads(l.t, l.t, l.t, l.t);
  }

  lemma StepsSnoc(l: Loop, ticks: seq<Tick>, tick: Tick, m: Word, end: int)
    ensures Steps(l, ticks + [tick], m, end) == Step(Steps(l, ticks, m, end), tick, m, end)
  {
    assert (ticks + [tick])[..|ticks|] == ticks;
  }

  /** Readings from `b` down to `b - n`, a microsecond apart. */
  ghost function Falling(b: Word, n: nat): seq<Tick>
    requires n <= b
  {
    if n == 0 then [Quiet(b)] else Falling(b, n - 1) + [Quiet(b - n)]
  }

  lemma CountAppend(ev: seq<Event>, e: Event, from: nat, to: nat)
    ensures CountIn(ev + [e], from, to) == CountIn(ev, from, to) + if IsTrigger(e) && from <= e.at <= to then 1 else 0
  {
    assert (ev + [e])[..|ev|] == ev;
  }

  /** Only the events and the last mark, now at `now`, differ. */
  ghost predicate FellTo(l: Loop, l': Loop, now: int) {
    l'.t == l.t && l'.running == l.running && l'.flag == l.flag && l'.last == now
  }

  lemma FallingFires(l: Loop, now: Word, from: nat, to: nat)
    requires l.flag == Calculating && from <= now <= to && l.t.intervalUS <= Sub(now, l.last)
    ensures var l' := Pulse(l, now, 0);
      && FellTo(l, l', now)
      && CountIn(l'.events, from, to) == CountIn(l.events, from, to) + 1
  {
    CountAppend(l.events, Interval(TRIGGERED, now), from, to);
    CountAppend(l.events + [Interval(TRIGGERED, now)], Interval(MAXSECS, now), from, to);
  }

  /** Undisturbed, calculating and without a pending reset. */
  ghost predicate Calm(l: Loop) {
    l.running && l.t.active && !l.t.paused && !l.t.resetInterval && l.flag == Calculating
  }

  /** The ticks have brought the last mark down to `b - n`, and every one has triggered. */
  ghost predicate Fallen(l: Loop, ticks: seq<Tick>, b: Word, n: int, end: int, from: nat) {
    var l' := Steps(l, ticks, 0, end);
    FellTo(l, l', b - n) && CountIn(l'.events, from, b) == CountIn(l.events, from, b) + n + 1
  }

  lemma FirstFall(l: Loop, b: Word, end: int, from: nat)
    requires Calm(l) && from <= b < end && l.last + l.t.intervalUS <= b
    ensures Fallen(l, [Quiet(b)], b, 0, end, from)
  {
    StepsSnoc(l, [], Quiet(b), 0, end);
    assert [] + [Quiet(b)] == [Quiet(b)];
    QuietStep(l, b, 0, end);
    FallingFires(l, b, from, b);
  }

  lemma NextFall(l: Loop, ticks: seq<Tick>, b: Word, n: nat, end: int, from: nat)
    requires Calm(l) && n > 0 && from <= b - n && b < end
    requires Fallen(l, ticks, b, n - 1, end, from)
    ensures Fallen(l, ticks + [Quiet(b - n)], b, n, end, from)
  {
    var l1 := Steps(l, ticks, 0, end);
    assert Sub(b - n, l1.last) == U64 - 1;
    StepsSnoc(l, ticks, Quiet(b - n), 0, end);
    QuietStep(l1, b - n, 0, end);
    FallingFires(l1, b - n, from, b);
  }

  lemma {:induction false} FallingSteps(l: Loop, b: Word, n: nat, end: int, from: nat)
    requires Calm(l) && from <= b - n && l.last + l.t.intervalUS <= b < end
    ensures Fallen(l, Falling(b, n), b, n, end, from)
  {
    if n == 0 {
      FirstFall(l, b, end, from);
    } else {
      FallingSteps(l, b, n - 1, end, from);
      NextFall(l, Falling(b, n - 1), b, n, end, from);
    }
  }

  /** The promised rate and spacing fail when the clock runs backwards: without a work limit every
      reading a microsecond below the one before triggers. */
  lemma FallingClockFires(t: Timer, b: Word, n: nat)
    requires t.active && !t.paused && !t.resetInterval && 2 <= t.intervalUS <= b < t.endTime && 0 < n <= b
    ensures var ev := Steps(Begin(t), Falling(b, n), 0, t.endTime).events;
      CountIn(ev, b - n, b) == n + 1 > 1 + n / t.intervalUS && !Spaced(ev, t.intervalUS)
  {
    BeginHasNoneIn(t, b - n, b);
    FallingSteps(Begin(t), b, n, t.endTime, b - n);
    Halved(n, t.intervalUS);
    TooManyTooClose(Steps(Begin(t), Falling(b, n), 0, t.endTime).events, t.intervalUS, b - n, n);
  }

  lemma BeginHasNoneIn(t: Timer, from: nat, to: nat)
    ensures CountIn(Begin(t).events, from, to) == 0
  {
    var ev := Begin(t).events;
    assert ev[..1] == [State(WAIT)] && ev[..1][..0] == [];
    assert CountIn(ev[..1], from, to) == 0;
  }

  lemma TooManyTooClose(ev: seq<Event>, gap: nat, from: nat, length: nat)
    requires gap > 0 && CountIn(ev, from, from + length) > 1 + length / gap
    ensures !Spaced(ev, gap)
  {
    if Spaced(ev, gap) {
      RateBound(ev, gap, from, length);
    }
  }

  lemma Halved(n: nat, d: nat)
    requires n > 0 && d >= 2
    ensures n / d < n
  {
    var q := n / d;
    MulMono(2, d, q);
    assert n == d * q + n % d;
  }
}
