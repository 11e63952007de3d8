/** The flag-and-queue protocol between command producers and the queue thread, as
    interleaved steps.  A producer pushes a command and then, in a second step, raises the
    flag; the thread drains the queue while the flag is up and then clears it. */
module EventQueue {

  type Cmd = nat

  /** Where the queue thread stands. */
  datatype Pc = Top | CheckFlag | CheckEmpty | Pop | Deliver(cmd: Cmd) | Clear | Done

  /** Shared state, the thread's position, and history: everything pushed, everything
      delivered, what was pushed since the thread last found the queue empty (`late`), the `late`
      commands of the last clearing (`missed`), and the pushes since that clearing (`since`). */
  datatype State = State(queue: seq<Cmd>, flag: bool, pending: set<nat>, active: bool, pc: Pc,
                         pushed: seq<Cmd>, delivered: seq<Cmd>, late: seq<Cmd>, missed: seq<Cmd>, since: seq<Cmd>)

  datatype Step = Push(producer: nat, cmd: Cmd) | Raise(producer: nat) | MenuRaise | Stop | Consume

  predicate Enabled(s: State, a: Step) {
    match a
    case Push(p, _) => p !in s.pending
    case Raise(p) => p in s.pending
    case _ => true
  }

  function ConsumeOne(s: State): State {
    match s.pc
    case Top => s.(pc := if s.active then CheckFlag else Done)
    case CheckFlag => s.(pc := if s.flag then CheckEmpty else Top)
    case CheckEmpty => if |s.queue| == 0 then s.(pc := Clear, late := []) else s.(pc := Pop)
    case Pop => if |s.queue| == 0 then s.(pc := CheckEmpty) else s.(pc := Deliver(s.queue[0]), queue := s.queue[1..])
    case Deliver(c) => s.(pc := CheckEmpty, delivered := s.delivered + [c])
    case Clear => s.(pc := CheckFlag, flag := false, missed := s.late, since := [])
    case Done => s
  }

  function Do(s: State, a: Step): State {
    match a
    case Push(p, c) =>
      s.(queue := s.queue + [c], pushed := s.pushed + [c], pending := s.pending + {p},
         late := s.late + [c], since := s.since + [c])
    case Raise(p) => s.(flag := true, pending := s.pending - {p})
    case MenuRaise => s.(flag := true)
    case Stop => s.(active := false)
    case Consume => ConsumeOne(s)
  }

  const Init := State([], false, {}, true, Top, [], [], [], [], [])

  /** A run: every step enabled where it is taken. */
  ghost predicate Run(s: State, steps: seq<Step>, s': State)
    decreases |steps|
  {
    if |steps| == 0 then s' == s
    else
      var rest, last := steps[..|steps| - 1], steps[|steps| - 1];
      exists m :: Run(s, rest, m) && Enabled(m, last) && s' == Do(m, last)
  }

  function InFlight(s: State): seq<Cmd> {
    match s.pc
    case Deliver(c) => [c]
    case _ => []
  }

  predicate Draining(s: State) {
    s.pc == CheckEmpty || s.pc == Pop || s.pc.Deliver? || s.pc == Clear
  }

  // ----- what every step keeps

  ghost predicate Inv(s: State) {
    && s.pushed == s.delivered + InFlight(s) + s.queue
    && (Draining(s) ==> s.flag)
    && (s.pc == Clear ==> s.queue == s.late)
    && (!s.flag ==> s.queue == s.missed + s.since && (|s.since| > 0 ==> s.pending != {}))
  }

  lemma PushKeeps(s: State, p: nat, c: Cmd)
    requires Inv(s)
    ensures Inv(Do(s, Push(p, c)))
  {
    assert s.delivered + InFlight(s) + (s.queue + [c]) == (s.delivered + InFlight(s) + s.queue) + [c];
    assert s.missed + (s.since + [c]) == (s.missed + s.since) + [c];
    assert p in s.pending + {p};
  }

  lemma ConsumeKeeps(s: State)
    requires Inv(s)
    ensures Inv(ConsumeOne(s))
  {
    match s.pc {
      case Pop =>
        if |s.queue| > 0 {
          assert s.queue == [s.queue[0]] + s.queue[1..];
        }
      case Deliver(c) =>
        assert s.delivered + [c] + s.queue == (s.delivered + [c]) + [] + s.queue;
      case Clear => assert s.late + [] == s.late;
      case _ =>
    }
  }

  lemma StepKeeps(s: State, a: Step)
    requires Inv(s) && Enabled(s, a)
    ensures Inv(Do(s, a))
  {
    match a
    case Push(p, c) => PushKeeps(s, p, c);
    case Consume => ConsumeKeeps(s);
    case _ =>
  }

  lemma {:induction false} RunKeeps(s: State, steps: seq<Step>, s': State)
    requires Inv(s) && Run(s, steps, s')
    ensures Inv(s')
    decreases |steps|
  {
    if |steps| > 0 {
      var last := steps[|steps| - 1];
      var m :| Run(s, steps[..|steps| - 1], m) && Enabled(m, last) && s' == Do(m, last);
      RunKeeps(s, steps[..|steps| - 1], m);
      StepKeeps(m, last);
    }
  }

  lemma InitKeeps()
    ensures Inv(Init)
  {
  }

  /** In every interleaving: what was delivered, then what is in flight, then what is queued, is
      exactly what was pushed, in order; and when the thread is about to clear the flag, all
      that was pushed before its last look at the queue has been delivered. */
  lemma {:induction false} NothingLost(steps: seq<Step>, s: State)
    requires Run(Init, steps, s)
    ensures s.delivered + InFlight(s) + s.queue == s.pushed
    ensures s.pc == Clear ==> s.delivered + s.late == s.pushed
  {
    InitKeeps();
    RunKeeps(Init, steps, s);
    if s.pc == Clear {
      assert s.delivered + [] + s.queue == s.delivered + s.queue;
    }
  }

  // ----- delayed commands

  /** Nobody is about to do anything: no producer between its push and its raise, and the thread
      sees no flag. */
  predicate Quiet(s: State) {
    !s.flag && s.pending == {}
  }

  /** Commands are left waiting in a quiet state exactly when the last clearing overtook them: they
      were pushed, and the flag raised, after the thread found the queue empty and before it
      cleared the flag. */
  lemma WaitingIffOvertaken(steps: seq<Step>, s: State)
    requires Run(Init, steps, s) && Quiet(s)
    ensures s.queue == s.missed
    ensures s.delivered == s.pushed <==> s.missed == []
  {
    RunKeeps(Init, steps, s);
    assert s.missed + [] == s.missed;
    if s.missed == [] {
      assert s.delivered + [] + [] == s.delivered;
    } else {
      assert |s.pushed| > |s.delivered|;
    }
  }

  lemma RunSnoc(s: State, steps: seq<Step>, m: State, a: Step)
    requires Run(s, steps, m) && Enabled(m, a)
    ensures Run(s, steps + [a], Do(m, a))
  {
    assert (steps + [a])[..|steps|] == steps;
  }

  lemma {:induction false} Consumes(s: State, steps: seq<Step>, m: State, n: nat) returns (steps': seq<Step>)
    requires Run(s, steps, m)
    ensures Run(s, steps', ConsumeMany(m, n))
    decreases n
  {
    if n == 0 {
      steps' := steps;
    } else {
      RunSnoc(s, steps, m, Consume);
      steps' := Consumes(s, steps + [Consume], ConsumeOne(m), n - 1);
    }
  }

  function ConsumeMany(s: State, n: nat): State
    decreases n
  {
    if n == 0 then s else ConsumeMany(ConsumeOne(s), n - 1)
  }

  /** From its empty check, three steps deliver the head of the queue. */
  lemma DeliverHead(s: State)
    requires s.pc == CheckEmpty && |s.queue| > 0
    ensures ConsumeMany(s, 3) == s.(queue := s.queue[1..], delivered := s.delivered + [s.queue[0]])
  {
    var s1 := s.(pc := Pop);
    var s2 := s.(pc := Deliver(s.queue[0]), queue := s.queue[1..]);
    assert ConsumeOne(s) == s1 && ConsumeOne(s1) == s2;
    assert ConsumeMany(s2, 1) == ConsumeMany(ConsumeOne(s2), 0);
    assert ConsumeMany(s1, 2) == ConsumeMany(s2, 1);
  }

  lemma {:induction false} ConsumeAdd(s: State, m: nat, n: nat)
    ensures ConsumeMany(ConsumeMany(s, m), n) == ConsumeMany(s, m + n)
    decreases m
  {
    if m > 0 {
      ConsumeAdd(ConsumeOne(s), m - 1, n);
    }
  }

  /** Delayed, not lost: once the thread looks at the queue with the flag up, it needs three steps
      per command, and one more, to have delivered everything queued, in order. */
  lemma {:induction false} DrainDelivers(s: State)
    requires s.pc == CheckEmpty
    ensures ConsumeMany(s, 3 * |s.queue| + 1)
         == s.(pc := Clear, queue := [], delivered := s.delivered + s.queue, late := [])
    decreases |s.queue|
  {
    if |s.queue| == 0 {
      assert ConsumeMany(s, 1) == ConsumeMany(ConsumeOne(s), 0);
      assert s.delivered + s.queue == s.delivered && s.queue == [];
    } else {
      DeliverHead(s);
      var s3 := s.(queue := s.queue[1..], delivered := s.delivered + [s.queue[0]]);
      var n := 3 * |s3.queue| + 1;
      DrainDelivers(s3);
      ConsumeAdd(s, 3, n);
      assert 3 * |s.queue| + 1 == 3 + n;
      assert s.delivered + [s.queue[0]] + s.queue[1..] == s.delivered + s.queue;
    }
  }

  /** The next raise of the flag delivers what waits: a live thread that then takes a
      bounded number of its own steps has delivered everything pushed, in order. */
  lemma NextRaiseDelivers(steps: seq<Step>, s: State) returns (n: nat)
    requires Run(Init, steps, s) && Quiet(s) && s.active && s.pc != Done
    ensures n <= 3 * |s.queue| + 3
    ensures var s' := ConsumeMany(Do(s, MenuRaise), n); s'.delivered == s.pushed && s'.queue == []
  {
    InitKeeps();
    RunKeeps(Init, steps, s);
    assert s.delivered + [] + s.queue == s.delivered + s.queue;
    var k := if s.pc == Top then 2 else 1;
    var s1, s2 := Do(s, MenuRaise), s.(flag := true, pc := CheckEmpty);
    Looks(s1);
    n := k + (3 * |s.queue| + 1);
    ConsumeAdd(s1, k, 3 * |s.queue| + 1);
    DrainDelivers(s2);
  }

  /** With the flag up a live thread comes to its empty check. */
  lemma Looks(s: State)
    requires s.active && s.flag
    ensures s.pc == CheckFlag ==> ConsumeMany(s, 1) == s.(pc := CheckEmpty)
    ensures s.pc == Top ==> ConsumeMany(s, 2) == s.(pc := CheckEmpty)
  {
    var s1 := s.(pc := CheckFlag);
    assert ConsumeMany(s1, 1) == ConsumeMany(ConsumeOne(s1), 0);
    if s.pc == Top {
      assert ConsumeOne(s) == s1 && ConsumeMany(s, 2) == ConsumeMany(s1, 1);
    }
  }

  /** A stop is obeyed at the thread's next look at it, and for good: whatever steps follow, nothing
      more is delivered. */
  lemma {:induction false} StoppedStays(s: State, steps: seq<Step>, s': State)
    requires (s.pc == Top && !s.active) || s.pc == Done
    requires Run(s, [Consume] + steps, s')
    ensures s'.pc == Done && s'.delivered == s.delivered
    decreases |steps|
  {
    var all := [Consume] + steps;
    var rest, last := all[..|all| - 1], all[|all| - 1];
    var m :| Run(s, rest, m) && Enabled(m, last) && s' == Do(m, last);
    if |steps| == 0 {
      assert rest == [] && m == s;
    } else {
      assert rest == [Consume] + steps[..|steps| - 1];
      StoppedStays(s, steps[..|steps| - 1], m);
    }
  }

  /** So a thread that is stopped while it stands at that look delivers nothing more. */
  lemma StopEndsDelivery(s: State, steps: seq<Step>, s': State)
    requires s.pc == Top && Run(Do(s, Stop), [Consume] + steps, s')
    ensures s'.pc == Done && s'.delivered == s.delivered
  {
    StoppedStays(Do(s, Stop), steps, s');
  }

  /** Overtaking does happen: of two commands, the second is pushed and announced between the
      thread's empty check and its clearing of the flag, and stays waiting. */
  lemma OvertakenExists(c: Cmd, d: Cmd) returns (steps: seq<Step>, s: State)
    ensures Run(Init, steps, s) && Quiet(s) && s.delivered == [c] && s.queue == [d]
  {
    assert Run(Init, [], Init);
    var s1 := Do(Init, Push(0, c));
    RunSnoc(Init, [], Init, Push(0, c));
    var s2 := Do(s1, Raise(0));
    RunSnoc(Init, [] + [Push(0, c)], s1, Raise(0));
    var before := Consumes(Init, [] + [Push(0, c)] + [Raise(0)], s2, 6);
    var s3 := ConsumeMany(s2, 6);
    ReachClear(s2);
    var s4 := Do(s3, Push(1, d));
    RunSnoc(Init, before, s3, Push(1, d));
    var s5 := Do(s4, Raise(1));
    RunSnoc(Init, before + [Push(1, d)], s4, Raise(1));
    s := Do(s5, Consume);
    steps := before + [Push(1, d)] + [Raise(1)] + [Consume];
    RunSnoc(Init, before + [Push(1, d)] + [Raise(1)], s5, Consume);
  }

  lemma ReachClear(s: State)
    requires s.pc == Top && s.active && s.flag && |s.queue| == 1
    ensures ConsumeMany(s, 6) == s.(pc := Clear, queue := [], delivered := s.delivered + s.queue, late := [])
  {
    assert ConsumeOne(s) == s.(pc := CheckFlag) && ConsumeOne(s.(pc := CheckFlag)) == s.(pc := CheckEmpty);
    assert ConsumeMany(s, 6) == ConsumeMany(s.(pc := CheckFlag), 5) == ConsumeMany(s.(pc := CheckEmpty), 4);
    DrainDelivers(s.(pc := CheckEmpty));
  }
}
