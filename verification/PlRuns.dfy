/** Properties of every run of the profit-and-loss monitor. */
module PlRuns {
  import opened PlModel
  import opened PLMonitor

  // ----- who is watched, read off the log

  /** Whether `id` is watched after events `ev`, going only by what the monitor announced: an
      Adding starts the watch, a report with a terminal status ends it. */
  ghost function AliveAfter(before: bool, ev: seq<Event>, id: string): bool {
    if |ev| == 0 then before
    else
      var rest := AliveAfter(before, ev[..|ev| - 1], id);
      match ev[|ev| - 1]
      case Adding(posid) => posid == id || rest
      case Report(p) => !(p.posid == id && Terminal(p.status)) && rest
      case OnPL(_, _) => rest
  }

  lemma {:induction false} AliveAppend(before: bool, xs: seq<Event>, ys: seq<Event>, id: string)
    ensures AliveAfter(before, xs + ys, id) == AliveAfter(AliveAfter(before, xs, id), ys, id)
  {
    if |ys| == 0 {
      assert xs + ys == xs;
    } else {
      assert (xs + ys)[..|xs + ys| - 1] == xs + ys[..|ys| - 1];
      AliveAppend(before, xs, ys[..|ys| - 1], id);
    }
  }

  /** Every entry is filed under its own id, with consistent time fields. */
  ghost predicate Keyed(positions: Positions) {
    forall id :: id in positions ==> positions[id].posid == id && TimesAgree(positions[id])
  }

  ghost predicate Alive(w: Watch, id: string) {
    AliveAfter(false, w.log, id)
  }

  /** The log never shows an id as watched that is not: an id leaves only with a terminal report.
      In the exact form the log and the watch map agree. */
  ghost predicate Tracked(w: Watch, exact: bool) {
    && Keyed(w.positions)
    && (forall id :: Alive(w, id) ==> id in w.positions)
    && (exact ==> forall id :: id in w.positions ==> Alive(w, id))
  }

  lemma OneEvent(before: bool, e: Event, id: string)
    ensures AliveAfter(before, [e], id) ==
      match e
      case Adding(posid) => posid == id || before
      case Report(p) => !(p.posid == id && Terminal(p.status)) && before
      case OnPL(_, _) => before
  {
    assert [e][..0] == [];
  }

  lemma FinalEvents(before: bool, p: Position, signal: Signal, id: string)
    requires Terminal(p.status)
    ensures AliveAfter(before, [OnPL(p, signal), Report(p)], id) == (p.posid != id && before)
  {
    OneEvent(before, OnPL(p, signal), id);
    AliveAppend(before, [OnPL(p, signal)], [Report(p)], id);
    OneEvent(before, Report(p), id);
    assert [OnPL(p, signal)] + [Report(p)] == [OnPL(p, signal), Report(p)];
  }

  // ----- commands and registrations keep the log exact

  lemma CommandTracked(w: Watch, c: EngineCommand, exact: bool)
    requires Tracked(w, exact)
    ensures Tracked(DoCommand(w, c), exact)
  {
    if c.spreadid in w.positions {
      var p := w.positions[c.spreadid];
      AdjustKeeps(p, c.items);
      forall id
        ensures AliveAfter(false, w.log + [OnPL(p.(status := COVERED), MKT), Report(p.(status := COVERED))], id)
             == (p.posid != id && Alive(w, id))
        ensures AliveAfter(false, w.log + [Report(p.(status := CANCELED))], id) == (p.posid != id && Alive(w, id))
      {
        AliveAppend(false, w.log, [OnPL(p.(status := COVERED), MKT), Report(p.(status := COVERED))], id);
        FinalEvents(Alive(w, id), p.(status := COVERED), MKT, id);
        AliveAppend(false, w.log, [Report(p.(status := CANCELED))], id);
        OneEvent(Alive(w, id), Report(p.(status := CANCELED)), id);
      }
    }
  }

  lemma {:induction false} CommandsTracked(w: Watch, cs: seq<EngineCommand>, exact: bool)
    requires Tracked(w, exact)
    ensures Tracked(DoCommands(w, cs), exact)
  {
    if |cs| > 0 {
      CommandsTracked(w, cs[..|cs| - 1], exact);
      CommandTracked(DoCommands(w, cs[..|cs| - 1]), cs[|cs| - 1], exact);
    }
  }

  lemma PreparedKeeps(p: Position, isnew: bool, now: nat)
    ensures var q := Prepared(p, isnew, now);
      && q.posid == p.posid && q.legs == p.legs && TimesAgree(q)
      && q.status == if isnew then MONITOR_PL else p.status
  {
  }

  lemma RegisterTracked(w: Watch, r: Registration, exact: bool)
    requires Tracked(w, exact)
    ensures Tracked(Register(w, r), exact)
  {
    PreparedKeeps(r.p, r.p.posid !in w.positions, r.now);
    var w' := Register(w, r);
    forall id
      ensures Alive(w', id) == (r.p.posid == id || Alive(w, id))
    {
      AliveAppend(false, w.log, [Adding(r.p.posid)], id);
      OneEvent(Alive(w, id), Adding(r.p.posid), id);
    }
  }

  lemma {:induction false} RegistrationsTracked(w: Watch, rs: seq<Registration>, exact: bool)
    requires Tracked(w, exact)
    ensures Tracked(RegisterAll(w, rs), exact)
  {
    if |rs| > 0 {
      RegistrationsTracked(w, rs[..|rs| - 1], exact);
      RegisterTracked(RegisterAll(w, rs[..|rs| - 1]), rs[|rs| - 1], exact);
    }
  }

  /** Before the visits of a turn the log is as exact as before the turn. */
  lemma DrainedTracked(w: Watch, t: Turn, exact: bool)
    requires Tracked(w, exact)
    ensures Tracked(Drained(w, t), exact)
  {
    CommandsTracked(w, t.cmds, exact);
    var w1 := DoCommands(w, t.cmds);
    var w2 := w1.(quotes := PutBooks(w1.quotes, t.books));
    assert forall id :: Alive(w2, id) == Alive(w1, id);
    RegistrationsTracked(w2, t.regs, exact);
  }

  lemma DrainQuotes(w: Watch, t: Turn)
    ensures Drained(w, t).quotes == PutBooks(w.quotes, t.books)
  {
    CommandsKeepQuotes(w, t.cmds);
    var w1 := DoCommands(w, t.cmds);
    RegistrationsKeepQuotes(w1.(quotes := PutBooks(w1.quotes, t.books)), t.regs);
  }

  lemma {:induction false} CommandsKeepQuotes(w: Watch, cs: seq<EngineCommand>)
    ensures DoCommands(w, cs).quotes == w.quotes
  {
    if |cs| > 0 {
      CommandsKeepQuotes(w, cs[..|cs| - 1]);
    }
  }

  lemma {:induction false} RegistrationsKeepQuotes(w: Watch, rs: seq<Registration>)
    ensures RegisterAll(w, rs).quotes == w.quotes
  {
    if |rs| > 0 {
      RegistrationsKeepQuotes(w, rs[..|rs| - 1]);
    }
  }

  // ----- visits

  lemma ExitsEnd(before: bool, q: Position, id: string)
    ensures AliveAfter(before, Exits(q), id) == if Hit(q) then q.posid != id && before else before
  {
    var a := ExitEvents(q, q.risk.timeleft <= 0, TIMED_OUT, TIMERHIT);
    var b := ExitEvents(q, Ratios.AtLeast(q.plper, q.risk.profitTaking), PROFIT_HIT, PROFITTAKE);
    var c := ExitEvents(q, Ratios.AtMost(q.plper, q.risk.stopLoss), STOP_HIT, STOPLOSS);
    AliveAppend(before, a + b, c, id);
    AliveAppend(before, a, b, id);
    FinalEvents(before, q.(status := TIMED_OUT), TIMERHIT, id);
    FinalEvents(AliveAfter(before, a, id), q.(status := PROFIT_HIT), PROFITTAKE, id);
    FinalEvents(AliveAfter(before, a + b, id), q.(status := STOP_HIT), STOPLOSS, id);
  }

  lemma PassEnds(before: bool, p: Position, quotes: Quotes, now: nat, id: string)
    ensures AliveAfter(before, PassEvents(p, quotes, now), id)
         == (before && !(p.posid == id && (Terminal(Marked(p, quotes).status) || Leaves(p, quotes, now))))
  {
    var m := Marked(p, quotes);
    OneEvent(before, Report(m), id);
    if Watched(p, quotes) {
      AliveAppend(before, [Report(m)], Exits(Valued(p, quotes, now)), id);
      ExitsEnd(AliveAfter(before, [Report(m)], id), Valued(p, quotes, now), id);
    } else {
      assert [Report(m)] + [] == [Report(m)];
    }
  }

  lemma ValuedKeeps(p: Position, quotes: Quotes, now: nat)
    ensures Valued(p, quotes, now).posid == p.posid
    ensures TimesAgree(p) ==> TimesAgree(Valued(p, quotes, now))
    ensures Terminal(Valued(p, quotes, now).status) ==> Terminal(p.status)
    ensures Terminal(Marked(p, quotes).status) ==> Terminal(p.status)
  {
  }

  /** A position in its place carries the status of a closed one, and can be valued. */
  ghost predicate Stale(p: Position, quotes: Quotes) {
    Terminal(p.status) && AllQuoted(p.legs, quotes)
  }

  /** Whether log and watch map agree about `id`. */
  ghost predicate Agrees(w: Watch, id: string) {
    id in w.positions <==> Alive(w, id)
  }

  lemma VisitAgrees(w: Watch, id: string, now: nat)
    requires Keyed(w.positions) && id in w.positions
    ensures var v := Visit(w, id, now);
      && Keyed(v.positions) && v.quotes == w.quotes
      && (Alive(v, id) ==> id in v.positions)
      && (Agrees(w, id) ==> (Agrees(v, id) <==> !Stale(w.positions[id], w.quotes)))
      && (forall k :: k != id ==> Alive(v, k) == Alive(w, k) && (k in v.positions <==> k in w.positions))
  {
    var p, v := w.positions[id], Visit(w, id, now);
    ValuedKeeps(p, w.quotes, now);
    forall k
      ensures Alive(v, k)
           == (Alive(w, k) && !(id == k && (Terminal(Marked(p, w.quotes).status) || Leaves(p, w.quotes, now))))
    {
      AliveAppend(false, w.log, PassEvents(p, w.quotes, now), k);
      PassEnds(Alive(w, k), p, w.quotes, now, k);
    }
  }

  lemma VisitTracked(w: Watch, id: string, now: nat)
    requires Tracked(w, false) && id in w.positions
    ensures Tracked(Visit(w, id, now), false) && Visit(w, id, now).quotes == w.quotes
  {
    VisitAgrees(w, id, now);
  }

  lemma {:induction false} VisitsTracked(w: Watch, order: seq<string>, clock: string -> nat)
    requires Tracked(w, false)
    ensures Tracked(VisitAll(w, order, clock), false) && VisitAll(w, order, clock).quotes == w.quotes
  {
    if |order| > 0 {
      var id := order[|order| - 1];
      var v := VisitAll(w, order[..|order| - 1], clock);
      VisitsTracked(w, order[..|order| - 1], clock);
      if id in v.positions {
        VisitTracked(v, id, clock(id));
      }
    }
  }

  /** After the visits log and map disagree about exactly the stale positions visited. */
  lemma {:induction false} VisitsAgree(w: Watch, order: seq<string>, clock: string -> nat)
    requires Tracked(w, true)
    requires forall i, j :: 0 <= i < j < |order| ==> order[i] != order[j]
    requires forall id :: id in order ==> id in w.positions
    ensures var v := VisitAll(w, order, clock);
      && Keyed(v.positions)
      && forall id :: Agrees(v, id) <==> !(id in order && Stale(w.positions[id], w.quotes))
  {
    if |order| > 0 {
      var rest, id := order[..|order| - 1], order[|order| - 1];
      assert forall k :: k in order <==> k in rest || k == id;
      assert id !in rest;
      VisitsAgree(w, rest, clock);
      VisitsSoFar(w, rest, clock);
      VisitAgrees(VisitAll(w, rest, clock), id, clock(id));
    }
  }

  // ----- runs

  lemma TurnTracked(w: Watch, t: Turn)
    requires Tracked(w, false)
    ensures Tracked(DoTurn(w, t), false)
    ensures DoTurn(w, t).quotes == PutBooks(w.quotes, t.books)
  {
    DrainedTracked(w, t, false);
    DrainQuotes(w, t);
    VisitsTracked(Drained(w, t), t.order, t.clock);
  }

  /** Over every run: each key is its position's id, expiry follows entry and minutes, an id leaves
      only with a terminal report, and the quotes are the drained books in order. */
  lemma {:induction false} RunTracked(w: Watch, ts: seq<Turn>)
    requires Tracked(w, false)
    ensures Tracked(After(w, ts), false)
    ensures After(w, ts).quotes == PutBooks(w.quotes, Books(ts))
  {
    if |ts| > 0 {
      var rest, t := ts[..|ts| - 1], ts[|ts| - 1];
      RunTracked(w, rest);
      TurnTracked(After(w, rest), t);
      PutBooksAppend(w.quotes, Books(rest), t.books);
    }
  }

  /** The monitor starts in such a state. */
  lemma EmptyTracked()
    ensures Tracked(Watch(map[], map[], []), true) && Calm(map[])
  {
  }

  // ----- when the log stays exact

  /** No watched position carries the status of a closed one. */
  ghost predicate Calm(positions: Positions) {
    forall id :: id in positions ==> !Terminal(positions[id].status)
  }

  lemma ExactIsAgreement(w: Watch)
    requires Keyed(w.positions)
    ensures Tracked(w, true) <==> forall id :: Agrees(w, id)
  {
    if forall id :: Agrees(w, id) {
      forall id
        ensures Alive(w, id) <==> id in w.positions
      {
        assert Agrees(w, id);
      }
    }
  }

  /** One visit keeps the log exact if and only if its position is not stale. */
  lemma VisitExactIff(w: Watch, id: string, now: nat)
    requires Tracked(w, true) && id in w.positions
    ensures Tracked(Visit(w, id, now), true) <==> !Stale(w.positions[id], w.quotes)
  {
    var v := Visit(w, id, now);
    VisitAgrees(w, id, now);
    ExactIsAgreement(v);
    assert forall k :: k != id ==> Agrees(v, k);
  }

  lemma TurnExact(w: Watch, t: Turn)
    requires Tracked(w, true) && Visits(t.order, Drained(w, t).positions)
    ensures var d := Drained(w, t);
      Tracked(DoTurn(w, t), true) <==> forall id :: id in d.positions ==> !Stale(d.positions[id], d.quotes)
  {
    var d := Drained(w, t);
    DrainedTracked(w, t, true);
    VisitsAgree(d, t.order, t.clock);
    ExactIsAgreement(DoTurn(w, t));
    if Tracked(DoTurn(w, t), true) {
      forall id | id in d.positions
        ensures !Stale(d.positions[id], d.quotes)
      {
        assert Agrees(DoTurn(w, t), id);
      }
    }
  }

  /** Visits leave no closed status behind unless a position was stale. */
  lemma VisitsCalm(w: Watch, order: seq<string>, clock: string -> nat)
    requires Visits(order, w.positions) && forall id :: id in w.positions ==> !Stale(w.positions[id], w.quotes)
    ensures Calm(VisitAll(w, order, clock).positions)
  {
    PassIsOrderFree(w, order, clock);
    forall id | id in PassResult(w, clock)
      ensures !Terminal(PassResult(w, clock)[id].status)
    {
      assert !Stale(w.positions[id], w.quotes);
    }
  }

  lemma {:induction false} CommandsCalm(w: Watch, cs: seq<EngineCommand>)
    requires Calm(w.positions)
    ensures Calm(DoCommands(w, cs).positions)
  {
    if |cs| > 0 {
      var v, c := DoCommands(w, cs[..|cs| - 1]), cs[|cs| - 1];
      CommandsCalm(w, cs[..|cs| - 1]);
      if c.spreadid in v.positions {
        AdjustKeeps(v.positions[c.spreadid], c.items);
      }
    }
  }

  /** The `i`-th registration is the last one of its id ... */
  ghost predicate IsLast(rs: seq<Registration>, i: nat)
    requires i < |rs|
  {
    forall j :: i < j < |rs| ==> rs[j].p.posid != rs[i].p.posid
  }

  /** ... and finds its id already watched. */
  ghost predicate Updates(watched: Positions, rs: seq<Registration>, i: nat)
    requires i < |rs|
  {
    rs[i].p.posid in watched || exists j :: 0 <= j < i && rs[j].p.posid == rs[i].p.posid
  }

  lemma {:induction false} RegisteredIds(w: Watch, rs: seq<Registration>, id: string)
    ensures id in RegisterAll(w, rs).positions
       <==> id in w.positions || exists j :: 0 <= j < |rs| && rs[j].p.posid == id
    ensures (forall j :: 0 <= j < |rs| ==> rs[j].p.posid != id) && id in w.positions ==>
      RegisterAll(w, rs).positions[id] == w.positions[id]
  {
    if |rs| > 0 {
      RegisteredIds(w, rs[..|rs| - 1], id);
    }
  }

  /** What a registered id is watched with: its legs, and its status if it is an update. */
  ghost predicate Brings(r: Registration, update: bool, q: Position) {
    q.legs == r.p.legs && q.status == if update then r.p.status else MONITOR_PL
  }

  lemma RegisterBrings(w: Watch, r: Registration)
    ensures var d := Register(w, r).positions; r.p.posid in d && Brings(r, r.p.posid in w.positions, d[r.p.posid])
  {
    PreparedKeeps(r.p, r.p.posid !in w.positions, r.now);
  }

  lemma RegisterFrame(w: Watch, r: Registration, id: string)
    requires id != r.p.posid && id in w.positions
    ensures id in Register(w, r).positions && Register(w, r).positions[id] == w.positions[id]
  {
  }

  lemma {:induction false} RegisteredLast(w: Watch, rs: seq<Registration>, i: nat)
    requires i < |rs| && IsLast(rs, i)
    ensures var d, r := RegisterAll(w, rs).positions, rs[i];
      r.p.posid in d && Brings(r, Updates(w.positions, rs, i), d[r.p.posid])
    decreases |rs|
  {
    var rest := rs[..|rs| - 1];
    if i < |rs| - 1 {
      assert IsLast(rest, i) && rs[|rs| - 1].p.posid != rs[i].p.posid;
      RegisteredLast(w, rest, i);
      assert Updates(w.positions, rest, i) <==> Updates(w.positions, rs, i);
      RegisterFrame(RegisterAll(w, rest), rs[|rs| - 1], rs[i].p.posid);
    } else {
      RegisteredIds(w, rest, rs[i].p.posid);
      RegisterBrings(RegisterAll(w, rest), rs[i]);
    }
  }

  lemma {:induction false} LastRegistration(rs: seq<Registration>, id: string) returns (i: nat)
    requires exists j :: 0 <= j < |rs| && rs[j].p.posid == id
    ensures i < |rs| && rs[i].p.posid == id && IsLast(rs, i)
  {
    if rs[|rs| - 1].p.posid == id {
      i := |rs| - 1;
    } else {
      i := LastRegistration(rs[..|rs| - 1], id);
    }
  }

  /** The turn's `i`-th registration leaves a watched position closed: it is an update, no later
      one replaces it, it carries a terminal status, and all its legs have usable quotes. */
  ghost predicate BringsClosed(w: Watch, t: Turn, i: nat)
    requires i < |t.regs|
  {
    && IsLast(t.regs, i) && Updates(DoCommands(w, t.cmds).positions, t.regs, i)
    && Stale(t.regs[i].p, PutBooks(w.quotes, t.books))
  }

  /** From a turn's start the log stays exact if and only if no registration brings a watched
      position closed. */
  lemma TurnExactIff(w: Watch, t: Turn)
    requires Tracked(w, true) && Calm(w.positions) && Visits(t.order, Drained(w, t).positions)
    ensures Tracked(DoTurn(w, t), true) <==> forall i :: 0 <= i < |t.regs| ==> !BringsClosed(w, t, i)
    ensures Tracked(DoTurn(w, t), true) ==> Calm(DoTurn(w, t).positions)
  {
    TurnExact(w, t);
    if Tracked(DoTurn(w, t), true) {
      VisitsCalm(Drained(w, t), t.order, t.clock);
    }
    CommandsCalm(w, t.cmds);
    DrainQuotes(w, t);
    var d := Drained(w, t);
    var w1 := DoCommands(w, t.cmds);
    var w2 := w1.(quotes := PutBooks(w1.quotes, t.books));
    forall i | 0 <= i < |t.regs| && BringsClosed(w, t, i)
      ensures exists id :: id in d.positions && Stale(d.positions[id], d.quotes)
    {
      RegisteredLast(w2, t.regs, i);
      assert Stale(d.positions[t.regs[i].p.posid], d.quotes);
    }
    forall id | id in d.positions && Stale(d.positions[id], d.quotes)
      ensures exists i :: 0 <= i < |t.regs| && BringsClosed(w, t, i)
    {
      RegisteredIds(w2, t.regs, id);
      var i := LastRegistration(t.regs, id);
      RegisteredLast(w2, t.regs, i);
      assert BringsClosed(w, t, i);
    }
  }

  ghost predicate ExactThroughout(w: Watch, ts: seq<Turn>) {
    Tracked(After(w, ts), true) && (|ts| > 0 ==> ExactThroughout(w, ts[..|ts| - 1]))
  }

  ghost predicate NoneBroughtClosed(w: Watch, ts: seq<Turn>) {
    |ts| > 0 ==>
      var rest, t := ts[..|ts| - 1], ts[|ts| - 1];
      NoneBroughtClosed(w, rest) && forall i :: 0 <= i < |t.regs| ==> !BringsClosed(After(w, rest), t, i)
  }

  /** Through a whole run an id is watched exactly when the log says so, if and only if no update
      brings a watched position closed in a turn in which all its legs have usable quotes. */
  lemma {:induction false} RunExactIff(w: Watch, ts: seq<Turn>)
    requires Tracked(w, true) && Calm(w.positions) && Proper(w, ts)
    ensures ExactThroughout(w, ts) <==> NoneBroughtClosed(w, ts)
    ensures ExactThroughout(w, ts) ==> Calm(After(w, ts).positions)
  {
    if |ts| > 0 {
      var rest := ts[..|ts| - 1];
      RunExactIff(w, rest);
      if ExactThroughout(w, rest) {
        TurnExactIff(After(w, rest), ts[|ts| - 1]);
      }
    }
  }

  /** A position after passes with the given quotes and clock readings, were it to stay. */
  ghost function Passes(p: Position, passes: seq<(Quotes, nat)>): Position {
    if |passes| == 0 then p
    else
      var (quotes, now) := passes[|passes| - 1];
      Valued(Passes(p, passes[..|passes| - 1]), quotes, now)
  }

  ghost predicate QuotedThroughout(p: Position, passes: seq<(Quotes, nat)>) {
    forall k :: 0 <= k < |passes| ==> AllQuoted(p.legs, passes[k].0)
  }

  lemma {:induction false} PassesKeepClosed(p: Position, passes: seq<(Quotes, nat)>)
    requires Terminal(p.status)
    ensures var q := Passes(p, passes);
      && q.legs == p.legs && q.posid == p.posid
      && if QuotedThroughout(p, passes) then q.status == p.status else q.status == WAITING || q.status == MONITOR_PL
  {
    if |passes| > 0 {
      var rest, k := passes[..|passes| - 1], |passes| - 1;
      PassesKeepClosed(p, rest);
      assert QuotedThroughout(p, passes) <==> QuotedThroughout(p, rest) && AllQuoted(p.legs, passes[k].0);
    }
  }

  /** What becomes of a position brought closed, seen in a pass that can value it.  While every
      earlier pass could, too, it has kept its status, is not closed by the pass, and is reported
      as closed; once one could not, it is back under watch. */
  lemma ClosedUntilUnquoted(p: Position, passes: seq<(Quotes, nat)>, quotes: Quotes, now: nat)
    requires Stale(p, quotes)
    ensures var q := Passes(p, passes);
      && (Watched(q, quotes) <==> !QuotedThroughout(p, passes))
      && (QuotedThroughout(p, passes) ==>
            !Leaves(q, quotes, now) && !AliveAfter(true, PassEvents(q, quotes, now), p.posid))
  {
    PassesKeepClosed(p, passes);
    PassEnds(true, Passes(p, passes), quotes, now, p.posid);
  }

  // ----- exits are decided on full sums

  /** From index `from` on, every exit signal in the log carries the profit over all legs. */
  ghost predicate FullSums(log: seq<Event>, from: nat, quotes: Quotes) {
    forall k :: from <= k < |log| && log[k].OnPL? && log[k].signal != MKT ==>
      AllQuoted(log[k].p.legs, quotes) && log[k].p.totpl == TotalPL(log[k].p.legs, quotes)
  }

  lemma {:induction false} CommandsSignalNothing(w: Watch, cs: seq<EngineCommand>, quotes: Quotes)
    ensures var v := DoCommands(w, cs); |w.log| <= |v.log| && FullSums(v.log, |w.log|, quotes)
  {
    if |cs| > 0 {
      CommandsSignalNothing(w, cs[..|cs| - 1], quotes);
    }
  }

  lemma {:induction false} RegistrationsSignalNothing(w: Watch, rs: seq<Registration>, from: nat, quotes: Quotes)
    requires FullSums(w.log, from, quotes)
    ensures FullSums(RegisterAll(w, rs).log, from, quotes)
  {
    if |rs| > 0 {
      RegistrationsSignalNothing(w, rs[..|rs| - 1], from, quotes);
    }
  }

  lemma {:induction false} VisitsSignalFullSums(w: Watch, order: seq<string>, clock: string -> nat, from: nat)
    requires FullSums(w.log, from, w.quotes)
    ensures var v := VisitAll(w, order, clock); v.quotes == w.quotes && FullSums(v.log, from, w.quotes)
  {
    if |order| > 0 {
      var id := order[|order| - 1];
      var v := VisitAll(w, order[..|order| - 1], clock);
      VisitsSignalFullSums(w, order[..|order| - 1], clock, from);
      if id in v.positions {
        SignalsExactly(v.positions[id], v.quotes, clock(id));
      }
    }
  }

  /** No exit is ever decided on a partial sum: whatever signal a turn sends, other than for a
      cover command, every leg of its position had a usable quote after the turn's books and the
      profit it goes out with is the sum over all legs. */
  lemma ExitsOnFullSums(w: Watch, t: Turn)
    ensures FullSums(DoTurn(w, t).log, |w.log|, PutBooks(w.quotes, t.books))
  {
    var quotes := PutBooks(w.quotes, t.books);
    CommandsSignalNothing(w, t.cmds, quotes);
    var w1 := DoCommands(w, t.cmds);
    var w2 := w1.(quotes := PutBooks(w1.quotes, t.books));
    RegistrationsSignalNothing(w2, t.regs, |w.log|, quotes);
    DrainQuotes(w, t);
    VisitsSignalFullSums(Drained(w, t), t.order, t.clock, |w.log|);
  }

  // ----- quotes

  ghost function Books(ts: seq<Turn>): seq<Book> {
    if |ts| == 0 then [] else Books(ts[..|ts| - 1]) + ts[|ts| - 1].books
  }

  lemma {:induction false} PutBooksAppend(q: Quotes, xs: seq<Book>, ys: seq<Book>)
    ensures PutBooks(q, xs + ys) == PutBooks(PutBooks(q, xs), ys)
  {
    if |ys| == 0 {
      assert xs + ys == xs;
    } else {
      assert (xs + ys)[..|xs + ys| - 1] == xs + ys[..|ys| - 1];
      PutBooksAppend(q, xs, ys[..|ys| - 1]);
    }
  }

  /** The quote kept for a security is the last book drained for it. */
  lemma {:induction false} QuotesAreLast(q: Quotes, bs: seq<Book>, i: nat)
    requires i < |bs| && forall j :: i < j < |bs| ==> bs[j].secid != bs[i].secid
    ensures bs[i].secid in PutBooks(q, bs) && PutBooks(q, bs)[bs[i].secid] == bs[i]
    decreases |bs|
  {
    if i < |bs| - 1 {
      QuotesAreLast(q, bs[..|bs| - 1], i);
    }
  }

  // ----- a pass does not depend on the visit order

  /** What a pass does to the watch map, with no order in it. */
  ghost function PassResult(w: Watch, clock: string -> nat): Positions {
    map id | id in w.positions && !Leaves(w.positions[id], w.quotes, clock(id))
      :: Valued(w.positions[id], w.quotes, clock(id))
  }

  lemma {:induction false} VisitsSoFar(w: Watch, order: seq<string>, clock: string -> nat)
    requires forall i, j :: 0 <= i < j < |order| ==> order[i] != order[j]
    requires forall id :: id in order ==> id in w.positions
    ensures var v := VisitAll(w, order, clock);
      && v.quotes == w.quotes
      && (forall id :: id !in order ==> (id in v.positions <==> id in w.positions))
      && (forall id :: id !in order && id in w.positions ==> v.positions[id] == w.positions[id])
      && (forall id :: id in order ==> (id in v.positions <==> id in PassResult(w, clock)))
      && (forall id :: id in order && id in v.positions ==> v.positions[id] == PassResult(w, clock)[id])
  {
    if |order| > 0 {
      var rest, id := order[..|order| - 1], order[|order| - 1];
      assert forall k :: k in order <==> k in rest || k == id;
      assert id !in rest;
      VisitsSoFar(w, rest, clock);
    }
  }

  /** Whatever order the unordered map is visited in, the same positions leave and the rest end
      up the same. */
  lemma PassIsOrderFree(w: Watch, order: seq<string>, clock: string -> nat)
    requires Visits(order, w.positions)
    ensures VisitAll(w, order, clock).positions == PassResult(w, clock)
  {
    VisitsSoFar(w, order, clock);
    var v := VisitAll(w, order, clock);
    assert forall id :: id in v.positions <==> id in PassResult(w, clock);
  }

  // ----- commands touch only the position they name

  lemma {:induction false} CommandsFrame(w: Watch, cs: seq<EngineCommand>, id: string)
    requires Tracked(w, false) && forall c :: c in cs ==> c.spreadid != id
    ensures var v := DoCommands(w, cs);
      (id in v.positions <==> id in w.positions) && (id in w.positions ==> v.positions[id] == w.positions[id])
  {
    if |cs| > 0 {
      var rest := cs[..|cs| - 1];
      assert cs[|cs| - 1] in cs;
      CommandsFrame(w, rest, id);
      CommandsTracked(w, rest, false);
    }
  }
}
