/** What the monitor's commands and registrations do: which of them cover, cancel or watch. */
module PlCommands {
  import opened PlModel
  import opened PLMonitor
  import opened PlRuns

  // ----- signals to cover at the market

  /** The ids that MARKET commands find watched, in order. */
  ghost function Covered(w: Watch, cs: seq<EngineCommand>): seq<string> {
    if |cs| == 0 then []
    else
      var rest, c := cs[..|cs| - 1], cs[|cs| - 1];
      Covered(w, rest) + CoveredBy(DoCommands(w, rest), c)
  }

  /** ... and CANCEL commands. */
  ghost function Canceled(w: Watch, cs: seq<EngineCommand>): seq<string> {
    if |cs| == 0 then []
    else
      var rest, c := cs[..|cs| - 1], cs[|cs| - 1];
      Canceled(w, rest) + CanceledBy(DoCommands(w, rest), c)
  }

  /** The ids signalled to be covered at the market, read off a log, in order. */
  ghost function MarketSignals(log: seq<Event>): seq<string> {
    if |log| == 0 then []
    else
      var rest, e := log[..|log| - 1], log[|log| - 1];
      MarketSignals(rest) + if e.OnPL? && e.signal == MKT then [e.p.posid] else []
  }

  /** The ids reported with a status, read off a log, in order. */
  ghost function ReportedAs(log: seq<Event>, status: Status): seq<string> {
    if |log| == 0 then []
    else
      var rest, e := log[..|log| - 1], log[|log| - 1];
      ReportedAs(rest, status) + if e.Report? && e.p.status == status then [e.p.posid] else []
  }

  lemma {:induction false} MarketSignalsAppend(xs: seq<Event>, ys: seq<Event>)
    ensures MarketSignals(xs + ys) == MarketSignals(xs) + MarketSignals(ys)
  {
    if |ys| == 0 {
      assert xs + ys == xs;
    } else {
      var k := |ys| - 1;
      assert (xs + ys)[..|xs| + k] == xs + ys[..k];
      MarketSignalsAppend(xs, ys[..k]);
    }
  }

  /** From `w` to `v` exactly the ids `covered` were signalled to the market and reported COVERED, and
      exactly the ids `canceled` were reported CANCELED. */
  ghost predicate Told(w: Watch, v: Watch, covered: seq<string>, canceled: seq<string>) {
    && MarketSignals(v.log) == MarketSignals(w.log) + covered
    && ReportedAs(v.log, COVERED) == ReportedAs(w.log, COVERED) + covered
    && ReportedAs(v.log, CANCELED) == ReportedAs(w.log, CANCELED) + canceled
  }

  lemma ToldInTurn(u: Watch, v: Watch, w: Watch, covered: seq<string>, canceled: seq<string>,
                   covered': seq<string>, canceled': seq<string>)
    requires Told(u, v, covered, canceled) && Told(v, w, covered', canceled')
    ensures Told(u, w, covered + covered', canceled + canceled')
  {
  }

  ghost function CoveredBy(w: Watch, c: EngineCommand): seq<string> {
    if c.command == MARKET && c.spreadid in w.positions then [c.spreadid] else []
  }

  ghost function CanceledBy(w: Watch, c: EngineCommand): seq<string> {
    if c.command == CANCEL && c.spreadid in w.positions then [c.spreadid] else []
  }

  lemma LogsOne(log: seq<Event>, e: Event, status: Status)
    ensures MarketSignals(log + [e]) == MarketSignals(log) + if e.OnPL? && e.signal == MKT then [e.p.posid] else []
    ensures ReportedAs(log + [e], status)
         == ReportedAs(log, status) + if e.Report? && e.p.status == status then [e.p.posid] else []
  {
    assert (log + [e])[..|log|] == log;
  }

  lemma CoverIsTold(w: Watch, v: Watch, q: Position)
    requires q.status == COVERED && v.log == w.log + [OnPL(q, MKT), Report(q)]
    ensures Told(w, v, [q.posid], [])
  {
    var log := w.log + [OnPL(q, MKT)];
    assert v.log == log + [Report(q)];
    LogsOne(w.log, OnPL(q, MKT), COVERED);
    LogsOne(w.log, OnPL(q, MKT), CANCELED);
    LogsOne(log, Report(q), COVERED);
    LogsOne(log, Report(q), CANCELED);
  }

  lemma CancelIsTold(w: Watch, v: Watch, q: Position)
    requires q.status == CANCELED && v.log == w.log + [Report(q)]
    ensures Told(w, v, [], [q.posid])
  {
    LogsOne(w.log, Report(q), COVERED);
    LogsOne(w.log, Report(q), CANCELED);
  }

  /** One command: a cover of a watched id signals it to the market and reports it COVERED; a cancel
      only reports it CANCELED; both end its watch.  Nothing else is signalled or reported. */
  lemma CommandSignals(w: Watch, c: EngineCommand)
    requires Keyed(w.positions)
    ensures Told(w, DoCommand(w, c), CoveredBy(w, c), CanceledBy(w, c))
    ensures c.spreadid in DoCommand(w, c).positions
       <==> c.spreadid in w.positions && c.command != MARKET && c.command != CANCEL
  {
    var v := DoCommand(w, c);
    if c.spreadid in w.positions && c.command == MARKET {
      CoverIsTold(w, v, w.positions[c.spreadid].(status := COVERED));
    } else if c.spreadid in w.positions && c.command == CANCEL {
      CancelIsTold(w, v, w.positions[c.spreadid].(status := CANCELED));
    } else {
      assert v.log == w.log;
    }
  }

  /** The commands of a turn signal exactly the ids that cover commands find watched, in order, and
      report those COVERED and the ones that cancel commands find watched CANCELED. */
  lemma {:induction false} CommandsSignal(w: Watch, cs: seq<EngineCommand>)
    requires Tracked(w, false)
    ensures Told(w, DoCommands(w, cs), Covered(w, cs), Canceled(w, cs))
  {
    if |cs| > 0 {
      var rest, c := cs[..|cs| - 1], cs[|cs| - 1];
      CommandsSignal(w, rest);
      CommandsTracked(w, rest, false);
      var v := DoCommands(w, rest);
      CommandSignals(v, c);
      ToldInTurn(w, v, DoCommand(v, c), Covered(w, rest), Canceled(w, rest), CoveredBy(v, c), CanceledBy(v, c));
    }
  }

  lemma {:induction false} RegistrationsSignalNoMarket(w: Watch, rs: seq<Registration>)
    ensures MarketSignals(RegisterAll(w, rs).log) == MarketSignals(w.log)
  {
    if |rs| > 0 {
      var v, r := RegisterAll(w, rs[..|rs| - 1]), rs[|rs| - 1];
      RegistrationsSignalNoMarket(w, rs[..|rs| - 1]);
      LogsOne(v.log, Adding(r.p.posid), NONE);
    }
  }

  lemma {:induction false} NoMarket(ev: seq<Event>)
    requires forall e :: e in ev && e.OnPL? ==> e.signal != MKT
    ensures MarketSignals(ev) == []
  {
    if |ev| > 0 {
      NoMarket(ev[..|ev| - 1]);
      assert ev[|ev| - 1] in ev;
    }
  }

  lemma PassSignalsNoMarket(p: Position, quotes: Quotes, now: nat)
    ensures MarketSignals(PassEvents(p, quotes, now)) == []
  {
    var ev, q := PassEvents(p, quotes, now), Valued(p, quotes, now);
    forall e | e in ev && e.OnPL?
      ensures e.signal != MKT
    {
      assert e in Exits(q);
      SignalsAre(q, e);
    }
    NoMarket(ev);
  }

  lemma {:induction false} VisitsSignalNoMarket(w: Watch, order: seq<string>, clock: string -> nat)
    ensures MarketSignals(VisitAll(w, order, clock).log) == MarketSignals(w.log)
  {
    if |order| > 0 {
      var id := order[|order| - 1];
      var v := VisitAll(w, order[..|order| - 1], clock);
      VisitsSignalNoMarket(w, order[..|order| - 1], clock);
      if id in v.positions {
        MarketSignalsAppend(v.log, PassEvents(v.positions[id], v.quotes, clock(id)));
        PassSignalsNoMarket(v.positions[id], v.quotes, clock(id));
      }
    }
  }

  /** A turn covers at the market exactly what its cover commands name and find watched, in order. */
  lemma TurnCovers(w: Watch, t: Turn)
    requires Tracked(w, false)
    ensures MarketSignals(DoTurn(w, t).log) == MarketSignals(w.log) + Covered(w, t.cmds)
  {
    CommandsSignal(w, t.cmds);
    var w1 := DoCommands(w, t.cmds);
    RegistrationsSignalNoMarket(w1.(quotes := PutBooks(w1.quotes, t.books)), t.regs);
    VisitsSignalNoMarket(Drained(w, t), t.order, t.clock);
  }

  /** Over a whole run: one cover per cover command that finds its id watched, and no other. */
  ghost function AllCovered(w: Watch, ts: seq<Turn>): seq<string> {
    if |ts| == 0 then []
    else AllCovered(w, ts[..|ts| - 1]) + Covered(After(w, ts[..|ts| - 1]), ts[|ts| - 1].cmds)
  }

  lemma Regroup(xs: seq<string>, ys: seq<string>, zs: seq<string>)
    ensures xs + ys + zs == xs + (ys + zs)
  {
  }

  lemma {:induction false} RunCovers(w: Watch, ts: seq<Turn>)
    requires Tracked(w, false)
    ensures MarketSignals(After(w, ts).log) == MarketSignals(w.log) + AllCovered(w, ts)
  {
    if |ts| > 0 {
      var rest := ts[..|ts| - 1];
      var v := After(w, rest);
      RunCovers(w, rest);
      RunTracked(w, rest);
      TurnCovers(v, ts[|ts| - 1]);
      Regroup(MarketSignals(w.log), AllCovered(w, rest), Covered(v, ts[|ts| - 1].cmds));
    }
  }

  // ----- risk commands

  /** The risk items the commands hold for an id, in order. */
  ghost function RiskItems(cs: seq<EngineCommand>, id: string): Items {
    if |cs| == 0 then []
    else
      var rest, c := cs[..|cs| - 1], cs[|cs| - 1];
      RiskItems(rest, id) + RiskOf(c, id)
  }

  ghost function RiskOf(c: EngineCommand, id: string): Items {
    if c.command == RISK && c.spreadid == id then c.items else []
  }

  lemma OneRiskCommand(w: Watch, c: EngineCommand, id: string)
    requires Keyed(w.positions) && id in w.positions
    requires c.spreadid == id ==> c.command != MARKET && c.command != CANCEL
    ensures var v := DoCommand(w, c);
      id in v.positions && v.positions[id] == AdjustAll(w.positions[id], RiskOf(c, id))
  {
  }

  /** Unless a command ends its watch, a position is adjusted by all items of the risk commands that
      name it, in order, and by nothing else. */
  lemma {:induction false} RiskCommandsAddUp(w: Watch, cs: seq<EngineCommand>, id: string)
    requires Tracked(w, false) && id in w.positions
    requires forall c :: c in cs && c.spreadid == id ==> c.command != MARKET && c.command != CANCEL
    ensures var v := DoCommands(w, cs);
      id in v.positions && v.positions[id] == AdjustAll(w.positions[id], RiskItems(cs, id))
  {
    if |cs| > 0 {
      var rest, c := cs[..|cs| - 1], cs[|cs| - 1];
      assert forall d :: d in rest ==> d in cs;
      assert c in cs;
      RiskCommandsAddUp(w, rest, id);
      CommandsTracked(w, rest, false);
      OneRiskCommand(DoCommands(w, rest), c, id);
      AdjustAppend(w.positions[id], RiskItems(rest, id), RiskOf(c, id));
    }
  }

  // ----- registrations come after the commands

  /** Whatever the turn's commands name, every id the turn registers is watched when its visits start,
      as its last registration has it. */
  lemma RegisteredIsWatched(w: Watch, t: Turn, i: nat)
    requires i < |t.regs| && IsLast(t.regs, i)
    ensures var d, r := Drained(w, t).positions, t.regs[i];
      r.p.posid in d && Brings(r, Updates(DoCommands(w, t.cmds).positions, t.regs, i), d[r.p.posid])
  {
    var w1 := DoCommands(w, t.cmds);
    RegisteredLast(w1.(quotes := PutBooks(w1.quotes, t.books)), t.regs, i);
  }
}
