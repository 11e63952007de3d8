/** The profit-and-loss monitor: its loop over drained commands, books and positions. */
module PLMonitor {
  import opened Machine
  import opened PlModel
  import opened Ratios

  datatype CommandKind = MARKET | CANCEL | RISK | NO_COMMAND

  datatype EngineCommand = EngineCommand(spreadid: string, command: CommandKind, items: Items)

  /** A registered position, with the clock reading made when it is drained. */
  datatype Registration = Registration(p: Position, now: nat)

  type Positions = map<string, Position>

  /** What one turn of the loop takes from its three queues, the order in which it visits the
      positions, and the clock reading made at each. */
  datatype Turn = Turn(cmds: seq<EngineCommand>, books: seq<Book>, regs: seq<Registration>,
                       order: seq<string>, clock: string -> nat)

  datatype Watch = Watch(quotes: Quotes, positions: Positions, log: seq<Event>)

  // ----- the loop's stages on values

  function DoCommand(w: Watch, c: EngineCommand): Watch {
    if c.spreadid !in w.positions then w
    else
      var p := w.positions[c.spreadid];
      match c.command
      case MARKET =>
        var q := p.(status := COVERED);
        w.(log := w.log + [OnPL(q, MKT), Report(q)], positions := w.positions - {q.posid})
      case CANCEL => w.(log := w.log + [Report(p.(status := CANCELED))], positions := w.positions - {c.spreadid})
      case RISK => w.(positions := w.positions[c.spreadid := AdjustAll(p, c.items)])
      case NO_COMMAND => w
  }

  function DoCommands(w: Watch, cs: seq<EngineCommand>): Watch {
    if |cs| == 0 then w else DoCommand(DoCommands(w, cs[..|cs| - 1]), cs[|cs| - 1])
  }

  function PutBooks(q: Quotes, bs: seq<Book>): Quotes {
    if |bs| == 0 then q else PutBooks(q, bs[..|bs| - 1])[bs[|bs| - 1].secid := bs[|bs| - 1]]
  }

  function Register(w: Watch, r: Registration): Watch {
    w.(log := w.log + [Adding(r.p.posid)],
       positions := w.positions[r.p.posid := Prepared(r.p, r.p.posid !in w.positions, r.now)])
  }

  function RegisterAll(w: Watch, rs: seq<Registration>): Watch {
    if |rs| == 0 then w else Register(RegisterAll(w, rs[..|rs| - 1]), rs[|rs| - 1])
  }

  function Visit(w: Watch, id: string, now: nat): Watch
    requires id in w.positions
  {
    var p := w.positions[id];
    w.(log := w.log + PassEvents(p, w.quotes, now),
       positions := if Leaves(p, w.quotes, now) then w.positions - {id}
                    else w.positions[id := Valued(p, w.quotes, now)])
  }

  /** A visit, case by case. */
  lemma VisitCases(w: Watch, id: string, now: nat)
    requires id in w.positions
    ensures var p := w.positions[id];
      var m := Marked(p, w.quotes);
      var q := Timed(m, now);
      Visit(w, id, now) ==
      if !Watched(p, w.quotes) then w.(log := w.log + [Report(m)], positions := w.positions[id := m])
      else
        w.(log := w.log + [Report(m)] + Exits(q),
           positions := if Hit(q) then w.positions - {id} else w.positions[id := q])
  {
    var m := Marked(w.positions[id], w.quotes);
    assert [Report(m)] + [] == [Report(m)];
    assert w.log + [Report(m)] + Exits(Timed(m, now)) == w.log + ([Report(m)] + Exits(Timed(m, now)));
  }

  /** A visit order: every watched position once. */
  ghost predicate Visits(order: seq<string>, positions: Positions) {
    && (forall id :: id in order <==> id in positions)
    && (forall i, j :: 0 <= i < j < |order| ==> order[i] != order[j])
  }

  function VisitAll(w: Watch, order: seq<string>, clock: string -> nat): Watch {
    if |order| == 0 then w
    else
      var id := order[|order| - 1];
      var v := VisitAll(w, order[..|order| - 1], clock);
      if id in v.positions then Visit(v, id, clock(id)) else v
  }

  /** The state the visits of a turn start from. */
  function Drained(w: Watch, t: Turn): Watch {
    var w1 := DoCommands(w, t.cmds);
    RegisterAll(w1.(quotes := PutBooks(w1.quotes, t.books)), t.regs)
  }

  function DoTurn(w: Watch, t: Turn): Watch {
    VisitAll(Drained(w, t), t.order, t.clock)
  }

  /** The state after a run of turns. */
  function After(w: Watch, ts: seq<Turn>): Watch {
    if |ts| == 0 then w else DoTurn(After(w, ts[..|ts| - 1]), ts[|ts| - 1])
  }

  /** Every turn visits the positions it finds, in some order. */
  ghost predicate Proper(w: Watch, ts: seq<Turn>) {
    |ts| > 0 ==>
      var rest, t := ts[..|ts| - 1], ts[|ts| - 1];
      Proper(w, rest) && Visits(t.order, Drained(After(w, rest), t).positions)
  }

  // ----- the loop as it is written

  class PLMonitor {
    var quotes: Quotes
    var positions: Positions
    var log: seq<Event>

    function View(): Watch
      reads this
    {
      Watch(quotes, positions, log)
    }

    constructor ()
      ensures View() == Watch(map[], map[], [])
    {
      quotes, positions, log := map[], map[], [];
    }

    /** The leg loop of `Prepare`: the spread's entry price, and the last leg's spread position. */
    method SumEntry(legs: seq<Leg>, before: int) returns (spreadpos: int, spreadprice: real)
      ensures spreadpos == SpreadPos(legs, before) && spreadprice == SpreadPrice(legs)
    {
      spreadpos, spreadprice := before, 0.0;
      for i := 0 to |legs|
        invariant spreadprice == SpreadPrice(legs[..i]) && spreadpos == SpreadPos(legs[..i], before)
      {
        assert legs[..i + 1][..i] == legs[..i];
        spreadpos := Trunc(legs[i].spreadmult * legs[i].netpos as real);
        spreadprice := spreadprice + legs[i].spreadmult * Abs(legs[i].pricemult) * legs[i].price;
      }
      assert legs[..|legs|] == legs;
    }

    method Prepare(p: Position, isnew: bool, now: nat) returns (pos: Position)
      ensures pos == Prepared(p, isnew, now)
    {
      var spreadpos, spreadprice := SumEntry(p.legs, p.spreadpos);
      pos := p.(spreadpos := spreadpos);
      if isnew {
        pos := pos.(erased := false, status := MONITOR_PL, totpl := 0.0, price := spreadprice);
      }
      pos := pos.(targetprice := spreadprice + pos.risk.profitTaking as real);
      pos := pos.(stoprice := spreadprice + pos.risk.stopLoss as real);
      pos := pos.(risk := pos.risk.(entrytime := now));
      pos := SetTime(pos, pos.risk.minutesToLive);
    }

    method SetTime(p: Position, minutes: int) returns (pos: Position)
      ensures pos == SetMinutes(p, minutes)
    {
      pos := p.(risk := p.risk.(minutesToLive := minutes));
      pos := pos.(risk := pos.risk.(ttl := MinutesToMicroseconds(pos.risk.minutesToLive)));
      pos := pos.(risk := pos.risk.(expiretime := (pos.risk.entrytime + pos.risk.ttl) % U64));
    }

    method Adjust(p: Position, items: Items) returns (pos: Position)
      ensures pos == AdjustAll(p, items)
    {
      pos := p;
      for i := 0 to |items|
        invariant pos == AdjustAll(p, items[..i])
      {
        assert items[..i + 1][..i] == items[..i];
        var (item, v) := items[i];
        if item == PROFIT_TAKING {
          pos := pos.(risk := pos.risk.(profitTaking := v), targetprice := pos.price + v as real);
        }
        if item == STOP_LOSS {
          pos := pos.(risk := pos.risk.(stopLoss := v), stoprice := pos.price + v as real);
        }
        if item == MINUTES_TO_LIVE {
          pos := SetTime(pos, v);
        }
        if item == PUSH_TIME {
          pos := SetTime(pos, pos.risk.minutesToLive + v);
        }
      }
      assert items[..|items|] == items;
    }

    method DrainCommands(cmds: seq<EngineCommand>)
      modifies this
      ensures View() == DoCommands(old(View()), cmds)
    {
      for i := 0 to |cmds|
        invariant View() == DoCommands(old(View()), cmds[..i])
      {
        assert cmds[..i + 1][..i] == cmds[..i];
        var cmd := cmds[i];
        if cmd.spreadid !in positions {
          continue;
        }
        if cmd.command == MARKET {
          var p := positions[cmd.spreadid].(status := COVERED);
          log := log + [OnPL(p, MKT), Report(p)];
          positions := positions - {p.posid};
        } else if cmd.command == CANCEL {
          var p := positions[cmd.spreadid].(status := CANCELED);
          log := log + [Report(p)];
          positions := positions - {cmd.spreadid};
        } else if cmd.command == RISK {
          var p := Adjust(positions[cmd.spreadid], cmd.items);
          positions := positions[cmd.spreadid := p];
        }
      }
      assert cmds[..|cmds|] == cmds;
    }

    method DrainBooks(books: seq<Book>)
      modifies this`quotes
      ensures quotes == PutBooks(old(quotes), books)
    {
      for i := 0 to |books|
        invariant quotes == PutBooks(old(quotes), books[..i])
      {
        assert books[..i + 1][..i] == books[..i];
        quotes := quotes[books[i].secid := books[i]];
      }
      assert books[..|books|] == books;
    }

    method DrainPositions(regs: seq<Registration>)
      modifies this
      ensures View() == RegisterAll(old(View()), regs)
    {
      for i := 0 to |regs|
        invariant View() == RegisterAll(old(View()), regs[..i])
      {
        assert regs[..i + 1][..i] == regs[..i];
        var p := regs[i].p;
        var isnew := p.posid !in positions;
        log := log + [Adding(p.posid)];
        p := Prepare(p, isnew, regs[i].now);
        positions := positions[p.posid := p];
      }
      assert regs[..|regs|] == regs;
    }

    /** The leg loop: it stops at the first leg without a usable quote.  Counting the legs it
        got through tells whether the sums are complete; only then do they mean anything. */
    method SumLegs(legs: seq<Leg>) returns (chksum: nat, temp: real, spreadprice: real)
      ensures chksum <= |legs|
      ensures chksum == |legs| <==> AllQuoted(legs, quotes)
      ensures chksum == |legs| ==> temp == TotalPL(legs, quotes) && spreadprice == MarketPrice(legs, quotes)
    {
      chksum, temp, spreadprice := 0, 0.0, 0.0;
      for i := 0 to |legs|
        invariant chksum == i && AllQuoted(legs[..i], quotes)
        invariant temp == TotalPL(legs[..i], quotes) && spreadprice == MarketPrice(legs[..i], quotes)
      {
        var leg := legs[i];
        assert !Quoted(leg, quotes) ==> !AllQuoted(legs, quotes);
        if leg.secid !in quotes {
          break;
        }
        if !GotMktData(quotes[leg.secid]) {
          break;
        }
        assert legs[..i + 1][..i] == legs[..i];
        chksum := chksum + 1;
        var bid, ask := quotes[leg.secid].bid, quotes[leg.secid].ask;
        var plprice := if leg.netpos > 0 then bid else ask;
        var pl := leg.netpos as real * ((if leg.netpos > 0 then bid else ask) - leg.price) * leg.tickvalue;
        temp := temp + pl;
        spreadprice := spreadprice + leg.spreadmult * Abs(leg.pricemult) * plprice;
      }
      assert legs[..|legs|] == legs;
    }

    /** Mark one position to market, or make it wait. */
    method Mark(p: Position) returns (pos: Position, complete: bool)
      ensures pos == Marked(p, quotes)
      ensures complete <==> AllQuoted(p.legs, quotes)
    {
      pos := p;
      var chksum, temp, spreadprice := SumLegs(pos.legs);
      complete := chksum == |pos.legs|;
      if !complete {
        pos := pos.(status := WAITING);
        return;
      }
      if pos.status == WAITING {
        pos := pos.(status := MONITOR_PL);
      }
      pos := pos.(totpl := temp);
      pos := pos.(mktprice := spreadprice);
      pos := pos.(plper := Divide(pos.totpl, AbsInt(pos.spreadpos)));
    }

    /** The body of the loop over the watched positions.  The element is still read after it
        has been erased, so each of the three exits is checked whatever the others did. */
    method VisitPosition(id: string, now: nat)
      requires id in positions
      modifies this
      ensures View() == Visit(old(View()), id, now)
    {
      VisitCases(View(), id, now);
      var pos, complete := Mark(positions[id]);
      positions := positions[id := pos];
      log := log + [Report(pos)];
      if !complete || pos.status != MONITOR_PL {
        return;
      }
      pos := Refresh(pos, now);
      positions := positions[id := pos];
      assert positions - {id} == old(positions) - {id} && positions == old(positions)[id := pos];
      Exit(id, pos);
    }

    method Refresh(p: Position, now: nat) returns (pos: Position)
      ensures pos == Timed(p, now)
    {
      var ttl := TimeToLive(p.risk.entrytime, p.risk.ttl, now);
      pos := p.(risk := p.risk.(timeleft := ttl));
      pos := pos.(risk := pos.risk.(secondsLeft := if ttl >= 0 then ttl / 1000000 else -(-ttl / 1000000)));
    }

    method Exit(id: string, pos: Position)
      modifies this
      ensures quotes == old(quotes) && log == old(log) + Exits(pos)
      ensures positions == if Hit(pos) then old(positions) - {id} else old(positions)
    {
      if pos.risk.timeleft <= 0 {
        var p := pos.(status := TIMED_OUT);
        log := log + [OnPL(p, TIMERHIT), Report(p)];
        positions := positions - {id};
      }
      if AtLeast(pos.plper, pos.risk.profitTaking) {
        var p := pos.(status := PROFIT_HIT);
        log := log + [OnPL(p, PROFITTAKE), Report(p)];
        positions := positions - {id};
      }
      if AtMost(pos.plper, pos.risk.stopLoss) {
        var p := pos.(status := STOP_HIT);
        log := log + [OnPL(p, STOPLOSS), Report(p)];
        positions := positions - {id};
      }
    }

    /** One turn of the thread's loop. */
    method Turn(t: Turn)
      modifies this
      ensures View() == DoTurn(old(View()), t)
    {
      DrainCommands(t.cmds);
      DrainBooks(t.books);
      DrainPositions(t.regs);
      ghost var w := View();
      for i := 0 to |t.order|
        invariant View() == VisitAll(w, t.order[..i], t.clock)
      {
        assert t.order[..i + 1][..i] == t.order[..i];
        if t.order[i] in positions {
          VisitPosition(t.order[i], t.clock(t.order[i]));
        }
      }
      assert t.order[..|t.order|] == t.order;
    }
  }
}
