/** Positions under profit-and-loss watch, and what one pass decides about each of them. */
module PlModel {
  import opened Machine
  import opened Ratios

  datatype Status = NONE | MONITOR_PL | PROFIT_HIT | STOP_HIT | TIMED_OUT | CANCELED | COVERED | WAITING | OTHER

  datatype Leg = Leg(secid: int, spreadmult: real, pricemult: real, tickvalue: real, netpos: int, price: real)

  datatype Book = Book(secid: int, bid: real, ask: real, bidSize: int, askSize: int)

  datatype Risk = Risk(profitTaking: int, stopLoss: int, minutesToLive: int, entrytime: nat, ttl: nat,
                       expiretime: nat, timeleft: int, secondsLeft: int)

  /** Legs in the order of the source's ordered map. */
  datatype Position = Position(posid: string, status: Status, erased: bool, spreadpos: int, totpl: real, plper: Ratio,
                               price: real, mktprice: real, targetprice: real, stoprice: real, risk: Risk,
                               legs: seq<Leg>)

  type Quotes = map<int, Book>

  // ----- unsigned 64-bit time arithmetic

  const I63: nat := 0x8000_0000_0000_0000

  function ToInt64(x: nat): int {
    if x < I63 then x else x - U64
  }

  function MinutesToMicroseconds(minutes: int): nat {
    (minutes % U64) * 60 % U64 * 1000000 % U64
  }

  function TimeToLive(start: nat, ttl: nat, now: nat): int {
    ToInt64(((start + ttl) % U64 - now) % U64)
  }

  lemma Residue(x: int, k: int, r: nat)
    requires x == k * U64 + r && r < U64
    ensures x % U64 == r
  {
  }

  /** Wrapping and scaling commute, so the wrapped total is the exact one modulo 2^64. */
  lemma WrappedMinutes(minutes: int)
    requires -0x8000_0000 <= minutes < 0x8000_0000
    ensures MinutesToMicroseconds(minutes) == if minutes >= 0 then minutes * 60000000 else U64 + minutes * 60000000
  {
    if minutes >= 0 {
      Residue(minutes, 0, minutes);
      Residue(minutes * 60, 0, minutes * 60);
      Residue(minutes * 60 * 1000000, 0, minutes * 60000000);
    } else {
      Residue(minutes, -1, U64 + minutes);
      Residue((U64 + minutes) * 60, 59, U64 + minutes * 60);
      Residue((U64 + minutes * 60) * 1000000, 999999, U64 + minutes * 60000000);
    }
  }

  /** The remaining time, although computed with wrapping, is the exact signed value, for any
      32-bit number of minutes and any timestamps below 2^62. */
  lemma TimeLeftIsExact(entry: nat, minutes: int, now: nat)
    requires -0x8000_0000 <= minutes < 0x8000_0000
    requires entry < 0x4000_0000_0000_0000 && now < 0x4000_0000_0000_0000
    ensures TimeToLive(entry, MinutesToMicroseconds(minutes), now) == entry + 60000000 * minutes - now
  {
    WrappedMinutes(minutes);
    var left := entry + 60000000 * minutes - now;
    var sum := entry + 60000000 * minutes;
    var wrapped := (entry + MinutesToMicroseconds(minutes)) % U64;
    if sum >= 0 {
      Residue(entry + MinutesToMicroseconds(minutes), if minutes >= 0 then 0 else 1, sum);
    } else {
      Residue(entry + MinutesToMicroseconds(minutes), 0, U64 + sum);
    }
    assert wrapped == if sum >= 0 then sum else U64 + sum;
    if left >= 0 {
      Residue(wrapped - now, 0, left);
    } else {
      Residue(wrapped - now, if sum >= 0 then -1 else 0, U64 + left);
    }
  }

  // ----- adjusting risk

  datatype Item = PROFIT_TAKING | STOP_LOSS | MINUTES_TO_LIVE | PUSH_TIME | NO_ITEM

  type Items = seq<(Item, int)>

  function SetMinutes(p: Position, minutes: int): Position {
    var ttl := MinutesToMicroseconds(minutes);
    p.(risk := p.risk.(minutesToLive := minutes, ttl := ttl, expiretime := (p.risk.entrytime + ttl) % U64))
  }

  function AdjustOne(p: Position, item: (Item, int)): Position {
    match item.0
    case PROFIT_TAKING => p.(risk := p.risk.(profitTaking := item.1), targetprice := p.price + item.1 as real)
    case STOP_LOSS => p.(risk := p.risk.(stopLoss := item.1), stoprice := p.price + item.1 as real)
    case MINUTES_TO_LIVE => SetMinutes(p, item.1)
    case PUSH_TIME => SetMinutes(p, p.risk.minutesToLive + item.1)
    case NO_ITEM => p
  }

  function AdjustAll(p: Position, items: Items): Position {
    if |items| == 0 then p else AdjustOne(AdjustAll(p, items[..|items| - 1]), items[|items| - 1])
  }

  lemma {:induction false} AdjustAppend(p: Position, xs: Items, ys: Items)
    ensures AdjustAll(p, xs + ys) == AdjustAll(AdjustAll(p, xs), ys)
  {
    if |ys| == 0 {
      assert xs + ys == xs;
    } else {
      assert (xs + ys)[..|xs + ys| - 1] == xs + ys[..|ys| - 1];
      AdjustAppend(p, xs, ys[..|ys| - 1]);
    }
  }

  /** The position of the last item that sets the minutes outright, or -1. */
  ghost function LastSet(items: Items): (i: int)
    ensures -1 <= i < |items|
    ensures i >= 0 ==> items[i].0 == MINUTES_TO_LIVE
    ensures forall j :: i < j < |items| ==> items[j].0 != MINUTES_TO_LIVE
  {
    if |items| == 0 then -1
    else if items[|items| - 1].0 == MINUTES_TO_LIVE then |items| - 1
    else LastSet(items[..|items| - 1])
  }

  ghost function PushedFrom(items: Items, from: nat): int
    requires from <= |items|
  {
    if from == |items| then 0
    else
      var last := items[|items| - 1];
      PushedFrom(items[..|items| - 1], from) + if last.0 == PUSH_TIME then last.1 else 0
  }

  /** Time fields that agree with each other. */
  predicate TimesAgree(p: Position) {
    && p.risk.ttl == MinutesToMicroseconds(p.risk.minutesToLive)
    && p.risk.expiretime == (p.risk.entrytime + p.risk.ttl) % U64
  }

  /** Any sequence of risk items comes to this: the minutes are the last set value plus all
      pushes after it ... */
  lemma {:induction false} AdjustedMinutes(p: Position, items: Items)
    ensures var i := LastSet(items);
      AdjustAll(p, items).risk.minutesToLive
      == (if i < 0 then p.risk.minutesToLive else items[i].1) + PushedFrom(items, i + 1)
  {
    if |items| > 0 {
      AdjustedMinutes(p, items[..|items| - 1]);
    }
  }

  /** `q` has the identity, legs, status, profit and entry time of `p`. */
  ghost predicate SameButRisk(p: Position, q: Position) {
    && q == p.(risk := q.risk, targetprice := q.targetprice, stoprice := q.stoprice)
    && q.risk.entrytime == p.risk.entrytime && q.risk.timeleft == p.risk.timeleft
  }

  lemma AdjustOneKeeps(p: Position, item: (Item, int))
    ensures SameButRisk(p, AdjustOne(p, item))
    ensures TimesAgree(p) ==> TimesAgree(AdjustOne(p, item))
  {
  }

  /** ... the expiry follows the minutes, and identity, entry time, status and legs stay. */
  lemma {:induction false} AdjustKeeps(p: Position, items: Items)
    ensures SameButRisk(p, AdjustAll(p, items))
    ensures TimesAgree(p) ==> TimesAgree(AdjustAll(p, items))
  {
    if |items| > 0 {
      AdjustKeeps(p, items[..|items| - 1]);
      AdjustOneKeeps(AdjustAll(p, items[..|items| - 1]), items[|items| - 1]);
    }
  }

  // ----- preparing a registered position

  function Abs(x: real): real {
    if x < 0.0 then -x else x
  }

  function AbsInt(x: int): nat {
    if x < 0 then -x else x
  }

  function SpreadPrice(legs: seq<Leg>): real {
    if |legs| == 0 then 0.0
    else
      var leg := legs[|legs| - 1];
      SpreadPrice(legs[..|legs| - 1]) + leg.spreadmult * Abs(leg.pricemult) * leg.price
  }

  /** Each leg overwrites the spread position, so the last one decides it. */
  function SpreadPos(legs: seq<Leg>, before: int): int {
    if |legs| == 0 then before
    else Trunc(legs[|legs| - 1].spreadmult * legs[|legs| - 1].netpos as real)
  }

  function Prepared(p: Position, isnew: bool, now: nat): Position {
    var spread := SpreadPrice(p.legs);
    var q := p.(spreadpos := SpreadPos(p.legs, p.spreadpos));
    var r := if isnew then q.(erased := false, status := MONITOR_PL, totpl := 0.0, price := spread) else q;
    var s := r.(targetprice := spread + p.risk.profitTaking as real, stoprice := spread + p.risk.stopLoss as real,
                risk := r.risk.(entrytime := now));
    SetMinutes(s, p.risk.minutesToLive)
  }

  /** The price bounds lie at the profit and loss distances from the entry price. */
  predicate BoundsAgree(p: Position) {
    && p.targetprice == p.price + p.risk.profitTaking as real
    && p.stoprice == p.price + p.risk.stopLoss as real
  }

  /** Risk items keep the bounds in step with the entry price. */
  lemma {:induction false} AdjustKeepsBounds(p: Position, items: Items)
    requires BoundsAgree(p)
    ensures BoundsAgree(AdjustAll(p, items))
  {
    if |items| > 0 {
      AdjustKeepsBounds(p, items[..|items| - 1]);
    }
  }

  /** A new position starts in step; an update does if and only if the entry price it carries is
      the spread price of its legs, because only a new position's price is set from them. */
  lemma PreparedBounds(p: Position, isnew: bool, now: nat)
    ensures BoundsAgree(Prepared(p, isnew, now)) <==> isnew || p.price == SpreadPrice(p.legs)
  {
    var q := Prepared(p, isnew, now);
    assert q.targetprice == SpreadPrice(p.legs) + p.risk.profitTaking as real;
    assert q.price == if isnew then SpreadPrice(p.legs) else p.price;
  }

  // ----- valuing a position

  predicate GotMktData(b: Book) {
    !((b.bid == 0.0 && b.ask == 0.0) || b.bid > b.ask || b.bidSize == 0 || b.askSize == 0)
  }

  predicate Quoted(leg: Leg, quotes: Quotes) {
    leg.secid in quotes && GotMktData(quotes[leg.secid])
  }

  predicate AllQuoted(legs: seq<Leg>, quotes: Quotes) {
    forall i :: 0 <= i < |legs| ==> Quoted(legs[i], quotes)
  }

  /** The price a leg would be closed at: longs at the bid, shorts (and flats) at the ask. */
  function ClosePrice(leg: Leg, quotes: Quotes): real
    requires leg.secid in quotes
  {
    if leg.netpos > 0 then quotes[leg.secid].bid else quotes[leg.secid].ask
  }

  function LegPL(leg: Leg, quotes: Quotes): real
    requires leg.secid in quotes
  {
    leg.netpos as real * (ClosePrice(leg, quotes) - leg.price) * leg.tickvalue
  }

  function TotalPL(legs: seq<Leg>, quotes: Quotes): real
    requires AllQuoted(legs, quotes)
  {
    if |legs| == 0 then 0.0 else TotalPL(legs[..|legs| - 1], quotes) + LegPL(legs[|legs| - 1], quotes)
  }

  function MarketPrice(legs: seq<Leg>, quotes: Quotes): real
    requires AllQuoted(legs, quotes)
  {
    if |legs| == 0 then 0.0
    else
      var leg := legs[|legs| - 1];
      MarketPrice(legs[..|legs| - 1], quotes) + leg.spreadmult * Abs(leg.pricemult) * ClosePrice(leg, quotes)
  }

  // ----- one position in one pass

  datatype Signal = MKT | TIMERHIT | PROFITTAKE | STOPLOSS

  /** What the monitor tells the outside. */
  datatype Event = Adding(posid: string) | Report(p: Position) | OnPL(p: Position, signal: Signal)

  predicate Terminal(s: Status) {
    s == PROFIT_HIT || s == STOP_HIT || s == TIMED_OUT || s == CANCELED || s == COVERED
  }

  /** The position marked to market, or set waiting when a leg lacks a usable quote. */
  function Marked(p: Position, quotes: Quotes): Position {
    if !AllQuoted(p.legs, quotes) then p.(status := WAITING)
    else
      p.(status := if p.status == WAITING then MONITOR_PL else p.status,
         totpl := TotalPL(p.legs, quotes), mktprice := MarketPrice(p.legs, quotes),
         plper := Divide(TotalPL(p.legs, quotes), AbsInt(p.spreadpos)))
  }

  function Timed(q: Position, now: nat): Position {
    var left := TimeToLive(q.risk.entrytime, q.risk.ttl, now);
    q.(risk := q.risk.(timeleft := left, secondsLeft := if left >= 0 then left / 1000000 else -(-left / 1000000)))
  }

  /** The position as the pass leaves it, were it to stay: the remaining time is only
      refreshed for a position under watch. */
  function Valued(p: Position, quotes: Quotes, now: nat): Position {
    if Watched(p, quotes) then Timed(Marked(p, quotes), now) else Marked(p, quotes)
  }

  predicate Watched(p: Position, quotes: Quotes) {
    AllQuoted(p.legs, quotes) && (p.status == MONITOR_PL || p.status == WAITING)
  }

  function ExitEvents(q: Position, hit: bool, status: Status, signal: Signal): seq<Event> {
    if hit then [OnPL(q.(status := status), signal), Report(q.(status := status))] else []
  }

  /** The three exit checks are independent of each other. */
  function Exits(q: Position): seq<Event> {
    ExitEvents(q, q.risk.timeleft <= 0, TIMED_OUT, TIMERHIT)
    + ExitEvents(q, AtLeast(q.plper, q.risk.profitTaking), PROFIT_HIT, PROFITTAKE)
    + ExitEvents(q, AtMost(q.plper, q.risk.stopLoss), STOP_HIT, STOPLOSS)
  }

  predicate Hit(q: Position) {
    q.risk.timeleft <= 0 || AtLeast(q.plper, q.risk.profitTaking) || AtMost(q.plper, q.risk.stopLoss)
  }

  predicate Leaves(p: Position, quotes: Quotes, now: nat) {
    Watched(p, quotes) && Hit(Valued(p, quotes, now))
  }

  /** The mark is reported before the remaining time is refreshed. */
  function PassEvents(p: Position, quotes: Quotes, now: nat): seq<Event> {
    [Report(Marked(p, quotes))] + if Watched(p, quotes) then Exits(Valued(p, quotes, now)) else []
  }

  /** The bounds without division, per spread held; with no spread position any profit hits
      the profit bound and any loss the loss bound. */
  ghost predicate BoundReached(p: Position, pl: real) {
    var n := AbsInt(p.spreadpos);
    if n == 0 then pl != 0.0
    else pl >= p.risk.profitTaking as real * n as real || pl <= p.risk.stopLoss as real * n as real
  }

  /** When a position is closed, exactly: every leg has a usable quote, it is being watched, and
      either its time is up or its profit, summed over all legs, reaches a bound. */
  lemma ExitDecision(p: Position, quotes: Quotes, now: nat)
    requires TimesAgree(p) && -0x8000_0000 <= p.risk.minutesToLive < 0x8000_0000
    requires p.risk.entrytime < 0x4000_0000_0000_0000 && now < 0x4000_0000_0000_0000
    ensures Leaves(p, quotes, now) <==>
      && AllQuoted(p.legs, quotes) && (p.status == MONITOR_PL || p.status == WAITING)
      && (p.risk.entrytime + 60000000 * p.risk.minutesToLive <= now || BoundReached(p, TotalPL(p.legs, quotes)))
  {
    if Watched(p, quotes) {
      var pl := TotalPL(p.legs, quotes);
      var q := Marked(p, quotes);
      assert Valued(p, quotes, now).risk.timeleft == p.risk.entrytime + 60000000 * p.risk.minutesToLive - now by {
        TimeLeftIsExact(p.risk.entrytime, p.risk.minutesToLive, now);
        assert q.risk == p.risk;
      }
      assert Valued(p, quotes, now).plper == q.plper == Divide(pl, AbsInt(p.spreadpos));
      BoundsWithoutDivision(p, pl);
    }
  }

  lemma BoundsWithoutDivision(p: Position, pl: real)
    ensures var q := Divide(pl, AbsInt(p.spreadpos));
      AtLeast(q, p.risk.profitTaking) || AtMost(q, p.risk.stopLoss) <==> BoundReached(p, pl)
  {
    var n := AbsInt(p.spreadpos);
    DivideCompares(pl, n, p.risk.profitTaking);
    DivideCompares(pl, n, p.risk.stopLoss);
  }

  /** The status a signal goes out with. */
  ghost function StatusFor(signal: Signal): Status {
    match signal
    case TIMERHIT => TIMED_OUT
    case PROFITTAKE => PROFIT_HIT
    case STOPLOSS => STOP_HIT
    case MKT => COVERED
  }

  lemma SignalsAre(q: Position, e: Event)
    requires e in Exits(q)
    ensures e.OnPL? ==>
      && e.p == q.(status := StatusFor(e.signal))
      && (e.signal == TIMERHIT ==> q.risk.timeleft <= 0)
      && (e.signal == PROFITTAKE ==> AtLeast(q.plper, q.risk.profitTaking))
      && (e.signal == STOPLOSS ==> AtMost(q.plper, q.risk.stopLoss))
      && e.signal != MKT
  {
  }

  ghost predicate Signals(ev: seq<Event>, signal: Signal) {
    exists p :: OnPL(p, signal) in ev
  }

  /** Which signals a pass sends, exactly, and in which state of the position.  Without usable
      quotes nothing is decided: the position waits, profit and price unchanged. */
  lemma SignalsExactly(p: Position, quotes: Quotes, now: nat)
    ensures var ev, q := PassEvents(p, quotes, now), Valued(p, quotes, now);
      && (Signals(ev, TIMERHIT) <==> Watched(p, quotes) && q.risk.timeleft <= 0)
      && (Signals(ev, PROFITTAKE) <==> Watched(p, quotes) && AtLeast(q.plper, q.risk.profitTaking))
      && (Signals(ev, STOPLOSS) <==> Watched(p, quotes) && AtMost(q.plper, q.risk.stopLoss))
      && (forall e :: e in ev && e.OnPL? ==>
            e.p == q.(status := StatusFor(e.signal)) && e.p.totpl == TotalPL(p.legs, quotes))
      && (!AllQuoted(p.legs, quotes) ==> q == p.(status := WAITING) && ev == [Report(p.(status := WAITING))])
  {
    var ev, q := PassEvents(p, quotes, now), Valued(p, quotes, now);
    if Watched(p, quotes) {
      var x := Exits(q);
      assert ev == [Report(Marked(p, quotes))] + x;
      forall e | e in ev && e.OnPL?
        ensures e in x
      {
      }
      forall e | e in x
        ensures e.OnPL? ==> e.p == q.(status := StatusFor(e.signal))
      {
        SignalsAre(q, e);
      }
      ExitsContain(q);
      forall signal, r | OnPL(r, signal) in x
        ensures signal == TIMERHIT ==> q.risk.timeleft <= 0
        ensures signal == PROFITTAKE ==> AtLeast(q.plper, q.risk.profitTaking)
        ensures signal == STOPLOSS ==> AtMost(q.plper, q.risk.stopLoss)
      {
        SignalsAre(q, OnPL(r, signal));
      }
    }
  }

  lemma ExitsContain(q: Position)
    ensures q.risk.timeleft <= 0 ==> OnPL(q.(status := TIMED_OUT), TIMERHIT) in Exits(q)
    ensures AtLeast(q.plper, q.risk.profitTaking) ==> OnPL(q.(status := PROFIT_HIT), PROFITTAKE) in Exits(q)
    ensures AtMost(q.plper, q.risk.stopLoss) ==> OnPL(q.(status := STOP_HIT), STOPLOSS) in Exits(q)
  {
    var a := ExitEvents(q, q.risk.timeleft <= 0, TIMED_OUT, TIMERHIT);
    var b := ExitEvents(q, AtLeast(q.plper, q.risk.profitTaking), PROFIT_HIT, PROFITTAKE);
    var c := ExitEvents(q, AtMost(q.plper, q.risk.stopLoss), STOP_HIT, STOPLOSS);
    assert Exits(q) == a + b + c;
    assert q.risk.timeleft <= 0 ==> a[0] == OnPL(q.(status := TIMED_OUT), TIMERHIT);
    assert AtLeast(q.plper, q.risk.profitTaking) ==> b[0] == OnPL(q.(status := PROFIT_HIT), PROFITTAKE);
    assert AtMost(q.plper, q.risk.stopLoss) ==> c[0] == OnPL(q.(status := STOP_HIT), STOPLOSS);
  }
}
