/** What the monitor's figures mean: marks, prices, bounds, lifetimes and the order of signals. */
module PlLaws {
  import opened Machine
  import opened Ratios
  import opened PlModel

  // ----- marking a position

  /** What a leg weighs in its spread's price at price `x`. */
  ghost function LegValue(leg: Leg, x: real): real {
    leg.spreadmult * Abs(leg.pricemult) * x
  }

  /** One leg more, in profit, market price and entry price. */
  lemma LastLeg(legs: seq<Leg>, quotes: Quotes)
    requires |legs| > 0 && AllQuoted(legs, quotes)
    ensures var rest, leg := legs[..|legs| - 1], legs[|legs| - 1];
      && TotalPL(legs, quotes) == TotalPL(rest, quotes) + LegPL(leg, quotes)
      && MarketPrice(legs, quotes) == MarketPrice(rest, quotes) + LegValue(leg, ClosePrice(leg, quotes))
      && SpreadPrice(legs) == SpreadPrice(rest) + LegValue(leg, leg.price)
  {
  }

  /** One price per leg, anywhere between the leg's bid and its ask. */
  ghost predicate Inside(legs: seq<Leg>, quotes: Quotes, xs: seq<real>)
    requires AllQuoted(legs, quotes)
  {
    && |xs| == |legs|
    && forall i :: 0 <= i < |legs| ==> quotes[legs[i].secid].bid <= xs[i] <= quotes[legs[i].secid].ask
  }

  /** Profit and spread price with leg `i` priced at `xs[i]`. */
  ghost function ProfitAt(legs: seq<Leg>, xs: seq<real>): real
    requires |xs| == |legs|
  {
    if |legs| == 0 then 0.0
    else
      var k := |legs| - 1;
      ProfitAt(legs[..k], xs[..k]) + legs[k].netpos as real * (xs[k] - legs[k].price) * legs[k].tickvalue
  }

  ghost function PriceAt(legs: seq<Leg>, xs: seq<real>): real
    requires |xs| == |legs|
  {
    if |legs| == 0 then 0.0
    else
      var k := |legs| - 1;
      PriceAt(legs[..k], xs[..k]) + LegValue(legs[k], xs[k])
  }

  ghost predicate TicksArePositive(legs: seq<Leg>) {
    forall i :: 0 <= i < |legs| ==> legs[i].tickvalue >= 0.0
  }

  /** Longs carry a positive multiplier, everything else a negative one (or none). */
  ghost predicate SignsAgree(legs: seq<Leg>) {
    forall i :: 0 <= i < |legs| ==> if legs[i].netpos > 0 then legs[i].spreadmult >= 0.0 else legs[i].spreadmult <= 0.0
  }

  lemma Scaled(a: real, b: real, c: real)
    requires a <= b && c >= 0.0
    ensures c * a <= c * b && a * c <= b * c
  {
    assert c * (b - a) >= 0.0;
  }

  lemma Flipped(a: real, b: real, c: real)
    requires b <= a && c <= 0.0
    ensures c * a <= c * b
  {
    assert c * (b - a) >= 0.0;
  }

  lemma LegIsConservative(leg: Leg, quotes: Quotes, x: real)
    requires leg.secid in quotes && quotes[leg.secid].bid <= x <= quotes[leg.secid].ask && leg.tickvalue >= 0.0
    ensures LegPL(leg, quotes) <= leg.netpos as real * (x - leg.price) * leg.tickvalue
  {
    var n, c := leg.netpos as real, ClosePrice(leg, quotes);
    assert n * (c - leg.price) <= n * (x - leg.price) by {
      if leg.netpos > 0 {
        Scaled(c - leg.price, x - leg.price, n);
      } else {
        Flipped(c - leg.price, x - leg.price, n);
      }
    }
    Scaled(n * (c - leg.price), n * (x - leg.price), leg.tickvalue);
  }

  /** Marking is conservative: no prices inside the market give a lower profit ... */
  lemma {:induction false} ProfitIsLeast(legs: seq<Leg>, quotes: Quotes, xs: seq<real>)
    requires AllQuoted(legs, quotes) && Inside(legs, quotes, xs) && TicksArePositive(legs)
    ensures TotalPL(legs, quotes) <= ProfitAt(legs, xs)
  {
    if |legs| > 0 {
      var k := |legs| - 1;
      ProfitIsLeast(legs[..k], quotes, xs[..k]);
      LegIsConservative(legs[k], quotes, xs[k]);
    }
  }

  lemma LegPriceIsConservative(leg: Leg, quotes: Quotes, x: real)
    requires leg.secid in quotes && quotes[leg.secid].bid <= x <= quotes[leg.secid].ask
    requires if leg.netpos > 0 then leg.spreadmult >= 0.0 else leg.spreadmult <= 0.0
    ensures LegValue(leg, ClosePrice(leg, quotes)) <= LegValue(leg, x)
  {
    var m := leg.spreadmult * Abs(leg.pricemult);
    if leg.netpos > 0 {
      assert m >= 0.0;
      Scaled(ClosePrice(leg, quotes), x, m);
    } else {
      assert m <= 0.0;
      Flipped(ClosePrice(leg, quotes), x, m);
    }
  }

  /** ... nor, where multipliers and positions agree in sign, a lower market price. */
  lemma {:induction false} PriceIsLeast(legs: seq<Leg>, quotes: Quotes, xs: seq<real>)
    requires AllQuoted(legs, quotes) && Inside(legs, quotes, xs) && SignsAgree(legs)
    ensures MarketPrice(legs, quotes) <= PriceAt(legs, xs)
  {
    if |legs| > 0 {
      var k := |legs| - 1;
      PriceIsLeast(legs[..k], quotes, xs[..k]);
      LastLeg(legs, quotes);
      LegPriceIsConservative(legs[k], quotes, xs[k]);
    }
  }

  /** Both are reached inside the market, because a usable quote is not crossed. */
  lemma {:induction false} LeastIsReached(legs: seq<Leg>, quotes: Quotes) returns (xs: seq<real>)
    requires AllQuoted(legs, quotes)
    ensures Inside(legs, quotes, xs)
    ensures TotalPL(legs, quotes) == ProfitAt(legs, xs) && MarketPrice(legs, quotes) == PriceAt(legs, xs)
  {
    xs := [];
    if |legs| > 0 {
      var k := |legs| - 1;
      var rest := LeastIsReached(legs[..k], quotes);
      LastLeg(legs, quotes);
      xs := rest + [ClosePrice(legs[k], quotes)];
      assert xs[..k] == rest;
      forall i | 0 <= i < |legs|
        ensures quotes[legs[i].secid].bid <= xs[i] <= quotes[legs[i].secid].ask
      {
        if i < k {
          assert legs[..k][i] == legs[i] && xs[i] == rest[i];
        } else {
          assert Quoted(legs[k], quotes);
        }
      }
    }
  }

  // ----- profit and price

  /** Every leg holds `units` of the spread, in money. */
  ghost predicate HoldsUnits(legs: seq<Leg>, units: real) {
    forall i :: 0 <= i < |legs| ==>
      legs[i].netpos as real * legs[i].tickvalue == units * (legs[i].spreadmult * Abs(legs[i].pricemult))
  }

  /** A profit is a move from an entry value, times the units. */
  ghost predicate IsMove(units: real, profit: real, now: real, entry: real) {
    profit == units * (now - entry)
  }

  lemma LegMoves(leg: Leg, quotes: Quotes, units: real)
    requires leg.secid in quotes
    requires leg.netpos as real * leg.tickvalue == units * (leg.spreadmult * Abs(leg.pricemult))
    ensures IsMove(units, LegPL(leg, quotes), LegValue(leg, ClosePrice(leg, quotes)), LegValue(leg, leg.price))
  {
    var n, tick, m := leg.netpos as real, leg.tickvalue, leg.spreadmult * Abs(leg.pricemult);
    var c := ClosePrice(leg, quotes);
    var d := c - leg.price;
    assert n * d * tick == (n * tick) * d;
    assert units * m * d == units * (m * d);
    assert m * d == m * c - m * leg.price;
  }

  lemma MovesAdd(units: real, t: real, a: real, b: real, t': real, a': real, b': real)
    requires IsMove(units, t, a, b) && IsMove(units, t', a', b')
    ensures IsMove(units, t + t', a + a', b + b')
  {
    assert units * (a - b + (a' - b')) == units * (a - b) + units * (a' - b');
  }

  /** The profit of a spread held evenly is what its price has moved since entry. */
  lemma {:induction false} ProfitIsPriceMove(legs: seq<Leg>, quotes: Quotes, units: real)
    requires AllQuoted(legs, quotes) && HoldsUnits(legs, units)
    ensures IsMove(units, TotalPL(legs, quotes), MarketPrice(legs, quotes), SpreadPrice(legs))
  {
    if |legs| > 0 {
      var rest, leg := legs[..|legs| - 1], legs[|legs| - 1];
      ProfitIsPriceMove(rest, quotes, units);
      LegMoves(leg, quotes, units);
      LastLeg(legs, quotes);
      MovesAdd(units, TotalPL(rest, quotes), MarketPrice(rest, quotes), SpreadPrice(rest),
               LegPL(leg, quotes), LegValue(leg, ClosePrice(leg, quotes)), LegValue(leg, leg.price));
    }
  }

  /** What a pass leaves in a position that can be valued: the least profit and market price inside the
      market, and, for a spread held evenly, a profit that is the move from its legs' entry price. */
  lemma MarkMeans(p: Position, quotes: Quotes, now: nat, xs: seq<real>, units: real)
    requires AllQuoted(p.legs, quotes) && Inside(p.legs, quotes, xs)
    ensures var q := Valued(p, quotes, now);
      && (TicksArePositive(p.legs) ==> q.totpl <= ProfitAt(p.legs, xs))
      && (SignsAgree(p.legs) ==> q.mktprice <= PriceAt(p.legs, xs))
      && (HoldsUnits(p.legs, units) ==> IsMove(units, q.totpl, q.mktprice, SpreadPrice(p.legs)))
  {
    if TicksArePositive(p.legs) {
      ProfitIsLeast(p.legs, quotes, xs);
    }
    if SignsAgree(p.legs) {
      PriceIsLeast(p.legs, quotes, xs);
    }
    if HoldsUnits(p.legs, units) {
      ProfitIsPriceMove(p.legs, quotes, units);
    }
  }

  /** Whether price multipliers are quoted as positive or negative does not matter, and a leg with a
      unit multiplier weighs its own price. */
  lemma {:induction false} PricemultSign(legs: seq<Leg>, flipped: seq<Leg>)
    requires |flipped| == |legs|
    requires forall i :: 0 <= i < |legs| ==> flipped[i] == legs[i].(pricemult := -legs[i].pricemult)
    ensures SpreadPrice(flipped) == SpreadPrice(legs)
    ensures |legs| == 1 && legs[0].pricemult == 1.0 ==> SpreadPrice(legs) == legs[0].spreadmult * legs[0].price
  {
    if |legs| > 0 {
      PricemultSign(legs[..|legs| - 1], flipped[..|legs| - 1]);
      if |legs| == 1 {
        assert legs[..0] == [];
      }
    }
  }

  /** The spread position is that of the last leg, signed by its multiplier. */
  lemma SpreadPosIsLast(legs: seq<Leg>, before: int)
    requires |legs| > 0
    ensures var leg := legs[|legs| - 1];
      && (leg.spreadmult == 1.0 ==> SpreadPos(legs, before) == leg.netpos)
      && (leg.spreadmult == -1.0 ==> SpreadPos(legs, before) == -leg.netpos)
  {
    var leg := legs[|legs| - 1];
    assert leg.spreadmult == 1.0 ==> leg.spreadmult * leg.netpos as real == leg.netpos as real;
    assert leg.spreadmult == -1.0 ==> leg.spreadmult * leg.netpos as real == (-leg.netpos) as real;
    TruncTowardZero(leg.spreadmult * leg.netpos as real);
  }

  // ----- waiting

  /** A leg cannot be valued: no book, no price on either side, a crossed book, or nobody on a side. */
  ghost predicate Unusable(leg: Leg, quotes: Quotes) {
    leg.secid in quotes ==>
      var b := quotes[leg.secid];
      b.ask < b.bid || b.bidSize == 0 || b.askSize == 0 || (b.bid == 0.0 && b.ask == 0.0)
  }

  /** A position waits after a pass if and only if one of its legs cannot be valued. */
  lemma WaitsIffUnusable(p: Position, quotes: Quotes, now: nat)
    ensures Valued(p, quotes, now).status == WAITING <==> exists i :: 0 <= i < |p.legs| && Unusable(p.legs[i], quotes)
  {
    forall i | 0 <= i < |p.legs|
      ensures Quoted(p.legs[i], quotes) <==> !Unusable(p.legs[i], quotes)
    {
    }
  }

  // ----- bounds

  /** The position of the last item of a kind, or -1. */
  ghost function LastOf(items: Items, kind: Item): (i: int)
    ensures -1 <= i < |items|
    ensures i >= 0 ==> items[i].0 == kind
    ensures forall j :: i < j < |items| ==> items[j].0 != kind
  {
    if |items| == 0 then -1
    else if items[|items| - 1].0 == kind then |items| - 1
    else LastOf(items[..|items| - 1], kind)
  }

  /** Any sequence of risk items leaves each bound at its last set value, and its price that far from
      the entry price. */
  lemma {:induction false} AdjustedBounds(p: Position, items: Items)
    ensures var q, i, j := AdjustAll(p, items), LastOf(items, PROFIT_TAKING), LastOf(items, STOP_LOSS);
      && q.risk.profitTaking == (if i < 0 then p.risk.profitTaking else items[i].1)
      && q.targetprice == (if i < 0 then p.targetprice else p.price + items[i].1 as real)
      && q.risk.stopLoss == (if j < 0 then p.risk.stopLoss else items[j].1)
      && q.stoprice == (if j < 0 then p.stoprice else p.price + items[j].1 as real)
  {
    if |items| > 0 {
      AdjustedBounds(p, items[..|items| - 1]);
      AdjustKeeps(p, items[..|items| - 1]);
    }
  }

  // ----- lifetimes

  /** A position registered at `now` lives its minutes from then, update or not. */
  lemma Lifetime(p: Position, isnew: bool, now: nat, later: nat)
    requires -0x8000_0000 <= p.risk.minutesToLive < 0x8000_0000
    requires now < 0x4000_0000_0000_0000 && later < 0x4000_0000_0000_0000
    ensures var q := Prepared(p, isnew, now);
      && TimeToLive(q.risk.entrytime, q.risk.ttl, later) == now + 60000000 * p.risk.minutesToLive - later
      && (0 <= now + 60000000 * p.risk.minutesToLive ==> q.risk.expiretime == now + 60000000 * p.risk.minutesToLive)
  {
    TimeLeftIsExact(now, p.risk.minutesToLive, later);
    WrappedMinutes(p.risk.minutesToLive);
    var ttl := MinutesToMicroseconds(p.risk.minutesToLive);
    assert Prepared(p, isnew, now).risk.expiretime == (now + ttl) % U64;
    if 0 <= now + 60000000 * p.risk.minutesToLive {
      Residue(now + ttl, if p.risk.minutesToLive >= 0 then 0 else 1, now + 60000000 * p.risk.minutesToLive);
    }
  }

  /** A new position starts under watch and without profit at its legs' spread price, whatever status,
      profit and price it is registered with; an update keeps what it brings. */
  lemma NewStartsFresh(p: Position, status: Status, totpl: real, price: real, erased: bool, now: nat)
    ensures var other := p.(status := status, totpl := totpl, price := price, erased := erased);
      && Prepared(other, true, now) == Prepared(p, true, now)
      && Prepared(p, true, now).status == MONITOR_PL && Prepared(p, true, now).totpl == 0.0
      && !Prepared(p, true, now).erased && Prepared(p, true, now).price == SpreadPrice(p.legs)
      && var q := Prepared(other, false, now);
         q.status == status && q.totpl == totpl && q.price == price && q.erased == erased
  {
  }

  /** The remaining seconds are the remaining time without its fraction. */
  lemma SecondsLeftIsTruncated(p: Position, quotes: Quotes, now: nat)
    requires Watched(p, quotes)
    ensures var r := Valued(p, quotes, now).risk;
      && (r.timeleft >= 0 ==> 0 <= r.timeleft - 1000000 * r.secondsLeft < 1000000)
      && (r.timeleft <= 0 ==> 0 <= 1000000 * r.secondsLeft - r.timeleft < 1000000)
      && r.timeleft == TimeToLive(p.risk.entrytime, p.risk.ttl, now)
  {
    assert Marked(p, quotes).risk == p.risk;
  }

  // ----- the order of signals

  ghost function Rank(signal: Signal): nat {
    match signal
    case TIMERHIT => 0
    case PROFITTAKE => 1
    case STOPLOSS => 2
    case MKT => 3
  }

  /** The timer's signal comes before the profit's, and that before the stop's, and each is followed at
      once by the report of the same position. */
  ghost predicate InOrder(ev: seq<Event>) {
    && (forall i, j :: 0 <= i < j < |ev| && ev[i].OnPL? && ev[j].OnPL? ==> Rank(ev[i].signal) < Rank(ev[j].signal))
    && (forall i :: 0 <= i < |ev| && ev[i].OnPL? ==> i + 1 < |ev| && ev[i + 1] == Report(ev[i].p))
  }

  lemma OrderedAppend(xs: seq<Event>, q: Position, hit: bool, status: Status, signal: Signal)
    requires InOrder(xs) && forall i :: 0 <= i < |xs| && xs[i].OnPL? ==> Rank(xs[i].signal) < Rank(signal)
    ensures var ev := xs + ExitEvents(q, hit, status, signal);
      InOrder(ev) && forall i :: 0 <= i < |ev| && ev[i].OnPL? ==> Rank(ev[i].signal) <= Rank(signal)
  {
  }

  lemma ExitsInOrder(mark: Event, q: Position)
    requires mark.Report?
    ensures InOrder([mark] + Exits(q))
  {
    var a := ExitEvents(q, q.risk.timeleft <= 0, TIMED_OUT, TIMERHIT);
    var b := ExitEvents(q, AtLeast(q.plper, q.risk.profitTaking), PROFIT_HIT, PROFITTAKE);
    var c := ExitEvents(q, AtMost(q.plper, q.risk.stopLoss), STOP_HIT, STOPLOSS);
    OrderedAppend([mark], q, q.risk.timeleft <= 0, TIMED_OUT, TIMERHIT);
    OrderedAppend([mark] + a, q, AtLeast(q.plper, q.risk.profitTaking), PROFIT_HIT, PROFITTAKE);
    OrderedAppend([mark] + a + b, q, AtMost(q.plper, q.risk.stopLoss), STOP_HIT, STOPLOSS);
    Regroup([mark], a, b, c);
  }

  lemma Regroup(m: seq<Event>, a: seq<Event>, b: seq<Event>, c: seq<Event>)
    ensures m + (a + b + c) == m + a + b + c
  {
  }

  /** Every pass reports the mark first, and then its signals in that order. */
  lemma SignalsInOrder(p: Position, quotes: Quotes, now: nat)
    ensures var ev := PassEvents(p, quotes, now);
      InOrder(ev) && ev[0] == Report(Marked(p, quotes))
  {
    ExitsInOrder(Report(Marked(p, quotes)), Valued(p, quotes, now));
  }
}
