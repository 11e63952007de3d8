/** The implied quote calculator: one leg of a spread is quoted, the others are leaned on. */
module ImpliedQuote {
  import opened Machine

  datatype Leg = Leg(index: nat, spreadmult: real)

  datatype Book = Book(bid: real, ask: real)

  /** Books by leg index, as the source's price array. */
  type Books = nat -> Book

  datatype OrderSide = BUY | SELL | UNKNOWN

  datatype Hedge = Hedge

  datatype ImpSide = ImpSide(price: real, index: nat, isBid: bool, orderSide: OrderSide, hdgPath: seq<Hedge>)

  function SideValue(side: int): OrderSide {
    if side == -1 then SELL else if side == 1 then BUY else UNKNOWN
  }

  function LegSide(leg: Leg, isBid: bool): int {
    Trunc((if isBid then 1.0 else -1.0) * leg.spreadmult)
  }

  function Lean(leg: Leg, isBid: bool, prices: Books): real {
    if LegSide(leg, isBid) < 0 then prices(leg.index).bid else prices(leg.index).ask
  }

  ghost predicate Distinct(legs: seq<Leg>) {
    forall i, j :: 0 <= i < j < |legs| ==> legs[i].index != legs[j].index
  }

  /** Sum of the leans of all legs but the quoted one, among the first `n`. */
  ghost function Leans(legs: seq<Leg>, q: nat, isBid: bool, prices: Books, n: nat): real
    requires q < |legs| && n <= |legs|
  {
    if n == 0 then 0.0
    else Leans(legs, q, isBid, prices, n - 1)
         + if legs[n - 1].index == legs[q].index then 0.0 else Lean(legs[n - 1], isBid, prices)
  }

  ghost function Others(legs: seq<Leg>, q: nat, n: nat): nat
    requires q < |legs| && n <= |legs|
  {
    if n == 0 then 0 else Others(legs, q, n - 1) + if legs[n - 1].index == legs[q].index then 0 else 1
  }

  ghost function Quote(legs: seq<Leg>, q: nat, isBid: bool, edge: real, prices: Books): real
    requires q < |legs|
  {
    Leans(legs, q, isBid, prices, |legs|) + edge * legs[q].spreadmult
  }

  method CalculateSide(legs: seq<Leg>, index: nat, isBid: bool, edge: real, prices: Books) returns (imp: ImpSide)
    requires index < |legs|
    ensures imp.price == Quote(legs, index, isBid, edge, prices)
    ensures imp.index == index && imp.isBid == isBid
    ensures |imp.hdgPath| == Others(legs, index, |legs|)
    ensures Distinct(legs) ==>
      && |imp.hdgPath| == |legs| - 1
      && imp.orderSide == SideValue(LegSide(legs[index], isBid))
  {
    var leans, hdgPath, side := 0.0, [], UNKNOWN;
    for i := 0 to |legs|
      invariant leans == Leans(legs, index, isBid, prices, i)
      invariant |hdgPath| == Others(legs, index, i)
      invariant Distinct(legs) ==> |hdgPath| == if index < i then i - 1 else i
      invariant Distinct(legs) && index < i ==> side == SideValue(LegSide(legs[index], isBid))
    {
      var legSide := LegSide(legs[i], isBid);
      if legs[i].index == legs[index].index {
        side := SideValue(legSide);
        continue;
      }
      if legSide < 0 {
        leans := leans + prices(legs[i].index).bid;
      } else {
        leans := leans + prices(legs[i].index).ask;
      }
      hdgPath := hdgPath + [Hedge];
    }
    imp := ImpSide(leans + edge * legs[index].spreadmult, index, isBid, side, hdgPath);
  }

  /** What trading `position` units of a leg costs per unit: buyers lift the ask, sellers
      hit the bid. */
  function Touch(position: real, book: Book): real {
    if position < 0.0 then book.bid else book.ask
  }

  /** The price per spread actually realised, among the first `n` legs, when the quoted leg
      fills at `fill` and every other leg is hedged against its book. */
  ghost function Realised(legs: seq<Leg>, q: nat, isBid: bool, fill: real, prices: Books, n: nat): real
    requires q < |legs| && n <= |legs|
  {
    if n == 0 then 0.0
    else
      var leg := legs[n - 1];
      var position := if isBid then leg.spreadmult else -leg.spreadmult;
      Realised(legs, q, isBid, fill, prices, n - 1)
      + leg.spreadmult * if n - 1 == q then fill else Touch(position, prices(leg.index))
  }

  /** Filling the quote and hedging realises exactly the requested edge. */
  ghost predicate RealisesEdge(legs: seq<Leg>, q: nat, isBid: bool, edge: real, prices: Books)
    requires q < |legs|
  {
    Realised(legs, q, isBid, Quote(legs, q, isBid, edge, prices), prices, |legs|) == edge
  }

  /** The quoted leg trades one for one and every other leg one for one against it. */
  predicate Balanced(legs: seq<Leg>, q: nat)
    requires q < |legs|
  {
    && (legs[q].spreadmult == 1.0 || legs[q].spreadmult == -1.0)
    && forall i :: 0 <= i < |legs| && i != q ==> legs[i].spreadmult == -legs[q].spreadmult
  }

  lemma {:induction false} BalancedRealised(legs: seq<Leg>, q: nat, isBid: bool, fill: real, prices: Books, n: nat)
    requires q < |legs| && n <= |legs| && Distinct(legs) && Balanced(legs, q)
    ensures Realised(legs, q, isBid, fill, prices, n)
         == legs[q].spreadmult * ((if q < n then fill else 0.0) - Leans(legs, q, isBid, prices, n))
  {
    if n > 0 {
      BalancedRealised(legs, q, isBid, fill, prices, n - 1);
    }
  }

  /** Books with a one-price market, 1 at `unit` and 0 elsewhere. */
  ghost function UnitBooks(unit: nat): Books {
    (i: nat) => if i == unit then Book(1.0, 1.0) else Book(0.0, 0.0)
  }

  /** The leg whose book is the unit one, or `|legs|` when no leg's is. */
  ghost predicate UnitAt(legs: seq<Leg>, u: nat, unit: nat) {
    forall i :: 0 <= i < |legs| ==> (legs[i].index == unit <==> i == u)
  }

  lemma {:induction false} UnitLeans(legs: seq<Leg>, q: nat, isBid: bool, u: nat, unit: nat, n: nat)
    requires q < |legs| && n <= |legs| && Distinct(legs) && UnitAt(legs, u, unit) && u != q
    ensures Leans(legs, q, isBid, UnitBooks(unit), n) == if u < n then 1.0 else 0.0
  {
    if n > 0 {
      UnitLeans(legs, q, isBid, u, unit, n - 1);
      assert Lean(legs[n - 1], isBid, UnitBooks(unit)) == if legs[n - 1].index == unit then 1.0 else 0.0;
    }
  }

  /** What the `i`-th leg costs in the unit books. */
  lemma UnitPaid(leg: Leg, isBid: bool, unit: nat)
    ensures leg.spreadmult * Touch(if isBid then leg.spreadmult else -leg.spreadmult, UnitBooks(unit)(leg.index))
         == if leg.index == unit then leg.spreadmult else 0.0
  {
    var paid := Touch(if isBid then leg.spreadmult else -leg.spreadmult, UnitBooks(unit)(leg.index));
    assert paid == if leg.index == unit then 1.0 else 0.0;
  }

  /** What the `i`-th leg adds to the realised price in the unit books. */
  ghost function UnitShare(legs: seq<Leg>, q: nat, fill: real, unit: nat, i: nat): real
    requires i < |legs|
  {
    if i == q then legs[i].spreadmult * fill else if legs[i].index == unit then legs[i].spreadmult else 0.0
  }

  lemma RealisedNext(legs: seq<Leg>, q: nat, isBid: bool, fill: real, unit: nat, n: nat)
    requires q < |legs| && 0 < n <= |legs|
    ensures Realised(legs, q, isBid, fill, UnitBooks(unit), n)
         == Realised(legs, q, isBid, fill, UnitBooks(unit), n - 1) + UnitShare(legs, q, fill, unit, n - 1)
  {
    UnitPaid(legs[n - 1], isBid, unit);
  }

  lemma {:induction false} UnitRealised(legs: seq<Leg>, q: nat, isBid: bool, fill: real, u: nat, unit: nat, n: nat)
    requires q < |legs| && n <= |legs| && UnitAt(legs, u, unit) && u != q
    ensures Realised(legs, q, isBid, fill, UnitBooks(unit), n)
         == (if q < n then legs[q].spreadmult * fill else 0.0) + (if u < n then legs[u].spreadmult else 0.0)
  {
    if n > 0 {
      UnitRealised(legs, q, isBid, fill, u, unit, n - 1);
      RealisedNext(legs, q, isBid, fill, unit, n);
    }
  }

  /** What the all-markets property says of the unit books. */
  lemma UnitEdge(legs: seq<Leg>, q: nat, isBid: bool, edge: real, u: nat, unit: nat)
    requires q < |legs| && Distinct(legs) && UnitAt(legs, u, unit) && u != q
    requires RealisesEdge(legs, q, isBid, edge, UnitBooks(unit))
    ensures u < |legs| && edge == 0.0 ==> legs[u].spreadmult == -legs[q].spreadmult
    ensures u >= |legs| && edge == 1.0 ==> legs[q].spreadmult * legs[q].spreadmult == 1.0
  {
    var fill := Quote(legs, q, isBid, edge, UnitBooks(unit));
    UnitLeans(legs, q, isBid, u, unit, |legs|);
    UnitRealised(legs, q, isBid, fill, u, unit, |legs|);
  }

  lemma SquareIsOne(m: real)
    requires m * m == 1.0
    ensures m == 1.0 || m == -1.0
  {
    assert (m - 1.0) * (m + 1.0) == 0.0;
  }

  lemma {:induction false} UnusedIndex(legs: seq<Leg>) returns (unit: nat)
    ensures forall i :: 0 <= i < |legs| ==> legs[i].index < unit
  {
    if |legs| == 0 {
      unit := 0;
    } else {
      var last := legs[|legs| - 1].index;
      var m := UnusedIndex(legs[..|legs| - 1]);
      unit := if m <= last then last + 1 else m;
      forall i | 0 <= i < |legs|
        ensures legs[i].index < unit
      {
        if i < |legs| - 1 {
          assert legs[i] == legs[..|legs| - 1][i];
        }
      }
    }
  }

  /** The quote realises the edge in every market and for every edge, if and only if the
      multipliers are balanced. */
  lemma QuoteIsRightIffBalanced(legs: seq<Leg>, q: nat, isBid: bool)
    requires q < |legs| && Distinct(legs)
    ensures (forall edge: real, prices: Books :: RealisesEdge(legs, q, isBid, edge, prices)) <==> Balanced(legs, q)
  {
    if Balanced(legs, q) {
      forall edge: real, prices: Books
        ensures RealisesEdge(legs, q, isBid, edge, prices)
      {
        BalancedRealised(legs, q, isBid, Quote(legs, q, isBid, edge, prices), prices, |legs|);
      }
    }
    if forall edge: real, prices: Books :: RealisesEdge(legs, q, isBid, edge, prices) {
      AllMarketsBalanced(legs, q, isBid);
    }
  }

  lemma AllMarketsBalanced(legs: seq<Leg>, q: nat, isBid: bool)
    requires q < |legs| && Distinct(legs)
    requires forall edge: real, prices: Books :: RealisesEdge(legs, q, isBid, edge, prices)
    ensures Balanced(legs, q)
  {
    var m := legs[q].spreadmult;
    var unit := UnusedIndex(legs);
    UnitEdge(legs, q, isBid, 1.0, |legs|, unit);
    SquareIsOne(m);
    forall i | 0 <= i < |legs| && i != q
      ensures legs[i].spreadmult == -m
    {
      UnitEdge(legs, q, isBid, 0.0, i, legs[i].index);
    }
  }

  lemma {:induction false} LeansOrdered(legs: seq<Leg>, q: nat, prices: Books, n: nat)
    requires q < |legs| && n <= |legs| && Distinct(legs) && Balanced(legs, q)
    requires forall i: nat :: prices(i).bid <= prices(i).ask
    ensures legs[q].spreadmult == 1.0 ==> Leans(legs, q, true, prices, n) <= Leans(legs, q, false, prices, n)
    ensures legs[q].spreadmult == -1.0 ==> Leans(legs, q, false, prices, n) <= Leans(legs, q, true, prices, n)
  {
    if n > 0 {
      LeansOrdered(legs, q, prices, n - 1);
    }
  }

  /** Two-sided quotes on one leg never cross: with uncrossed books and a bid edge no
      greater than the ask edge, the side that buys the leg quotes no more than the side
      that sells it. */
  lemma QuotesDoNotCross(legs: seq<Leg>, q: nat, bidEdge: real, askEdge: real, prices: Books)
    requires q < |legs| && Distinct(legs) && Balanced(legs, q)
    requires forall i: nat :: prices(i).bid <= prices(i).ask
    requires bidEdge <= askEdge
    ensures
      var onBid, onAsk := Quote(legs, q, true, bidEdge, prices), Quote(legs, q, false, askEdge, prices);
      var bidSide, askSide := SideValue(LegSide(legs[q], true)), SideValue(LegSide(legs[q], false));
      || (bidSide == BUY && askSide == SELL && onBid <= onAsk)
      || (askSide == BUY && bidSide == SELL && onAsk <= onBid)
  {
    LeansOrdered(legs, q, prices, |legs|);
  }
}
