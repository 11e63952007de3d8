/** The volume-weighted average price kept per index. */
module WeightedAverage {
  import opened Ratios

  datatype Trade = Trade(index: int, price: int, size: int)

  /** A wave that was never traded is all zeros, its average included. */
  datatype Wave = Wave(wavg: Ratio, wsum: real, volume: int, count: int)

  const Empty := Wave(Fin(0.0), 0.0, 0, 0)

  type Waves = map<int, Wave>

  function At(waves: Waves, index: int): Wave {
    if index in waves then waves[index] else Empty
  }

  // ----- the batch definition

  ghost function Sum(ts: seq<Trade>, f: Trade -> int): int {
    if |ts| == 0 then 0 else Sum(ts[..|ts| - 1], f) + f(ts[|ts| - 1])
  }

  /** What a trade adds to an index: to its sum, to its volume, and to its count. */
  ghost function PriceSize(index: int): Trade -> int {
    (t: Trade) => if t.index == index then t.price * t.size else 0
  }

  ghost function Size(index: int): Trade -> int {
    (t: Trade) => if t.index == index then t.size else 0
  }

  ghost function One(index: int): Trade -> int {
    (t: Trade) => if t.index == index then 1 else 0
  }

  ghost function SumPriceSize(ts: seq<Trade>, index: int): int {
    Sum(ts, PriceSize(index))
  }

  ghost function SumSize(ts: seq<Trade>, index: int): int {
    Sum(ts, Size(index))
  }

  ghost function Trades(ts: seq<Trade>, index: int): int {
    Sum(ts, One(index))
  }

  ghost function Batch(ts: seq<Trade>, index: int): Wave {
    if Trades(ts, index) == 0 then Empty
    else
      Wave(Divide(SumPriceSize(ts, index) as real, SumSize(ts, index)),
           SumPriceSize(ts, index) as real, SumSize(ts, index), Trades(ts, index))
  }

  /** The waves are the batch definition of the trades so far. */
  ghost predicate Reflects(waves: Waves, ts: seq<Trade>) {
    forall index :: At(waves, index) == Batch(ts, index)
  }

  class WeightedAverageCalculator {
    var triggered: bool
    var waves: Waves

    constructor ()
      ensures !triggered && waves == map[] && Reflects(waves, [])
    {
      triggered, waves := false, map[];
    }

    /** While triggered, one more trade; otherwise nothing.  `ts` are the trades before it. */
    method Calculate(index: int, price: int, size: int, ghost ts: seq<Trade>)
      requires Reflects(waves, ts)
      modifies this`waves
      ensures !triggered ==> waves == old(waves)
      ensures triggered ==> Reflects(waves, ts + [Trade(index, price, size)])
      ensures forall i :: i != index ==> At(waves, i) == old(At(waves, i)) && (i in waves <==> old(i in waves))
    {
      if !triggered {
        return;
      }
      var w := At(waves, index);
      w := w.(wsum := w.wsum + price as real * size as real);
      w := w.(volume := w.volume + size);
      w := w.(wavg := Divide(w.wsum, w.volume));
      w := w.(count := w.count + 1);
      ghost var t := Trade(index, price, size);
      assert At(waves, index) == Batch(ts, index);
      assert w == Add(Batch(ts, index), price, size);
      waves := waves[index := w];
      forall i
        ensures At(waves, i) == Batch(ts + [t], i)
      {
        assert At(old(waves), i) == Batch(ts, i);
        BatchSnoc(ts, t, i);
      }
    }

    /** Reading creates the wave if it is not there, which changes nothing that can be read. */
    method GetWavg(index: int) returns (res: Ratio)
      modifies this`waves
      ensures res == At(old(waves), index).wavg
      ensures forall i :: At(waves, i) == At(old(waves), i)
    {
      waves := waves[index := At(waves, index)];
      res := waves[index].wavg;
    }
  }

  /** One more trade, as the calculator adds it. */
  ghost function Add(w: Wave, price: int, size: int): Wave {
    var wsum, volume := w.wsum + price as real * size as real, w.volume + size;
    Wave(Divide(wsum, volume), wsum, volume, w.count + 1)
  }

  lemma SumSnoc(ts: seq<Trade>, t: Trade, f: Trade -> int)
    ensures Sum(ts + [t], f) == Sum(ts, f) + f(t)
  {
    assert (ts + [t])[..|ts|] == ts;
  }

  lemma SumsSnoc(ts: seq<Trade>, t: Trade, i: int)
    ensures SumPriceSize(ts + [t], i) == SumPriceSize(ts, i) + if t.index == i then t.price * t.size else 0
    ensures SumSize(ts + [t], i) == SumSize(ts, i) + if t.index == i then t.size else 0
    ensures Trades(ts + [t], i) == Trades(ts, i) + if t.index == i then 1 else 0
  {
    SumSnoc(ts, t, PriceSize(i));
    SumSnoc(ts, t, Size(i));
    SumSnoc(ts, t, One(i));
  }

  /** One more trade in the batch definition is one more trade as the calculator adds it. */
  lemma BatchSnoc(ts: seq<Trade>, t: Trade, i: int)
    ensures Batch(ts + [t], i) == if t.index == i then Add(Batch(ts, i), t.price, t.size) else Batch(ts, i)
  {
    SumsSnoc(ts, t, i);
    NoTrades(ts, i);
    if t.index == i {
      assert Batch(ts, i).wsum == SumPriceSize(ts, i) as real && Batch(ts, i).volume == SumSize(ts, i);
      assert SumPriceSize(ts + [t], i) as real == SumPriceSize(ts, i) as real + t.price as real * t.size as real by {
        Casts(SumPriceSize(ts, i), SumPriceSize(ts + [t], i), t.price, t.size);
      }
      assert Batch(ts + [t], i).wsum == Add(Batch(ts, i), t.price, t.size).wsum;
      assert Batch(ts + [t], i).volume == Add(Batch(ts, i), t.price, t.size).volume;
    }
  }

  lemma Casts(sum: int, sum': int, price: int, size: int)
    requires sum' == sum + price * size
    ensures sum' as real == sum as real + price as real * size as real
  {
    var p := price * size;
    assert p as real == price as real * size as real;
  }

  lemma {:induction false} NoTrades(ts: seq<Trade>, i: int)
    ensures Trades(ts, i) >= 0
    ensures Trades(ts, i) == 0 ==> SumPriceSize(ts, i) == 0 && SumSize(ts, i) == 0
  {
    if |ts| > 0 {
      NoTrades(ts[..|ts| - 1], i);
    }
  }

  // ----- the average is a mean

  /** Every trade on the index has a positive size and a price between the bounds. */
  ghost predicate Within(ts: seq<Trade>, index: int, low: int, high: int) {
    forall t :: t in ts && t.index == index ==> t.size > 0 && low <= t.price <= high
  }

  lemma {:induction false} SumsWithin(ts: seq<Trade>, index: int, low: int, high: int)
    requires Within(ts, index, low, high)
    ensures low * SumSize(ts, index) <= SumPriceSize(ts, index) <= high * SumSize(ts, index)
    ensures SumSize(ts, index) >= Trades(ts, index)
  {
    if |ts| > 0 {
      var rest, t := ts[..|ts| - 1], ts[|ts| - 1];
      assert forall u :: u in rest ==> u in ts;
      assert t in ts;
      SumsWithin(rest, index, low, high);
      if t.index == index {
        Grow(low, high, SumSize(rest, index), t.price, t.size);
      }
    }
  }

  lemma Grow(low: int, high: int, volume: int, price: int, size: int)
    requires low <= price <= high && size > 0
    ensures low * (volume + size) <= low * volume + price * size
    ensures high * volume + price * size <= high * (volume + size)
  {
    assert low * (volume + size) == low * volume + low * size;
    assert high * (volume + size) == high * volume + high * size;
    assert (price - low) * size >= 0 && (high - price) * size >= 0;
  }

  /** The average lies between the lowest and the highest traded price. */
  lemma AverageWithin(ts: seq<Trade>, index: int, low: int, high: int)
    requires Within(ts, index, low, high) && Trades(ts, index) > 0
    ensures AtLeast(Batch(ts, index).wavg, low) && AtMost(Batch(ts, index).wavg, high)
    ensures Batch(ts, index).wavg.Fin? && Batch(ts, index).volume > 0
  {
    SumsWithin(ts, index, low, high);
    var sum, volume := SumPriceSize(ts, index), SumSize(ts, index);
    DivideCompares(sum as real, volume, low);
    DivideCompares(sum as real, volume, high);
    assert (low * volume) as real == low as real * volume as real;
    assert (high * volume) as real == high as real * volume as real;
  }

  // ----- the counts

  /** The trades on one index. */
  ghost function On(ts: seq<Trade>, index: int): seq<Trade> {
    if |ts| == 0 then []
    else On(ts[..|ts| - 1], index) + if ts[|ts| - 1].index == index then [ts[|ts| - 1]] else []
  }

  /** The count is the number of trades on the index, and with lots of one the volume is, too. */
  lemma {:induction false} CountIsNumber(ts: seq<Trade>, index: int)
    ensures Batch(ts, index).count == |On(ts, index)|
    ensures (forall t :: t in ts && t.index == index ==> t.size == 1) ==> Batch(ts, index).volume == |On(ts, index)|
  {
    NoTrades(ts, index);
    if |ts| > 0 {
      var rest, t := ts[..|ts| - 1], ts[|ts| - 1];
      assert ts == rest + [t];
      assert forall u :: u in rest ==> u in ts;
      assert t in ts;
      NoTrades(rest, index);
      SumsSnoc(rest, t, index);
      CountIsNumber(rest, index);
    }
  }

  // ----- the order of trades does not matter

  ghost function Weigh(m: multiset<Trade>, f: Trade -> int): int {
    if |m| == 0 then 0 else f(Pick(m)) + Weigh(m - multiset{Pick(m)}, f)
  }

  ghost function Pick(m: multiset<Trade>): (t: Trade)
    requires |m| > 0
    ensures t in m
  {
    var t :| t in m;
    t
  }

  /** Taking out any one trade takes its share out of the weight. */
  lemma {:induction false} WeighAny(m: multiset<Trade>, t: Trade, f: Trade -> int)
    requires t in m
    ensures Weigh(m, f) == f(t) + Weigh(m - multiset{t}, f)
    decreases |m|
  {
    var u := Pick(m);
    if u != t {
      var mu, mt := m - multiset{u}, m - multiset{t};
      assert mu - multiset{t} == mt - multiset{u};
      WeighAny(mu, t, f);
      WeighAny(mt, u, f);
    }
  }

  lemma {:induction false} SumIsWeight(ts: seq<Trade>, f: Trade -> int)
    ensures Sum(ts, f) == Weigh(multiset(ts), f)
  {
    if |ts| > 0 {
      var rest, t := ts[..|ts| - 1], ts[|ts| - 1];
      assert ts == rest + [t];
      assert multiset(ts) - multiset{t} == multiset(rest);
      SumIsWeight(rest, f);
      WeighAny(multiset(ts), t, f);
    }
  }

  lemma SumOrderFree(ts: seq<Trade>, us: seq<Trade>, f: Trade -> int)
    requires multiset(ts) == multiset(us)
    ensures Sum(ts, f) == Sum(us, f)
  {
    SumIsWeight(ts, f);
    SumIsWeight(us, f);
  }

  /** The same trades in any order give the same wave. */
  lemma OrderFree(ts: seq<Trade>, us: seq<Trade>, index: int)
    requires multiset(ts) == multiset(us)
    ensures Batch(ts, index) == Batch(us, index)
  {
    SumOrderFree(ts, us, PriceSize(index));
    SumOrderFree(ts, us, Size(index));
    SumOrderFree(ts, us, One(index));
  }
}
