/** The two in-place shortest-path routines of the implied pricer.  The source fixes the
    matrix size at 24; the model takes any size. */
module ImpliedPricer {
  import opened Walks
  import opened Floyd

  datatype Edge = Edge(present: bool, bid: int, ask: int)

  type EdgeMatrix = seq<seq<Edge>>

  predicate Square(adj: EdgeMatrix) {
    forall i :: 0 <= i < |adj| ==> |adj[i]| == |adj|
  }

  /** The graph an edge matrix stands for: the chosen side's price where an edge exists,
      and never an edge from a node to itself. */
  ghost function Graph(adj: EdgeMatrix, isBid: bool): Weights
    requires Square(adj)
  {
    (i: nat, j: nat) =>
      if i < |adj| && j < |adj| && i != j && adj[i][j].present
      then Fin(if isBid then adj[i][j].bid else adj[i][j].ask)
      else Inf
  }

  // ----- what the graph says in terms of the market

  /** `p` goes from `i` to `j` over existing edges between different instruments, with intermediate
      ones below `k`. */
  ghost predicate Path(adj: EdgeMatrix, k: nat, i: nat, j: nat, p: seq<nat>)
    requires Square(adj)
  {
    && |p| >= 2 && p[0] == i && p[|p| - 1] == j
    && InRange(adj, p)
    && (forall t :: 0 <= t < |p| - 1 ==> p[t] != p[t + 1] && adj[p[t]][p[t + 1]].present)
    && (forall t :: 0 < t < |p| - 1 ==> p[t] < k)
  }

  ghost predicate InRange(adj: EdgeMatrix, p: seq<nat>) {
    forall t :: 0 <= t < |p| ==> p[t] < |adj|
  }

  /** The bids, and the asks, along a path. */
  ghost function SumOfBids(adj: EdgeMatrix, p: seq<nat>): int
    requires Square(adj) && InRange(adj, p)
  {
    if |p| <= 1 then 0 else adj[p[0]][p[1]].bid + SumOfBids(adj, p[1..])
  }

  ghost function SumOfAsks(adj: EdgeMatrix, p: seq<nat>): int
    requires Square(adj) && InRange(adj, p)
  {
    if |p| <= 1 then 0 else adj[p[0]][p[1]].ask + SumOfAsks(adj, p[1..])
  }

  /** The walks of either graph are the paths of the edge matrix ... */
  lemma WalksArePaths(adj: EdgeMatrix, isBid: bool, k: nat, i: nat, j: nat, p: seq<nat>)
    requires Square(adj)
    ensures Route(|adj|, Graph(adj, isBid), k, i, j, p) <==> Path(adj, k, i, j, p)
  {
    if InRange(adj, p) {
      forall t | 0 <= t < |p| - 1
        ensures Graph(adj, isBid)(p[t], p[t + 1]).Fin? <==> p[t] != p[t + 1] && adj[p[t]][p[t + 1]].present
      {
      }
    }
  }

  /** ... and cost the sum of the bids along them for the bid side, of the asks for the ask side. */
  lemma {:induction false} CostIsSum(adj: EdgeMatrix, k: nat, i: nat, j: nat, p: seq<nat>)
    requires Square(adj) && Path(adj, k, i, j, p)
    ensures Cost(Graph(adj, true), p) == SumOfBids(adj, p)
    ensures Cost(Graph(adj, false), p) == SumOfAsks(adj, p)
    decreases |p|
  {
    assert p[0] != p[1] && adj[p[0]][p[1]].present;
    if |p| == 2 {
      assert |p[1..]| == 1;
    } else {
      var rest, second := p[1..], p[1];
      forall t | 0 <= t < |rest| - 1
        ensures rest[t] != rest[t + 1] && adj[rest[t]][rest[t + 1]].present
      {
        assert rest[t] == p[t + 1] && rest[t + 1] == p[t + 2];
      }
      CostIsSum(adj, k, second, j, rest);
    }
  }

  /** Every existing edge has a bid no higher than its ask. */
  ghost predicate Uncrossed(adj: EdgeMatrix)
    requires Square(adj)
  {
    forall i, j :: 0 <= i < |adj| && 0 <= j < |adj| && adj[i][j].present ==> adj[i][j].bid <= adj[i][j].ask
  }

  lemma {:induction false} BidsBelowAsks(adj: EdgeMatrix, p: seq<nat>)
    requires Square(adj) && Uncrossed(adj) && InRange(adj, p)
    requires forall t :: 0 <= t < |p| - 1 ==> adj[p[t]][p[t + 1]].present
    ensures SumOfBids(adj, p) <= SumOfAsks(adj, p)
    decreases |p|
  {
    if |p| > 1 {
      var rest := p[1..];
      forall t | 0 <= t < |rest| - 1
        ensures adj[rest[t]][rest[t + 1]].present
      {
        assert rest[t] == p[t + 1] && rest[t + 1] == p[t + 2];
      }
      BidsBelowAsks(adj, rest);
      assert adj[p[0]][p[1]].present;
    }
  }

  lemma WalkBidsBelowAsks(adj: EdgeMatrix, k: nat, i: nat, j: nat, p: seq<nat>)
    requires Square(adj) && Uncrossed(adj)
    requires Route(|adj|, Graph(adj, false), k, i, j, p)
    ensures Route(|adj|, Graph(adj, true), k, i, j, p)
    ensures Cost(Graph(adj, true), p) <= Cost(Graph(adj, false), p)
  {
    WalksArePaths(adj, false, k, i, j, p);
    WalksArePaths(adj, true, k, i, j, p);
    CostIsSum(adj, k, i, j, p);
    BidsBelowAsks(adj, p);
  }

  /** Where the bid side is free of negative closed walks, so is the ask side. */
  lemma BidsDrainFirst(adj: EdgeMatrix, k: nat, i: nat, j: nat)
    requires Square(adj) && Uncrossed(adj)
    requires Drained(|adj|, Graph(adj, false), k, i, j)
    ensures Drained(|adj|, Graph(adj, true), k, i, j)
  {
    var n, bids, asks := |adj|, Graph(adj, true), Graph(adj, false);
    forall a, b, p | Route(n, asks, k, a, b, p)
      ensures Route(n, bids, k, a, b, p) && Cost(bids, p) <= Cost(asks, p)
    {
      WalkBidsBelowAsks(adj, k, a, b, p);
    }
    var c: nat :| c < k && NegLoop(n, asks, k, c) && Reach(n, asks, k, i, c) && Reach(n, asks, k, c, j);
    assert NegLoop(n, bids, k, c) && Reach(n, bids, k, i, c) && Reach(n, bids, k, c, j);
  }

  /** With uncrossed edges the least bid walk costs no more than the least ask walk. */
  lemma LeastBidBelowLeastAsk(adj: EdgeMatrix, k: nat, i: nat, j: nat, b: Dist, a: Dist)
    requires Square(adj) && Uncrossed(adj)
    requires IsShortest(|adj|, Graph(adj, true), k, i, j, b) && IsShortest(|adj|, Graph(adj, false), k, i, j, a)
    ensures Leq(b, a)
  {
    if a.Fin? {
      var p :| Route(|adj|, Graph(adj, false), k, i, j, p) && Cost(Graph(adj, false), p) == a.v;
      WalkBidsBelowAsks(adj, k, i, j, p);
      assert Reach(|adj|, Graph(adj, true), k, i, j);
    }
  }

  /** The results of the two runs of either routine are ordered like the market: with uncrossed
      edges, the bid run is nowhere above the ask run, wherever the bid run is exact. */
  lemma BidRunBelowAskRun(adj: EdgeMatrix, x: Weights, y: Weights, i: nat, j: nat)
    requires Square(adj) && Uncrossed(adj) && i < |adj| && j < |adj|
    ensures FullResult(|adj|, Graph(adj, true), x) && FullResult(|adj|, Graph(adj, false), y) ==>
      !Drained(|adj|, Graph(adj, true), |adj|, i, j) ==> Leq(x(i, j), y(i, j))
    ensures RowByRowResult(|adj|, Graph(adj, true), x) && RowByRowResult(|adj|, Graph(adj, false), y) ==>
      !Drained(|adj|, Graph(adj, true), Lower(i, j), i, j) ==> Leq(x(i, j), y(i, j))
  {
    var n, bids, asks := |adj|, Graph(adj, true), Graph(adj, false);
    if FullResult(n, bids, x) && FullResult(n, asks, y) && !Drained(n, bids, n, i, j) {
      if Drained(n, asks, n, i, j) {
        BidsDrainFirst(adj, n, i, j);
      }
      LeastBidBelowLeastAsk(adj, n, i, j, x(i, j), y(i, j));
    }
    if RowByRowResult(n, bids, x) && RowByRowResult(n, asks, y) && !Drained(n, bids, Lower(i, j), i, j) {
      if Drained(n, asks, Lower(i, j), i, j) {
        BidsDrainFirst(adj, Lower(i, j), i, j);
      }
      LeastBidBelowLeastAsk(adj, Lower(i, j), i, j, x(i, j), y(i, j));
    }
  }

  // ----- the matrix

  ghost predicate IsMatrix(d: array2<Dist>, n: nat) {
    d.Length0 == n && d.Length1 == n
  }

  ghost predicate Holds(d: array2<Dist>, n: nat, x: Weights)
    requires IsMatrix(d, n)
    reads d
  {
    forall i: nat, j: nat :: i < n && j < n ==> d[i, j] == x(i, j)
  }

  /** The matrix as a value. */
  ghost function Contents(d: array2<Dist>, n: nat): (x: Weights)
    requires IsMatrix(d, n)
    reads d
    ensures Holds(d, n, x)
  {
    var rows := seq(n, i requires 0 <= i < n reads d => seq(n, j requires 0 <= j < n reads d => d[i, j]));
    (i: nat, j: nat) => if i < n && j < n then rows[i][j] else Inf
  }

  /** One test-and-update of the triple loop keeps every property the loops need. */
  lemma Improve(n: nat, w: Weights, k: nat, i: nat, j: nat, ik: Dist, kj: Dist, ij: Dist)
    requires k < n && i < n && j < n
    requires Squeezed(n, w, k, k + 1, i, k, ik)
    requires Squeezed(n, w, k, k + 1, k, j, kj)
    requires Squeezed(n, w, k, k + 1, i, j, ij)
    ensures Squeezed(n, w, k + 1, k + 1, i, j, Min(ij, Plus(ik, kj)))
  {
    if ik.Fin? && kj.Fin? {
      AttainedJoin(n, w, k + 1, i, k, j, ik.v, kj.v);
    }
  }

  lemma NextStage(n: nat, w: Weights, k: nat)
    requires k < n
    ensures forall i: nat, j: nat, x: Dist :: i < n && j < n && Squeezed(n, w, k, k, i, j, x) ==>
      Squeezed(n, w, k, k + 1, i, j, x)
  {
    forall i: nat, j: nat, x: Dist | i < n && j < n && Squeezed(n, w, k, k, i, j, x)
      ensures Squeezed(n, w, k, k + 1, i, j, x)
    {
      Widen(n, w, k, k + 1, i, j);
    }
  }

  lemma Earlier(n: nat, w: Weights, k: nat, s: nat, i: nat, j: nat, x: Dist)
    requires Squeezed(n, w, k + 1, s, i, j, x)
    ensures Squeezed(n, w, k, s, i, j, x)
  {
  }

  ghost predicate AllSqueezed(d: array2<Dist>, n: nat, w: Weights, k: nat)
    requires IsMatrix(d, n)
    reads d
  {
    forall i: nat, j: nat :: i < n && j < n ==> Squeezed(n, w, k, k, i, j, d[i, j])
  }

  /** Within stage `k`, before cell (i, j): the cells in front of it have completed the stage. */
  ghost predicate Reached(d: array2<Dist>, n: nat, w: Weights, k: nat, i: nat, j: nat)
    requires IsMatrix(d, n)
    reads d
  {
    forall a: nat, b: nat :: a < n && b < n ==>
      Squeezed(n, w, if a < i || (a == i && b < j) then k + 1 else k, k + 1, a, b, d[a, b])
  }

  /** No cell of the matrix is above what it was. */
  twostate predicate NoIncrease(d: array2<Dist>, n: nat)
    requires IsMatrix(d, n)
    reads d
  {
    forall i: nat, j: nat :: i < n && j < n ==> Leq(d[i, j], old(d[i, j]))
  }

  /** The full triple loop, in place.  `w` names the matrix's contents on entry.
      A matrix that already satisfies the triangle inequality is left alone, so running the
      loop again on an exact result changes nothing. */
  method RelaxAll(d: array2<Dist>, n: nat, ghost w: Weights)
    requires IsMatrix(d, n) && Holds(d, n, w)
    modifies d
    ensures FullResult(n, w, Contents(d, n)) && NoIncrease(d, n)
    ensures Closed(n, w) ==> Holds(d, n, w)
  {
    forall i: nat, j: nat | i < n && j < n
      ensures Squeezed(n, w, 0, 0, i, j, w(i, j))
    {
      StageSound(n, w, 0, i, j);
    }
    for k := 0 to n
      invariant AllSqueezed(d, n, w, k) && NoIncrease(d, n)
    {
      RelaxStage(d, n, k, w);
    }
    SqueezedIsFullResult(n, w, Contents(d, n));
    if Closed(n, w) {
      forall i: nat, j: nat | i < n && j < n
        ensures d[i, j] == w(i, j)
      {
        ClosedIsFixed(n, w, Contents(d, n), i, j);
      }
    }
  }

  /** Stage `k`: the two inner loops. */
  method RelaxStage(d: array2<Dist>, n: nat, k: nat, ghost w: Weights)
    requires IsMatrix(d, n) && k < n && AllSqueezed(d, n, w, k)
    modifies d
    ensures AllSqueezed(d, n, w, k + 1) && NoIncrease(d, n)
  {
    NextStage(n, w, k);
    for i := 0 to n
      invariant Reached(d, n, w, k, i, 0) && NoIncrease(d, n)
    {
      RelaxRow(d, n, k, i, w);
    }
  }

  /** Row `i` of stage `k`: the innermost loop. */
  method RelaxRow(d: array2<Dist>, n: nat, k: nat, i: nat, ghost w: Weights)
    requires IsMatrix(d, n) && k < n && i < n && Reached(d, n, w, k, i, 0)
    modifies d
    ensures Reached(d, n, w, k, i + 1, 0) && NoIncrease(d, n)
  {
    for j := 0 to n
      invariant Reached(d, n, w, k, i, j) && NoIncrease(d, n)
    {
      ReadsAreEarlier(d, n, w, k, i, j);
      Improve(n, w, k, i, j, d[i, k], d[k, j], d[i, j]);
      Relax(d, n, k, i, j);
    }
  }

  /** The test-and-update in the innermost loop of both routines. */
  method Relax(d: array2<Dist>, n: nat, k: nat, i: nat, j: nat)
    requires IsMatrix(d, n) && k < n && i < n && j < n
    modifies d
    ensures d[i, j] == Min(old(d[i, j]), Plus(old(d[i, k]), old(d[k, j])))
    ensures forall a: nat, b: nat :: a < n && b < n && (a != i || b != j) ==> d[a, b] == old(d[a, b])
  {
    if Less(Plus(d[i, k], d[k, j]), d[i, j]) {
      d[i, j] := Plus(d[i, k], d[k, j]);
    }
  }

  /** The two cells a test reads may have completed the stage already; they still meet what the
      test needs. */
  lemma ReadsAreEarlier(d: array2<Dist>, n: nat, w: Weights, k: nat, i: nat, j: nat)
    requires IsMatrix(d, n) && k < n && i < n && j < n && Reached(d, n, w, k, i, j)
    ensures Squeezed(n, w, k, k + 1, i, k, d[i, k]) && Squeezed(n, w, k, k + 1, k, j, d[k, j])
    ensures Squeezed(n, w, k, k + 1, i, j, d[i, j])
  {
    if k < j {
      Earlier(n, w, k, k + 1, i, k, d[i, k]);
    }
    if k < i {
      Earlier(n, w, k, k + 1, k, j, d[k, j]);
    }
  }

  /** The row-by-row variant: stage `k` only touches cells whose row and column are both
      above `k`, so nothing it reads changes during the stage and the result is the
      recurrence itself, stopped at the smaller endpoint. */
  method RelaxRowByRow(d: array2<Dist>, n: nat, ghost w: Weights)
    requires IsMatrix(d, n) && Holds(d, n, w)
    modifies d
    ensures RowByRowResult(n, w, Contents(d, n))
    ensures Upward(n, w) ==> Holds(d, n, w)
  {
    for k := 0 to n
      invariant IsStage(d, n, w, k, 0, 0)
    {
      for i := k + 1 to n
        invariant IsStage(d, n, w, k, i, 0)
      {
        RelaxRowAbove(d, n, k, i, w);
      }
    }
    StagesAreRowByRow(n, w, Contents(d, n));
  }

  /** Row `i` of stage `k`, above column `k`. */
  method RelaxRowAbove(d: array2<Dist>, n: nat, k: nat, i: nat, ghost w: Weights)
    requires IsMatrix(d, n) && k < i < n && IsStage(d, n, w, k, i, 0)
    modifies d
    ensures IsStage(d, n, w, k, i + 1, 0)
  {
    for j := k + 1 to n
      invariant IsStage(d, n, w, k, i, j)
    {
      assert d[i, j] == Stage(w, k, i, j) && d[i, k] == Stage(w, k, i, k) && d[k, j] == Stage(w, k, k, j);
      Relax(d, n, k, i, j);
      assert d[i, j] == Stage(w, k + 1, i, j) && Least(k + 1, i, j) == k + 1;
    }
  }

  /** The recurrence, stopped at the smaller endpoint; the cells in front of (i, j) have completed
      stage `k`. */
  ghost predicate IsStage(d: array2<Dist>, n: nat, w: Weights, k: nat, i: nat, j: nat)
    requires IsMatrix(d, n)
    reads d
  {
    forall a: nat, b: nat :: a < n && b < n ==>
      d[a, b] == Stage(w, Least(if a < i || (a == i && b < j) then k + 1 else k, a, b), a, b)
  }

  ghost function Least(k: nat, i: nat, j: nat): nat {
    if k < i && k < j then k else Lower(i, j)
  }

  /** The initial matrix both routines build: INF on the diagonal and where no edge exists. */
  method InitialDistances(adj: EdgeMatrix, isBid: bool) returns (d: array2<Dist>)
    requires Square(adj)
    ensures fresh(d) && IsMatrix(d, |adj|) && Holds(d, |adj|, Graph(adj, isBid))
  {
    var n := |adj|;
    d := new Dist[n, n]((i, j) => Inf);
    for i := 0 to n
      invariant forall a: nat, b: nat :: a < i && b < n ==> d[a, b] == Graph(adj, isBid)(a, b)
    {
      for j := 0 to n
        invariant forall a: nat, b: nat :: a < i && b < n ==> d[a, b] == Graph(adj, isBid)(a, b)
        invariant forall b: nat :: b < j ==> d[i, b] == Graph(adj, isBid)(i, b)
      {
        if i == j || !adj[i][j].present {
          d[i, j] := Inf;
        } else if isBid {
          d[i, j] := Fin(adj[i][j].bid);
        } else {
          d[i, j] := Fin(adj[i][j].ask);
        }
      }
    }
  }

  /** The bid (or ask) graph of any square edge matrix, negative cycles included. */
  method FloydShortestPaths(adj: EdgeMatrix, isBid: bool) returns (distance: array2<Dist>)
    requires Square(adj)
    ensures fresh(distance) && IsMatrix(distance, |adj|)
    ensures FullResult(|adj|, Graph(adj, isBid), Contents(distance, |adj|))
  {
    distance := InitialDistances(adj, isBid);
    RelaxAll(distance, |adj|, Graph(adj, isBid));
  }

  method FloydShortestPaths2(adj: EdgeMatrix, isBid: bool) returns (distance: array2<Dist>)
    requires Square(adj)
    ensures fresh(distance) && IsMatrix(distance, |adj|)
    ensures RowByRowResult(|adj|, Graph(adj, isBid), Contents(distance, |adj|))
    ensures Upward(|adj|, Graph(adj, isBid)) ==> Holds(distance, |adj|, Graph(adj, isBid))
  {
    distance := InitialDistances(adj, isBid);
    RelaxRowByRow(distance, |adj|, Graph(adj, isBid));
  }
}
