/** The Floyd-Warshall recurrence and what it means in terms of walks. */
module Floyd {
  import opened Walks

  /** The textbook recurrence, one matrix per stage (not in place). */
  ghost function Stage(w: Weights, k: nat, i: nat, j: nat): Dist {
    if k == 0 then w(i, j)
    else Min(Stage(w, k - 1, i, j), Plus(Stage(w, k - 1, i, k - 1), Stage(w, k - 1, k - 1, j)))
  }

  ghost predicate Negative(d: Dist) {
    Less(d, Fin(0))
  }

  /** A finite cell is the cost of a walk that exists. */
  ghost predicate Sound(n: nat, w: Weights, k: nat, i: nat, j: nat, d: Dist) {
    d.Fin? ==> Attained(n, w, k, i, j, d.v)
  }

  ghost predicate Closed(n: nat, w: Weights) {
    forall i: nat, k: nat, j: nat :: i < n && k < n && j < n ==> Leq(w(i, j), Plus(w(i, k), w(k, j)))
  }

  /** Every edge goes from a lower to a higher index. */
  ghost predicate Upward(n: nat, w: Weights) {
    forall i: nat, j: nat :: i < n && j < n && w(i, j).Fin? ==> i < j
  }

  lemma {:induction false} StageFalls(w: Weights, k: nat, k': nat, i: nat, j: nat)
    requires k <= k'
    ensures Leq(Stage(w, k', i, j), Stage(w, k, i, j))
    decreases k'
  {
    if k < k' {
      StageFalls(w, k, k' - 1, i, j);
    }
  }

  lemma EdgeIsRoute(n: nat, w: Weights, k: nat, i: nat, j: nat)
    requires i < n && j < n && w(i, j).Fin?
    ensures Attained(n, w, k, i, j, w(i, j).v)
  {
    var p: seq<nat> := [i, j];
    assert p[1..] == [j];
    assert Route(n, w, k, i, j, p) && Cost(w, p) == w(i, j).v;
  }

  lemma AttainedJoin(n: nat, w: Weights, k: nat, i: nat, c: nat, j: nat, a: int, b: int)
    requires c < k && Attained(n, w, k, i, c, a) && Attained(n, w, k, c, j, b)
    ensures Attained(n, w, k, i, j, a + b)
  {
    var p :| Route(n, w, k, i, c, p) && Cost(w, p) == a;
    var q :| Route(n, w, k, c, j, q) && Cost(w, q) == b;
    Join(n, w, k, i, c, j, p, q);
  }

  lemma {:induction false} StageSound(n: nat, w: Weights, k: nat, i: nat, j: nat)
    requires k <= n && i < n && j < n
    ensures Sound(n, w, k, i, j, Stage(w, k, i, j))
    decreases k
  {
    if k == 0 {
      if w(i, j).Fin? {
        EdgeIsRoute(n, w, 0, i, j);
      }
    } else {
      StageSound(n, w, k - 1, i, j);
      StageSound(n, w, k - 1, i, k - 1);
      StageSound(n, w, k - 1, k - 1, j);
      Widen(n, w, k - 1, k, i, j);
      Widen(n, w, k - 1, k, i, k - 1);
      Widen(n, w, k - 1, k, k - 1, j);
      var l, r := Stage(w, k - 1, i, k - 1), Stage(w, k - 1, k - 1, j);
      if l.Fin? && r.Fin? {
        AttainedJoin(n, w, k, i, k - 1, j, l.v, r.v);
      }
    }
  }

  /** No node met on a walk from `i` to `j` had a negative diagonal cell when its stage began. */
  ghost predicate Quiet(n: nat, w: Weights, k: nat, i: nat, j: nat) {
    forall c: nat :: c < k && Reach(n, w, k, i, c) && Reach(n, w, k, c, j) ==> !Negative(Stage(w, c, c, c))
  }

  lemma QuietParts(n: nat, w: Weights, k: nat, i: nat, j: nat)
    requires k > 0 && Quiet(n, w, k, i, j)
    ensures Quiet(n, w, k - 1, i, j)
    ensures Reach(n, w, k, k - 1, j) ==> Quiet(n, w, k - 1, i, k - 1)
    ensures Reach(n, w, k, i, k - 1) ==> Quiet(n, w, k, k - 1, j)
  {
    forall a: nat, b: nat
      ensures Reach(n, w, k - 1, a, b) ==> Reach(n, w, k, a, b)
    {
      Widen(n, w, k - 1, k, a, b);
    }
    forall c: nat
      ensures Reach(n, w, k, c, k - 1) && Reach(n, w, k, k - 1, j) ==> Reach(n, w, k, c, j)
      ensures Reach(n, w, k, i, k - 1) && Reach(n, w, k, k - 1, c) ==> Reach(n, w, k, i, c)
    {
      if Reach(n, w, k, c, k - 1) && Reach(n, w, k, k - 1, j) {
        ReachJoin(n, w, k, c, k - 1, j);
      }
      if Reach(n, w, k, i, k - 1) && Reach(n, w, k, k - 1, c) {
        ReachJoin(n, w, k, i, k - 1, c);
      }
    }
  }

  lemma FirstVisit(n: nat, w: Weights, k: nat, i: nat, j: nat, p: seq<nat>) returns (t: nat)
    requires k > 0 && Route(n, w, k, i, j, p) && !Route(n, w, k - 1, i, j, p)
    ensures 0 < t < |p| - 1 && p[t] == k - 1
    ensures forall u :: 0 < u < t ==> p[u] < k - 1
  {
    var s :| 0 < s < |p| - 1 && p[s] >= k - 1;
    t := 1;
    while p[t] != k - 1
      invariant 1 <= t <= s
      invariant forall u :: 0 < u < t ==> p[u] < k - 1
      decreases s - t
    {
      t := t + 1;
    }
  }

  /** Cut a walk at its first visit to node `k - 1`. */
  lemma SplitAt(n: nat, w: Weights, k: nat, i: nat, j: nat, p: seq<nat>) returns (a: seq<nat>, r: seq<nat>)
    requires k > 0 && Route(n, w, k, i, j, p) && !Route(n, w, k - 1, i, j, p)
    ensures Route(n, w, k - 1, i, k - 1, a) && Route(n, w, k, k - 1, j, r)
    ensures |r| < |p| && Cost(w, p) == Cost(w, a) + Cost(w, r)
  {
    var t := FirstVisit(n, w, k, i, j, p);
    a, r := p[..t + 1], p[t..];
    forall u | 0 <= u < |r| - 1
      ensures w(r[u], r[u + 1]).Fin?
    {
      assert r[u] == p[t + u] && r[u + 1] == p[t + u + 1];
    }
    assert Route(n, w, k, k - 1, j, r);
    assert p == a + r[1..];
    CostOfJoin(w, a, r);
  }

  /** Completeness: on a quiet pair no walk is cheaper than the recurrence. */
  lemma {:induction false} StageComplete(n: nat, w: Weights, k: nat, i: nat, j: nat, p: seq<nat>)
    requires k <= n && i < n && j < n
    requires Quiet(n, w, k, i, j) && Route(n, w, k, i, j, p)
    ensures Leq(Stage(w, k, i, j), Fin(Cost(w, p)))
    decreases k, |p|
  {
    if k == 0 {
      var second := p[1];
      assert |p| == 2 && p[1..] == [second];
    } else {
      QuietParts(n, w, k, i, j);
      if Route(n, w, k - 1, i, j, p) {
        StageComplete(n, w, k - 1, i, j, p);
      } else {
        var a, r := SplitAt(n, w, k, i, j, p);
        assert Route(n, w, k, i, k - 1, a);
        assert Reach(n, w, k, i, k - 1) && Reach(n, w, k, k - 1, j);
        StageComplete(n, w, k - 1, i, k - 1, a);
        StageComplete(n, w, k, k - 1, j, r);
        assert !Negative(Stage(w, k - 1, k - 1, k - 1));
        assert Stage(w, k, k - 1, j) == Stage(w, k - 1, k - 1, j);
      }
    }
  }

  /** The recurrence is exact on a pair if and only if no negative closed walk lies on a walk
      between the two nodes. */
  lemma StageExact(n: nat, w: Weights, k: nat, i: nat, j: nat)
    requires k <= n && i < n && j < n
    ensures IsShortest(n, w, k, i, j, Stage(w, k, i, j)) <==> !Drained(n, w, k, i, j)
  {
    BoundedExact(n, w, k, i, j, Stage(w, k, i, j)) by {
      StageSound(n, w, k, i, j);
    }
  }

  /** The same for any matrix squeezed between the walk costs and the recurrence, which is
      what updating the matrix in place guarantees. */
  lemma BoundedExact(n: nat, w: Weights, k: nat, i: nat, j: nat, d: Dist)
    requires k <= n && i < n && j < n
    requires Sound(n, w, k, i, j, d) && Leq(d, Stage(w, k, i, j))
    ensures IsShortest(n, w, k, i, j, d) <==> !Drained(n, w, k, i, j)
  {
    if Drained(n, w, k, i, j) {
      DrainedIsUnbounded(n, w, k, i, j, if d.Fin? then d.v else 0);
    } else {
      NotDrainedIsQuiet(n, w, k, i, j);
      forall p | Route(n, w, k, i, j, p)
        ensures Leq(d, Fin(Cost(w, p)))
      {
        StageComplete(n, w, k, i, j, p);
      }
    }
  }

  lemma NotDrainedIsQuiet(n: nat, w: Weights, k: nat, i: nat, j: nat)
    requires k <= n && !Drained(n, w, k, i, j)
    ensures Quiet(n, w, k, i, j)
  {
    forall c: nat | c < k && Reach(n, w, k, i, c) && Reach(n, w, k, c, j)
      ensures !Negative(Stage(w, c, c, c))
    {
      StageSound(n, w, c, c, c);
      if Negative(Stage(w, c, c, c)) {
        Widen(n, w, c, k, c, c);
      }
    }
  }

  /** Two shortest distances for the same pair are equal. */
  lemma ShortestIsUnique(n: nat, w: Weights, k: nat, i: nat, j: nat, d: Dist, e: Dist)
    requires IsShortest(n, w, k, i, j, d) && IsShortest(n, w, k, i, j, e)
    ensures d == e
  {
    if d.Fin? {
      var p :| Route(n, w, k, i, j, p) && Cost(w, p) == d.v;
      assert Reach(n, w, k, i, j);
    }
    if e.Fin? {
      var p :| Route(n, w, k, i, j, p) && Cost(w, p) == e.v;
      assert Reach(n, w, k, i, j);
    }
  }

  lemma NoCycleNoDrain(n: nat, w: Weights, k: nat, i: nat, j: nat)
    requires k <= n && NoNegativeCycle(n, w)
    ensures !Drained(n, w, k, i, j)
  {
    forall c: nat | c < k
      ensures !NegLoop(n, w, k, c)
    {
      Widen(n, w, k, n, c, c);
    }
  }

  /** Every cell of matrix `x` lies between the real walks through nodes below `s` and
      stage `k` of the recurrence.  This is all that can be said while a stage is half done. */
  ghost predicate Squeezed(n: nat, w: Weights, k: nat, s: nat, i: nat, j: nat, d: Dist) {
    Leq(d, Stage(w, k, i, j)) && Sound(n, w, s, i, j, d)
  }

  /** What the full routine promises about its result `x`, for any prices:
      no cell is above the edge it started from and every finite cell is the cost of a real
      walk; a cell is the least walk cost if and only if no negative closed walk lies between
      its nodes; the diagonal is nonnegative if and only if no negative closed walk exists. */
  ghost predicate FullResult(n: nat, w: Weights, x: Weights) {
    && (forall i: nat, j: nat :: i < n && j < n ==> Leq(x(i, j), w(i, j)) && Sound(n, w, n, i, j, x(i, j)))
    && (forall i: nat, j: nat :: i < n && j < n ==> Leq(x(i, j), Stage(w, n, i, j)))
    && (forall i: nat, j: nat :: i < n && j < n ==> (IsShortest(n, w, n, i, j, x(i, j)) <==> !Drained(n, w, n, i, j)))
    && (NoNegativeCycle(n, w) <==> forall i: nat :: i < n ==> !Negative(x(i, i)))
  }

  lemma SqueezedIsFullResult(n: nat, w: Weights, x: Weights)
    requires forall i: nat, j: nat :: i < n && j < n ==> Squeezed(n, w, n, n, i, j, x(i, j))
    ensures FullResult(n, w, x)
  {
    forall i: nat, j: nat | i < n && j < n
      ensures Leq(x(i, j), w(i, j)) && Sound(n, w, n, i, j, x(i, j))
      ensures IsShortest(n, w, n, i, j, x(i, j)) <==> !Drained(n, w, n, i, j)
    {
      StageFalls(w, 0, n, i, j);
      BoundedExact(n, w, n, i, j, x(i, j));
    }
    DiagonalDetects(n, w, x);
  }

  /** The diagonal reveals negative cycles: a matrix squeezed as above has a negative
      diagonal cell if and only if the graph has a closed walk of negative cost. */
  lemma DiagonalDetects(n: nat, w: Weights, x: Weights)
    requires forall i: nat, j: nat :: i < n && j < n ==> Squeezed(n, w, n, n, i, j, x(i, j))
    ensures NoNegativeCycle(n, w) <==> forall i: nat :: i < n ==> !Negative(x(i, i))
  {
    if i: nat :| i < n && Negative(x(i, i)) {
      assert NegLoop(n, w, n, i);
    }
    if c: nat :| c < n && NegLoop(n, w, n, c) {
      var p :| Route(n, w, n, c, c, p) && Cost(w, p) < 0;
      if u: nat :| u < n && Negative(Stage(w, u, u, u)) {
        StageFalls(w, u, n, u, u);
        assert Negative(x(u, u));
      } else {
        StageComplete(n, w, n, c, c, p);
        assert Negative(x(c, c));
      }
    }
  }

  /** Without negative closed walks, in particular when all edges go upwards, the full result
      is exact everywhere and closed under the triangle inequality. */
  lemma FullResultIsExact(n: nat, w: Weights, x: Weights)
    requires FullResult(n, w, x)
    requires NoNegativeCycle(n, w) || Upward(n, w)
    ensures forall i: nat, j: nat :: i < n && j < n ==> IsShortest(n, w, n, i, j, x(i, j))
    ensures Closed(n, x)
  {
    if Upward(n, w) {
      UpwardHasNoCycle(n, w);
    }
    forall i: nat, j: nat | i < n && j < n
      ensures IsShortest(n, w, n, i, j, x(i, j))
    {
      NoCycleNoDrain(n, w, n, i, j);
    }
    ShortestIsClosed(n, w, x);
  }

  /** Under the triangle inequality no walk is cheaper than the direct edge ... */
  lemma {:induction false} ClosedWalks(n: nat, w: Weights, k: nat, i: nat, j: nat, p: seq<nat>)
    requires Closed(n, w) && Route(n, w, k, i, j, p)
    ensures Leq(w(i, j), Fin(Cost(w, p)))
    decreases |p|
  {
    var rest, second := p[1..], p[1];
    assert w(p[0], p[1]).Fin?;
    if |p| == 2 {
      assert rest == [second];
    } else {
      assert Route(n, w, k, second, j, rest);
      ClosedWalks(n, w, k, second, j, rest);
      assert Leq(w(i, j), Plus(w(i, second), w(second, j)));
    }
  }

  /** ... so a matrix that satisfies it is its own full result: running the routine again changes
      nothing. */
  lemma ClosedIsFixed(n: nat, w: Weights, x: Weights, i: nat, j: nat)
    requires FullResult(n, w, x) && Closed(n, w) && i < n && j < n
    ensures x(i, j) == w(i, j)
  {
    if x(i, j).Fin? {
      var p :| Route(n, w, n, i, j, p) && Cost(w, p) == x(i, j).v;
      ClosedWalks(n, w, n, i, j, p);
    }
  }

  /** Updating in place refines the textbook recurrence wherever no negative closed walk
      interferes: the row and column a stage reads while writing do not matter. */
  lemma InPlaceRefines(n: nat, w: Weights, x: Weights, i: nat, j: nat)
    requires FullResult(n, w, x) && i < n && j < n && !Drained(n, w, n, i, j)
    ensures x(i, j) == Stage(w, n, i, j)
  {
    StageExact(n, w, n, i, j);
    ShortestIsUnique(n, w, n, i, j, x(i, j), Stage(w, n, i, j));
  }

  /** What the row-by-row routine promises, for any prices: cell (i, j) is the recurrence
      stopped at the smaller endpoint, so it is no higher than its edge, and the cost of a real
      walk if finite.  It is the least cost of the walks whose intermediate nodes are below both
      endpoints if and only if no negative closed walk over such nodes lies between them. */
  ghost predicate RowByRowResult(n: nat, w: Weights, x: Weights) {
    forall i: nat, j: nat :: i < n && j < n ==>
      && x(i, j) == Stage(w, Lower(i, j), i, j)
      && Leq(x(i, j), w(i, j)) && Sound(n, w, Lower(i, j), i, j, x(i, j))
      && (IsShortest(n, w, Lower(i, j), i, j, x(i, j)) <==> !Drained(n, w, Lower(i, j), i, j))
  }

  ghost function Lower(i: nat, j: nat): nat {
    if i < j then i else j
  }

  lemma StagesAreRowByRow(n: nat, w: Weights, x: Weights)
    requires forall i: nat, j: nat :: i < n && j < n ==> x(i, j) == Stage(w, Lower(i, j), i, j)
    ensures RowByRowResult(n, w, x)
    ensures Upward(n, w) ==> forall i: nat, j: nat :: i < n && j < n ==> x(i, j) == w(i, j)
  {
    forall i: nat, j: nat | i < n && j < n
      ensures Leq(x(i, j), w(i, j)) && Sound(n, w, Lower(i, j), i, j, x(i, j))
      ensures IsShortest(n, w, Lower(i, j), i, j, x(i, j)) <==> !Drained(n, w, Lower(i, j), i, j)
      ensures Upward(n, w) ==> x(i, j) == w(i, j)
    {
      StageFalls(w, 0, Lower(i, j), i, j);
      StageSound(n, w, Lower(i, j), i, j);
      StageExact(n, w, Lower(i, j), i, j);
      if Upward(n, w) {
        UpwardRowByRow(n, w, Lower(i, j), i, j);
      }
    }
  }

  /** On the same input the row-by-row result is nowhere below the full one. */
  lemma RowByRowIsWeaker(n: nat, w: Weights, x: Weights, y: Weights, i: nat, j: nat)
    requires i < n && j < n && FullResult(n, w, x) && RowByRowResult(n, w, y)
    ensures Leq(x(i, j), y(i, j))
  {
    StageFalls(w, Lower(i, j), n, i, j);
    assert Leq(x(i, j), Stage(w, n, i, j)) && y(i, j) == Stage(w, Lower(i, j), i, j);
  }

  /** Shortest distances satisfy the triangle inequality. */
  lemma ShortestIsClosed(n: nat, w: Weights, d: Weights)
    requires forall i: nat, j: nat :: i < n && j < n ==> IsShortest(n, w, n, i, j, d(i, j))
    ensures Closed(n, d)
  {
    forall i: nat, k: nat, j: nat | i < n && k < n && j < n
      ensures Leq(d(i, j), Plus(d(i, k), d(k, j)))
    {
      if d(i, k).Fin? && d(k, j).Fin? {
        AttainedJoin(n, w, n, i, k, j, d(i, k).v, d(k, j).v);
        var p :| Route(n, w, n, i, j, p) && Cost(w, p) == d(i, k).v + d(k, j).v;
        assert Reach(n, w, n, i, j);
      }
    }
  }

  /** On a graph whose edges all go upwards every walk goes upwards, so there is no closed
      walk at all, whatever the signs of the prices. */
  lemma {:induction false} UpwardRoutes(n: nat, w: Weights, k: nat, i: nat, j: nat, p: seq<nat>)
    requires Upward(n, w) && Route(n, w, k, i, j, p)
    ensures i < j
    decreases |p|
  {
    if |p| > 2 {
      assert Route(n, w, k, p[1], j, p[1..]);
      UpwardRoutes(n, w, k, p[1], j, p[1..]);
    }
    assert w(p[0], p[1]).Fin?;
  }

  lemma UpwardHasNoCycle(n: nat, w: Weights)
    requires Upward(n, w)
    ensures NoNegativeCycle(n, w)
  {
    forall c: nat, p | Route(n, w, n, c, c, p)
      ensures false
    {
      UpwardRoutes(n, w, n, c, c, p);
    }
  }

  /** ... and the row-by-row recurrence, which only looks at nodes below both endpoints,
      never finds anything to improve. */
  lemma {:induction false} UpwardRowByRow(n: nat, w: Weights, k: nat, i: nat, j: nat)
    requires Upward(n, w) && i < n && j < n && k <= i
    ensures Stage(w, k, i, j) == w(i, j)
    decreases k
  {
    if k > 0 {
      UpwardRowByRow(n, w, k - 1, i, j);
      UpwardRowByRow(n, w, k - 1, i, k - 1);
    }
  }
}
