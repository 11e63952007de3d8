/** Prices with an explicit infinity, and walks in a weighted directed graph.

    A graph is a weight function on node pairs: `Inf` means "no edge".  A walk is a node
    sequence of length at least two, so a walk from a node to itself is a genuine cycle
    and never the empty one.  This matches the source, whose distance matrix starts with
    INF, not 0, on the diagonal. */
module Walks {

  datatype Dist = Fin(v: int) | Inf

  function Plus(a: Dist, b: Dist): Dist {
    if a.Fin? && b.Fin? then Fin(a.v + b.v) else Inf
  }

  predicate Less(a: Dist, b: Dist) {
    a.Fin? && (b.Inf? || a.v < b.v)
  }

  predicate Leq(a: Dist, b: Dist) {
    !Less(b, a)
  }

  function Min(a: Dist, b: Dist): Dist {
    if Less(b, a) then b else a
  }

  type Weights = (nat, nat) -> Dist

  ghost function EdgeCost(w: Weights, a: nat, b: nat): int {
    if w(a, b).Fin? then w(a, b).v else 0
  }

  ghost function Cost(w: Weights, p: seq<nat>): int {
    if |p| <= 1 then 0 else EdgeCost(w, p[0], p[1]) + Cost(w, p[1..])
  }

  /** `p` is a walk from `i` to `j` over the nodes below `n` whose intermediate nodes are
      all below `k`. */
  ghost predicate Route(n: nat, w: Weights, k: nat, i: nat, j: nat, p: seq<nat>) {
    && |p| >= 2
    && p[0] == i && p[|p| - 1] == j
    && (forall t :: 0 <= t < |p| ==> p[t] < n)
    && (forall t :: 0 <= t < |p| - 1 ==> w(p[t], p[t + 1]).Fin?)
    && (forall t :: 0 < t < |p| - 1 ==> p[t] < k)
  }

  ghost predicate Reach(n: nat, w: Weights, k: nat, i: nat, j: nat) {
    exists p :: Route(n, w, k, i, j, p)
  }

  ghost predicate Attained(n: nat, w: Weights, k: nat, i: nat, j: nat, c: int) {
    exists p :: Route(n, w, k, i, j, p) && Cost(w, p) == c
  }

  /** A closed walk of negative cost starts at `c`. */
  ghost predicate NegLoop(n: nat, w: Weights, k: nat, c: nat) {
    exists p :: Route(n, w, k, c, c, p) && Cost(w, p) < 0
  }

  ghost predicate NoNegativeCycle(n: nat, w: Weights) {
    forall c: nat :: c < n ==> !NegLoop(n, w, n, c)
  }

  /** Some closed walk of negative cost lies on a walk from `i` to `j`. */
  ghost predicate Drained(n: nat, w: Weights, k: nat, i: nat, j: nat) {
    exists c: nat :: c < k && NegLoop(n, w, k, c) && Reach(n, w, k, i, c) && Reach(n, w, k, c, j)
  }

  /** `d` is the least cost of a walk from `i` to `j` with intermediate nodes below `k`;
      `Inf` exactly when there is no such walk. */
  ghost predicate IsShortest(n: nat, w: Weights, k: nat, i: nat, j: nat, d: Dist) {
    match d
    case Inf => !Reach(n, w, k, i, j)
    case Fin(v) =>
      && Attained(n, w, k, i, j, v)
      && forall p :: Route(n, w, k, i, j, p) ==> v <= Cost(w, p)
  }

  lemma {:induction false} CostOfJoin(w: Weights, p: seq<nat>, q: seq<nat>)
    requires |p| >= 1 && |q| >= 1 && p[|p| - 1] == q[0]
    ensures Cost(w, p + q[1..]) == Cost(w, p) + Cost(w, q)
  {
    if |p| == 1 {
      assert p + q[1..] == q;
    } else {
      assert (p + q[1..])[1..] == p[1..] + q[1..];
      CostOfJoin(w, p[1..], q);
      if |p| == 2 && |q| > 1 {
        assert (p + q[1..])[1] == p[1];
      }
    }
  }

  lemma Join(n: nat, w: Weights, k: nat, i: nat, c: nat, j: nat, p: seq<nat>, q: seq<nat>)
    requires c < k
    requires Route(n, w, k, i, c, p) && Route(n, w, k, c, j, q)
    ensures Route(n, w, k, i, j, p + q[1..])
    ensures Cost(w, p + q[1..]) == Cost(w, p) + Cost(w, q)
  {
    CostOfJoin(w, p, q);
    var r := p + q[1..];
    forall t | 0 <= t < |r| - 1
      ensures w(r[t], r[t + 1]).Fin?
    {
      if t >= |p| - 1 {
        assert r[t] == q[t - (|p| - 1)] && r[t + 1] == q[t - (|p| - 1) + 1];
      }
    }
  }

  lemma Widen(n: nat, w: Weights, k: nat, k': nat, i: nat, j: nat)
    requires k <= k'
    ensures Reach(n, w, k, i, j) ==> Reach(n, w, k', i, j)
    ensures NegLoop(n, w, k, i) ==> NegLoop(n, w, k', i)
    ensures forall c :: Attained(n, w, k, i, j, c) ==> Attained(n, w, k', i, j, c)
  {
    forall a, b, p | Route(n, w, k, a, b, p)
      ensures Route(n, w, k', a, b, p)
    {
    }
  }

  lemma ReachJoin(n: nat, w: Weights, k: nat, i: nat, c: nat, j: nat)
    requires c < k && Reach(n, w, k, i, c) && Reach(n, w, k, c, j)
    ensures Reach(n, w, k, i, j)
  {
    var p :| Route(n, w, k, i, c, p);
    var q :| Route(n, w, k, c, j, q);
    Join(n, w, k, i, c, j, p, q);
  }

  /** Going round a negative closed walk `t` times costs at most `-t`. */
  lemma {:induction false} Pump(n: nat, w: Weights, k: nat, c: nat, x: seq<nat>, t: nat) returns (y: seq<nat>)
    requires c < k && Route(n, w, k, c, c, x) && Cost(w, x) < 0 && t > 0
    ensures Route(n, w, k, c, c, y) && Cost(w, y) + t <= 0
  {
    if t == 1 {
      y := x;
    } else {
      var z := Pump(n, w, k, c, x, t - 1);
      Join(n, w, k, c, c, c, x, z);
      y := x + z[1..];
    }
  }

  /** On a drained pair the walk costs have no lower bound. */
  lemma DrainedIsUnbounded(n: nat, w: Weights, k: nat, i: nat, j: nat, bound: int)
    requires Drained(n, w, k, i, j)
    ensures exists p :: Route(n, w, k, i, j, p) && Cost(w, p) < bound
  {
    var c: nat :| c < k && NegLoop(n, w, k, c) && Reach(n, w, k, i, c) && Reach(n, w, k, c, j);
    var x :| Route(n, w, k, c, c, x) && Cost(w, x) < 0;
    var a :| Route(n, w, k, i, c, a);
    var b :| Route(n, w, k, c, j, b);
    var excess := Cost(w, a) + Cost(w, b) - bound;
    var y := Pump(n, w, k, c, x, if excess < 0 then 1 else excess + 1);
    Join(n, w, k, i, c, c, a, y);
    Join(n, w, k, i, c, j, a + y[1..], b);
  }
}
