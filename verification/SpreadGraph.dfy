/** The price graph of a spread matrix. */
module SpreadGraph {
  import opened Walks
  import opened Floyd
  import opened ImpliedPricer
  import opened MatrixGen

  /** A matrix with edges only on the cells the spread generator fills goes upwards, whatever
      the labels and prices, so neither shortest-path routine meets a negative cycle on it. */
  lemma SpreadCellsGoUpward(adj: EdgeMatrix, isBid: bool, f: Labels)
    requires Square(adj)
    requires forall i: nat, j: nat :: i < |adj| && j < |adj| && adj[i][j].present ==>
               RC(i, j) in PutGraph(map[], SpreadEntries(f, |adj|, |adj|))
    ensures Upward(|adj|, Graph(adj, isBid)) && NoNegativeCycle(|adj|, Graph(adj, isBid))
  {
    var n, es := |adj|, SpreadEntries(f, |adj|, |adj|);
    PutKeys(es);
    forall i: nat, j: nat | i < n && j < n && Graph(adj, isBid)(i, j).Fin?
      ensures i < j
    {
      var e :| e in es && e.rc == RC(i, j);
      SpreadEntry(f, n, n, e);
    }
    UpwardHasNoCycle(n, Graph(adj, isBid));
  }
}
