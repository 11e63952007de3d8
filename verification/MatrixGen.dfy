/** The contract matrix generator: labels by cell, and cells by label. */
module MatrixGen {
  import opened Contracts

  datatype RC = RC(iRow: nat, iCol: nat)

  /** One pass through the body of a generator loop: a label is put on a cell. */
  datatype Entry = Entry(rc: RC, desc: string)

  /** A label for every cell. */
  type Labels = (nat, nat) -> string

  function Outrights(text: Text1, first: Counter): Labels {
    (n: nat, j: nat) => text(Months(first, n))
  }

  function Spreads(text: Text2, first: Counter): Labels {
    (n: nat, j: nat) => if n <= j then Spread(text, first, n, j) else ""
  }

  function OutrightEntries(f: Labels, n: nat): seq<Entry> {
    if n == 0 then [] else OutrightEntries(f, n - 1) + [Entry(RC(n - 1, n - 1), f(n - 1, n - 1))]
  }

  /** Row `n`, columns `n + 1` to `j - 1`. */
  function RowEntries(f: Labels, n: nat, j: nat): (es: seq<Entry>)
    requires n < j
    ensures |es| == j - n - 1
  {
    if j == n + 1 then [] else RowEntries(f, n, j - 1) + [Entry(RC(n, j - 1), f(n, j - 1))]
  }

  lemma RowNext(f: Labels, n: nat, j: nat)
    requires n < j
    ensures RowEntries(f, n, j + 1) == RowEntries(f, n, j) + [Entry(RC(n, j), f(n, j))]
  {
  }

  lemma CellText(text: Text2, first: Counter, n: nat, j: nat, leg: Counter, c: Counter)
    requires n <= j && leg == MonthsOuter(first, n) && c == Months(leg, j - n)
    ensures Spreads(text, first)(n, j) == text(leg, c)
  {
  }

  /** The first `n` rows of a spread matrix of `size` months. */
  function SpreadEntries(f: Labels, size: nat, n: nat): seq<Entry>
    requires n <= size
  {
    if n == 0 then [] else SpreadEntries(f, size, n - 1) + RowEntries(f, n - 1, size)
  }

  function PutGraph(g: map<RC, string>, es: seq<Entry>): map<RC, string> {
    if |es| == 0 then g
    else
      var e := es[|es| - 1];
      PutGraph(g, es[..|es| - 1])[e.rc := e.desc]
  }

  function PutCells(m: map<string, RC>, es: seq<Entry>): map<string, RC> {
    if |es| == 0 then m
    else
      var e := es[|es| - 1];
      PutCells(m, es[..|es| - 1])[e.desc := e.rc]
  }

  lemma PutOne(g: map<RC, string>, m: map<string, RC>, es: seq<Entry>, e: Entry)
    ensures PutGraph(g, es + [e]) == PutGraph(g, es)[e.rc := e.desc]
    ensures PutCells(m, es + [e]) == PutCells(m, es)[e.desc := e.rc]
  {
    assert (es + [e])[..|es|] == es;
  }

  lemma {:induction false} PutAppend(g: map<RC, string>, m: map<string, RC>, xs: seq<Entry>, ys: seq<Entry>)
    ensures PutGraph(g, xs + ys) == PutGraph(PutGraph(g, xs), ys)
    ensures PutCells(m, xs + ys) == PutCells(PutCells(m, xs), ys)
  {
    if |ys| == 0 {
      assert xs + ys == xs;
    } else {
      assert (xs + ys)[..|xs + ys| - 1] == xs + ys[..|ys| - 1];
      PutAppend(g, m, xs, ys[..|ys| - 1]);
    }
  }

  /** The carry of the month counter into the year, which the outright loop does after an
      increment and the inner spread loop before a use. */
  method Carry(iLenFuts: nat, iMth: nat, iYr: int) returns (m: nat, y: int)
    requires iLenFuts == 12 && 1 <= iMth <= iLenFuts
    ensures Counter(m, y) == Advance(Counter(iMth - 1, iYr)) && m < iLenFuts
  {
    m, y := iMth, iYr;
    if m > iLenFuts - 1 {
      m := 0;
      y := y + 1;
    }
    if y % 10 == 0 {
      y := 0;
    }
  }

  /** The outer spread loop's carry. */
  method CarryOuter(iLenFuts: nat, iMth: nat, iYr: int) returns (m: nat, y: int)
    requires iLenFuts == 12 && 1 <= iMth <= iLenFuts
    ensures Counter(m, y) == AdvanceOuter(Counter(iMth - 1, iYr)) && m < iLenFuts
  {
    m, y := iMth, iYr;
    if m > iLenFuts - 1 {
      m := 0;
      y := y + 1;
    }
    if y == 10 {
      y := 0;
    }
  }

  class MatrixGen {
    var graphMap: map<RC, string>
    var rcMap: map<string, RC>

    constructor ()
      ensures graphMap == map[] && rcMap == map[]
    {
      graphMap, rcMap := map[], map[];
    }

    /** `iStart` is where the start month's code was found, or -1.  An unknown month throws
        before anything is written, unless no month is asked for. */
    method GenOutrightMatrix(product: string, iStart: int, startYear: int, numMonths: int) returns (ok: bool)
      requires -1 <= iStart < |FUTS|
      modifies this
      ensures ok <==> iStart >= 0 || numMonths <= 0
      ensures iStart < 0 || numMonths <= 0 ==> graphMap == old(graphMap) && rcMap == old(rcMap)
      ensures iStart >= 0 && numMonths > 0 ==>
        var es := OutrightEntries(Outrights(OutrightText(product), Counter(iStart, startYear)), numMonths);
        Wrote(old(graphMap), old(rcMap), es)
    {
      if numMonths <= 0 || iStart < 0 {
        return numMonths <= 0;
      }
      OutrightLoop(OutrightText(product), |FUTS|, iStart, startYear, numMonths);
      ok := true;
    }

    /** The loop of the outright generator, whatever the labels look like. */
    method OutrightLoop(text: Text1, iLenFuts: nat, iStart: nat, startYear: int, numMonths: nat)
      requires iLenFuts == 12 && iStart < iLenFuts
      modifies this
      ensures var es := OutrightEntries(Outrights(text, Counter(iStart, startYear)), numMonths);
        Wrote(old(graphMap), old(rcMap), es)
    {
      ghost var first := Counter(iStart, startYear);
      ghost var es := [];
      var iMth1, iYr1 := iStart, startYear;
      for n := 0 to numMonths
        invariant 0 <= iMth1 < 12 && Counter(iMth1, iYr1) == Months(first, n)
        invariant es == OutrightEntries(Outrights(text, first), n)
        invariant Wrote(old(graphMap), old(rcMap), es)
      {
        var szSecDesc := text(Counter(iMth1, iYr1));
        SetCell(RC(n, n), szSecDesc, old(graphMap), old(rcMap), es);
        es := es + [Entry(RC(n, n), szSecDesc)];
        iMth1, iYr1 := Carry(iLenFuts, iMth1 + 1, iYr1);
      }
    }

    method GenSpreadMatrix(product: string, iStart: int, startYear: int, numMonths: int) returns (ok: bool)
      requires -1 <= iStart < |FUTS|
      modifies this
      ensures ok <==> iStart >= 0 || numMonths <= 0
      ensures iStart < 0 || numMonths <= 0 ==> graphMap == old(graphMap) && rcMap == old(rcMap)
      ensures iStart >= 0 && numMonths > 0 ==>
        var es := SpreadEntries(Spreads(SpreadText(product), Counter(iStart, startYear)), numMonths, numMonths);
        Wrote(old(graphMap), old(rcMap), es)
    {
      if numMonths <= 0 || iStart < 0 {
        return numMonths <= 0;
      }
      SpreadLoops(SpreadText(product), |FUTS|, iStart, startYear, numMonths);
      ok := true;
    }

    /** The maps were `g` and `m` before the entries `es` were made. */
    ghost predicate Wrote(g: map<RC, string>, m: map<string, RC>, es: seq<Entry>)
      reads this
    {
      graphMap == PutGraph(g, es) && rcMap == PutCells(m, es)
    }

    /** ... row `n` up to column `j`. */
    ghost predicate WroteRow(g: map<RC, string>, m: map<string, RC>, f: Labels, n: nat, j: nat)
      requires n < j
      reads this
    {
      Wrote(g, m, RowEntries(f, n, j))
    }

    /** One cell, in both maps. */
    method SetCell(rc: RC, desc: string, ghost g: map<RC, string>, ghost m: map<string, RC>, ghost es: seq<Entry>)
      requires Wrote(g, m, es)
      modifies this
      ensures Wrote(g, m, es + [Entry(rc, desc)])
    {
      PutOne(g, m, es, Entry(rc, desc));
      graphMap := graphMap[rc := desc];
      rcMap := rcMap[desc := rc];
    }

    /** The nested loops of the spread generator, whatever the labels look like. */
    method SpreadLoops(text: Text2, iLenFuts: nat, iStart: nat, startYear: int, numMonths: nat)
      requires iLenFuts == 12 && iStart < iLenFuts
      modifies this
      ensures var es := SpreadEntries(Spreads(text, Counter(iStart, startYear)), numMonths, numMonths);
        Wrote(old(graphMap), old(rcMap), es)
    {
      ghost var f := Spreads(text, Counter(iStart, startYear));
      ghost var done := [];
      var iMth1, iYr1 := iStart, startYear;
      for n := 0 to numMonths
        invariant 0 <= iMth1 < 12 && Counter(iMth1, iYr1) == MonthsOuter(Counter(iStart, startYear), n)
        invariant done == SpreadEntries(f, numMonths, n)
        invariant Wrote(old(graphMap), old(rcMap), done)
      {
        SpreadRow(text, iLenFuts, n, numMonths, iMth1, iYr1, Counter(iStart, startYear), f);
        PutAppend(old(graphMap), old(rcMap), done, RowEntries(f, n, numMonths));
        done := done + RowEntries(f, n, numMonths);
        iMth1, iYr1 := CarryOuter(iLenFuts, iMth1 + 1, iYr1);
      }
    }

    /** The inner loop: month `n` against every later month. */
    method SpreadRow(text: Text2, iLenFuts: nat, n: nat, numMonths: nat, iMth1: nat, iYr1: int,
                     ghost first: Counter, ghost f: Labels)
      requires iLenFuts == 12 && n < numMonths && iMth1 < iLenFuts
      requires Counter(iMth1, iYr1) == MonthsOuter(first, n) && f == Spreads(text, first)
      modifies this
      ensures WroteRow(old(graphMap), old(rcMap), f, n, numMonths)
    {
      var szM1 := Counter(iMth1, iYr1);
      var iMth2, iYr2 := iMth1 + 1, iYr1;
      for j := n + 1 to numMonths
        invariant 1 <= iMth2 <= 12 && Counter(iMth2 - 1, iYr2) == Months(szM1, j - n - 1)
        invariant WroteRow(old(graphMap), old(rcMap), f, n, j)
      {
        iMth2, iYr2 := SpreadCell(text, iLenFuts, n, j, szM1, iMth2, iYr2, first, f, old(graphMap), old(rcMap));
      }
    }

    /** One pass of the inner loop: month `n` against month `j`. */
    method SpreadCell(text: Text2, iLenFuts: nat, n: nat, j: nat, szM1: Counter, iMth: nat, iYr: int,
                      ghost first: Counter, ghost f: Labels, ghost g: map<RC, string>, ghost m: map<string, RC>)
      returns (iMth2: nat, iYr2: int)
      requires iLenFuts == 12 && n < j && szM1 == MonthsOuter(first, n) && f == Spreads(text, first)
      requires 1 <= iMth <= 12 && Counter(iMth - 1, iYr) == Months(szM1, j - n - 1)
      requires WroteRow(g, m, f, n, j)
      modifies this
      ensures 1 <= iMth2 <= 12 && Counter(iMth2 - 1, iYr2) == Months(szM1, j - n)
      ensures WroteRow(g, m, f, n, j + 1)
    {
      iMth2, iYr2 := Carry(iLenFuts, iMth, iYr);
      var szSecDesc := text(szM1, Counter(iMth2, iYr2));
      CellText(text, first, n, j, szM1, Counter(iMth2, iYr2));
      RowNext(f, n, j);
      SetCell(RC(n, j), szSecDesc, g, m, RowEntries(f, n, j));
      iMth2 := iMth2 + 1;
    }
  }

  // ----- what the two maps hold

  /** Every entry lies on or above the diagonal and carries its cell's label, and every such
      cell has an entry. */
  ghost predicate Covers(es: seq<Entry>, h: Labels, size: nat) {
    forall e :: e in es <==> e.rc.iRow <= e.rc.iCol < size && e.desc == h(e.rc.iRow, e.rc.iCol)
  }

  lemma {:induction false} PutKeys(es: seq<Entry>)
    ensures forall c :: c in PutGraph(map[], es) <==> exists e :: e in es && e.rc == c
    ensures forall c :: c in PutGraph(map[], es) ==> Entry(c, PutGraph(map[], es)[c]) in es
    ensures forall l :: l in PutCells(map[], es) <==> exists e :: e in es && e.desc == l
    ensures forall l :: l in PutCells(map[], es) ==> Entry(PutCells(map[], es)[l], l) in es
  {
    if |es| > 0 {
      PutKeys(es[..|es| - 1]);
      assert es == es[..|es| - 1] + [es[|es| - 1]];
    }
  }

  /** The two maps are inverse to each other over exactly the cells on and above the diagonal. */
  ghost predicate MutualInverses(graph: map<RC, string>, cells: map<string, RC>, size: nat) {
    && (forall c :: c in graph <==> c.iRow <= c.iCol < size)
    && (forall c :: c in graph ==> graph[c] in cells && cells[graph[c]] == c)
    && (forall l :: l in cells ==> cells[l] in graph && graph[cells[l]] == l)
  }

  lemma CoveredMaps(es: seq<Entry>, h: Labels, size: nat)
    requires Covers(es, h, size)
    ensures var graph, cells := PutGraph(map[], es), PutCells(map[], es);
      && (forall c :: c in graph <==> c.iRow <= c.iCol < size)
      && (forall c :: c in graph ==> graph[c] == h(c.iRow, c.iCol) && graph[c] in cells)
      && (forall l :: l in cells ==> cells[l] in graph && graph[cells[l]] == l)
  {
    PutKeys(es);
    var graph, cells := PutGraph(map[], es), PutCells(map[], es);
    forall c: RC | c.iRow <= c.iCol < size
      ensures c in graph
    {
      assert Entry(c, h(c.iRow, c.iCol)) in es;
    }
    forall c | c in graph
      ensures graph[c] in cells
    {
      assert Entry(c, graph[c]) in es;
    }
    forall l | l in cells
      ensures cells[l] in graph && graph[cells[l]] == l
    {
      assert Entry(cells[l], l) in es;
      assert Entry(cells[l], graph[cells[l]]) in es;
    }
  }

  /** No two cells on or above the diagonal share a label. */
  ghost predicate Injective(h: Labels, size: nat) {
    forall n: nat, j: nat, n': nat, j': nat ::
      n <= j < size && n' <= j' < size && h(n, j) == h(n', j') ==> n == n' && j == j'
  }

  lemma InjectiveIsInverse(es: seq<Entry>, h: Labels, size: nat)
    requires Covers(es, h, size) && Injective(h, size)
    ensures MutualInverses(PutGraph(map[], es), PutCells(map[], es), size)
  {
    CoveredMaps(es, h, size);
    var graph, cells := PutGraph(map[], es), PutCells(map[], es);
    forall c | c in graph
      ensures cells[graph[c]] == c
    {
      var d := cells[graph[c]];
      assert h(d.iRow, d.iCol) == h(c.iRow, c.iCol);
    }
  }

  lemma InverseIffInjective(es: seq<Entry>, h: Labels, size: nat)
    requires Covers(es, h, size)
    ensures MutualInverses(PutGraph(map[], es), PutCells(map[], es), size) <==> Injective(h, size)
  {
    var graph, cells := PutGraph(map[], es), PutCells(map[], es);
    if Injective(h, size) {
      InjectiveIsInverse(es, h, size);
    }
    if MutualInverses(graph, cells, size) {
      CoveredMaps(es, h, size);
      forall n: nat, j: nat, n': nat, j': nat | n <= j < size && n' <= j' < size && h(n, j) == h(n', j')
        ensures n == n' && j == j'
      {
        assert cells[graph[RC(n, j)]] == RC(n, j) && cells[graph[RC(n', j')]] == RC(n', j');
      }
    }
  }

  lemma {:induction false} OutrightEntry(f: Labels, n: nat, e: Entry)
    ensures e in OutrightEntries(f, n) <==> e.rc.iRow == e.rc.iCol < n && e.desc == f(e.rc.iRow, e.rc.iCol)
  {
    if n > 0 {
      OutrightEntry(f, n - 1, e);
    }
  }

  lemma {:induction false} RowEntry(f: Labels, n: nat, j: nat, e: Entry)
    requires n < j
    ensures e in RowEntries(f, n, j) <==> e.rc.iRow == n < e.rc.iCol < j && e.desc == f(e.rc.iRow, e.rc.iCol)
  {
    if j > n + 1 {
      RowEntry(f, n, j - 1, e);
    }
  }

  /** The spread generator fills exactly the cells above the diagonal. */
  lemma {:induction false} SpreadEntry(f: Labels, size: nat, n: nat, e: Entry)
    requires n <= size
    ensures e in SpreadEntries(f, size, n)
       <==> e.rc.iRow < n && e.rc.iRow < e.rc.iCol < size && e.desc == f(e.rc.iRow, e.rc.iCol)
  {
    if n > 0 {
      SpreadEntry(f, size, n - 1, e);
      RowEntry(f, n - 1, size, e);
    }
  }

  /** ... each of them once: there are size * (size - 1) / 2. */
  lemma {:induction false} SpreadCount(f: Labels, size: nat, n: nat)
    requires n <= size
    ensures 2 * |SpreadEntries(f, size, n)| == n * (2 * size - n - 1)
  {
    if n > 0 {
      SpreadCount(f, size, n - 1);
      assert n * (2 * size - n - 1) == (n - 1) * (2 * size - n) + 2 * (size - n);
    }
  }

  /** What `h` must be for the two generators to have filled the matrix with it. */
  lemma GeneratedCovers(f: Labels, g: Labels, h: Labels, size: nat)
    requires forall n: nat :: h(n, n) == f(n, n)
    requires forall n: nat, j: nat :: n < j ==> h(n, j) == g(n, j)
    ensures var outs, spreads := OutrightEntries(f, size), SpreadEntries(g, size, size);
      Covers(outs + spreads, h, size) && Covers(spreads + outs, h, size)
  {
    var outs, spreads := OutrightEntries(f, size), SpreadEntries(g, size, size);
    forall e: Entry
      ensures e in outs || e in spreads <==> e.rc.iRow <= e.rc.iCol < size && e.desc == h(e.rc.iRow, e.rc.iCol)
    {
      OutrightEntry(f, size, e);
      SpreadEntry(g, size, size, e);
    }
  }

  ghost function CellLabels(text1: Text1, text2: Text2, first: Counter): Labels {
    (n: nat, j: nat) => if n == j then text1(Months(first, n)) else text2(Months(first, n), Months(first, j))
  }

  /** The labels of a matrix that starts in a one-digit year tell cells apart if and only if
      it spans at most ten years: at 121 months the first and the last outright coincide. */
  lemma InjectiveIffTenYears(text1: Text1, text2: Text2, first: Counter, size: nat)
    requires DigitYear(first) && TellApart(text1, text2)
    ensures Injective(CellLabels(text1, text2, first), size) <==> size <= 120
  {
    var h := CellLabels(text1, text2, first);
    if size <= 120 {
      forall n: nat, j: nat, n': nat, j': nat | n <= j < size && n' <= j' < size && h(n, j) == h(n', j')
        ensures n == n' && j == j'
      {
        CellsDiffer(text1, text2, first, n, j, n', j');
      }
    } else {
      assert Months(first, 0) == Months(first, 120) by {
        MonthsCycle(first, 0, 120);
      }
      assert h(0, 0) == h(120, 120);
    }
  }

  lemma CellsDiffer(text1: Text1, text2: Text2, first: Counter, n: nat, j: nat, n': nat, j': nat)
    requires DigitYear(first) && TellApart(text1, text2)
    requires n <= j < 120 && n' <= j' < 120
    requires CellLabels(text1, text2, first)(n, j) == CellLabels(text1, text2, first)(n', j')
    ensures n == n' && j == j'
  {
    var c, d, c', d' := Months(first, n), Months(first, j), Months(first, n'), Months(first, j');
    assert DigitYear(c) && DigitYear(c') && (c == c' <==> n == n') by {
      MonthsCycle(first, n, n');
      MonthsCycle(first, n', n);
    }
    assert DigitYear(d) && DigitYear(d') && (d == d' <==> j == j') by {
      MonthsCycle(first, j, j');
      MonthsCycle(first, j', j);
    }
    assert text1(c) != text2(c', d') && text1(c') != text2(c, d);
  }

  /** Two generations on a fresh object, the first with entries `es` and the second with `es'`, leave
      maps that are mutual inverses. */
  ghost predicate InverseAfter(es: seq<Entry>, es': seq<Entry>, size: nat) {
    MutualInverses(PutGraph(PutGraph(map[], es), es'), PutCells(PutCells(map[], es), es'), size)
  }

  /** The two maps after one outright and one spread generation on a fresh object, in
      either order, are mutual inverses if and only if the labels tell cells apart. */
  lemma GeneratedInverse(f: Labels, g: Labels, h: Labels, size: nat)
    requires forall n: nat :: h(n, n) == f(n, n)
    requires forall n: nat, j: nat :: n < j ==> h(n, j) == g(n, j)
    ensures var outs, spreads := OutrightEntries(f, size), SpreadEntries(g, size, size);
      && (InverseAfter(outs, spreads, size) <==> Injective(h, size))
      && (InverseAfter(spreads, outs, size) <==> Injective(h, size))
  {
    var outs, spreads := OutrightEntries(f, size), SpreadEntries(g, size, size);
    GeneratedCovers(f, g, h, size);
    PutAppend(map[], map[], outs, spreads);
    PutAppend(map[], map[], spreads, outs);
    InverseIffInjective(outs + spreads, h, size);
    InverseIffInjective(spreads + outs, h, size);
  }

  /** ... which, for a one-digit start year, is when the matrix spans at most 120 months. */
  lemma InverseIffTenYears(product: string, first: Counter, size: nat)
    requires DigitYear(first)
    ensures var outs := OutrightEntries(Outrights(OutrightText(product), first), size);
      var spreads := SpreadEntries(Spreads(SpreadText(product), first), size, size);
      && (InverseAfter(outs, spreads, size) <==> size <= 120)
      && (InverseAfter(spreads, outs, size) <==> size <= 120)
  {
    TextsTellApart(product);
    InverseOfTexts(OutrightText(product), SpreadText(product), first, size);
  }

  lemma InverseOfTexts(text1: Text1, text2: Text2, first: Counter, size: nat)
    requires DigitYear(first) && TellApart(text1, text2)
    ensures var outs := OutrightEntries(Outrights(text1, first), size);
      var spreads := SpreadEntries(Spreads(text2, first), size, size);
      && (InverseAfter(outs, spreads, size) <==> size <= 120)
      && (InverseAfter(spreads, outs, size) <==> size <= 120)
  {
    forall n: nat, j: nat | n < j
      ensures CellLabels(text1, text2, first)(n, j) == Spreads(text2, first)(n, j)
    {
      ConsistentSpread(text2, first, n, j);
    }
    InjectiveIffTenYears(text1, text2, first, size);
    GeneratedInverse(Outrights(text1, first), Spreads(text2, first), CellLabels(text1, text2, first), size);
  }
}
