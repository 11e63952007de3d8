/** Contract months: the month and year counters of the matrix generator and the labels
    they print. */
module Contracts {

  const FUTS: string := "FGHJKMNQUVXZ"

  /** An integer as the output stream prints it. */
  function Digits(n: nat): (s: string)
    ensures |s| > 0 && (s[0] == '0' <==> n == 0) && s[0] != '-'
    ensures n < 10 ==> |s| == 1 && s[0] as int == '0' as int + n
  {
    if n < 10 then [(('0' as int) + n) as char] else Digits(n / 10) + [(('0' as int) + n % 10) as char]
  }

  function Decimal(y: int): string {
    if y < 0 then "-" + Digits(-y) else Digits(y)
  }

  datatype Counter = Counter(month: nat, year: int)

  predicate Valid(c: Counter) {
    c.month < 12
  }

  /** One month later, as the outright loop and the inner spread loop count: a year that
      reaches a multiple of ten restarts at 0. */
  function Advance(c: Counter): Counter {
    var d := if c.month + 1 > 11 then Counter(0, c.year + 1) else Counter(c.month + 1, c.year);
    if d.year % 10 == 0 then Counter(d.month, 0) else d
  }

  /** One month later, as the outer spread loop counts: only the year 10 restarts. */
  function AdvanceOuter(c: Counter): Counter {
    var d := if c.month + 1 > 11 then Counter(0, c.year + 1) else Counter(c.month + 1, c.year);
    if d.year == 10 then Counter(d.month, 0) else d
  }

  function Months(c: Counter, n: nat): (d: Counter)
    ensures Valid(c) ==> Valid(d)
  {
    if n == 0 then c else Advance(Months(c, n - 1))
  }

  function MonthsOuter(c: Counter, n: nat): (d: Counter)
    ensures Valid(c) ==> Valid(d)
  {
    if n == 0 then c else AdvanceOuter(MonthsOuter(c, n - 1))
  }

  function Code(c: Counter): string
    requires Valid(c)
  {
    [FUTS[c.month]] + Decimal(c.year)
  }

  /** The descriptions the two generators print for one month, and for two. */
  type Text1 = Counter -> string
  type Text2 = (Counter, Counter) -> string

  function OutrightText(product: string): Text1 {
    (c: Counter) => if Valid(c) then product + Code(c) else ""
  }

  function SpreadText(product: string): Text2 {
    (c: Counter, d: Counter) => if Valid(c) && Valid(d) then product + Code(c) + "-" + product + Code(d) else ""
  }

  /** What the spread loops print in row `n`, column `j`: the outer counter after `n`
      months, and the inner one carried on from there. */
  function Spread(text: Text2, first: Counter, n: nat, j: nat): string
    requires n <= j
  {
    var leg := MonthsOuter(first, n);
    text(leg, Months(leg, j - n))
  }

  // ----- the counters against calendar arithmetic

  /** Calendar arithmetic: `m` months after the January of year `y`. */
  ghost function Calendar(y: nat, m: nat): (c: Counter)
    ensures Valid(c) && 0 <= c.year <= 9
  {
    Counter(m % 12, (y + m / 12) % 10)
  }

  lemma AdvanceArithmetic(m: nat, y: nat)
    ensures Advance(Calendar(y, m)) == AdvanceOuter(Calendar(y, m)) == Calendar(y, m + 1)
  {
    StepArithmetic(m, y);
  }

  /** A start year of one digit: both counters are calendar arithmetic. */
  lemma {:induction false} ClosedForm(first: Counter, n: nat)
    requires DigitYear(first)
    ensures Months(first, n) == MonthsOuter(first, n) == Calendar(first.year, first.month + n)
  {
    if n > 0 {
      ClosedForm(first, n - 1);
      NextMonth(first, n, first.month + n - 1, first.year);
    }
  }

  lemma NextMonth(first: Counter, n: nat, m: nat, y: nat)
    requires n > 0 && Months(first, n - 1) == MonthsOuter(first, n - 1) == Calendar(y, m)
    ensures Months(first, n) == MonthsOuter(first, n) == Calendar(y, m + 1)
  {
    AdvanceArithmetic(m, y);
  }

  lemma StepArithmetic(m: nat, y: nat)
    ensures m % 12 == 11 ==> (m + 1) % 12 == 0 && (m + 1) / 12 == m / 12 + 1
    ensures m % 12 != 11 ==> (m + 1) % 12 == m % 12 + 1 && (m + 1) / 12 == m / 12
    ensures (y + m / 12) % 10 == 9 ==> (y + m / 12 + 1) % 10 == 0
    ensures (y + m / 12) % 10 != 9 ==> (y + m / 12 + 1) % 10 == (y + m / 12) % 10 + 1
  {
  }

  /** Counting on from an intermediate month. */
  lemma {:induction false} MonthsOn(c: Counter, n: nat, j: nat)
    requires n <= j
    ensures Months(Months(c, n), j - n) == Months(c, j)
  {
    if n < j {
      MonthsOn(c, n, j - 1);
    }
  }

  // ----- when the two generators agree

  /** The start years for which the two restart rules never part.  At the edges it depends
      on whether the first step already leaves the start year. */
  predicate Consistent(first: Counter) {
    || -9 <= first.year <= 9
    || (first.year == 10 && first.month < 11)
    || (first.year == -10 && first.month == 11)
  }

  lemma {:induction false} ConsistentCounters(first: Counter, n: nat)
    requires Valid(first) && Consistent(first)
    ensures MonthsOuter(first, n) == Months(first, n)
    ensures n > 0 ==> -9 <= Months(first, n).year <= 9
  {
    if n > 0 {
      ConsistentCounters(first, n - 1);
    }
  }

  /** Beyond those years the outer counter runs through the next multiple of ten. */
  lemma {:induction false} Uninterrupted(first: Counter, n: nat)
    requires Valid(first)
    requires first.year + (first.month + 1) / 12 > 10 || first.year + (first.month + n) / 12 < 0
    ensures MonthsOuter(first, n) == Counter((first.month + n) % 12, first.year + (first.month + n) / 12)
  {
    if n > 0 {
      Uninterrupted(first, n - 1);
      StepArithmetic(first.month + n - 1, 0);
    }
  }

  lemma {:induction false} NoDecadeYet(first: Counter, n: nat)
    requires Valid(first)
    requires forall y :: first.year + (first.month + 1) / 12 <= y <= first.year + (first.month + n) / 12 ==> y % 10 != 0
    ensures Months(first, n) == Counter((first.month + n) % 12, first.year + (first.month + n) / 12)
  {
    if n > 0 {
      StepArithmetic(first.month + n - 1, 0);
      NoDecadeYet(first, n - 1);
      var y := first.year + (first.month + n) / 12;
      assert first.year + (first.month + 1) / 12 <= y && y % 10 != 0;
    }
  }

  /** The month in which the outright counter first restarts. */
  function Decade(first: Counter): nat
    requires Valid(first)
  {
    if first.year % 10 == 0 && first.month < 11 then 1 else 12 * (10 - first.year % 10) - first.month
  }

  lemma Disagree(first: Counter)
    requires Valid(first) && !Consistent(first)
    ensures Months(first, Decade(first)).year == 0
    ensures MonthsOuter(first, Decade(first)).year != 0
  {
    if first.year % 10 == 0 && first.month < 11 {
      assert Months(first, 0) == first && MonthsOuter(first, 0) == first;
      assert Months(first, 1) == Advance(first) && MonthsOuter(first, 1) == AdvanceOuter(first);
    } else {
      DisagreeLater(first, first.year % 10, Decade(first));
    }
  }

  lemma DisagreeLater(first: Counter, r: nat, n: nat)
    requires Valid(first) && !Consistent(first)
    requires r == first.year % 10 && (r > 0 || first.month == 11)
    requires first.month + n == 12 * (10 - r) && n > 0
    ensures Months(first, n).year == 0
    ensures MonthsOuter(first, n).year != 0
  {
    var y := first.year;
    assert (first.month + n) / 12 == 10 - r && (first.month + n) % 12 == 0;
    assert (first.month + (n - 1)) / 12 == 9 - r && (first.month + (n - 1)) % 12 == 11;
    DecadeEnds(y, r);
    Uninterrupted(first, n);
    assert y + 10 - r != 0;
    NoDecadeYet(first, n - 1);
    assert Months(first, n - 1) == Counter(11, y + 9 - r);
    assert Months(first, n) == Advance(Counter(11, y + 9 - r));
  }

  lemma DecadeEnds(y: int, r: nat)
    requires r == y % 10
    ensures (y + 10 - r) % 10 == 0
    ensures forall z :: y - r < z < y + 10 - r ==> z % 10 != 0
  {
    forall z | y - r < z < y + 10 - r
      ensures z % 10 != 0
    {
      assert (y - r) % 10 == 0 && z == y - r + (z - (y - r));
    }
  }

  /** A spread description is one outright description, a dash, and another. */
  lemma SpreadJoinsOutrights(product: string, c: Counter, d: Counter)
    requires Valid(c) && Valid(d)
    ensures SpreadText(product)(c, d) == OutrightText(product)(c) + "-" + OutrightText(product)(d)
  {
    Regroup(product, Code(c), "-", Code(d));
  }

  lemma Regroup(product: string, a: string, dash: string, b: string)
    ensures product + a + dash + product + b == (product + a) + dash + (product + b)
  {
  }

  /** Every spread cell is described by the months of its row and its column, as the outright
      generator counts them, for every matrix size, if and only if the start is `Consistent`. */
  lemma SpreadsUseOutrightMonths(product: string, first: Counter)
    requires Valid(first)
    ensures var text := SpreadText(product);
      (forall n: nat, j: nat :: n < j ==> Spread(text, first, n, j) == text(Months(first, n), Months(first, j)))
      <==> Consistent(first)
  {
    var text := SpreadText(product);
    if Consistent(first) {
      forall n: nat, j: nat | n < j
        ensures Spread(text, first, n, j) == text(Months(first, n), Months(first, j))
      {
        ConsistentSpread(text, first, n, j);
      }
    } else {
      var n := Decade(first);
      Disagree(first);
      var leg := MonthsOuter(first, n);
      DifferentYears(product, leg, Months(leg, 1), Months(first, n), Months(first, n + 1));
      assert Spread(text, first, n, n + 1) != text(Months(first, n), Months(first, n + 1));
    }
  }

  lemma ConsistentSpread(text: Text2, first: Counter, n: nat, j: nat)
    requires Valid(first) && Consistent(first) && n <= j
    ensures Spread(text, first, n, j) == text(Months(first, n), Months(first, j))
  {
    ConsistentCounters(first, n);
    MonthsOn(first, n, j);
  }

  /** For such a start, the description of a spread cell is that of its row's outright, a dash, and
      that of its column's. */
  lemma SpreadIsItsOutrights(product: string, first: Counter, n: nat, j: nat)
    requires Valid(first) && Consistent(first) && n <= j
    ensures var o := OutrightText(product);
      Spread(SpreadText(product), first, n, j) == o(Months(first, n)) + "-" + o(Months(first, j))
  {
    ConsistentSpread(SpreadText(product), first, n, j);
    SpreadJoinsOutrights(product, Months(first, n), Months(first, j));
  }

  lemma DifferentYears(product: string, c: Counter, d: Counter, c': Counter, d': Counter)
    requires Valid(c) && Valid(d) && Valid(c') && Valid(d') && c.year != 0 && c'.year == 0
    ensures SpreadText(product)(c, d) != SpreadText(product)(c', d')
  {
    var s, o := SpreadText(product)(c, d), SpreadText(product)(c', d');
    assert s[|product| + 1] == Code(c)[1] == Decimal(c.year)[0];
    assert o[|product| + 1] == Code(c')[1] == '0';
  }

  // ----- descriptions identify months

  predicate DigitYear(c: Counter) {
    Valid(c) && 0 <= c.year <= 9
  }

  lemma CodeOfDigitYear(c: Counter)
    requires DigitYear(c)
    ensures |Code(c)| == 2 && Code(c)[0] == FUTS[c.month] && Code(c)[1] as int == '0' as int + c.year
  {
  }

  lemma LettersDiffer(a: nat, b: nat)
    requires a < 12 && b < 12
    ensures FUTS[a] == FUTS[b] <==> a == b
  {
  }

  lemma SameCode(c: Counter, d: Counter)
    requires DigitYear(c) && DigitYear(d)
    ensures |Code(c)| == 2
    ensures Code(c) == Code(d) <==> c == d
  {
    CodeOfDigitYear(c);
    CodeOfDigitYear(d);
    LettersDiffer(c.month, d.month);
  }

  lemma SameHalves(a: string, b: string, c: string, d: string)
    requires |a| == |c| && a + b == c + d
    ensures a == c && b == d
  {
    assert a == (a + b)[..|a|] && c == (c + d)[..|c|];
    assert b == (a + b)[|a|..] && d == (c + d)[|c|..];
  }

  lemma SameOutright(product: string, c: Counter, d: Counter)
    requires DigitYear(c) && DigitYear(d)
    ensures |OutrightText(product)(c)| == |product| + 2
    ensures OutrightText(product)(c) == OutrightText(product)(d) <==> c == d
  {
    SameCode(c, d);
    SameCode(d, c);
    if product + Code(c) == product + Code(d) {
      SameHalves(product, Code(c), product, Code(d));
    }
  }

  /** Descriptions of different months, or pairs of months, differ; and no outright is
      described like a spread. */
  ghost predicate TellApart(text1: Text1, text2: Text2) {
    && (forall c, d :: DigitYear(c) && DigitYear(d) && text1(c) == text1(d) ==> c == d)
    && (forall c, d, c', d' :: DigitYear(c) && DigitYear(d) && DigitYear(c') && DigitYear(d') ==>
          && text1(c) != text2(c', d')
          && (text2(c, d) == text2(c', d') ==> c == c' && d == d'))
  }

  lemma SpreadsTellApart(product: string, c: Counter, d: Counter, c': Counter, d': Counter)
    requires DigitYear(c) && DigitYear(d) && DigitYear(c') && DigitYear(d')
    ensures OutrightText(product)(c) != SpreadText(product)(c', d')
    ensures SpreadText(product)(c, d) == SpreadText(product)(c', d') ==> c == c' && d == d'
  {
    var o := OutrightText(product);
    SpreadJoinsOutrights(product, c, d);
    SpreadJoinsOutrights(product, c', d');
    SameOutright(product, c, c');
    SameOutright(product, c', c);
    SameOutright(product, d, d');
    SameOutright(product, d', d);
    if SpreadText(product)(c, d) == SpreadText(product)(c', d') {
      SameHalves(o(c) + "-", o(d), o(c') + "-", o(d'));
      SameHalves(o(c), "-", o(c'), "-");
    }
  }

  lemma TextsTellApart(product: string)
    ensures TellApart(OutrightText(product), SpreadText(product))
  {
    forall c, d | DigitYear(c) && DigitYear(d) && OutrightText(product)(c) == OutrightText(product)(d)
      ensures c == d
    {
      SameOutright(product, c, d);
    }
    forall c, d, c', d' | DigitYear(c) && DigitYear(d) && DigitYear(c') && DigitYear(d')
      ensures OutrightText(product)(c) != SpreadText(product)(c', d')
      ensures SpreadText(product)(c, d) == SpreadText(product)(c', d') ==> c == c' && d == d'
    {
      SpreadsTellApart(product, c, d, c', d');
    }
  }

  /** Within a year the month codes run in the order of the alphabet, from F to Z. */
  lemma CodesAscend(a: nat, b: nat)
    requires a < b < 12
    ensures FUTS[0] == 'F' && FUTS[11] == 'Z' && FUTS[a] < FUTS[b]
  {
  }

  // ----- months repeat after ten years

  lemma MonthsCycle(first: Counter, n: nat, m: nat)
    requires DigitYear(first)
    ensures DigitYear(Months(first, n))
    ensures Months(first, n) == Months(first, m) <==> n % 120 == m % 120
    ensures n < 120 && m < 120 ==> (Months(first, n) == Months(first, m) <==> n == m)
  {
    ClosedForm(first, n);
    SameMonths(first, n, m);
    SmallRemainders(n, m);
  }

  lemma SameMonths(first: Counter, n: nat, m: nat)
    requires DigitYear(first)
    ensures Months(first, n) == Months(first, m) <==> n % 120 == m % 120
  {
    assert Months(first, n) == Calendar(first.year, first.month + n) by {
      ClosedForm(first, n);
    }
    assert Months(first, m) == Calendar(first.year, first.month + m) by {
      ClosedForm(first, m);
    }
    Cycle120(first.month, first.year, n, m);
  }

  lemma SmallRemainders(n: nat, m: nat)
    ensures n < 120 && m < 120 ==> (n % 120 == m % 120 <==> n == m)
  {
  }

  lemma Cycle120(s: nat, y: nat, n: nat, m: nat)
    ensures Calendar(y, s + n) == Calendar(y, s + m) <==> n % 120 == m % 120
  {
    Cycle(s + n, y);
    Cycle(s + m, y);
    var rn, rm := (s + n) % 12, (s + m) % 12;
    var qn, qm := (y + (s + n) / 12) % 10, (y + (s + m) / 12) % 10;
    assert 12 * qn + rn == 12 * qm + rm <==> qn == qm && rn == rm;
    SameShift(12 * y + s, n, m);
  }

  lemma SameShift(c: nat, n: nat, m: nat)
    ensures (c + n) % 120 == (c + m) % 120 <==> n % 120 == m % 120
  {
    var d := n - m;
    assert (c + n) % 120 == (c + m) % 120 <==> d % 120 == 0 by {
      SameRemainder(c + n, c + m);
    }
    SameRemainder(n, m);
  }

  lemma SameRemainder(a: nat, b: nat)
    ensures a % 120 == b % 120 <==> (a - b) % 120 == 0
  {
    var d := a - b;
    assert a == 120 * (a / 120) + a % 120 && b == 120 * (b / 120) + b % 120;
    assert d == 120 * (a / 120 - b / 120) + (a % 120 - b % 120);
  }

  /** Month and year digit together are the position in a 120-month cycle. */
  lemma Cycle(a: nat, y: nat)
    ensures (12 * y + a) % 120 == 12 * ((y + a / 12) % 10) + a % 12
  {
    var q, r := y + a / 12, a % 12;
    var h, u := q / 10, q % 10;
    assert 12 * y + a == 12 * q + r && q == 10 * h + u;
    RemainderIs(12 * y + a, h, 12 * u + r);
  }

  lemma RemainderIs(x: int, k: int, r: nat)
    requires x == 120 * k + r && r < 120
    ensures x % 120 == r
  {
  }
}
