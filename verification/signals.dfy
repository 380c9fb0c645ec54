/**
 * The signal engine of SMAWorker: ordering the daily series most recent
 * first, the simple moving average over the newest `period` closes, the
 * percentage of the current close above that average, and the five-way
 * classification of that percentage.
 */
module SignalEngine {
  import opened Base
  import opened Doubles

  // ---------------------------------------------------------------------------
  // Signals

  datatype Signal = SellAll | Sell80 | Buy | Sell | Hold

  /** The text the job persists and compares (`lastSignal`). */
  function Name(s: Signal): string {
    match s
    case SellAll => "SELL ALL"
    case Sell80 => "SELL 80%"
    case Buy => "BUY"
    case Sell => "SELL"
    case Hold => "HOLD"
  }

  /** Distinct signals have distinct, non-empty names, so comparing names compares signals. */
  lemma NameInjective(a: Signal, b: Signal)
    ensures Name(a) == Name(b) <==> a == b
    ensures Name(a) != ""
  {
  }

  /** Position on the scale from most bearish to most over-extended. */
  function Rank(s: Signal): nat {
    match s
    case Sell => 0
    case Hold => 1
    case Buy => 2
    case Sell80 => 3
    case SellAll => 4
  }

  const SellAllPct: real := 40.0
  const Sell80Pct: real := 30.0

  /**
   * `determineSignal(pct, buy, sell)`: the first matching rule wins and every
   * boundary is inclusive. On finite values the five results partition the
   * line of percentages as stated below; the fixed 40 and 30 levels are
   * tested before the user's buy threshold.
   */
  function DetermineSignal(pct: Double, buy: Double, sell: Double): (s: Signal)
    ensures pct.Finite? && buy.Finite? && sell.Finite? ==>
      var p, b, d := pct.v, buy.v, sell.v;
      && (s == SellAll <==> p >= 40.0)
      && (s == Sell80 <==> 30.0 <= p < 40.0)
      && (s == Buy <==> p < 30.0 && p >= b)
      && (s == Sell <==> p < 30.0 && p < b && p <= -d)
      && (s == Hold <==> p < 30.0 && p < b && p > -d)
    ensures pct.PosInf? ==> s == SellAll
    ensures pct.NaN? ==> s == Hold
  {
    if Ge(pct, Finite(SellAllPct)) then SellAll
    else if Ge(pct, Finite(Sell80Pct)) then Sell80
    else if Ge(pct, buy) then Buy
    else if Le(pct, Neg(sell)) then Sell
    else Hold
  }

  /** A higher percentage never gives a lower-ranked signal, whatever the thresholds. */
  lemma SignalMonotone(p: real, q: real, buy: Double, sell: Double)
    requires p <= q
    ensures Rank(DetermineSignal(Finite(p), buy, sell)) <= Rank(DetermineSignal(Finite(q), buy, sell))
  {
  }

  /** The boundary cases of the accuracy tests, with the default thresholds 4 and 3. */
  lemma BoundariesAreInclusive()
    ensures DetermineSignal(Finite(40.0), Finite(4.0), Finite(3.0)) == SellAll
    ensures DetermineSignal(Finite(39.999), Finite(4.0), Finite(3.0)) == Sell80
    ensures DetermineSignal(Finite(30.0), Finite(4.0), Finite(3.0)) == Sell80
    ensures DetermineSignal(Finite(29.999), Finite(4.0), Finite(3.0)) == Buy
    ensures DetermineSignal(Finite(4.0), Finite(4.0), Finite(3.0)) == Buy
    ensures DetermineSignal(Finite(3.999), Finite(4.0), Finite(3.0)) == Hold
    ensures DetermineSignal(Finite(-3.0), Finite(4.0), Finite(3.0)) == Sell
    ensures DetermineSignal(Finite(-2.999), Finite(4.0), Finite(3.0)) == Hold
    ensures DetermineSignal(Finite(0.0), Finite(4.0), Finite(3.0)) == Hold
  {
  }

  /** The fixed levels win over any buy threshold, and zero thresholds split at zero. */
  lemma FixedLevelsWin(pct: real, buy: real, sell: real)
    ensures pct >= 40.0 ==> DetermineSignal(Finite(pct), Finite(buy), Finite(sell)) == SellAll
    ensures 30.0 <= pct < 40.0 ==> DetermineSignal(Finite(pct), Finite(buy), Finite(sell)) == Sell80
    ensures 0.0 < pct < 30.0 ==> DetermineSignal(Finite(pct), Finite(0.0), Finite(sell)) == Buy
    ensures pct < 0.0 && pct < buy ==> DetermineSignal(Finite(pct), Finite(buy), Finite(0.0)) == Sell
  {
  }

  /** A negative infinity is a SELL unless a threshold is itself degenerate. */
  lemma NegativeInfinityIsSell(buy: Double, sell: Double)
    requires !buy.NegInf? && !sell.NaN?
    ensures DetermineSignal(NegInf, buy, sell) == Sell
  {
  }

  // ---------------------------------------------------------------------------
  // Date keys: String.compareTo order

  /** `a.compareTo(b) < 0` for Java strings: first differing char decides, else the shorter is smaller. */
  predicate LexLess(a: string, b: string)
    decreases |a|
  {
    if |a| == 0 then |b| > 0
    else if |b| == 0 then false
    else if a[0] != b[0] then a[0] < b[0]
    else LexLess(a[1..], b[1..])
  }

  lemma {:induction false} LexIrreflexive(a: string)
    ensures !LexLess(a, a)
    decreases |a|
  {
    if |a| > 0 {
      LexIrreflexive(a[1..]);
    }
  }

  lemma {:induction false} LexTotal(a: string, b: string)
    ensures a == b || LexLess(a, b) || LexLess(b, a)
    decreases |a|
  {
    if |a| > 0 && |b| > 0 && a[0] == b[0] {
      LexTotal(a[1..], b[1..]);
      if a[1..] == b[1..] {
        assert a == [a[0]] + a[1..] && b == [b[0]] + b[1..];
      }
    }
  }

  lemma {:induction false} LexTransitive(a: string, b: string, c: string)
    requires LexLess(a, b) && LexLess(b, c)
    ensures LexLess(a, c)
    decreases |a|
  {
    if |a| > 0 && a[0] == b[0] && b[0] == c[0] {
      LexTransitive(a[1..], b[1..], c[1..]);
    }
  }

  lemma LexAsymmetric(a: string, b: string)
    ensures !(LexLess(a, b) && LexLess(b, a))
  {
    if LexLess(a, b) && LexLess(b, a) {
      LexTransitive(a, b, a);
      LexIrreflexive(a);
    }
  }

  /** "not older": `!(a < b)`, a total preorder that is transitive. */
  lemma NotLessTransitive(a: string, b: string, c: string)
    requires !LexLess(a, b) && !LexLess(b, c)
    ensures !LexLess(a, c)
  {
    if LexLess(a, c) {
      LexTotal(a, b);
      if LexLess(b, a) {
        LexTransitive(b, a, c);
      }
    }
  }

  // ---------------------------------------------------------------------------
  // The daily series

  /** One entry of "Time Series (Daily)": the yyyy-MM-dd key and its "4. close". */
  datatype Bar = Bar(date: string, close: real)

  /** Most recent first: no entry is followed by a newer date. */
  predicate NewestFirst(s: seq<Bar>) {
    forall i, j :: 0 <= i < j < |s| ==> !LexLess(s[i].date, s[j].date)
  }

  /** Inserts `x` into a newest-first sequence, keeping it newest first. */
  function Insert(x: Bar, s: seq<Bar>): (r: seq<Bar>)
    requires NewestFirst(s)
    ensures NewestFirst(r)
    ensures multiset(r) == multiset(s) + multiset{x}
  {
    if |s| == 0 then [x]
    else if !LexLess(x.date, s[0].date) then
      InsertAtFront(x, s);
      [x] + s
    else
      var rest := Insert(x, s[1..]);
      LexAsymmetric(x.date, s[0].date);
      InsertBehind(x, s, rest);
      assert s == [s[0]] + s[1..];
      [s[0]] + rest
  }

  lemma InsertAtFront(x: Bar, s: seq<Bar>)
    requires NewestFirst(s) && |s| > 0 && !LexLess(x.date, s[0].date)
    ensures NewestFirst([x] + s)
  {
    var r := [x] + s;
    forall i, j | 0 <= i < j < |r|
      ensures !LexLess(r[i].date, r[j].date)
    {
      if i == 0 && j > 1 {
        NotLessTransitive(x.date, s[0].date, s[j - 1].date);
      }
    }
  }

  lemma InsertBehind(x: Bar, s: seq<Bar>, rest: seq<Bar>)
    requires NewestFirst(s) && |s| > 0 && !LexLess(s[0].date, x.date)
    requires NewestFirst(rest) && multiset(rest) == multiset(s[1..]) + multiset{x}
    ensures NewestFirst([s[0]] + rest)
  {
    var r := [s[0]] + rest;
    forall i, j | 0 <= i < j < |r|
      ensures !LexLess(r[i].date, r[j].date)
    {
      if i == 0 {
        var e := rest[j - 1];
        assert e in multiset(rest);
        if e != x {
          assert e in multiset(s[1..]);
          var k :| 0 <= k < |s[1..]| && s[1..][k] == e;
          assert s[k + 1] == e;
        }
      }
    }
  }

  /** `Collections.sort(dates, Collections.reverseOrder())`, carried out on the entries. */
  function SortNewestFirst(s: seq<Bar>): (r: seq<Bar>)
    ensures NewestFirst(r)
    ensures multiset(r) == multiset(s)
    ensures |r| == |s|
  {
    if |s| == 0 then []
    else
      var r := Insert(s[0], SortNewestFirst(s[1..]));
      assert s == [s[0]] + s[1..];
      assert |r| == |multiset(r)|;
      r
  }

  /** The entry the job reads as the current price carries the greatest date of the series. */
  lemma {:induction false} FirstIsLatest(s: seq<Bar>)
    requires |s| > 0
    ensures SortNewestFirst(s)[0] in s
    ensures forall b :: b in s ==> !LexLess(SortNewestFirst(s)[0].date, b.date)
  {
    var r := SortNewestFirst(s);
    assert r[0] in multiset(r);
    forall b | b in s
      ensures !LexLess(r[0].date, b.date)
    {
      assert b in multiset(s);
      assert b in multiset(r);
      var k :| 0 <= k < |r| && r[k] == b;
      if k == 0 {
        LexIrreflexive(b.date);
      }
    }
  }

  // ---------------------------------------------------------------------------
  // Moving average

  function SumCloses(s: seq<Bar>): real {
    if |s| == 0 then 0.0 else s[0].close + SumCloses(s[1..])
  }

  lemma {:induction false} SumClosesAppend(a: seq<Bar>, b: seq<Bar>)
    ensures SumCloses(a + b) == SumCloses(a) + SumCloses(b)
  {
    if |a| > 0 {
      assert (a + b)[0] == a[0];
      assert (a + b)[1..] == a[1..] + b;
      SumClosesAppend(a[1..], b);
    } else {
      assert a + b == b;
    }
  }

  /** The sum of a window lies between `n * lo` and `n * hi` when every close does. */
  lemma {:induction false} SumClosesBounds(s: seq<Bar>, lo: real, hi: real)
    requires forall i :: 0 <= i < |s| ==> lo <= s[i].close <= hi
    ensures lo * |s| as real <= SumCloses(s) <= hi * |s| as real
  {
    if |s| > 0 {
      SumClosesBounds(s[1..], lo, hi);
    }
  }

  /**
   * `computeSMA(series, dates, period)` for a positive period over entries
   * already sorted newest first: fails when fewer than `period` entries
   * exist, otherwise the mean of the first `period` closes.
   */
  function ComputeSma(sorted: seq<Bar>, period: int): (r: Option<real>)
    requires period > 0
    ensures r.Some? <==> |sorted| >= period
  {
    if |sorted| < period then None else Some(SumCloses(sorted[..period]) / period as real)
  }

  /** The average lies between the smallest and the largest close of its window. */
  lemma SmaWithinWindow(sorted: seq<Bar>, period: int, lo: real, hi: real)
    requires 0 < period <= |sorted|
    requires forall i :: 0 <= i < period ==> lo <= sorted[i].close <= hi
    ensures lo <= ComputeSma(sorted, period).value <= hi
  {
    SumClosesBounds(sorted[..period], lo, hi);
    MeanBetween(SumCloses(sorted[..period]), period as real, lo, hi);
  }

  lemma MeanBetween(sum: real, n: real, lo: real, hi: real)
    requires n > 0.0 && lo * n <= sum <= hi * n
    ensures lo <= sum / n <= hi
  {
  }

  /** A window of equal closes averages to that close. */
  lemma EqualClosesAverageToThemselves(sorted: seq<Bar>, period: int, v: real)
    requires 0 < period <= |sorted|
    requires forall i :: 0 <= i < period ==> sorted[i].close == v
    ensures ComputeSma(sorted, period) == Some(v)
  {
    SmaWithinWindow(sorted, period, v, v);
  }

  /** The test fixture: 199 closes of 100 and one other close, the oldest of a 200-day window. */
  lemma {:induction false} FixtureAverage(newer: seq<Bar>, oldest: Bar)
    requires |newer| == 199 && forall i :: 0 <= i < 199 ==> newer[i].close == 100.0
    ensures ComputeSma(newer + [oldest], 200) == Some((100.0 * 199.0 + oldest.close) / 200.0)
  {
    var s := newer + [oldest];
    assert s[..200] == newer + [oldest];
    SumClosesAppend(newer, [oldest]);
    SumClosesBounds(newer, 100.0, 100.0);
    assert SumCloses([oldest]) == oldest.close + SumCloses([]);
  }

  // ---------------------------------------------------------------------------
  // Percentage above the average

  /**
   * `((current - sma) / sma) * 100.0` evaluated as Java doubles, where
   * `sma = sum / period` over the first `period` entries (nothing is summed
   * when `period <= 0`). Division by a zero average gives an infinity of the
   * sign of `current` or NaN; `period == 0` gives a NaN average; a negative
   * period gives the average -0.0, which flips the sign of the infinity.
   */
  function ChangePercent(current: real, sorted: seq<Bar>, period: int): (pct: Double)
    requires period <= |sorted|
    ensures pct.Finite? <==> period > 0 && SumCloses(sorted[..period]) != 0.0
    ensures period > 0 && pct.Finite? ==>
      var sma := SumCloses(sorted[..period]) / period as real;
      pct.v * sma == (current - sma) * 100.0
  {
    if period > 0 then
      var sma := SumCloses(sorted[..period]) / period as real;
      if sma != 0.0 then Finite((current - sma) / sma * 100.0) else DivideByZero(current)
    else if period == 0 then NaN
    else Neg(DivideByZero(current))
  }

  /**
   * The percentage the job classifies is taken against `computeSMA`: for a
   * positive period its average exists, and the percentage is the relative
   * distance to it, or the division-by-zero value when it is zero.
   */
  lemma PercentUsesSma(current: real, sorted: seq<Bar>, period: int)
    requires 0 < period <= |sorted|
    ensures ComputeSma(sorted, period).Some?
    ensures var sma := ComputeSma(sorted, period).value;
      ChangePercent(current, sorted, period)
        == if sma != 0.0 then Finite((current - sma) / sma * 100.0) else DivideByZero(current)
  {
  }

  /** With a positive average, "pct >= k" is "current >= sma * (1 + k/100)". */
  lemma PercentAgainstPrice(current: real, sma: real, k: real)
    requires sma > 0.0
    ensures (current - sma) / sma * 100.0 >= k <==> current >= sma * (1.0 + k / 100.0)
  {
    var pct := (current - sma) / sma * 100.0;
    assert pct * sma == (current - sma) * 100.0;
  }

  /** The end-to-end examples: a current close against an average of 100. */
  lemma EndToEndScenarios()
    ensures DetermineSignal(Finite((140.0 - 100.0) / 100.0 * 100.0), Finite(4.0), Finite(3.0)) == SellAll
    ensures DetermineSignal(Finite((139.99 - 100.0) / 100.0 * 100.0), Finite(4.0), Finite(3.0)) == Sell80
    ensures DetermineSignal(Finite((104.0 - 100.0) / 100.0 * 100.0), Finite(4.0), Finite(3.0)) == Buy
    ensures DetermineSignal(Finite((103.99 - 100.0) / 100.0 * 100.0), Finite(4.0), Finite(3.0)) == Hold
    ensures DetermineSignal(Finite((97.0 - 100.0) / 100.0 * 100.0), Finite(4.0), Finite(3.0)) == Sell
    ensures DetermineSignal(Finite((96.99 - 100.0) / 100.0 * 100.0), Finite(4.0), Finite(3.0)) == Sell
    ensures DetermineSignal(Finite((150.0 - 100.0) / 100.0 * 100.0), Finite(100.0), Finite(3.0)) == SellAll
  {
  }
}
