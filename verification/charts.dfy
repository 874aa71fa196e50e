/** The chart modal: a question's responses ordered by date, the series the
    chart draws from the latest fourteen of them, and the statistics shown
    under the chart. */
module Charts {
  import opened Wrappers
  import opened JsString
  import opened Types

  /** `slice(-14)`: the chart draws at most this many points. */
  const MaxPoints: nat := 14

  /** The sentinel the "Lowest" row starts from. */
  const LowestSentinel: int := 999

  // ---------------------------------------------------------------------
  // Ordering by date.

  predicate SortedByDate(s: seq<DailyResponse>) {
    forall i, j :: 0 <= i < j < |s| ==> LexLe(s[i].date, s[j].date)
  }

  /** Puts `x` in front of the first element it does not come after. */
  function Insert(x: DailyResponse, s: seq<DailyResponse>): (r: seq<DailyResponse>)
    requires SortedByDate(s)
    ensures SortedByDate(r)
    ensures multiset(r) == multiset(s) + multiset{x}
    decreases |s|
  {
    if |s| == 0 then [x]
    else if LexLe(x.date, s[0].date) then
      assert forall j :: 0 <= j < |s| ==> LexLe(x.date, s[j].date) by {
        forall j | 0 <= j < |s|
          ensures LexLe(x.date, s[j].date)
        {
          if j > 0 {
            LexLeTransitive(x.date, s[0].date, s[j].date);
          }
        }
      }
      assert forall j :: 0 < j < |[x] + s| ==> ([x] + s)[j] == s[j - 1];
      [x] + s
    else
      var rest := Insert(x, s[1..]);
      LexLeTotal(x.date, s[0].date);
      assert forall j :: 0 <= j < |rest| ==> LexLe(s[0].date, rest[j].date) by {
        forall j | 0 <= j < |rest|
          ensures LexLe(s[0].date, rest[j].date)
        {
          assert rest[j] in multiset(rest);
          if rest[j] != x {
            assert rest[j] in multiset(s[1..]);
            var k :| 0 <= k < |s[1..]| && s[1..][k] == rest[j];
            assert s[k + 1] == rest[j];
          }
        }
      }
      assert s == [s[0]] + s[1..];
      assert forall j :: 0 < j < |[s[0]] + rest| ==> ([s[0]] + rest)[j] == rest[j - 1];
      [s[0]] + rest
  }

  /** `[...responses].sort(by date)`: an insertion sort. The app compares
      `new Date(date).getTime()`, which for `YYYY-MM-DD` strings orders as
      the strings do. */
  function SortByDate(s: seq<DailyResponse>): (r: seq<DailyResponse>)
    ensures SortedByDate(r)
    ensures multiset(r) == multiset(s)
    ensures |r| == |s|
    decreases |s|
  {
    if |s| == 0 then []
    else
      assert s == [s[0]] + s[1..];
      var r := Insert(s[0], SortByDate(s[1..]));
      assert |r| == |multiset(r)|;
      r
  }

  /** Already-ordered responses are left exactly as they are. */
  lemma {:induction false} SortByDateOfSorted(s: seq<DailyResponse>)
    requires SortedByDate(s)
    ensures SortByDate(s) == s
    decreases |s|
  {
    if |s| > 0 {
      assert SortedByDate(s[1..]) by {
        forall i, j | 0 <= i < j < |s[1..]|
          ensures LexLe(s[1..][i].date, s[1..][j].date)
        {
          assert s[1..][i] == s[i + 1] && s[1..][j] == s[j + 1];
        }
      }
      SortByDateOfSorted(s[1..]);
      InsertInFront(s[0], s[1..]);
      assert s == [s[0]] + s[1..];
    }
  }

  lemma InsertInFront(x: DailyResponse, s: seq<DailyResponse>)
    requires SortedByDate(s)
    requires |s| == 0 || LexLe(x.date, s[0].date)
    ensures Insert(x, s) == [x] + s
  {
  }

  /** Sorting twice is sorting once. */
  lemma SortByDateIdempotent(s: seq<DailyResponse>)
    ensures SortByDate(SortByDate(s)) == SortByDate(s)
  {
    SortByDateOfSorted(SortByDate(s));
  }

  // ---------------------------------------------------------------------
  // The series.

  /** `slice(-n)`: the last `n` elements, or all when there are fewer. */
  function LastN<T>(s: seq<T>, n: nat): (r: seq<T>)
    ensures |r| == Min(n, |s|)
    ensures forall i :: 0 <= i < |r| ==> r[i] == s[|s| - |r| + i]
  {
    s[|s| - Min(n, |s|)..]
  }

  /** The value a response plots as: numbers as themselves (anything else
      as 0) for a number question, 1 or 0 for a yes/no question. */
  function PointValue(kind: QuestionType, a: Answer): int {
    if kind == YesNo then (if IsYes(a) then 1 else 0) else NumericValue(a)
  }

  /** `labels` and `datasets[0].data`. The labels are the responses' dates;
      the app's `M/D` rendering of them is not modelled. */
  datatype ChartData = ChartData(dates: seq<Date>, data: seq<int>)

  /** `prepareChartData()`: a free-text question gets no labels and a single
      0; otherwise the latest fourteen responses by date are plotted, and an
      empty series is drawn as a single 0. */
  function PrepareChartData(q: Question, rs: seq<DailyResponse>): (cd: ChartData)
    ensures q.kind == FreeText ==> cd == ChartData([], [0])
    ensures q.kind != FreeText ==> |cd.dates| == Min(MaxPoints, |rs|)
    ensures q.kind != FreeText && |rs| == 0 ==> cd.data == [0]
    ensures q.kind != FreeText && |rs| > 0 ==> |cd.data| == |cd.dates|
    ensures forall i, j :: 0 <= i < j < |cd.dates| ==> LexLe(cd.dates[i], cd.dates[j])
    ensures q.kind != FreeText ==>
              forall i :: 0 <= i < |cd.dates| ==>
                var x := SortByDate(rs)[|rs| - |cd.dates| + i];
                cd.dates[i] == x.date && (|rs| > 0 ==> cd.data[i] == PointValue(q.kind, x.response))
    ensures q.kind == YesNo ==> forall i :: 0 <= i < |cd.data| ==> cd.data[i] == 0 || cd.data[i] == 1
  {
    if q.kind == FreeText then ChartData([], [0])
    else
      var sorted := SortByDate(rs);
      LatestSeries(q.kind, sorted);
      Series(q.kind, LastN(sorted, MaxPoints))
  }

  /** The series drawn from the latest points of an ordered list. */
  lemma LatestSeries(kind: QuestionType, sorted: seq<DailyResponse>)
    requires SortedByDate(sorted)
    ensures var cd := Series(kind, LastN(sorted, MaxPoints));
            && |cd.dates| == Min(MaxPoints, |sorted|)
            && (|sorted| == 0 ==> cd.data == [0])
            && (|sorted| > 0 ==> |cd.data| == |cd.dates|)
            && (forall i, j :: 0 <= i < j < |cd.dates| ==> LexLe(cd.dates[i], cd.dates[j]))
            && (forall i :: 0 <= i < |cd.dates| ==>
                  var x := sorted[|sorted| - |cd.dates| + i];
                  cd.dates[i] == x.date && (|sorted| > 0 ==> cd.data[i] == PointValue(kind, x.response)))
            && (kind == YesNo ==> forall i :: 0 <= i < |cd.data| ==> cd.data[i] == 0 || cd.data[i] == 1)
  {
    var shown := LastN(sorted, MaxPoints);
    var cd := Series(kind, shown);
    LastNSorted(sorted, MaxPoints);
    SeriesAscending(kind, shown);
    forall i | 0 <= i < |cd.dates|
      ensures var x := sorted[|sorted| - |cd.dates| + i];
              cd.dates[i] == x.date && (|sorted| > 0 ==> cd.data[i] == PointValue(kind, x.response))
    {
      assert shown[i] == sorted[|sorted| - |shown| + i];
    }
  }

  /** Every suffix of an ordered list is ordered. */
  lemma SortedSuffix(s: seq<DailyResponse>, k: nat)
    requires SortedByDate(s)
    requires k <= |s|
    ensures SortedByDate(s[k..])
  {
    var r := s[k..];
    forall i, j | 0 <= i < j < |r|
      ensures LexLe(r[i].date, r[j].date)
    {
      assert r[i] == s[k + i] && r[j] == s[k + j];
    }
  }

  lemma LastNSorted(s: seq<DailyResponse>, n: nat)
    requires SortedByDate(s)
    ensures SortedByDate(LastN(s, n))
  {
    SortedSuffix(s, |s| - Min(n, |s|));
  }

  lemma SeriesAscending(kind: QuestionType, shown: seq<DailyResponse>)
    requires SortedByDate(shown)
    ensures forall i, j :: 0 <= i < j < |Series(kind, shown).dates| ==>
              LexLe(Series(kind, shown).dates[i], Series(kind, shown).dates[j])
  {
    var ds := Series(kind, shown).dates;
    forall i, j | 0 <= i < j < |ds|
      ensures LexLe(ds[i], ds[j])
    {
      assert ds[i] == shown[i].date && ds[j] == shown[j].date;
    }
  }

  /** The labels and points drawn for the responses `shown`, a lone 0 when
      there are none. */
  function Series(kind: QuestionType, shown: seq<DailyResponse>): (cd: ChartData)
    ensures |cd.dates| == |shown|
    ensures forall i :: 0 <= i < |shown| ==> cd.dates[i] == shown[i].date
    ensures |shown| == 0 ==> cd.data == [0]
    ensures |shown| > 0 ==> |cd.data| == |shown|
    ensures |shown| > 0 ==> forall i :: 0 <= i < |shown| ==> cd.data[i] == PointValue(kind, shown[i].response)
  {
    var dates := seq(|shown|, i requires 0 <= i < |shown| => shown[i].date);
    var data := seq(|shown|, i requires 0 <= i < |shown| => PointValue(kind, shown[i].response));
    ChartData(dates, if |data| > 0 then data else [0])
  }

  /** The plotted responses are the latest ones: every response left out
      is dated no later than every response drawn. */
  lemma ShownAreLatest(q: Question, rs: seq<DailyResponse>, i: nat, j: nat)
    requires q.kind != FreeText
    requires i < |rs| - |PrepareChartData(q, rs).dates| && j < |PrepareChartData(q, rs).dates|
    ensures LexLe(SortByDate(rs)[i].date, PrepareChartData(q, rs).dates[j])
  {
  }

  // ---------------------------------------------------------------------
  // The statistics under the chart.

  /** `Math.max(...values, 0)`. */
  function HighestAsWritten(rs: seq<DailyResponse>): (h: int)
    ensures h >= 0
    ensures forall i :: 0 <= i < |rs| ==> NumericValue(rs[i].response) <= h
    ensures h == 0 || exists i :: 0 <= i < |rs| && NumericValue(rs[i].response) == h
    decreases |rs|
  {
    if |rs| == 0 then 0
    else
      var rest := HighestAsWritten(rs[1..]);
      assert forall i :: 1 <= i < |rs| ==> rs[i] == rs[1..][i - 1];
      Max(NumericValue(rs[0].response), rest)
  }

  /** `Math.min(...values, 999)`. */
  function LowestAsWritten(rs: seq<DailyResponse>): (l: int)
    ensures l <= LowestSentinel
    ensures forall i :: 0 <= i < |rs| ==> l <= NumericValue(rs[i].response)
    ensures l == LowestSentinel || exists i :: 0 <= i < |rs| && NumericValue(rs[i].response) == l
    decreases |rs|
  {
    if |rs| == 0 then LowestSentinel
    else
      var rest := LowestAsWritten(rs[1..]);
      assert forall i :: 1 <= i < |rs| ==> rs[i] == rs[1..][i - 1];
      Min(NumericValue(rs[0].response), rest)
  }

  /** Two days of 5000 and 6000 steps show a lowest value of 999, a value
      nobody entered; two days of -3 and -5 show a highest of 0. */
  lemma ExtremesCounterexamples()
    ensures LowestAsWritten([DailyResponse("q", "2024-01-01", Int(5000), 0),
                             DailyResponse("q", "2024-01-02", Int(6000), 0)]) == 999
    ensures HighestAsWritten([DailyResponse("q", "2024-01-01", Int(-3), 0),
                              DailyResponse("q", "2024-01-02", Int(-5), 0)]) == 0
  {
  }

  /** The largest plotted value; none for an empty list. */
  function Highest(rs: seq<DailyResponse>): (h: Option<int>)
    ensures h.None? <==> |rs| == 0
    ensures h.Some? ==> forall i :: 0 <= i < |rs| ==> NumericValue(rs[i].response) <= h.value
    ensures h.Some? ==> exists i :: 0 <= i < |rs| && NumericValue(rs[i].response) == h.value
    decreases |rs|
  {
    if |rs| == 0 then None
    else
      assert forall i :: 1 <= i < |rs| ==> rs[i] == rs[1..][i - 1];
      match Highest(rs[1..])
      case None => Some(NumericValue(rs[0].response))
      case Some(m) => Some(Max(NumericValue(rs[0].response), m))
  }

  /** The smallest plotted value; none for an empty list. */
  function Lowest(rs: seq<DailyResponse>): (l: Option<int>)
    ensures l.None? <==> |rs| == 0
    ensures l.Some? ==> forall i :: 0 <= i < |rs| ==> l.value <= NumericValue(rs[i].response)
    ensures l.Some? ==> exists i :: 0 <= i < |rs| && NumericValue(rs[i].response) == l.value
    decreases |rs|
  {
    if |rs| == 0 then None
    else
      assert forall i :: 1 <= i < |rs| ==> rs[i] == rs[1..][i - 1];
      match Lowest(rs[1..])
      case None => Some(NumericValue(rs[0].response))
      case Some(m) => Some(Min(NumericValue(rs[0].response), m))
  }

  /** Where the app's extremes are right: with at least one value, a
      non-negative maximum and a minimum not above 999 read the same. */
  lemma ExtremesAgree(rs: seq<DailyResponse>)
    requires |rs| > 0
    ensures Highest(rs).value >= 0 ==> HighestAsWritten(rs) == Highest(rs).value
    ensures Lowest(rs).value <= LowestSentinel ==> LowestAsWritten(rs) == Lowest(rs).value
  {
  }

  /** The sum of every value, answers that are not numbers counting 0. */
  lemma {:induction false} SumBounds(rs: seq<DailyResponse>, lo: int, hi: int)
    requires forall i :: 0 <= i < |rs| ==> lo <= NumericValue(rs[i].response) <= hi
    ensures |rs| * lo <= SumNumeric(rs) <= |rs| * hi
    decreases |rs|
  {
    if |rs| > 0 {
      assert forall i :: 0 <= i < |rs[1..]| ==> rs[1..][i] == rs[i + 1];
      SumBounds(rs[1..], lo, hi);
    }
  }

  /** `highest` and `lowest` are what the screen shows: the extremes taken
      together with the seeds 0 and 999, as the app computes them. */
  datatype ChartStats =
    | NumberChartStats(entries: nat, average: real, highest: int, lowest: int)
    | YesNoChartStats(entries: nat, yesCount: nat, noCount: nat, yesRate: real)
    | NoStats

  /** The statistics section: a number question shows the entry count, the
      mean over every response (non-numbers as 0, an empty list as 0) and
      the extremes; a yes/no question the counts and the yes rate (0 for an
      empty list, where the app's `NaN || 0` applies). */
  function Statistics(q: Question, rs: seq<DailyResponse>): (st: ChartStats)
    ensures q.kind == FreeText <==> st.NoStats?
    ensures q.kind == Number ==>
              st.NumberChartStats? && st.entries == |rs|
              && st.highest == HighestAsWritten(rs) && st.lowest == LowestAsWritten(rs)
              && (|rs| == 0 ==> st.average == 0.0 && st.highest == 0 && st.lowest == LowestSentinel)
              && (|rs| > 0 ==> st.lowest as real <= st.average <= st.highest as real)
              && (|rs| > 0 ==> st.average == SumNumeric(rs) as real / |rs| as real)
              && (|rs| > 0 && Highest(rs).value >= 0 ==> st.highest == Highest(rs).value)
              && (|rs| > 0 && Lowest(rs).value <= LowestSentinel ==> st.lowest == Lowest(rs).value)
    ensures q.kind == YesNo ==>
              st.YesNoChartStats? && st.entries == |rs| && st.yesCount == CountYes(rs) && st.noCount == CountNo(rs)
              && st.yesCount + st.noCount <= st.entries
              && st.yesRate * |rs| as real == 100.0 * CountYes(rs) as real
              && 0.0 <= st.yesRate <= 100.0
              && (|rs| == 0 ==> st.yesRate == 0.0)
              && (st.yesRate == 100.0 <==> |rs| > 0 && CountYes(rs) == |rs|)
  {
    match q.kind
    case Number => NumberStatistics(rs)
    case YesNo => YesNoStatistics(rs)
    case FreeText => NoStats
  }

  function NumberStatistics(rs: seq<DailyResponse>): (st: ChartStats)
    ensures st.NumberChartStats? && st.entries == |rs|
    ensures st.highest == HighestAsWritten(rs) && st.lowest == LowestAsWritten(rs)
    ensures |rs| == 0 ==> st.average == 0.0 && st.highest == 0 && st.lowest == LowestSentinel
    ensures |rs| > 0 ==> st.lowest as real <= st.average <= st.highest as real
    ensures |rs| > 0 ==> st.average == SumNumeric(rs) as real / |rs| as real
    ensures |rs| > 0 && Highest(rs).value >= 0 ==> st.highest == Highest(rs).value
    ensures |rs| > 0 && Lowest(rs).value <= LowestSentinel ==> st.lowest == Lowest(rs).value
  {
    var n := Max(|rs|, 1);
    var avg := SumNumeric(rs) as real / n as real;
    var hi := HighestAsWritten(rs);
    var lo := LowestAsWritten(rs);
    assert |rs| > 0 ==> lo as real <= avg <= hi as real by {
      if |rs| > 0 {
        SumBounds(rs, lo, hi);
        AverageBetween(SumNumeric(rs), |rs|, lo, hi);
      }
    }
    assert |rs| > 0 ==>
      (Highest(rs).value >= 0 ==> hi == Highest(rs).value)
      && (Lowest(rs).value <= LowestSentinel ==> lo == Lowest(rs).value) by {
      if |rs| > 0 {
        ExtremesAgree(rs);
      }
    }
    NumberChartStats(|rs|, avg, hi, lo)
  }

  lemma AverageBetween(sum: int, n: int, lo: int, hi: int)
    requires n > 0 && n * lo <= sum <= n * hi
    ensures lo as real <= sum as real / n as real <= hi as real
  {
    var a := sum as real / n as real;
    assert a * n as real == sum as real;
    assert (a - lo as real) * n as real == sum as real - (n * lo) as real;
    assert (hi as real - a) * n as real == (n * hi) as real - sum as real;
  }

  function YesNoStatistics(rs: seq<DailyResponse>): (st: ChartStats)
    ensures st.YesNoChartStats? && st.entries == |rs| && st.yesCount == CountYes(rs) && st.noCount == CountNo(rs)
    ensures st.yesCount + st.noCount <= st.entries
    ensures st.yesRate * |rs| as real == 100.0 * CountYes(rs) as real
    ensures 0.0 <= st.yesRate <= 100.0
    ensures |rs| == 0 ==> st.yesRate == 0.0
    ensures st.yesRate == 100.0 <==> |rs| > 0 && CountYes(rs) == |rs|
  {
    YesNoCountsBounded(rs);
    var rate := if |rs| == 0 then 0.0 else CountYes(rs) as real / |rs| as real * 100.0;
    assert |rs| > 0 ==> 0.0 <= rate <= 100.0 && (rate == 100.0 <==> CountYes(rs) == |rs|) by {
      if |rs| > 0 {
        DivBounds(CountYes(rs) as real, |rs| as real);
      }
    }
    YesNoChartStats(|rs|, CountYes(rs), CountNo(rs), rate)
  }
}
