/** The trends screen: the active questions, each with its responses from
    the last thirty days and the summary card built from them. */
module Trends {
  import opened Wrappers
  import opened JsString
  import opened Lists
  import opened Types
  import opened Ledger

  /** The screen's fixed look-back, in days. */
  const WindowDays: nat := 30

  /** `getRecentResponses(questionId)`: the question's responses from every
      bucket whose date is not before the cutoff (today minus thirty days,
      supplied by the caller since it reads the clock). */
  function RecentResponses(ledger: Types.Ledger, cutoff: Date, qid: string): (r: seq<DailyResponse>)
    ensures forall x :: x in r <==>
              exists i :: 0 <= i < |ledger| && LexLe(cutoff, ledger[i].0) && x in ledger[i].1 && x.questionId == qid
    ensures |r| == SelectedCount(ledger, Window(cutoff, None), qid)
  {
    Select(ledger, Window(cutoff, None), qid)
  }

  // ---------------------------------------------------------------------
  // The trend card's statistics.

  /** An answer that is a number above zero. */
  predicate IsPositiveAnswer(x: DailyResponse) {
    NumericValue(x.response) > 0
  }

  /** `responses.map(numeric-or-0).filter(n => n > 0)`. */
  function Positives(rs: seq<DailyResponse>): (r: seq<int>)
    ensures |r| <= |rs|
    ensures forall i :: 0 <= i < |r| ==> r[i] > 0
    ensures forall i :: 0 <= i < |rs| && IsPositiveAnswer(rs[i]) ==> NumericValue(rs[i].response) in r
  {
    if |rs| == 0 then []
    else
      var n := NumericValue(rs[0].response);
      assert forall i :: 1 <= i < |rs| ==> rs[i] == rs[1..][i - 1];
      (if n > 0 then [n] else []) + Positives(rs[1..])
  }

  /** The positives are, in order, the values of the responses that are
      positive numbers, and they add up to those responses' numeric sum. */
  lemma {:induction false} PositivesAreFiltered(rs: seq<DailyResponse>)
    ensures |Positives(rs)| == |Filter(rs, IsPositiveAnswer)|
    ensures forall i :: 0 <= i < |Positives(rs)| ==>
              Positives(rs)[i] == NumericValue(Filter(rs, IsPositiveAnswer)[i].response)
    ensures SumInts(Positives(rs)) == SumNumeric(Filter(rs, IsPositiveAnswer))
    decreases |rs|
  {
    if |rs| > 0 {
      PositivesAreFiltered(rs[1..]);
      var rest := Positives(rs[1..]);
      var kept := Filter(rs[1..], IsPositiveAnswer);
      if IsPositiveAnswer(rs[0]) {
        assert Positives(rs) == [NumericValue(rs[0].response)] + rest;
        assert Filter(rs, IsPositiveAnswer) == [rs[0]] + kept;
        assert ([rs[0]] + kept)[1..] == kept;
      } else {
        assert Positives(rs) == [] + rest;
        assert [] + rest == rest;
      }
    }
  }

  function SumInts(xs: seq<int>): int {
    if |xs| == 0 then 0 else xs[0] + SumInts(xs[1..])
  }

  /** Positive values add up to at least their count. */
  lemma {:induction false} SumOfPositives(xs: seq<int>)
    requires forall i :: 0 <= i < |xs| ==> xs[i] > 0
    ensures SumInts(xs) >= |xs|
    decreases |xs|
  {
    if |xs| > 0 {
      SumOfPositives(xs[1..]);
    }
  }

  /** Dropping zeros and negatives never lowers the total; when no number is
      negative it is exactly the plain sum of the numeric answers. */
  lemma {:induction false} PositivesTotal(rs: seq<DailyResponse>)
    ensures SumInts(Positives(rs)) >= SumNumeric(rs)
    ensures (forall i :: 0 <= i < |rs| ==> NumericValue(rs[i].response) >= 0) ==>
              SumInts(Positives(rs)) == SumNumeric(rs)
    decreases |rs|
  {
    if |rs| > 0 {
      PositivesTotal(rs[1..]);
      var n := NumericValue(rs[0].response);
      var head := if n > 0 then [n] else [];
      SumIntsAppend(head, Positives(rs[1..]));
      if forall i :: 0 <= i < |rs| ==> NumericValue(rs[i].response) >= 0 {
        assert forall i :: 0 <= i < |rs[1..]| ==> NumericValue(rs[1..][i].response) >= 0 by {
          forall i | 0 <= i < |rs[1..]|
            ensures NumericValue(rs[1..][i].response) >= 0
          {
            assert rs[1..][i] == rs[i + 1];
          }
        }
      }
    }
  }

  lemma {:induction false} SumIntsAppend(a: seq<int>, b: seq<int>)
    ensures SumInts(a + b) == SumInts(a) + SumInts(b)
    decreases |a|
  {
    if |a| == 0 {
      assert a + b == b;
    } else {
      assert (a + b)[1..] == a[1..] + b;
      SumIntsAppend(a[1..], b);
    }
  }

  /** What the card shows besides the entry count. A number question's
      average is `None` where the app divides by zero and shows `NaN`. The
      `toFixed(1)` formatting is not modelled: the values are exact. */
  datatype Stats =
    | YesNoStats(yesCount: nat, total: nat, percentage: real)
    | NumberStats(sum: int, positives: nat, average: Option<real>)

  /** `calculateStats()`: nothing for an empty list or a free-text question. */
  function CalculateStats(q: Question, rs: seq<DailyResponse>): (r: Option<Stats>)
    ensures r.None? <==> |rs| == 0 || q.kind == FreeText
    ensures r.Some? && q.kind == YesNo ==>
              r.value.YesNoStats? && r.value.yesCount == CountYes(rs) && r.value.total == |rs|
              && r.value.percentage * |rs| as real == 100.0 * CountYes(rs) as real
              && 0.0 <= r.value.percentage <= 100.0
              && (r.value.percentage == 100.0 <==> CountYes(rs) == |rs|)
              && (r.value.percentage == 0.0 <==> CountYes(rs) == 0)
    ensures r.Some? && q.kind == Number ==>
              r.value.NumberStats? && r.value.sum >= SumNumeric(rs) && r.value.sum >= r.value.positives
              && r.value.sum == SumNumeric(Filter(rs, IsPositiveAnswer))
              && r.value.positives == |Filter(rs, IsPositiveAnswer)|
              && r.value.positives <= |rs|
              && (r.value.average.None? <==> r.value.positives == 0)
              && (r.value.average.Some? ==>
                    r.value.average.value >= 1.0
                    && r.value.average.value == r.value.sum as real / r.value.positives as real)
  {
    if |rs| == 0 then None
    else
      match q.kind
      case YesNo => Some(YesNoSummary(rs))
      case Number => Some(NumberSummary(rs))
      case FreeText => None
  }

  /** The yes/no branch of `calculateStats`. */
  function YesNoSummary(rs: seq<DailyResponse>): (st: Stats)
    requires |rs| > 0
    ensures st.YesNoStats? && st.yesCount == CountYes(rs) && st.total == |rs|
    ensures st.percentage * |rs| as real == 100.0 * CountYes(rs) as real
    ensures 0.0 <= st.percentage <= 100.0
    ensures st.percentage == 100.0 <==> CountYes(rs) == |rs|
    ensures st.percentage == 0.0 <==> CountYes(rs) == 0
  {
    var yes := CountYes(rs);
    YesNoStats(yes, |rs|, YesPercentage(yes, |rs|))
  }

  /** The number branch of `calculateStats`: only positive answers count
      towards the total and the average. */
  function NumberSummary(rs: seq<DailyResponse>): (st: Stats)
    ensures st.NumberStats? && st.sum >= SumNumeric(rs) && st.sum >= st.positives && st.positives <= |rs|
    ensures st.sum == SumNumeric(Filter(rs, IsPositiveAnswer)) && st.positives == |Filter(rs, IsPositiveAnswer)|
    ensures st.average.None? <==> st.positives == 0
    ensures st.average.Some? ==>
              st.average.value >= 1.0 && st.average.value == st.sum as real / st.positives as real
  {
    var ps := Positives(rs);
    var total := SumInts(ps);
    PositivesTotal(rs);
    PositivesAreFiltered(rs);
    SumOfPositives(ps);
    var avg := Average(total, |ps|);
    assert avg.Some? ==> avg.value >= 1.0 && avg.value == total as real / |ps| as real;
    NumberStats(total, |ps|, avg)
  }

  /** `yesCount / total * 100`, before formatting. */
  function YesPercentage(yes: nat, total: nat): (p: real)
    requires 0 < total && yes <= total
    ensures p * total as real == 100.0 * yes as real
    ensures 0.0 <= p <= 100.0
    ensures p == 100.0 <==> yes == total
    ensures p == 0.0 <==> yes == 0
  {
    DivBounds(yes as real, total as real);
    yes as real / total as real * 100.0
  }

  /** `sum / count`, with the division by zero made explicit. */
  function Average(sum: int, count: nat): (a: Option<real>)
    requires sum >= count
    ensures a.None? <==> count == 0
    ensures a.Some? ==> a.value >= 1.0 && a.value * count as real == sum as real
  {
    if count == 0 then None
    else
      DivBounds(sum as real, count as real);
      assert sum as real / count as real * count as real == sum as real;
      Some(sum as real / count as real)
  }

  /** `(entries / days * 100).toFixed(0)`; no value when there are no days
      (the app would show `Infinity` or `NaN`). Nothing caps it at 100, and
      the screen can pass more entries than days: the cutoff is thirty days
      before today and `date >= cutoff` admits thirty-one dates, the cutoff
      and today included, besides any bucket dated after today. */
  function ResponseRate(entries: nat, days: nat): (r: Option<int>)
    ensures r.Some? <==> days > 0
    ensures r.Some? ==> r.value as real - 0.5 <= 100.0 * entries as real / days as real < r.value as real + 0.5
    ensures r.Some? ==> r.value >= 0
    ensures r.Some? && entries <= days ==> r.value <= 100
    ensures r.Some? && entries == days ==> r.value == 100
    ensures r.Some? && entries == 0 ==> r.value == 0
  {
    if days == 0 then None
    else
      DivBounds(entries as real, days as real);
      var x := entries as real / days as real * 100.0;
      assert x == 100.0 * entries as real / days as real;
      Some((x + 0.5).Floor)
  }

  /** Thirty-one entries in a thirty-day window show as 103%. */
  lemma ResponseRateOverflowExample()
    ensures ResponseRate(31, WindowDays) == Some(103)
  {
    assert 31 as real / 30 as real * 100.0 + 0.5 == 3115.0 / 30.0;
  }

  /** One card of the screen. */
  datatype TrendCard = TrendCard(question: Question, entries: nat, stats: Option<Stats>, rate: Option<int>)

  /** The screen: one card per active question, in stored order. */
  function TrendCards(qs: seq<Question>, ledger: Types.Ledger, cutoff: Date): (cards: seq<TrendCard>)
    ensures |cards| == |ActiveQuestions(qs)|
    ensures forall i :: 0 <= i < |cards| ==>
              cards[i].question == ActiveQuestions(qs)[i]
              && cards[i].entries == |RecentResponses(ledger, cutoff, cards[i].question.id)|
              && cards[i].stats == CalculateStats(cards[i].question, RecentResponses(ledger, cutoff, cards[i].question.id))
              && cards[i].rate == ResponseRate(cards[i].entries, WindowDays)
  {
    var active := ActiveQuestions(qs);
    seq(|active|, i requires 0 <= i < |active| =>
      var rs := RecentResponses(ledger, cutoff, active[i].id);
      TrendCard(active[i], |rs|, CalculateStats(active[i], rs), ResponseRate(|rs|, WindowDays)))
  }
}
