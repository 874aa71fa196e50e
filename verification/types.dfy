/** The records shared by every screen: questions, daily responses and
    monthly challenges, plus the few readings of an answer that the
    aggregations use. */
module Types {
  import opened Wrappers
  import opened Lists
  import opened OrderedMaps

  /** A calendar day as `YYYY-MM-DD`; days are ordered by string comparison. */
  type Date = string

  datatype QuestionType = YesNo | Number | FreeText

  /** The stored answer: `boolean | number | string` as a tagged value.
      Numbers come from `parseInt`, so they are integers. */
  datatype Answer = Bool(b: bool) | Int(n: int) | Text(t: string)

  /** `paused` is optional: an absent flag means the question is asked. */
  datatype Question = Question(
    id: string,
    text: string,
    kind: QuestionType,
    category: Option<string>,
    topic: Option<string>,
    paused: Option<bool>)

  /** `timestamp` is milliseconds since the epoch, kept for display only. */
  datatype DailyResponse = DailyResponse(
    questionId: string,
    date: Date,
    response: Answer,
    timestamp: int)

  /** Declared alongside the others; no operation of the app builds one. */
  datatype DailyEntry = DailyEntry(date: Date, responses: seq<DailyResponse>)

  datatype ChallengeGoalType = YesCount | Sum | CountEntries

  datatype MonthlyChallenge = MonthlyChallenge(
    id: string,
    title: string,
    questionId: string,
    goalType: ChallengeGoalType,
    goalValue: int,
    startDate: Date,
    endDate: Date,
    active: bool)

  /** Every day's responses, as `getAllResponses` returns them: a JavaScript
      `Map` from date to that day's bucket. */
  type Ledger = OrderedMap<Date, seq<DailyResponse>>

  // Keys the app looks records up by.

  function QuestionIdOf(q: Question): string {
    q.id
  }

  function ResponseQuestion(r: DailyResponse): string {
    r.questionId
  }

  function ChallengeIdOf(c: MonthlyChallenge): string {
    c.id
  }

  /** `!q.paused`. */
  predicate IsActive(q: Question) {
    q.paused != Some(true)
  }

  predicate IsActiveChallenge(c: MonthlyChallenge) {
    c.active
  }

  /** `questions.filter(q => !q.paused)`, as both the check-in and the trends
      screen show them: order kept, paused ones dropped. */
  function ActiveQuestions(qs: seq<Question>): (r: seq<Question>)
    ensures forall i :: 0 <= i < |r| ==> r[i] in qs && r[i].paused != Some(true)
    ensures forall i :: 0 <= i < |qs| && qs[i].paused != Some(true) ==> qs[i] in r
  {
    Filter(qs, IsActive)
  }

  /** `response === true`. */
  predicate IsYes(a: Answer) {
    a == Bool(true)
  }

  /** `response === false`. */
  predicate IsNo(a: Answer) {
    a == Bool(false)
  }

  /** `typeof response === 'number' ? response : 0`. */
  function NumericValue(a: Answer): int {
    if a.Int? then a.n else 0
  }

  // Reductions over a list of responses, shared by the trend card, the chart
  // statistics and challenge progress.

  function CountYes(rs: seq<DailyResponse>): (n: nat)
    ensures n <= |rs|
  {
    if |rs| == 0 then 0 else (if IsYes(rs[0].response) then 1 else 0) + CountYes(rs[1..])
  }

  function CountNo(rs: seq<DailyResponse>): (n: nat)
    ensures n <= |rs|
  {
    if |rs| == 0 then 0 else (if IsNo(rs[0].response) then 1 else 0) + CountNo(rs[1..])
  }

  function SumNumeric(rs: seq<DailyResponse>): int {
    if |rs| == 0 then 0 else NumericValue(rs[0].response) + SumNumeric(rs[1..])
  }

  /** No response is both a yes and a no, so the two counts together never
      exceed the number of responses. */
  lemma {:induction false} YesNoCountsBounded(rs: seq<DailyResponse>)
    ensures CountYes(rs) + CountNo(rs) <= |rs|
    decreases |rs|
  {
    if |rs| > 0 {
      YesNoCountsBounded(rs[1..]);
    }
  }

  lemma {:induction false} CountYesAppend(a: seq<DailyResponse>, b: seq<DailyResponse>)
    ensures CountYes(a + b) == CountYes(a) + CountYes(b)
    decreases |a|
  {
    if |a| == 0 {
      assert a + b == b;
    } else {
      assert (a + b)[1..] == a[1..] + b;
      CountYesAppend(a[1..], b);
    }
  }

  lemma {:induction false} SumNumericAppend(a: seq<DailyResponse>, b: seq<DailyResponse>)
    ensures SumNumeric(a + b) == SumNumeric(a) + SumNumeric(b)
    decreases |a|
  {
    if |a| == 0 {
      assert a + b == b;
    } else {
      assert (a + b)[1..] == a[1..] + b;
      SumNumericAppend(a[1..], b);
    }
  }
}
