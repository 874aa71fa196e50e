/** The challenge screen's logic: progress of a monthly challenge against
    the stored responses, the goal types offered for a question, the record
    built when a challenge is created, and deactivation. */
module Challenges {
  import opened Wrappers
  import opened JsString
  import opened Lists
  import opened Types
  import opened Ledger
  import opened Storage

  const DefaultTitle: string := "Monthly Challenge"

  /** A challenge counts the buckets from its start date to its end date,
      both inclusive. */
  function ChallengeWindow(c: MonthlyChallenge): Window {
    Window(c.startDate, Some(c.endDate))
  }

  /** What one bucket's matching responses add to the running total. */
  function Reduce(goalType: ChallengeGoalType, rs: seq<DailyResponse>): (n: int)
    ensures goalType != Sum ==> 0 <= n <= |rs|
  {
    match goalType
    case YesCount => CountYes(rs)
    case Sum => SumNumeric(rs)
    case CountEntries => |rs|
  }

  lemma ReduceAppend(g: ChallengeGoalType, a: seq<DailyResponse>, b: seq<DailyResponse>)
    ensures Reduce(g, a + b) == Reduce(g, a) + Reduce(g, b)
  {
    CountYesAppend(a, b);
    SumNumericAppend(a, b);
  }

  /** The `forEach` of `computeProgress`: every bucket inside the window adds
      the reduction of its responses to the challenge's question. */
  function Current(c: MonthlyChallenge, ledger: Types.Ledger): (n: int)
    ensures c.goalType != Sum ==> n >= 0
  {
    if |ledger| == 0 then 0
    else
      (if InWindow(ChallengeWindow(c), ledger[0].0)
       then Reduce(c.goalType, ForQuestion(ledger[0].1, c.questionId)) else 0)
      + Current(c, ledger[1..])
  }

  /** Reducing bucket by bucket and adding up equals reducing the whole
      selection at once: only in-window buckets and only the challenge's
      question contribute, yes-counts count `true`, sums add numbers (others
      as 0), entry counts count everything selected. */
  lemma {:induction false} CurrentIsReductionOfSelection(c: MonthlyChallenge, ledger: Types.Ledger)
    ensures Current(c, ledger) == Reduce(c.goalType, Select(ledger, ChallengeWindow(c), c.questionId))
    decreases |ledger|
  {
    if |ledger| > 0 {
      CurrentIsReductionOfSelection(c, ledger[1..]);
      var here := if InWindow(ChallengeWindow(c), ledger[0].0) then ForQuestion(ledger[0].1, c.questionId) else [];
      ReduceAppend(c.goalType, here, Select(ledger[1..], ChallengeWindow(c), c.questionId));
    }
  }

  /** `Math.round`: the nearest integer, halves rounded up. */
  function Round(x: real): (n: int)
    ensures n as real - 0.5 <= x < n as real + 0.5
  {
    (x + 0.5).Floor
  }

  /** `Math.min(100, Math.round((current / (goal || 1)) * 100))`. Below the
      cap, `p` is the whole percentage nearest to `current` out of `goal`. */
  function Percent(current: int, goal: int): (p: int)
    ensures p <= 100
    ensures current >= 0 && goal >= 0 ==> p >= 0
    ensures goal > 0 && current >= goal ==> p == 100
    ensures goal > 0 && p < 100 ==>
              (p as real - 0.5) * goal as real <= 100.0 * current as real < (p as real + 0.5) * goal as real
    ensures goal > 0 && p == 100 ==> 99.5 * goal as real <= 100.0 * current as real
  {
    var divisor := if goal == 0 then 1 else goal;
    var ratio := current as real / divisor as real;
    assert divisor > 0 ==> (ratio >= 0.0 <==> current >= 0) && (ratio >= 1.0 <==> current >= divisor) by {
      if divisor > 0 {
        DivBounds(current as real, divisor as real);
      }
    }
    var n := Round(ratio * 100.0);
    assert goal > 0 ==>
      (n as real - 0.5) * goal as real <= 100.0 * current as real < (n as real + 0.5) * goal as real by {
      if goal > 0 {
        RoundScaled(current, goal, n);
      }
    }
    Wrappers.Min(100, n)
  }

  /** Multiplying the rounding bounds of `current / goal * 100` through by a
      positive goal. */
  lemma RoundScaled(current: int, goal: int, n: int)
    requires goal > 0
    requires n as real - 0.5 <= current as real / goal as real * 100.0 < n as real + 0.5
    ensures (n as real - 0.5) * goal as real <= 100.0 * current as real < (n as real + 0.5) * goal as real
  {
    var g := goal as real;
    var x := current as real / g * 100.0;
    assert x * g == 100.0 * current as real;
    MulPositive(x - (n as real - 0.5), g);
    var hi := n as real + 0.5;
    assert hi - x > 0.0;
    MulPositive(hi - x, g);
    assert (x - (n as real - 0.5)) * g == x * g - (n as real - 0.5) * g;
    assert (hi - x) * g == hi * g - x * g;
    assert 100.0 * current as real < hi * g;
  }

  lemma MulPositive(a: real, b: real)
    requires a >= 0.0 && b > 0.0
    ensures a * b >= 0.0 && (a > 0.0 ==> a * b > 0.0)
  {
  }

  /** A goal of zero is read as a goal of one. */
  lemma PercentZeroGoal(current: int)
    ensures Percent(current, 0) == Percent(current, 1)
  {
  }

  /** 15 of a goal of 20 is 75%; 30 of 20 is capped at 100%, not 150%. */
  lemma PercentExamples()
    ensures Percent(15, 20) == 75
    ensures Percent(30, 20) == 100
  {
    assert 15 as real / 20 as real == 0.75;
  }

  predicate HasYesSuffix(s: string) {
    |s| >= 4 && s[|s| - 4..] == " yes"
  }

  /** `${current} yes` for a yes-count on a yes/no question, else `${current}`. */
  function Label(current: int, yesNoCount: bool): (l: string)
    ensures ParseInt(l) == Some(current)
    ensures HasYesSuffix(l) <==> yesNoCount
  {
    ParseIntOfIntToString(current, " yes");
    ParseIntRoundTrip(current);
    if yesNoCount then IntToString(current) + " yes" else IntToString(current)
  }

  /** `questions.find(q => q.id === id)`. */
  function FindQuestion(qs: seq<Question>, id: string): Option<Question> {
    Lookup(qs, QuestionIdOf, id)
  }

  predicate IsYesNoQuestion(qs: seq<Question>, id: string) {
    FindQuestion(qs, id).Some? && FindQuestion(qs, id).value.kind == YesNo
  }

  datatype Progress = Progress(current: int, goal: int, percent: int, caption: string)

  /** `computeProgress(challenge, allResponses, questions)`. */
  function ComputeProgress(c: MonthlyChallenge, ledger: Types.Ledger, qs: seq<Question>): (p: Progress)
    ensures p.current == Reduce(c.goalType, Select(ledger, ChallengeWindow(c), c.questionId))
    ensures p.goal == c.goalValue
    ensures p.percent == Percent(p.current, p.goal)
    ensures p.percent <= 100
    ensures c.goalType != Sum && c.goalValue >= 0 ==> p.percent >= 0
    ensures c.goalValue > 0 && p.current >= c.goalValue ==> p.percent == 100
    ensures ParseInt(p.caption) == Some(p.current)
    ensures HasYesSuffix(p.caption) <==> IsYesNoQuestion(qs, c.questionId) && c.goalType == YesCount
  {
    var current := Current(c, ledger);
    CurrentIsReductionOfSelection(c, ledger);
    var yesLabel := IsYesNoQuestion(qs, c.questionId) && c.goalType == YesCount;
    Progress(current, c.goalValue, Percent(current, c.goalValue), Label(current, yesLabel))
  }

  /** The question picked in the form, if any. */
  function SelectedQuestion(qs: seq<Question>, selected: Option<string>): Option<Question> {
    match selected
    case None => None
    case Some(id) => FindQuestion(qs, id)
  }

  /** `goalTypesForQuestion`: yes/no questions offer a yes-count, number
      questions a sum or an entry count, anything else an entry count. */
  function GoalTypesForQuestion(qs: seq<Question>, selected: Option<string>): (r: seq<ChallengeGoalType>)
    ensures 1 <= |r| <= 2
    ensures forall i, j :: 0 <= i < j < |r| ==> r[i] != r[j]
    ensures YesCount in r <==> SelectedQuestion(qs, selected).Some? && SelectedQuestion(qs, selected).value.kind == YesNo
    ensures Sum in r <==> SelectedQuestion(qs, selected).Some? && SelectedQuestion(qs, selected).value.kind == Number
    ensures CountEntries in r <==> !(SelectedQuestion(qs, selected).Some? && SelectedQuestion(qs, selected).value.kind == YesNo)
  {
    match SelectedQuestion(qs, selected)
    case None => [CountEntries]
    case Some(q) =>
      if q.kind == YesNo then [YesCount]
      else if q.kind == Number then [Sum, CountEntries]
      else [CountEntries]
  }

  /** `parseInt(goalValue, 10) || 1`: NaN and 0 both fall back to 1. */
  function GoalValueOf(text: string): (v: int)
    ensures v != 0
    ensures ParseInt(text).Some? && ParseInt(text).value != 0 ==> v == ParseInt(text).value
    ensures ParseInt(text).None? || ParseInt(text).value == 0 ==> v == 1
  {
    match ParseInt(text)
    case Some(n) => if n == 0 then 1 else n
    case None => 1
  }

  /** `title.trim() || 'Monthly Challenge'`. */
  function TitleOf(title: string): (t: string)
    ensures t != []
    ensures AllWhitespace(title) ==> t == DefaultTitle
    ensures !AllWhitespace(title) ==> t == Trim(title)
  {
    TrimEmptyIffBlank(title);
    if Trim(title) == [] then DefaultTitle else Trim(title)
  }

  /** The record `handleCreateChallenge` builds; nothing when no question is
      selected. The id (the clock reading) and the month's first and last
      day are inputs. */
  function NewChallenge(id: string, title: string, selected: Option<string>, goalType: ChallengeGoalType,
                        goalValueText: string, startDate: Date, endDate: Date): (r: Option<MonthlyChallenge>)
    ensures r.Some? <==> selected.Some? && selected.value != ""
    ensures r.Some? ==> r.value.active && r.value.id == id && r.value.questionId == selected.value
    ensures r.Some? ==> r.value.goalType == goalType && r.value.startDate == startDate && r.value.endDate == endDate
    ensures r.Some? ==> r.value.title == TitleOf(title) && r.value.goalValue == GoalValueOf(goalValueText)
  {
    if selected.None? || selected.value == "" then None
    else Some(MonthlyChallenge(id, TitleOf(title), selected.value, goalType,
                               GoalValueOf(goalValueText), startDate, endDate, true))
  }

  /** `handleCreateChallenge`: the new challenge is stored last. */
  function CreateChallenge(s: Store, id: string, title: string, selected: Option<string>,
                           goalType: ChallengeGoalType, goalValueText: string,
                           startDate: Date, endDate: Date): (r: Store)
    ensures NewChallenge(id, title, selected, goalType, goalValueText, startDate, endDate).None? ==> r == s
    ensures NewChallenge(id, title, selected, goalType, goalValueText, startDate, endDate).Some? ==>
              GetChallenges(r) ==
                GetChallenges(s) + [NewChallenge(id, title, selected, goalType, goalValueText, startDate, endDate).value]
    ensures SameExcept(s, r, ChallengesKey)
  {
    match NewChallenge(id, title, selected, goalType, goalValueText, startDate, endDate)
    case None => s
    case Some(c) => AddChallenge(s, c)
  }

  /** The challenges the screen shows. */
  function ActiveChallenges(s: Store): seq<MonthlyChallenge> {
    Filter(GetChallenges(s), IsActiveChallenge)
  }

  /** `deactivateChallenge(id)`: the first active challenge with the id is
      written back with `active` false (over every challenge with that id);
      nothing happens when there is none. Nothing is deleted. */
  function DeactivateChallenge(s: Store, id: string): (r: Store)
    ensures |GetChallenges(r)| == |GetChallenges(s)|
    ensures forall i :: 0 <= i < |GetChallenges(r)| && GetChallenges(r)[i].id == id ==> !GetChallenges(r)[i].active
    ensures forall i :: 0 <= i < |GetChallenges(s)| && GetChallenges(s)[i].id != id ==>
              GetChallenges(r)[i] == GetChallenges(s)[i]
    ensures forall c :: c in ActiveChallenges(r) ==> c.id != id
    ensures forall c :: c in ActiveChallenges(s) && c.id == id ==>
              exists d :: d in ActiveChallenges(s) && d.id == id &&
                Lookup(GetChallenges(r), ChallengeIdOf, id) == Some(d.(active := false))
    ensures SameExcept(s, r, ChallengesKey)
  {
    var cs := GetChallenges(s);
    var active := ActiveChallenges(s);
    match Lookup(active, ChallengeIdOf, id)
    case None =>
      assert forall i :: 0 <= i < |cs| && cs[i].active ==> cs[i] in active;
      s
    case Some(c) =>
      var r := UpdateChallenge(s, c.(active := false));
      assert HasKey(cs, ChallengeIdOf, id) by {
        var j :| 0 <= j < |cs| && cs[j] == c;
      }
      r
  }
}
