# Minimalist tracker: the bookkeeping core in Dafny

The app is an end-of-day journal. The user answers a few questions each
evening (yes/no, a number or free text), and the answers are stored per day
in the device's key-value store. Three screens read them back:

- The trends screen summarises the last thirty days.
- The chart modal plots the latest fourteen answers and shows statistics.
- The challenge screen tracks monthly goals.

A subscription service decides whether a user is still in the free trial or
holds an entitlement.

This project models the logic under those screens as immutable data and
pure functions. It proves what that logic promises.

- `JsString`: the JavaScript string primitives the app relies on. These are
  string `<=` (`LexLe`, a total order), `trim`, `parseInt(s, 10)` and the
  decimal rendering `${n}`, with the round trip `parseInt(String(n)) == n`.
- `Lists` and `OrderedMaps`: filter, find, upsert and remove-by-key over
  sequences. A JavaScript `Map` is modelled as a sequence of pairs with
  distinct keys, kept in insertion order.
- `Types`: questions, daily responses, monthly challenges, the tagged answer
  `Bool | Int | Text`, and the counts and sums taken over responses.
- `Storage`: the store as a `map<string, Entry>`. It covers:
  - the question registry and the eight default questions;
  - the per-day bucket under `@eod_responses_<date>` with its
    upsert-by-question;
  - reading all buckets back as a map from date to bucket;
  - the challenge list.

  An entry of the wrong shape stands for a value that fails to parse.
- `Ledger`: selecting one question's responses from the buckets whose date
  lies in a window.
- `Challenges`: `computeProgress` (window, reduction, percentage and label),
  the goal types offered, the record a new challenge is built from, and
  deactivation.
- `Trends`: the thirty-day selection, the trend card's statistics and the
  response rate.
- `Charts`: the date sort, the latest fourteen points, the plotted values and
  the statistics block.
- `CheckInForm`: the check-in form's answer map and its handlers, the
  submitted list, and when the submit button is enabled.
- `CheckIn`: the check-in screen. It covers the questions asked, today's
  responses indexed by question, and the loop that saves the submitted
  responses one by one.
- `Subscription`: the trial arithmetic, the status built from the billing
  SDK's customer record, access, the purchase and restore outcomes, and the
  one-time initialisation.

The clock, today's date, the trial cutoff, new ids and the SDK's answers are
parameters.

Some behaviour of the code that the model keeps as written:

- Day buckets are stored under `@eod_responses_<date>`
  (`src/storage/storage.ts:5`).
- The trend card's number average is `NaN` when no answer is positive
  (`src/components/TrendChart.tsx:39-41`). The model returns `None` there.
- The trend card keeps only strictly positive numbers
  (`src/components/TrendChart.tsx:38`). Negative answers are dropped as well
  as zeros, and its "total" is the sum of the positive answers only
  (`src/components/TrendChart.tsx:42`).
- The chart's statistics show the extremes the app computes, with the seeds
  0 and 999 (`src/components/ChartModal.tsx:158-174`). The "## Findings"
  section below gives the inputs where these differ from the true extremes.

## Model

| member | source | states |
|---|---|---|
| Storage.DefaultQuestions | src/storage/storage.ts:161-227 | there are eight questions with ids "1" to "8"; exactly the fourth to the eighth are paused |
| Storage.GetQuestions | src/storage/storage.ts:11-19 | with no stored list the defaults are returned; otherwise the stored list |
| Storage.AddQuestion | src/storage/storage.ts:29-33 | the question list afterwards is the old one with the new question appended; no other key of the store changes |
| Storage.RemoveQuestion | src/storage/storage.ts:37 | every survivor lacks the id and was in the list, every question without the id survives, and the length drops by the number of entries carrying the id |
| Storage.RemoveQuestionKeepsOrder | src/storage/storage.ts:37 | deleting distributes over concatenation, so the survivors keep their relative order |
| Storage.RemoveQuestionAbsentOrTwice | src/storage/storage.ts:37 | deleting an id no question has changes nothing; deleting twice equals deleting once |
| Storage.DeleteQuestion | src/storage/storage.ts:35-39 | the stored list becomes the filtered list; no other key changes |
| Storage.PauseQuestion | src/storage/storage.ts:43-45 | same length; only the `paused` field can differ; entries with the id get the flag, all others are identical |
| Storage.PauseQuestionIdempotent | src/storage/storage.ts:43-45 | setting the flag twice equals setting it once, and the second setting wins |
| Storage.PauseQuestionActivity | src/storage/storage.ts:43-45 | after pausing, no active question has the id; after unpausing, every question with the id is active |
| Storage.SetQuestionPaused | src/storage/storage.ts:41-47 | the stored list becomes the paused-flag update of the old one; no other key changes |
| Storage.ResponseKey | src/storage/storage.ts:52 | a day's key starts with `@eod_responses_`, and stripping the prefix gives back the date |
| Storage.DateOfKey | src/storage/storage.ts:91 | for a key with the prefix, the stripped date rebuilds exactly that key |
| Storage.ResponseKeyInjective | src/storage/storage.ts:66 | distinct days are stored under distinct keys |
| Storage.OtherKeysAreNotBuckets | src/storage/storage.ts:4-7 | the questions, challenges and notification keys never start with the bucket prefix |
| Storage.GetDailyResponses | src/storage/storage.ts:50-59 | a day with no stored bucket reads as the empty list; otherwise as the stored bucket |
| Storage.UpsertResponse | src/storage/storage.ts:68-75 | a present question is replaced at its first index and the length is unchanged; a new one is appended; the lookup gives the new response; other questions' lookups and the remaining entries in order are unchanged; distinct questions stay distinct |
| Storage.SaveTwiceKeepsSecond | src/storage/storage.ts:68-75 | in a bucket without repeats, saving twice for one question equals saving the second response, which is then its only entry |
| Storage.SaveDailyResponse | src/storage/storage.ts:61-80 | the day's bucket becomes the upsert of the old bucket; every other day and every other key are unchanged |
| Storage.GetAllResponses | src/storage/storage.ts:82-102 | the result maps distinct dates |
| Storage.GetAllResponsesContents | src/storage/storage.ts:84-96 | when every bucket parses, a date is present exactly when its key is listed and stored, and it holds that day's bucket |
| Storage.GetAllResponsesMalformed | src/storage/storage.ts:92-100 | a single listed bucket that does not parse makes the whole result empty |
| Storage.SaveKeepsWellFormed | src/storage/storage.ts:76 | saving a response keeps every bucket parseable |
| Storage.GetChallenges | src/storage/storage.ts:105-113 | with nothing stored the list is empty; otherwise it is the stored list |
| Storage.AddChallenge | src/storage/storage.ts:123-127 | the challenge is appended; no other key changes |
| Storage.UpdateChallenge | src/storage/storage.ts:129-133 | same length; every challenge with the id is replaced in place and the others are untouched; lookup by id yields the new record exactly when the id was present |
| Storage.RemoveChallenge | src/storage/storage.ts:137 | no survivor has the id, every challenge without it survives, and the length drops by the number of challenges carrying the id |
| Storage.RemoveChallengeKeepsOrder | src/storage/storage.ts:137 | removal distributes over concatenation, so the surviving challenges keep their relative order |
| Storage.DeleteChallenge | src/storage/storage.ts:135-139 | the stored list becomes the removal of the id from the old list: no survivor has the id, every challenge without it survives, the length drops by the number carrying it, and the order is kept (RemoveChallengeKeepsOrder); no other key changes |
| Types.ActiveQuestions | src/screens/TrendsScreen.tsx:34 | exactly the questions whose `paused` is not true are kept, an absent flag counting as active |
| Types.YesNoCountsBounded | src/components/ChartModal.tsx:186-196 | the yes count plus the no count never exceeds the number of responses |
| Ledger.ForQuestion | src/screens/ChallengeScreen.tsx:44 | exactly the bucket's responses to the question are kept, as many as the bucket holds for it |
| Ledger.Select | src/screens/TrendsScreen.tsx:50-59 | a response is selected exactly when it lies in a bucket inside the window and answers the question; the length is the number of such responses, counted over the in-window buckets |
| Ledger.SelectAppend | src/screens/TrendsScreen.tsx:51-58 | selecting over two maps laid end to end gives the two selections laid end to end |
| Challenges.Reduce | src/screens/ChallengeScreen.tsx:45-53 | a yes count or an entry count lies between 0 and the number of responses |
| Challenges.ReduceAppend | src/screens/ChallengeScreen.tsx:45-53 | each reduction adds up over concatenated lists |
| Challenges.CurrentIsReductionOfSelection | src/screens/ChallengeScreen.tsx:41-55 | the bucket-by-bucket total equals the reduction of the responses selected from the inclusive window for the challenge's question |
| Challenges.Round | src/screens/ChallengeScreen.tsx:58 | `Math.round` gives the integer within one half of its argument, halves rounding up |
| Challenges.RoundScaled | src/screens/ChallengeScreen.tsx:58 | the rounding bounds of current over a positive goal times 100, multiplied through by the goal |
| Challenges.Percent | src/screens/ChallengeScreen.tsx:58 | never above 100 and non-negative for non-negative inputs. For a positive goal, below the cap it is the whole percentage nearest to current out of goal, within one half; it is capped at 100 exactly from 99.5 percent on, and is 100 once the goal is reached |
| Challenges.PercentZeroGoal | src/screens/ChallengeScreen.tsx:58 | a goal of 0 gives the same percentage as a goal of 1 |
| Challenges.PercentExamples | src/screens/ChallengeScreen.tsx:58 | 15 of 20 gives 75; 30 of 20 is capped at 100 |
| Challenges.Label | src/screens/ChallengeScreen.tsx:59 | the label reads back as the current value, and ends in " yes" exactly for a yes-count on a yes/no question |
| Challenges.ComputeProgress | src/screens/ChallengeScreen.tsx:33-61 | the current value is the reduction of the window's selection; the goal is the challenge's; the percentage is Percent of the two, with its rounding bounds and cap; the label reads back as the current value and carries " yes" exactly for a yes-count on a yes/no question |
| Challenges.GoalTypesForQuestion | src/screens/ChallengeScreen.tsx:120-126 | one or two distinct goal types: yes-count exactly for a yes/no question, sum exactly for a number question, entry count exactly when the question is not yes/no |
| Challenges.GoalValueOf | src/screens/ChallengeScreen.tsx:104 | a parsed non-zero value is kept; NaN and 0 become 1; the result is never 0 |
| Challenges.TitleOf | src/screens/ChallengeScreen.tsx:101 | a blank title becomes "Monthly Challenge"; any other title is trimmed; the result is never empty |
| Challenges.NewChallenge | src/screens/ChallengeScreen.tsx:97-108 | a record exists exactly when a question is selected; it is active, with the given id, question, goal type and month, the default title rule and the goal value rule |
| Challenges.CreateChallenge | src/screens/ChallengeScreen.tsx:97-111 | with no selection the store is unchanged; otherwise the new record is appended to the challenge list and no other key changes |
| Challenges.DeactivateChallenge | src/screens/ChallengeScreen.tsx:113-118 | same length; challenges with other ids are unchanged; afterwards no active challenge has the id; when one was active, the id now looks up that record with `active` false |
| Trends.RecentResponses | src/screens/TrendsScreen.tsx:45-60 | a response is returned exactly when its bucket's date is not before the cutoff and it answers the question; the count is the number of such responses over the buckets from the cutoff on |
| Trends.Positives | src/components/TrendChart.tsx:36-38 | only strictly positive values are kept, every positive answer's value is kept, and there are no more of them than responses |
| Trends.PositivesAreFiltered | src/components/TrendChart.tsx:36-42 | the positives are, one for one and in order, the values of the responses that are positive numbers, and their total is those responses' numeric sum |
| Trends.SumOfPositives | src/components/TrendChart.tsx:42 | positive values add up to at least their count |
| Trends.PositivesTotal | src/components/TrendChart.tsx:36-42 | the positives' total is at least the plain numeric sum, and equal to it when no answer is negative |
| Trends.CalculateStats | src/components/TrendChart.tsx:18-51 | there are no stats exactly for an empty list or a free-text question. Yes/no: the yes count, the total, and the percentage yes times 100 over total, so in [0, 100], 100 exactly when all are yes and 0 exactly when none are. Number: the total is the sum of the responses that are positive numbers, the count is how many there are, and the average is absent exactly when there are none; otherwise it is at least 1 and equals total divided by count |
| Trends.YesNoSummary | src/components/TrendChart.tsx:23-33 | the yes/no card counts yes answers, and its percentage times the total is 100 times the yes count, so it lies in [0, 100] and is 100 exactly when all are yes |
| Trends.NumberSummary | src/components/TrendChart.tsx:35-48 | the number card's total is the sum of the responses that are positive numbers and its count is how many there are; the average is absent exactly when there are none, and otherwise total over count |
| Trends.YesPercentage | src/components/TrendChart.tsx:27 | the percentage times the total is 100 times the yes count; it lies in [0, 100], and is 100 exactly when every answer is yes and 0 exactly when none is |
| Trends.Average | src/components/TrendChart.tsx:39-41 | absent exactly when the count is 0; otherwise average times count is the sum |
| Trends.ResponseRate | src/components/TrendChart.tsx:54-57 | defined exactly when there are days; then it is 100 times entries over days, rounded to within one half; non-negative; at most 100 when entries do not exceed days; 100 when they are equal |
| Trends.ResponseRateOverflowExample | src/components/TrendChart.tsx:54-57 | 31 entries over the 30-day window show as 103, since nothing clamps the rate |
| Trends.TrendCards | src/screens/TrendsScreen.tsx:85-91 | one card per active question, in order, each with that question's recent entries, stats and thirty-day rate |
| Charts.Insert | src/components/ChartModal.tsx:35-37 | inserting into a date-ordered list keeps it ordered and adds exactly that response |
| Charts.SortByDate | src/components/ChartModal.tsx:35-37 | the result is ordered by date and is a permutation of the input |
| Charts.SortByDateOfSorted | src/components/ChartModal.tsx:35-37 | an already ordered list is returned unchanged |
| Charts.SortByDateIdempotent | src/components/ChartModal.tsx:35-37 | sorting twice is sorting once |
| Charts.LastN | src/components/ChartModal.tsx:40 | `slice(-n)` keeps the last `min(n, length)` elements, in order |
| Charts.PrepareChartData | src/components/ChartModal.tsx:34-79 | free text gives no labels and a single 0. Otherwise the chart shows the latest `min(14, n)` sorted responses in ascending date order, with labels and data of equal length. A yes/no point is 1 exactly for a yes, a number plots itself, and an empty series is a single 0 |
| Charts.ShownAreLatest | src/components/ChartModal.tsx:40-45 | every sorted response left off the chart is dated no later than every plotted one |
| Charts.HighestAsWritten | src/components/ChartModal.tsx:158-163 | at least 0 and every value; either 0 or one of the values |
| Charts.LowestAsWritten | src/components/ChartModal.tsx:169-174 | at most 999 and every value; either 999 or one of the values |
| Charts.ExtremesCounterexamples | src/components/ChartModal.tsx:158-174 | the values 5000 and 6000 show a lowest of 999; the values -3 and -5 show a highest of 0 |
| Charts.Highest | src/components/ChartModal.tsx:158-163 | absent exactly for no values; otherwise an upper bound that is one of the values |
| Charts.Lowest | src/components/ChartModal.tsx:169-174 | absent exactly for no values; otherwise a lower bound that is one of the values |
| Charts.ExtremesAgree | src/components/ChartModal.tsx:158-174 | for a non-empty list, the app's highest equals the true maximum when that maximum is non-negative, and, separately, the app's lowest equals the true minimum when that minimum is at most 999 |
| Charts.Statistics | src/components/ChartModal.tsx:140-210 | free text shows nothing. Number: the entry count, the app's highest and lowest (0 and 999 for no values, the true extremes when the maximum is non-negative or the minimum at most 999 respectively), and a mean over all responses between them (0 for none). Yes/no: the counts, which add to at most the total, and a yes rate equal to 100 times the yes count over the total, in [0, 100], 0 for none and 100 exactly when all are yes |
| Charts.NumberStatistics | src/components/ChartModal.tsx:141-176 | the shown extremes are the app's seeded maximum and minimum (0 and 999 with no values); they equal the true extremes under the conditions of ExtremesAgree; the mean divides by the count (0 when empty) and lies between them |
| Charts.YesNoStatistics | src/components/ChartModal.tsx:181-208 | the yes and no counts add to at most the total; the rate times the total is 100 times the yes count; the rate is in [0, 100], 0 when empty, and 100 exactly when all are yes |
| CheckInForm.InitialAnswers | src/components/QuestionForm.tsx:25-35 | one key per question among the initial responses, holding the value of that question's last response |
| CheckInForm.HandleYesNo | src/components/QuestionForm.tsx:37-39 | sets exactly that question's answer; all other answers are unchanged |
| CheckInForm.HandleNumber | src/components/QuestionForm.tsx:41-55 | empty text removes the answer; text that `parseInt` reads as NaN changes nothing; otherwise the parsed integer is stored; other answers are unchanged |
| CheckInForm.HandleText | src/components/QuestionForm.tsx:57-59 | sets exactly that question's text, the empty string included; other answers are unchanged |
| CheckInForm.NumberFieldRoundTrip | src/components/QuestionForm.tsx:142 | handing the number field's displayed text back to `handleNumber` leaves the answers as they were |
| CheckInForm.HandleSubmit | src/components/QuestionForm.tsx:61-72 | one response per answer in map order, each dated today and stamped with the same time |
| CheckInForm.SubmitMatchesAnswers | src/components/QuestionForm.tsx:63-70 | the submitted list has distinct questions, and holds a response exactly when the form holds that answer |
| CheckInForm.IsCompleteCounterexamples | src/components/QuestionForm.tsx:74 | the count test accepts a form with a shown question unanswered, and rejects one with every shown question answered |
| CheckInForm.CanSubmitAnswersAll | src/components/QuestionForm.tsx:156-159 | once enabled, the submitted list answers every shown question |
| CheckInForm.CountAgreesWhenAnswersAreShown | src/components/QuestionForm.tsx:74 | when every answer belongs to a shown question with a distinct id, the count test and "every shown question answered" agree |
| CheckIn.AskedQuestions | src/screens/DailyCheckInScreen.tsx:30-32 | exactly the stored questions that are not paused are asked |
| CheckIn.TodayIndex | src/screens/DailyCheckInScreen.tsx:36-38 | the index has distinct keys and maps each question to its last response in today's bucket |
| CheckIn.ReopenShowsSubmitted | src/screens/DailyCheckInScreen.tsx:34-38 | reopening on a bucket that holds exactly the submitted list shows the same answers in the same order |
| CheckIn.SaveEachEffect | src/screens/DailyCheckInScreen.tsx:51-53 | after the sequential saves, other days and keys are unchanged, each question holds its last submitted response or its old entry, entries for unsubmitted questions keep their order, and an empty bucket becomes exactly a repeat-free submitted list |
| CheckIn.SaveAll | src/screens/DailyCheckInScreen.tsx:51-53 | the loop achieves what SaveEachEffect states |
| CheckIn.SubmitCheckIn | src/screens/DailyCheckInScreen.tsx:48-55 | every answered question holds exactly its new response, once when the bucket had no repeats; unanswered questions keep their entry; other days are untouched; a fresh day reopens showing the submitted answers |
| CheckIn.SubmittedLookups | src/screens/DailyCheckInScreen.tsx:51-53 | a bucket the submitted list was saved over holds each answered question's new response and each other question's old entry |
| Subscription.DaysSince | src/services/subscriptionService.ts:100-102 | the whole days elapsed, rounded down: d days cover the elapsed time and d + 1 exceed it |
| Subscription.CalculateTrialStatus | src/services/subscriptionService.ts:90-108 | no first launch gives 30 days in trial. Otherwise the remaining days are at least 0, at most 30 once the clock is past the first launch, and in trial exactly when less than thirty days of milliseconds have elapsed; in trial, 30 minus the remaining days is the number of whole days elapsed |
| Subscription.TrialCountsDown | src/services/subscriptionService.ts:100-104 | as the clock advances, the remaining days never grow |
| Subscription.TrialEdges | src/services/subscriptionService.ts:100-105 | the launch instant gives 30 days; one millisecond before day thirty gives 1; day thirty gives 0 and no trial |
| Subscription.GetSubscriptionStatus | src/services/subscriptionService.ts:49-88 | lifetime and monthly reflect the active entitlements, and subscribed is their disjunction. The expiry is set only for monthly. The trial part is the trial computation. A failed customer fetch gives unsubscribed with the same trial |
| Subscription.HasAccess | src/services/subscriptionService.ts:110-113 | access exactly when an entitlement is active or the trial runs |
| Subscription.AccessOverTime | src/services/subscriptionService.ts:110-113 | within thirty days of the first launch access is granted; afterwards exactly with an entitlement |
| Subscription.PurchasePackage | src/services/subscriptionService.ts:128-146 | success exactly when the record shows an entitlement; a cancel gives "Purchase cancelled"; another error gives its message or "Purchase failed" |
| Subscription.RestorePurchases | src/services/subscriptionService.ts:148-166 | success exactly when the SDK answers; "No previous purchases found" exactly when it answers without an entitlement; an error gives its message or "Restore failed" |
| Subscription.Initialize | src/services/subscriptionService.ts:23-47 | once initialised it does nothing; a failing storage call changes nothing; otherwise the flag is set and a missing first launch is recorded as now |
| Subscription.InitializeOnce | src/services/subscriptionService.ts:23-47 | after a successful initialisation, a later call changes nothing |
| JsString.ParseIntRoundTrip | src/components/QuestionForm.tsx:50 | `parseInt` reads back the decimal rendering of every integer |
| JsString.ParseIntOfIntToString | src/screens/ChallengeScreen.tsx:59 | `parseInt` of a rendered integer followed by a non-digit, such as " yes", gives the integer |
| JsString.ParseIntBlank | src/components/QuestionForm.tsx:50-51 | blank text parses as NaN |
| JsString.TrimEmptyIffBlank | src/screens/ChallengeScreen.tsx:101 | `trim()` is empty exactly when the text is all white space |
| JsString.LexLeTotal | src/screens/ChallengeScreen.tsx:43 | any two date strings are comparable |
| JsString.LexLeTransitive | src/screens/ChallengeScreen.tsx:43 | string `<=` is transitive |
| JsString.LexLeAntisymmetric | src/screens/ChallengeScreen.tsx:43 | two strings each `<=` the other are equal |
| OrderedMaps.Set | src/components/QuestionForm.tsx:38 | `set` makes the key hold the value, leaves other keys alone, keeps keys distinct, and grows the map only for a new key |
| OrderedMaps.Delete | src/components/QuestionForm.tsx:45-46 | `delete` removes the key, leaves other keys alone, shrinks the map by one for a present key, and changes nothing for an absent one |
| OrderedMaps.FromPairs | src/screens/DailyCheckInScreen.tsx:36-38 | `new Map(pairs)` has distinct keys, and each key holds its last pair's value |

## Left out

- JSON encoding and decoding are not modelled. A stored value of the wrong
  shape stands for text that does not parse, and each read takes the branch
  its `catch` takes.
- AsyncStorage I/O and write failures are not modelled. A failed write is
  logged and swallowed by the app, and the model's writes always succeed.
  `getAllKeys` becomes the `keys` parameter, in the order it lists them.
- The clock and the time zone are parameters. These include today's date
  (`toISOString().split('T')[0]`), the trends cutoff, the first and last day
  of the month, `Date.now()` ids and timestamps, and the trial's `now`. The
  form and the screen read "today" separately; the model takes both readings
  to be the same day.
- `HandleSubmit` stamps every response with one `now`. The app calls
  `Date.now()` once per response.
- `toFixed` formatting and the chart's `M/D` labels are not modelled.
  Percentages and averages are exact reals, and labels are the dates
  themselves.
- Charts.SortByDate: the app compares `new Date(date).getTime()`. For
  `YYYY-MM-DD` strings this orders as the strings do, so the model uses the
  string order. The sort is a permutation into date order, but its stability
  among equal dates is not stated.
- JsString.LexLe compares characters, where JavaScript compares UTF-16 code
  units. The two agree on the ASCII dates the app stores.
- JsString.ParseInt works on unbounded integers. Above 2^53 JavaScript loses
  precision, and that is not modelled.
- Subscription.CalculateTrialStatus takes the first launch as a millisecond
  timestamp. An unparsable stored date (`NaN` in the app, which yields no
  trial days) is not modelled.
- Subscription.Initialize: the `Platform` choice and the SDK `configure` and
  log-level calls are left out; only the guard, the first-launch record and
  the flag are modelled.
- `getOfferings` and the paywall are left out. They only forward the SDK's
  package list.
- Notification scheduling (`src/utils/notificationScheduler.ts`) is left
  out. It consists of Expo API calls and local-time arithmetic.
- The settings screen is left out. It only forwards to the question
  operations modelled in `Storage`.
- Rendering, navigation, the splash screen and the subscription gate are
  left out.
- Challenges.ComputeProgress and Challenges.GoalTypesForQuestion take the
  question list as a parameter. The screen passes its active questions
  (`src/screens/ChallengeScreen.tsx:85`).

## Findings

| source | as written | input that shows it | evidently intended | confidence | as-written member | corrected member |
|---|---|---|---|---|---|---|
| src/components/QuestionForm.tsx:74 | the submit button is enabled when the number of answers equals the number of shown questions | today's bucket holds an answer for question "3", which was paused after answering, while question "2" is shown and unanswered: with shown questions "1" and "2", answers for "1" and "3" enable the button | enable the button when every shown question has an answer | not executed | CheckInForm.IsCompleteCounterexamples | CheckInForm.CanSubmitAnswersAll |
| src/components/ChartModal.tsx:158-174 | "Highest" is the maximum of the values and 0; "Lowest" is the minimum of the values and 999 | values 5000 and 6000 show a lowest of 999; values -3 and -5 show a highest of 0 | the largest and smallest value entered | not executed | Charts.ExtremesCounterexamples | Charts.ExtremesAgree |
