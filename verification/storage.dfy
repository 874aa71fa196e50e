/** The persistence facade over the device's key-value store: the question
    registry, the per-day response buckets and the challenge list.

    The store is a map from key to stored value. A stored value is one of
    the shapes the app writes; a value of the wrong shape under a key stands
    for text that does not parse, which every reader treats as its catch
    branch does. Writes always succeed here (the app swallows write errors). */
module Storage {
  import opened Wrappers
  import opened JsString
  import opened Lists
  import opened OrderedMaps
  import opened Types

  const QuestionsKey: string := "@eod_questions"
  const ResponsesPrefix: string := "@eod_responses_"
  const ChallengesKey: string := "@eod_challenges"
  const NotificationTimeKey: string := "@eod_notification_time"

  datatype Entry =
    | QuestionList(questions: seq<Question>)
    | ResponseList(responses: seq<DailyResponse>)
    | ChallengeList(challenges: seq<MonthlyChallenge>)
    | TextValue(text: string)

  type Store = map<string, Entry>

  /** Every key other than `k` is present in `t` exactly when in `s`, with
      the same value. */
  ghost predicate SameExcept(s: Store, t: Store, k: string) {
    forall j :: j != k ==> (j in s <==> j in t) && (j in s ==> s[j] == t[j])
  }

  // ---------------------------------------------------------------------
  // Question registry
  // ---------------------------------------------------------------------

  function DefaultQuestion(id: string, text: string, kind: QuestionType, category: string,
                           topic: string, paused: bool): Question {
    Question(id, text, kind, Some(category), Some(topic), Some(paused))
  }

  /** The eight built-in questions; the first three are asked, the rest
      start paused. */
  function DefaultQuestions(): (qs: seq<Question>)
    ensures |qs| == 8
    ensures forall i :: 0 <= i < |qs| ==> qs[i].id == [DigitChar(i + 1)]
    ensures forall i :: 0 <= i < |qs| ==> (qs[i].paused == Some(true) <==> i >= 3)
  {
    [ DefaultQuestion("1", "Did you drink alcohol today?", YesNo, "Health", "Alcohol", false),
      DefaultQuestion("2", "How many hours did you sleep?", Number, "Sleep", "Sleep", false),
      DefaultQuestion("3", "Did you exercise today?", YesNo, "Exercise", "Exercise", false),
      DefaultQuestion("4", "How many cups of water did you drink?", Number, "Health", "Hydration", true),
      DefaultQuestion("5", "Did you meditate today?", YesNo, "Wellness", "Meditation", true),
      DefaultQuestion("6", "How many minutes of screen time did you have?", Number, "Wellness", "Screen Time", true),
      DefaultQuestion("7", "Did you take your vitamins today?", YesNo, "Health", "Vitamins", true),
      DefaultQuestion("8", "How many minutes did you spend outdoors?", Number, "Wellness", "Outdoors", true) ]
  }

  /** `getQuestions`: the stored list, or the defaults when nothing is stored
      or the stored text does not parse. A stored empty list stays empty. */
  function GetQuestions(s: Store): (qs: seq<Question>)
    ensures QuestionsKey !in s ==> qs == DefaultQuestions()
    ensures QuestionsKey in s && s[QuestionsKey].QuestionList? ==> qs == s[QuestionsKey].questions
  {
    if QuestionsKey in s && s[QuestionsKey].QuestionList? then s[QuestionsKey].questions
    else DefaultQuestions()
  }

  function SaveQuestions(s: Store, qs: seq<Question>): (r: Store)
    ensures GetQuestions(r) == qs
    ensures SameExcept(s, r, QuestionsKey)
  {
    s[QuestionsKey := QuestionList(qs)]
  }

  /** `addQuestion`: the new question goes last. */
  function AddQuestion(s: Store, q: Question): (r: Store)
    ensures GetQuestions(r) == GetQuestions(s) + [q]
    ensures SameExcept(s, r, QuestionsKey)
  {
    SaveQuestions(s, GetQuestions(s) + [q])
  }

  /** `questions.filter(q => q.id !== id)`. */
  function RemoveQuestion(qs: seq<Question>, id: string): (r: seq<Question>)
    ensures forall i :: 0 <= i < |r| ==> r[i].id != id && r[i] in qs
    ensures forall i :: 0 <= i < |qs| && qs[i].id != id ==> qs[i] in r
    ensures |r| == |qs| - CountKey(qs, QuestionIdOf, id)
  {
    RemoveKeyCount(qs, QuestionIdOf, id);
    RemoveKeys(qs, QuestionIdOf, {id})
  }

  /** Deleting keeps the surviving questions in their order: it distributes
      over any split of the list. */
  lemma RemoveQuestionKeepsOrder(a: seq<Question>, b: seq<Question>, id: string)
    ensures RemoveQuestion(a + b, id) == RemoveQuestion(a, id) + RemoveQuestion(b, id)
  {
    RemoveKeysAppend(a, b, QuestionIdOf, {id});
  }

  /** Deleting an id no question has changes nothing; deleting twice is
      deleting once. */
  lemma RemoveQuestionAbsentOrTwice(qs: seq<Question>, id: string)
    ensures !HasKey(qs, QuestionIdOf, id) ==> RemoveQuestion(qs, id) == qs
    ensures RemoveQuestion(RemoveQuestion(qs, id), id) == RemoveQuestion(qs, id)
  {
    if !HasKey(qs, QuestionIdOf, id) {
      RemoveAbsentKeys(qs, QuestionIdOf, {id});
    }
    RemoveKeysTwice(qs, QuestionIdOf, {id});
  }

  /** `deleteQuestion`. Responses already given to the question stay stored. */
  function DeleteQuestion(s: Store, id: string): (r: Store)
    ensures GetQuestions(r) == RemoveQuestion(GetQuestions(s), id)
    ensures SameExcept(s, r, QuestionsKey)
  {
    SaveQuestions(s, RemoveQuestion(GetQuestions(s), id))
  }

  /** `questions.map(q => q.id === id ? { ...q, paused } : q)`. */
  function PauseQuestion(qs: seq<Question>, id: string, paused: bool): (r: seq<Question>)
    ensures |r| == |qs|
    ensures forall i :: 0 <= i < |qs| ==> r[i].(paused := qs[i].paused) == qs[i]
    ensures forall i :: 0 <= i < |qs| && qs[i].id == id ==> r[i].paused == Some(paused)
    ensures forall i :: 0 <= i < |qs| && qs[i].id != id ==> r[i] == qs[i]
  {
    seq(|qs|, i requires 0 <= i < |qs| =>
      if qs[i].id == id then qs[i].(paused := Some(paused)) else qs[i])
  }

  /** Setting the flag is idempotent (it sets a value, it does not toggle),
      and a later setting overrides an earlier one. */
  lemma PauseQuestionIdempotent(qs: seq<Question>, id: string, p: bool, p': bool)
    ensures PauseQuestion(PauseQuestion(qs, id, p), id, p) == PauseQuestion(qs, id, p)
    ensures PauseQuestion(PauseQuestion(qs, id, p), id, p') == PauseQuestion(qs, id, p')
  {
  }

  /** After pausing, no question with that id is among the active ones;
      after resuming, every question with that id is. */
  lemma PauseQuestionActivity(qs: seq<Question>, id: string, p: bool)
    ensures p ==> forall q :: q in Filter(PauseQuestion(qs, id, p), IsActive) ==> q.id != id
    ensures !p ==> forall i :: 0 <= i < |qs| && qs[i].id == id ==>
                     PauseQuestion(qs, id, p)[i] in Filter(PauseQuestion(qs, id, p), IsActive)
  {
    var r := PauseQuestion(qs, id, p);
    var act := Filter(r, IsActive);
    if p {
      forall q | q in act
        ensures q.id != id
      {
        var i :| 0 <= i < |act| && act[i] == q;
        var j :| 0 <= j < |r| && r[j] == q;
      }
    }
  }

  /** `setQuestionPaused`. */
  function SetQuestionPaused(s: Store, id: string, paused: bool): (r: Store)
    ensures GetQuestions(r) == PauseQuestion(GetQuestions(s), id, paused)
    ensures SameExcept(s, r, QuestionsKey)
  {
    SaveQuestions(s, PauseQuestion(GetQuestions(s), id, paused))
  }

  // ---------------------------------------------------------------------
  // Response ledger
  // ---------------------------------------------------------------------

  predicate IsResponseKey(k: string) {
    StartsWith(k, ResponsesPrefix)
  }

  /** The key of a day's bucket: the prefix followed by the date. */
  function ResponseKey(date: Date): (k: string)
    ensures IsResponseKey(k)
    ensures k[|ResponsesPrefix|..] == date
  {
    ResponsesPrefix + date
  }

  /** `key.replace(RESPONSES_KEY, '')` on a key that starts with the prefix:
      the first occurrence is the prefix itself, so the prefix is stripped. */
  function DateOfKey(k: string): (d: Date)
    requires IsResponseKey(k)
    ensures ResponseKey(d) == k
  {
    k[|ResponsesPrefix|..]
  }

  /** Distinct days are stored under distinct keys. */
  lemma ResponseKeyInjective(d: Date, d': Date)
    requires ResponseKey(d) == ResponseKey(d')
    ensures d == d'
  {
    assert d == ResponseKey(d)[|ResponsesPrefix|..];
  }

  /** None of the app's other keys is mistaken for a bucket. */
  lemma OtherKeysAreNotBuckets()
    ensures !IsResponseKey(QuestionsKey)
    ensures !IsResponseKey(ChallengesKey)
    ensures !IsResponseKey(NotificationTimeKey)
  {
    assert ChallengesKey[5] != ResponsesPrefix[5];
    assert NotificationTimeKey[5] != ResponsesPrefix[5];
  }

  /** `getDailyResponses`: the day's bucket, or empty when there is none or
      it does not parse. */
  function GetDailyResponses(s: Store, date: Date): (rs: seq<DailyResponse>)
    ensures ResponseKey(date) !in s ==> rs == []
    ensures ResponseKey(date) in s && s[ResponseKey(date)].ResponseList? ==>
              rs == s[ResponseKey(date)].responses
  {
    var k := ResponseKey(date);
    if k in s && s[k].ResponseList? then s[k].responses else []
  }

  /** The upsert inside `saveDailyResponse`: the entry for the same question
      is replaced where it stands, otherwise the response is appended. */
  function UpsertResponse(bucket: seq<DailyResponse>, x: DailyResponse): (r: seq<DailyResponse>)
    ensures HasKey(bucket, ResponseQuestion, x.questionId) ==>
              |r| == |bucket| &&
              FirstIndex(r, ResponseQuestion, x.questionId) == FirstIndex(bucket, ResponseQuestion, x.questionId)
    ensures !HasKey(bucket, ResponseQuestion, x.questionId) ==> r == bucket + [x]
    ensures Lookup(r, ResponseQuestion, x.questionId) == Some(x)
    ensures forall q :: q != x.questionId ==>
              Lookup(r, ResponseQuestion, q) == Lookup(bucket, ResponseQuestion, q)
    ensures RemoveKeys(r, ResponseQuestion, {x.questionId}) == RemoveKeys(bucket, ResponseQuestion, {x.questionId})
    ensures DistinctKeys(bucket, ResponseQuestion) ==> DistinctKeys(r, ResponseQuestion)
  {
    var r := UpsertBy(bucket, ResponseQuestion, x);
    UpsertLookupOthers(bucket, ResponseQuestion, x);
    UpsertKeepsOthers(bucket, ResponseQuestion, x, {x.questionId});
    match FirstIndex(bucket, ResponseQuestion, x.questionId)
    case Some(i) =>
      FirstIndexSameKeys(bucket, r, ResponseQuestion, x.questionId);
      r
    case None => r
  }

  /** Saving twice for one question leaves exactly one entry for it, holding
      the second response, provided the bucket had no repeated question. */
  lemma SaveTwiceKeepsSecond(bucket: seq<DailyResponse>, x: DailyResponse, y: DailyResponse)
    requires x.questionId == y.questionId
    requires DistinctKeys(bucket, ResponseQuestion)
    ensures UpsertResponse(UpsertResponse(bucket, x), y) == UpsertResponse(bucket, y)
    ensures CountKey(UpsertResponse(UpsertResponse(bucket, x), y), ResponseQuestion, y.questionId) == 1
    ensures Lookup(UpsertResponse(UpsertResponse(bucket, x), y), ResponseQuestion, y.questionId) == Some(y)
  {
    UpsertTwice(bucket, ResponseQuestion, x, y);
    var r := UpsertResponse(bucket, y);
    DistinctCountOne(r, ResponseQuestion, y.questionId);
  }

  /** `saveDailyResponse(date, x)`: read the day's bucket, upsert, write it back. */
  function SaveDailyResponse(s: Store, date: Date, x: DailyResponse): (r: Store)
    ensures GetDailyResponses(r, date) == UpsertResponse(GetDailyResponses(s, date), x)
    ensures SameExcept(s, r, ResponseKey(date))
    ensures forall d :: d != date ==> GetDailyResponses(r, d) == GetDailyResponses(s, d)
  {
    var r := s[ResponseKey(date) := ResponseList(UpsertResponse(GetDailyResponses(s, date), x))];
    assert forall d :: d != date ==> ResponseKey(d) != ResponseKey(date) by {
      forall d | ResponseKey(d) == ResponseKey(date)
        ensures d == date
      {
        ResponseKeyInjective(d, date);
      }
    }
    r
  }

  /** Every bucket key the store holds parses as a list of responses. */
  predicate BucketsWellFormed(s: Store) {
    forall k :: k in s && IsResponseKey(k) ==> s[k].ResponseList?
  }

  /** The loop of `getAllResponses` over the listed keys: bucket keys become
      `map.set(date, bucket)`, keys that are not listed in the store are
      skipped (`if (data)`), and a bucket that does not parse aborts the
      whole read (`None`). */
  function CollectBuckets(s: Store, keys: seq<string>, acc: Ledger): Option<Ledger>
    decreases |keys|
  {
    if |keys| == 0 then Some(acc)
    else
      var k := keys[0];
      if !IsResponseKey(k) || k !in s then CollectBuckets(s, keys[1..], acc)
      else if s[k].ResponseList? then
        CollectBuckets(s, keys[1..], OrderedMaps.Set(acc, DateOfKey(k), s[k].responses))
      else None
  }

  /** `getAllResponses`, given the keys the store lists (in the order it
      lists them): every listed, stored bucket under its date, or the empty
      map when a bucket fails to parse. */
  function GetAllResponses(s: Store, keys: seq<string>): (m: Ledger)
    ensures Valid(m)
  {
    match CollectBuckets(s, keys, [])
    case Some(m) => CollectValid(s, keys, []); m
    case None => []
  }

  lemma {:induction false} CollectValid(s: Store, keys: seq<string>, acc: Ledger)
    requires Valid(acc)
    ensures CollectBuckets(s, keys, acc).Some? ==> Valid(CollectBuckets(s, keys, acc).value)
    decreases |keys|
  {
    if |keys| > 0 {
      var k := keys[0];
      if !IsResponseKey(k) || k !in s {
        CollectValid(s, keys[1..], acc);
      } else if s[k].ResponseList? {
        CollectValid(s, keys[1..], OrderedMaps.Set(acc, DateOfKey(k), s[k].responses));
      }
    }
  }

  lemma {:induction false} CollectContents(s: Store, keys: seq<string>, acc: Ledger, d: Date)
    requires BucketsWellFormed(s)
    requires Get(acc, d).Some? ==> ResponseKey(d) in s && Get(acc, d).value == s[ResponseKey(d)].responses
    ensures CollectBuckets(s, keys, acc).Some?
    ensures Get(CollectBuckets(s, keys, acc).value, d) ==
              if ResponseKey(d) in keys && ResponseKey(d) in s then Some(s[ResponseKey(d)].responses)
              else Get(acc, d)
    decreases |keys|
  {
    if |keys| > 0 {
      var k := keys[0];
      if !IsResponseKey(k) || k !in s {
        CollectContents(s, keys[1..], acc, d);
      } else {
        var acc' := OrderedMaps.Set(acc, DateOfKey(k), s[k].responses);
        if DateOfKey(k) == d {
          assert k == ResponseKey(d);
        } else {
          assert k != ResponseKey(d);
        }
        CollectContents(s, keys[1..], acc', d);
      }
    }
  }

  /** When every bucket parses, `getAllResponses` holds a date exactly when
      its key is listed and stored, and then holds that day's bucket:
      stripping the prefix recovers the date the key was built from, and
      keys outside the prefix never contribute. */
  lemma GetAllResponsesContents(s: Store, keys: seq<string>, d: Date)
    requires BucketsWellFormed(s)
    ensures Get(GetAllResponses(s, keys), d) ==
              if ResponseKey(d) in keys && ResponseKey(d) in s then Some(GetDailyResponses(s, d))
              else None
  {
    CollectContents(s, keys, [], d);
  }

  /** One bucket that does not parse empties the whole result. */
  lemma {:induction false} GetAllResponsesMalformed(s: Store, keys: seq<string>, i: nat)
    requires i < |keys| && IsResponseKey(keys[i]) && keys[i] in s && !s[keys[i]].ResponseList?
    ensures GetAllResponses(s, keys) == []
  {
    CollectAborts(s, keys, [], i);
  }

  lemma {:induction false} CollectAborts(s: Store, keys: seq<string>, acc: Ledger, i: nat)
    requires i < |keys| && IsResponseKey(keys[i]) && keys[i] in s && !s[keys[i]].ResponseList?
    ensures CollectBuckets(s, keys, acc).None?
    decreases |keys|
  {
    var k := keys[0];
    if i > 0 {
      assert keys[1..][i - 1] == keys[i];
      if !IsResponseKey(k) || k !in s {
        CollectAborts(s, keys[1..], acc, i - 1);
      } else if s[k].ResponseList? {
        CollectAborts(s, keys[1..], OrderedMaps.Set(acc, DateOfKey(k), s[k].responses), i - 1);
      }
    }
  }

  /** Saving a response keeps every bucket parseable. */
  lemma SaveKeepsWellFormed(s: Store, date: Date, x: DailyResponse)
    requires BucketsWellFormed(s)
    ensures BucketsWellFormed(SaveDailyResponse(s, date, x))
  {
  }

  // ---------------------------------------------------------------------
  // Challenges
  // ---------------------------------------------------------------------

  /** `getChallenges`: the stored list, or empty when absent or unparsable. */
  function GetChallenges(s: Store): (cs: seq<MonthlyChallenge>)
    ensures ChallengesKey !in s ==> cs == []
    ensures ChallengesKey in s && s[ChallengesKey].ChallengeList? ==> cs == s[ChallengesKey].challenges
  {
    if ChallengesKey in s && s[ChallengesKey].ChallengeList? then s[ChallengesKey].challenges else []
  }

  function SaveChallenges(s: Store, cs: seq<MonthlyChallenge>): (r: Store)
    ensures GetChallenges(r) == cs
    ensures SameExcept(s, r, ChallengesKey)
  {
    s[ChallengesKey := ChallengeList(cs)]
  }

  /** `addChallenge`: appended last. */
  function AddChallenge(s: Store, c: MonthlyChallenge): (r: Store)
    ensures GetChallenges(r) == GetChallenges(s) + [c]
    ensures SameExcept(s, r, ChallengesKey)
  {
    SaveChallenges(s, GetChallenges(s) + [c])
  }

  /** `updateChallenge`: every challenge with the same id is replaced, in
      place; the list keeps its length. */
  function UpdateChallenge(s: Store, c: MonthlyChallenge): (r: Store)
    ensures |GetChallenges(r)| == |GetChallenges(s)|
    ensures forall i :: 0 <= i < |GetChallenges(s)| ==>
              GetChallenges(r)[i] == if GetChallenges(s)[i].id == c.id then c else GetChallenges(s)[i]
    ensures forall id :: Lookup(GetChallenges(r), ChallengeIdOf, id) ==
              if id == c.id && HasKey(GetChallenges(s), ChallengeIdOf, id) then Some(c)
              else if id == c.id then None
              else Lookup(GetChallenges(s), ChallengeIdOf, id)
    ensures SameExcept(s, r, ChallengesKey)
  {
    var cs := GetChallenges(s);
    assert forall id :: Lookup(ReplaceByKey(cs, ChallengeIdOf, c), ChallengeIdOf, id) ==
              if id == c.id && HasKey(cs, ChallengeIdOf, id) then Some(c)
              else if id == c.id then None
              else Lookup(cs, ChallengeIdOf, id) by {
      forall id {
        ReplaceByKeyLookup(cs, ChallengeIdOf, c, id);
      }
    }
    SaveChallenges(s, ReplaceByKey(cs, ChallengeIdOf, c))
  }

  /** `challenges.filter(c => c.id !== id)`. */
  function RemoveChallenge(cs: seq<MonthlyChallenge>, id: string): (r: seq<MonthlyChallenge>)
    ensures forall i :: 0 <= i < |r| ==> r[i].id != id && r[i] in cs
    ensures forall i :: 0 <= i < |cs| && cs[i].id != id ==> cs[i] in r
    ensures |r| == |cs| - CountKey(cs, ChallengeIdOf, id)
  {
    RemoveKeyCount(cs, ChallengeIdOf, id);
    RemoveKeys(cs, ChallengeIdOf, {id})
  }

  /** The surviving challenges keep their order: removal distributes over
      any split of the list. */
  lemma RemoveChallengeKeepsOrder(a: seq<MonthlyChallenge>, b: seq<MonthlyChallenge>, id: string)
    ensures RemoveChallenge(a + b, id) == RemoveChallenge(a, id) + RemoveChallenge(b, id)
  {
    RemoveKeysAppend(a, b, ChallengeIdOf, {id});
  }

  /** `deleteChallenge`: every challenge with the id goes, the rest keep
      their order. */
  function DeleteChallenge(s: Store, id: string): (r: Store)
    ensures GetChallenges(r) == RemoveChallenge(GetChallenges(s), id)
    ensures forall i :: 0 <= i < |GetChallenges(r)| ==>
              GetChallenges(r)[i].id != id && GetChallenges(r)[i] in GetChallenges(s)
    ensures forall i :: 0 <= i < |GetChallenges(s)| && GetChallenges(s)[i].id != id ==>
              GetChallenges(s)[i] in GetChallenges(r)
    ensures |GetChallenges(r)| == |GetChallenges(s)| - CountKey(GetChallenges(s), ChallengeIdOf, id)
    ensures SameExcept(s, r, ChallengesKey)
  {
    SaveChallenges(s, RemoveChallenge(GetChallenges(s), id))
  }
}
