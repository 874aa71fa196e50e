/** The daily check-in screen: which questions it asks, the answers it
    starts the form with, and the loop that saves the submitted responses
    one by one into today's bucket. */
module CheckIn {
  import opened Wrappers
  import opened Lists
  import opened OrderedMaps
  import opened Types
  import opened Storage
  import opened CheckInForm

  /** The questions the screen asks: the stored ones that are not paused. */
  function AskedQuestions(s: Store): (qs: seq<Question>)
    ensures forall i :: 0 <= i < |qs| ==> qs[i] in GetQuestions(s) && qs[i].paused != Some(true)
    ensures forall q :: q in GetQuestions(s) && q.paused != Some(true) ==> q in qs
  {
    ActiveQuestions(GetQuestions(s))
  }

  /** The last response in `rs` to question `k`. */
  function LastFor(rs: seq<DailyResponse>, k: string): (r: Option<DailyResponse>)
    ensures r.Some? ==> r.value in rs && r.value.questionId == k
    ensures r.None? <==> !HasKey(rs, ResponseQuestion, k)
    decreases |rs|
  {
    if |rs| == 0 then None
    else if rs[|rs| - 1].questionId == k then Some(rs[|rs| - 1])
    else
      var init := rs[..|rs| - 1];
      assert forall i :: 0 <= i < |init| ==> init[i] == rs[i];
      LastFor(init, k)
  }

  /** In a list with one response per question, the last response to a
      question is its only one. */
  lemma {:induction false} LastForDistinct(rs: seq<DailyResponse>, i: nat)
    requires DistinctKeys(rs, ResponseQuestion)
    requires i < |rs|
    ensures LastFor(rs, rs[i].questionId) == Some(rs[i])
    decreases |rs|
  {
    if i < |rs| - 1 {
      var init := rs[..|rs| - 1];
      assert init[i] == rs[i];
      assert ResponseQuestion(rs[i]) != ResponseQuestion(rs[|rs| - 1]);
      DistinctPrefix(rs, ResponseQuestion, |rs| - 1);
      LastForDistinct(init, i);
    }
  }

  /** The pairs `todayData.map(r => [r.questionId, r])`. */
  function IndexPairs(bucket: seq<DailyResponse>): (ps: seq<(string, DailyResponse)>)
    ensures |ps| == |bucket|
    ensures forall i :: 0 <= i < |bucket| ==> ps[i] == (bucket[i].questionId, bucket[i])
  {
    seq(|bucket|, i requires 0 <= i < |bucket| => (bucket[i].questionId, bucket[i]))
  }

  lemma {:induction false} IndexPairsLast(bucket: seq<DailyResponse>, k: string)
    ensures LastValue(IndexPairs(bucket), k) == LastFor(bucket, k)
    decreases |bucket|
  {
    if |bucket| > 0 {
      var init := bucket[..|bucket| - 1];
      assert IndexPairs(bucket)[..|bucket| - 1] == IndexPairs(init);
      IndexPairsLast(init, k);
    }
  }

  /** `new Map(todayData.map(r => [r.questionId, r]))`: today's responses by
      question, the last one winning when a question occurs twice. */
  function TodayIndex(bucket: seq<DailyResponse>): (idx: OrderedMap<string, DailyResponse>)
    ensures Valid(idx)
    ensures forall k :: Get(idx, k) == LastFor(bucket, k)
  {
    var idx := FromPairs(IndexPairs(bucket));
    assert forall k :: Get(idx, k) == LastFor(bucket, k) by {
      forall k
        ensures Get(idx, k) == LastFor(bucket, k)
      {
        IndexPairsLast(bucket, k);
      }
    }
    idx
  }

  /** The answers the form opens with on `today`. */
  function InitialForm(s: Store, today: Date): Answers {
    InitialAnswers(TodayIndex(GetDailyResponses(s, today)))
  }

  /** Submitting a form and reopening the screen on a day whose bucket holds
      exactly what was submitted shows the same answers, in the same order. */
  lemma ReopenShowsSubmitted(m: Answers, today: Date, now: int)
    requires Valid(m)
    ensures InitialAnswers(TodayIndex(HandleSubmit(m, today, now))) == m
  {
    var rs := HandleSubmit(m, today, now);
    SubmitMatchesAnswers(m, today, now);
    var ps := IndexPairs(rs);
    assert DistinctKeys(ps, KeyOf) by {
      forall i, j | 0 <= i < j < |ps|
        ensures KeyOf(ps[i]) != KeyOf(ps[j])
      {
        assert ResponseQuestion(rs[i]) != ResponseQuestion(rs[j]);
      }
    }
    FromPairsDistinct(ps);
    var idx := TodayIndex(rs);
    assert idx == ps;
    assert InitialPairs(idx) == m;
    FromPairsDistinct(m);
  }

  /** Each question's entry in `bucket` is its last response in `done`, or
      its entry in `bucket0` when `done` does not answer it. */
  ghost predicate SavedOver(bucket: seq<DailyResponse>, bucket0: seq<DailyResponse>, done: seq<DailyResponse>) {
    forall k :: Lookup(bucket, ResponseQuestion, k) ==
      if HasKey(done, ResponseQuestion, k) then LastFor(done, k) else Lookup(bucket0, ResponseQuestion, k)
  }

  /** Saving one more response `x` after `done`: `after` is `done + [x]`
      and `bucketAfter` the bucket upserted with `x`. */
  lemma SavedOverStep(bucket: seq<DailyResponse>, bucket0: seq<DailyResponse>, done: seq<DailyResponse>,
                      after: seq<DailyResponse>, bucketAfter: seq<DailyResponse>)
    requires SavedOver(bucket, bucket0, done)
    requires |after| > 0 && after[..|after| - 1] == done
    requires bucketAfter == UpsertResponse(bucket, after[|after| - 1])
    ensures SavedOver(bucketAfter, bucket0, after)
  {
    forall k
      ensures Lookup(bucketAfter, ResponseQuestion, k) ==
              if HasKey(after, ResponseQuestion, k) then LastFor(after, k) else Lookup(bucket0, ResponseQuestion, k)
    {
      LastForSnoc(after, k);
      HasKeySnoc(after, k);
    }
  }

  lemma LastForSnoc(after: seq<DailyResponse>, k: string)
    requires |after| > 0
    ensures LastFor(after, k) ==
            if after[|after| - 1].questionId == k then Some(after[|after| - 1]) else LastFor(after[..|after| - 1], k)
  {
  }

  lemma HasKeySnoc(after: seq<DailyResponse>, k: string)
    requires |after| > 0
    ensures HasKey(after, ResponseQuestion, k) <==>
            HasKey(after[..|after| - 1], ResponseQuestion, k) || after[|after| - 1].questionId == k
  {
    var done := after[..|after| - 1];
    if HasKey(after, ResponseQuestion, k) {
      var j :| 0 <= j < |after| && ResponseQuestion(after[j]) == k;
      if j < |done| {
        assert done[j] == after[j];
      }
    }
    if HasKey(done, ResponseQuestion, k) {
      var j :| 0 <= j < |done| && ResponseQuestion(done[j]) == k;
      assert after[j] == done[j];
    }
    if after[|after| - 1].questionId == k {
      assert ResponseQuestion(after[|after| - 1]) == k;
    }
  }

  /** Saving responses with distinct questions one by one into an empty
      bucket appends them in order. */
  lemma FreshBucketStep(bucket: seq<DailyResponse>, rs: seq<DailyResponse>, i: nat)
    requires DistinctKeys(rs, ResponseQuestion)
    requires i < |rs| && bucket == rs[..i]
    ensures UpsertResponse(bucket, rs[i]) == rs[..i + 1]
  {
    assert !HasKey(bucket, ResponseQuestion, rs[i].questionId) by {
      forall j | 0 <= j < |bucket|
        ensures ResponseQuestion(bucket[j]) != rs[i].questionId
      {
        assert bucket[j] == rs[j];
      }
    }
    assert rs[..i + 1] == rs[..i] + [rs[i]];
  }

  /** The stores the loop of `handleSubmit` passes through: `saveDailyResponse`
      applied to each response in turn. */
  function SaveEach(s: Store, today: Date, rs: seq<DailyResponse>): Store
    decreases |rs|
  {
    if |rs| == 0 then s
    else SaveDailyResponse(SaveEach(s, today, rs[..|rs| - 1]), today, rs[|rs| - 1])
  }

  /** One more response saved extends the fold by one step. */
  lemma SaveEachSnoc(s: Store, today: Date, rs: seq<DailyResponse>, i: nat)
    requires i < |rs|
    ensures SaveEach(s, today, rs[..i + 1]) == SaveDailyResponse(SaveEach(s, today, rs[..i]), today, rs[i])
  {
    assert rs[..i + 1][..i] == rs[..i];
  }

  lemma {:induction false} SaveEachOtherDays(s: Store, today: Date, rs: seq<DailyResponse>)
    ensures forall d :: d != today ==> GetDailyResponses(SaveEach(s, today, rs), d) == GetDailyResponses(s, d)
    ensures SameExcept(s, SaveEach(s, today, rs), ResponseKey(today))
    decreases |rs|
  {
    if |rs| > 0 {
      SaveEachOtherDays(s, today, rs[..|rs| - 1]);
    }
  }

  lemma {:induction false} SaveEachLookups(s: Store, today: Date, rs: seq<DailyResponse>)
    ensures SavedOver(GetDailyResponses(SaveEach(s, today, rs), today), GetDailyResponses(s, today), rs)
    decreases |rs|
  {
    if |rs| == 0 {
      SavedOverNothing(GetDailyResponses(s, today));
    } else {
      var init := rs[..|rs| - 1];
      SaveEachLookups(s, today, init);
      SavedOverStep(GetDailyResponses(SaveEach(s, today, init), today), GetDailyResponses(s, today), init,
                    rs, GetDailyResponses(SaveEach(s, today, rs), today));
    }
  }

  lemma SavedOverNothing(bucket: seq<DailyResponse>)
    ensures SavedOver(bucket, bucket, [])
  {
  }

  lemma {:induction false} SaveEachKeepsRest(s: Store, today: Date, rs: seq<DailyResponse>, ks: set<string>)
    requires forall i :: 0 <= i < |rs| ==> rs[i].questionId in ks
    ensures RemoveKeys(GetDailyResponses(SaveEach(s, today, rs), today), ResponseQuestion, ks) ==
              RemoveKeys(GetDailyResponses(s, today), ResponseQuestion, ks)
    ensures DistinctKeys(GetDailyResponses(s, today), ResponseQuestion) ==>
              DistinctKeys(GetDailyResponses(SaveEach(s, today, rs), today), ResponseQuestion)
    decreases |rs|
  {
    if |rs| > 0 {
      var init := rs[..|rs| - 1];
      assert forall i :: 0 <= i < |init| ==> init[i] == rs[i];
      SaveEachKeepsRest(s, today, init, ks);
      UpsertKeepsOthers(GetDailyResponses(SaveEach(s, today, init), today), ResponseQuestion, rs[|rs| - 1], ks);
    }
  }

  lemma {:induction false} SaveEachFresh(s: Store, today: Date, rs: seq<DailyResponse>)
    requires GetDailyResponses(s, today) == []
    requires DistinctKeys(rs, ResponseQuestion)
    ensures GetDailyResponses(SaveEach(s, today, rs), today) == rs
    decreases |rs|
  {
    if |rs| > 0 {
      var init := rs[..|rs| - 1];
      DistinctPrefix(rs, ResponseQuestion, |rs| - 1);
      SaveEachFresh(s, today, init);
      FreshBucketStep(init, rs, |rs| - 1);
      assert rs[..|rs|] == rs;
    }
  }

  /** What the loop of `handleSubmit` achieves, stated of the store it ends in. */
  lemma SaveEachEffect(s: Store, today: Date, rs: seq<DailyResponse>)
    ensures forall d :: d != today ==> GetDailyResponses(SaveEach(s, today, rs), d) == GetDailyResponses(s, d)
    ensures SameExcept(s, SaveEach(s, today, rs), ResponseKey(today))
    ensures SavedOver(GetDailyResponses(SaveEach(s, today, rs), today), GetDailyResponses(s, today), rs)
    ensures RemoveKeys(GetDailyResponses(SaveEach(s, today, rs), today), ResponseQuestion, KeySet(rs, ResponseQuestion)) ==
              RemoveKeys(GetDailyResponses(s, today), ResponseQuestion, KeySet(rs, ResponseQuestion))
    ensures DistinctKeys(GetDailyResponses(s, today), ResponseQuestion) ==>
              DistinctKeys(GetDailyResponses(SaveEach(s, today, rs), today), ResponseQuestion)
    ensures GetDailyResponses(s, today) == [] && DistinctKeys(rs, ResponseQuestion) ==>
              GetDailyResponses(SaveEach(s, today, rs), today) == rs
  {
    SaveEachOtherDays(s, today, rs);
    SaveEachLookups(s, today, rs);
    SaveEachKeepsRest(s, today, rs, KeySet(rs, ResponseQuestion));
    if GetDailyResponses(s, today) == [] && DistinctKeys(rs, ResponseQuestion) {
      SaveEachFresh(s, today, rs);
    }
  }

  /** The loop of `handleSubmit`: `saveDailyResponse(today, response)` for
      each submitted response in turn. */
  method SaveAll(s: Store, today: Date, rs: seq<DailyResponse>) returns (r: Store)
    ensures forall d :: d != today ==> GetDailyResponses(r, d) == GetDailyResponses(s, d)
    ensures SameExcept(s, r, ResponseKey(today))
    ensures SavedOver(GetDailyResponses(r, today), GetDailyResponses(s, today), rs)
    ensures RemoveKeys(GetDailyResponses(r, today), ResponseQuestion, KeySet(rs, ResponseQuestion)) ==
              RemoveKeys(GetDailyResponses(s, today), ResponseQuestion, KeySet(rs, ResponseQuestion))
    ensures DistinctKeys(GetDailyResponses(s, today), ResponseQuestion) ==>
              DistinctKeys(GetDailyResponses(r, today), ResponseQuestion)
    ensures GetDailyResponses(s, today) == [] && DistinctKeys(rs, ResponseQuestion) ==>
              GetDailyResponses(r, today) == rs
  {
    r := s;
    var i := 0;
    while i < |rs|
      invariant 0 <= i <= |rs|
      invariant r == SaveEach(s, today, rs[..i])
    {
      SaveEachSnoc(s, today, rs, i);
      r := SaveDailyResponse(r, today, rs[i]);
      i := i + 1;
    }
    assert rs[..|rs|] == rs;
    SaveEachEffect(s, today, rs);
  }

  /** The check-in's submit: the form's responses, dated `today` and stamped
      `now`, saved into today's bucket. Every answered question then holds
      exactly its new response, every other question keeps what it had,
      and other days are untouched. On a day with nothing saved yet, the
      reopened form shows exactly the submitted answers. */
  method SubmitCheckIn(s: Store, m: Answers, today: Date, now: int) returns (r: Store)
    requires Valid(m)
    ensures forall d :: d != today ==> GetDailyResponses(r, d) == GetDailyResponses(s, d)
    ensures SameExcept(s, r, ResponseKey(today))
    ensures forall k, a :: Get(m, k) == Some(a) ==>
              Lookup(GetDailyResponses(r, today), ResponseQuestion, k) == Some(DailyResponse(k, today, a, now))
    ensures forall k :: Get(m, k).None? ==>
              Lookup(GetDailyResponses(r, today), ResponseQuestion, k) ==
              Lookup(GetDailyResponses(s, today), ResponseQuestion, k)
    ensures DistinctKeys(GetDailyResponses(s, today), ResponseQuestion) ==>
              forall k :: Get(m, k).Some? ==> CountKey(GetDailyResponses(r, today), ResponseQuestion, k) == 1
    ensures GetDailyResponses(s, today) == [] ==> InitialForm(r, today) == m
  {
    var rs := HandleSubmit(m, today, now);
    SubmitMatchesAnswers(m, today, now);
    r := SaveAll(s, today, rs);
    SubmittedLookups(m, today, now, GetDailyResponses(r, today), GetDailyResponses(s, today));
    if DistinctKeys(GetDailyResponses(s, today), ResponseQuestion) {
      forall k | Get(m, k).Some?
        ensures CountKey(GetDailyResponses(r, today), ResponseQuestion, k) == 1
      {
        var bucket := GetDailyResponses(r, today);
        var i := FirstIndex(bucket, ResponseQuestion, k).value;
        assert ResponseQuestion(bucket[i]) == k;
        DistinctCountOne(bucket, ResponseQuestion, k);
      }
    }
    if GetDailyResponses(s, today) == [] {
      ReopenShowsSubmitted(m, today, now);
    }
  }

  /** A bucket the submitted list was saved over holds, for each question,
      the form's answer, or its old entry when the form has none. */
  lemma SubmittedLookups(m: Answers, today: Date, now: int, bucket: seq<DailyResponse>, bucket0: seq<DailyResponse>)
    requires Valid(m)
    requires SavedOver(bucket, bucket0, HandleSubmit(m, today, now))
    ensures forall k, a :: Get(m, k) == Some(a) ==>
              Lookup(bucket, ResponseQuestion, k) == Some(DailyResponse(k, today, a, now))
    ensures forall k :: Get(m, k).None? ==> Lookup(bucket, ResponseQuestion, k) == Lookup(bucket0, ResponseQuestion, k)
  {
    var rs := HandleSubmit(m, today, now);
    SubmitMatchesAnswers(m, today, now);
    forall k, a | Get(m, k) == Some(a)
      ensures Lookup(bucket, ResponseQuestion, k) == Some(DailyResponse(k, today, a, now))
    {
      var i :| 0 <= i < |rs| && rs[i] == DailyResponse(k, today, a, now);
      LastForDistinct(rs, i);
    }
    forall k | Get(m, k).None?
      ensures Lookup(bucket, ResponseQuestion, k) == Lookup(bucket0, ResponseQuestion, k)
    {
      if HasKey(rs, ResponseQuestion, k) {
        assert false;
      }
    }
  }
}
