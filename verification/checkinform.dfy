/** The check-in form: the answers being edited, keyed by question id in a
    JavaScript `Map`, the handlers that change them, the list submitted, and
    when the submit button is enabled. */
module CheckInForm {
  import opened Wrappers
  import opened JsString
  import opened Lists
  import opened OrderedMaps
  import opened Types

  type Answers = OrderedMap<string, Answer>

  /** The pairs `map.set(response.questionId, response.response)` is called
      with, in the order of the initial responses. */
  function InitialPairs(initial: OrderedMap<string, DailyResponse>): (ps: seq<(string, Answer)>)
    ensures |ps| == |initial|
    ensures forall i :: 0 <= i < |initial| ==> ps[i] == (initial[i].1.questionId, initial[i].1.response)
  {
    seq(|initial|, i requires 0 <= i < |initial| => (initial[i].1.questionId, initial[i].1.response))
  }

  /** The form's starting state: every initial response's answer under its
      question id; a question answered twice keeps the later answer. */
  function InitialAnswers(initial: OrderedMap<string, DailyResponse>): (m: Answers)
    ensures Valid(m)
    ensures forall k :: Get(m, k).Some? <==>
              exists i :: 0 <= i < |initial| && initial[i].1.questionId == k
    ensures forall i :: (0 <= i < |initial| &&
              forall j :: i < j < |initial| ==> initial[j].1.questionId != initial[i].1.questionId) ==>
              Get(m, initial[i].1.questionId) == Some(initial[i].1.response)
  {
    var ps := InitialPairs(initial);
    var m := FromPairs(ps);
    assert forall k :: Get(m, k).Some? <==> exists i :: 0 <= i < |initial| && initial[i].1.questionId == k by {
      forall k
        ensures Get(m, k).Some? <==> exists i :: 0 <= i < |initial| && initial[i].1.questionId == k
      {
        LastValuePresent(ps, k);
        if exists i :: 0 <= i < |ps| && ps[i].0 == k {
          var i :| 0 <= i < |ps| && ps[i].0 == k;
          assert initial[i].1.questionId == k;
        }
      }
    }
    assert forall i :: (0 <= i < |initial| &&
             forall j :: i < j < |initial| ==> initial[j].1.questionId != initial[i].1.questionId) ==>
             Get(m, initial[i].1.questionId) == Some(initial[i].1.response) by {
      forall i | 0 <= i < |initial| &&
          (forall j :: i < j < |initial| ==> initial[j].1.questionId != initial[i].1.questionId)
        ensures Get(m, initial[i].1.questionId) == Some(initial[i].1.response)
      {
        LastValueAt(ps, i);
      }
    }
    m
  }

  /** `handleYesNo`. */
  function HandleYesNo(m: Answers, qid: string, value: bool): (r: Answers)
    ensures Valid(m) ==> Valid(r)
    ensures Get(r, qid) == Some(Bool(value))
    ensures forall k :: k != qid ==> Get(r, k) == Get(m, k)
  {
    Set(m, qid, Bool(value))
  }

  /** `handleNumber`: an empty field removes the answer, a field `parseInt`
      reads as `NaN` leaves the answers alone, anything else stores the
      number `parseInt` reads from it (so `"12abc"` stores 12). */
  function HandleNumber(m: Answers, qid: string, text: string): (r: Answers)
    ensures Valid(m) ==> Valid(r)
    ensures text == "" ==> Get(r, qid) == None
    ensures text != "" && ParseInt(text).None? ==> r == m
    ensures text != "" && ParseInt(text).Some? ==> Get(r, qid) == Some(Int(ParseInt(text).value))
    ensures forall k :: k != qid ==> Get(r, k) == Get(m, k)
  {
    if text == "" then Delete(m, qid)
    else
      match ParseInt(text)
      case None => m
      case Some(n) => Set(m, qid, Int(n))
  }

  /** `handleText`: any text, the empty string included, is stored. */
  function HandleText(m: Answers, qid: string, text: string): (r: Answers)
    ensures Valid(m) ==> Valid(r)
    ensures Get(r, qid) == Some(Text(text))
    ensures forall k :: k != qid ==> Get(r, k) == Get(m, k)
  {
    Set(m, qid, Text(text))
  }

  /** The number field shows `String(value)`; handing that text back to
      `handleNumber` leaves the answers exactly as they were. */
  lemma NumberFieldRoundTrip(m: Answers, qid: string, n: int)
    requires Get(m, qid) == Some(Int(n))
    ensures HandleNumber(m, qid, IntToString(n)) == m
  {
    ParseIntRoundTrip(n);
    SetSameValue(m, qid, Int(n));
  }

  /** `handleSubmit`: one response per answer, in the map's order, all dated
      `today` and stamped `now` (the clock is read by the caller). */
  function HandleSubmit(m: Answers, today: Date, now: int): (rs: seq<DailyResponse>)
    ensures |rs| == |m|
    ensures forall i :: 0 <= i < |m| ==>
              rs[i].questionId == m[i].0 && rs[i].response == m[i].1 && rs[i].date == today && rs[i].timestamp == now
  {
    seq(|m|, i requires 0 <= i < |m| => DailyResponse(m[i].0, today, m[i].1, now))
  }

  /** The submitted list holds exactly the form's answers, one response per
      question. */
  lemma SubmitMatchesAnswers(m: Answers, today: Date, now: int)
    requires Valid(m)
    ensures DistinctKeys(HandleSubmit(m, today, now), ResponseQuestion)
    ensures forall k, a :: Get(m, k) == Some(a) <==> DailyResponse(k, today, a, now) in HandleSubmit(m, today, now)
  {
    var rs := HandleSubmit(m, today, now);
    forall k, a
      ensures Get(m, k) == Some(a) <==> DailyResponse(k, today, a, now) in rs
    {
      if Get(m, k) == Some(a) {
        var i := FirstIndex(m, KeyOf, k).value;
        assert rs[i] == DailyResponse(k, today, a, now);
      }
      if DailyResponse(k, today, a, now) in rs {
        var i :| 0 <= i < |rs| && rs[i] == DailyResponse(k, today, a, now);
        var j := FirstIndex(m, KeyOf, k).value;
        assert j == i;
      }
    }
  }

  /** `responses.size === questions.length`, as the button reads it. */
  predicate IsComplete(m: Answers, qs: seq<Question>) {
    |m| == |qs|
  }

  /** Every shown question has an answer. */
  predicate AllAnswered(m: Answers, qs: seq<Question>) {
    forall i :: 0 <= i < |qs| ==> Has(m, qs[i].id)
  }

  /** Today's answer to a question that has since been paused stays in the
      map, so the count can be right while a shown question is unanswered,
      and wrong while every shown question is answered. */
  lemma IsCompleteCounterexamples()
    ensures var qs := [Question("1", "Exercise?", YesNo, None, None, None),
                       Question("2", "Mood?", Number, None, None, None)];
            var m := [("1", Bool(true)), ("3", Bool(false))];
            IsComplete(m, qs) && !AllAnswered(m, qs)
    ensures var qs := [Question("1", "Exercise?", YesNo, None, None, None)];
            var m := [("1", Bool(true)), ("3", Bool(false))];
            AllAnswered(m, qs) && !IsComplete(m, qs)
  {
    var qs := [Question("1", "Exercise?", YesNo, None, None, None),
               Question("2", "Mood?", Number, None, None, None)];
    var m: Answers := [("1", Bool(true)), ("3", Bool(false))];
    assert !Has(m, qs[1].id) by {
      assert KeyOf(m[0]) != "2" && KeyOf(m[1]) != "2";
    }
    var qs1 := [Question("1", "Exercise?", YesNo, None, None, None)];
    assert Has(m, qs1[0].id) by {
      assert KeyOf(m[0]) == "1";
    }
  }

  /** Whether the submit button is enabled: every shown question answered. */
  predicate CanSubmit(m: Answers, qs: seq<Question>) {
    AllAnswered(m, qs)
  }

  /** Once the button is enabled, the submitted list answers every shown
      question. */
  lemma CanSubmitAnswersAll(m: Answers, qs: seq<Question>, today: Date, now: int)
    requires Valid(m) && CanSubmit(m, qs)
    ensures forall i :: 0 <= i < |qs| ==> HasKey(HandleSubmit(m, today, now), ResponseQuestion, qs[i].id)
  {
    var rs := HandleSubmit(m, today, now);
    forall i | 0 <= i < |qs|
      ensures HasKey(rs, ResponseQuestion, qs[i].id)
    {
      var j := FirstIndex(m, KeyOf, qs[i].id).value;
      assert ResponseQuestion(rs[j]) == qs[i].id;
    }
  }

  /** When every answer belongs to a shown question and the shown questions
      have distinct ids, the app's count and the intended check agree. */
  lemma CountAgreesWhenAnswersAreShown(m: Answers, qs: seq<Question>)
    requires Valid(m)
    requires DistinctKeys(qs, QuestionIdOf)
    requires forall i :: 0 <= i < |m| ==> HasKey(qs, QuestionIdOf, m[i].0)
    ensures IsComplete(m, qs) <==> AllAnswered(m, qs)
  {
    var answered := KeySet(m, KeyOf);
    var shown := KeySet(qs, QuestionIdOf);
    DistinctKeySetSize(m, KeyOf);
    DistinctKeySetSize(qs, QuestionIdOf);
    assert answered <= shown by {
      forall k | k in answered
        ensures k in shown
      {
        var i :| 0 <= i < |m| && KeyOf(m[i]) == k;
        var j :| 0 <= j < |qs| && QuestionIdOf(qs[j]) == m[i].0;
      }
    }
    SubsetSize(answered, shown);
    if IsComplete(m, qs) {
      forall i | 0 <= i < |qs|
        ensures Has(m, qs[i].id)
      {
        assert QuestionIdOf(qs[i]) in shown;
        var j :| 0 <= j < |m| && KeyOf(m[j]) == qs[i].id;
      }
    }
    if AllAnswered(m, qs) {
      assert shown <= answered by {
        forall k | k in shown
          ensures k in answered
        {
          var i :| 0 <= i < |qs| && QuestionIdOf(qs[i]) == k;
          assert Has(m, qs[i].id);
          var j :| 0 <= j < |m| && KeyOf(m[j]) == k;
        }
      }
      assert answered == shown;
    }
  }
}
