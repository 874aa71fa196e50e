/** Selecting one question's responses from the buckets whose date lies in a
    window. Both the trends screen (a lower bound only) and challenge progress
    (both bounds) walk the map of all buckets this way, comparing dates as
    strings. */
module Ledger {
  import opened Wrappers
  import opened JsString
  import opened Lists
  import opened OrderedMaps
  import opened Types

  /** `from <= date`, and `date <= until` when there is an upper bound. */
  datatype Window = Window(from: Date, until: Option<Date>)

  predicate InWindow(w: Window, d: Date) {
    LexLe(w.from, d) && (w.until.None? || LexLe(d, w.until.value))
  }

  /** `bucket.filter(r => r.questionId === qid)`. */
  function ForQuestion(bucket: seq<DailyResponse>, qid: string): (r: seq<DailyResponse>)
    ensures forall i :: 0 <= i < |r| ==> r[i].questionId == qid && r[i] in bucket
    ensures forall i :: 0 <= i < |bucket| && bucket[i].questionId == qid ==> bucket[i] in r
    ensures |r| == CountKey(bucket, ResponseQuestion, qid)
  {
    var p := (x: DailyResponse) => x.questionId == qid;
    FilterByKeyCount(bucket, ResponseQuestion, qid, p);
    Filter(bucket, p)
  }

  lemma ForQuestionAppend(a: seq<DailyResponse>, b: seq<DailyResponse>, qid: string)
    ensures ForQuestion(a + b, qid) == ForQuestion(a, qid) + ForQuestion(b, qid)
  {
    FilterAppend(a, b, (x: DailyResponse) => x.questionId == qid);
  }

  /** How many responses to `qid` the in-window buckets hold between them,
      repeats included. */
  function SelectedCount(ledger: Ledger, w: Window, qid: string): nat {
    if |ledger| == 0 then 0
    else
      (if InWindow(w, ledger[0].0) then CountKey(ledger[0].1, ResponseQuestion, qid) else 0)
      + SelectedCount(ledger[1..], w, qid)
  }

  /** The matching responses of every in-window bucket, bucket after bucket
      in map order. */
  function Select(ledger: Ledger, w: Window, qid: string): (r: seq<DailyResponse>)
    ensures forall x :: x in r <==>
              exists i :: 0 <= i < |ledger| && InWindow(w, ledger[i].0) && x in ledger[i].1 && x.questionId == qid
    ensures |r| == SelectedCount(ledger, w, qid)
  {
    if |ledger| == 0 then []
    else
      var here := if InWindow(w, ledger[0].0) then ForQuestion(ledger[0].1, qid) else [];
      var rest := Select(ledger[1..], w, qid);
      assert forall x :: x in here <==> InWindow(w, ledger[0].0) && x in ledger[0].1 && x.questionId == qid by {
        forall x | InWindow(w, ledger[0].0) && x in ledger[0].1 && x.questionId == qid
          ensures x in here
        {
          var i :| 0 <= i < |ledger[0].1| && ledger[0].1[i] == x;
        }
      }
      assert forall x :: x in rest <==>
        exists i :: 1 <= i < |ledger| && InWindow(w, ledger[i].0) && x in ledger[i].1 && x.questionId == qid by {
        forall x | x in rest
          ensures exists i :: 1 <= i < |ledger| && InWindow(w, ledger[i].0) && x in ledger[i].1 && x.questionId == qid
        {
          var j :| 0 <= j < |ledger[1..]| && InWindow(w, ledger[1..][j].0) && x in ledger[1..][j].1 && x.questionId == qid;
          assert ledger[1..][j] == ledger[j + 1];
        }
        forall x, i | 1 <= i < |ledger| && InWindow(w, ledger[i].0) && x in ledger[i].1 && x.questionId == qid
          ensures x in rest
        {
          assert ledger[1..][i - 1] == ledger[i];
        }
      }
      here + rest
  }

  /** The selection over two maps laid end to end is the two selections laid
      end to end. */
  lemma {:induction false} SelectAppend(a: Ledger, b: Ledger, w: Window, qid: string)
    ensures Select(a + b, w, qid) == Select(a, w, qid) + Select(b, w, qid)
    decreases |a|
  {
    if |a| == 0 {
      assert a + b == b;
    } else {
      assert (a + b)[1..] == a[1..] + b;
      SelectAppend(a[1..], b, w, qid);
    }
  }
}
