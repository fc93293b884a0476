/**
 * The article loop of `main()` (newsCase/main.py:61-107): the reference
 * date is read from the first result, then every result is visited in
 * order; rows are appended for the ones that qualify; a failed lookup
 * inside the guarded block skips one result, while a failed lookup of
 * the first date or a screenshot call that raises ends the whole run.
 */
module Pipeline {
  import opened Wrappers
  import opened Articles

  /** The two failures that escape the guarded block and end the run. */
  datatype RunError =
    | FirstDateMissing             // the first result has no date element
    | ScreenshotFailed(path: string) // the screenshot call for `path` raised

  /**
   * How a run ends: with the rows collected, or with an error; both
   * carry the screenshot paths written or attempted, in order.
   */
  datatype Outcome =
    | Completed(records: seq<Record>, screenshots: seq<string>)
    | Aborted(error: RunError, screenshots: seq<string>)

  /** The state after one more pass of the loop body, which ends as `v`. */
  function Advance(before: Outcome, v: Visit): Outcome {
    if before.Aborted? then before
    else
      match v
      case Skip => before
      case Emit(r, path) => Completed(before.records + [r], before.screenshots + [path])
      case Crash(path) => Aborted(ScreenshotFailed(path), before.screenshots + [path])
  }

  /** The loop over the first `n` results, against the reference date `ref`. */
  function Loop(xs: seq<Article>, n: nat, ref: string, phrase: string): Outcome
    requires n <= |xs|
  {
    if n == 0 then Completed([], [])
    else Advance(Loop(xs, n - 1, ref, phrase), VisitArticle(xs[n - 1], ref, phrase))
  }

  /** A whole run over the search results `articles`. */
  function Run(articles: seq<Article>, phrase: string): Outcome {
    if |articles| == 0 then Completed([], [])
    else if articles[0].date.None? then Aborted(FirstDateMissing, [])
    else Loop(articles, |articles|, articles[0].date.value, phrase)
  }

  /** The loop as the program runs it, one result at a time, appending to `data`. */
  method ProcessArticles(articles: seq<Article>, phrase: string) returns (outcome: Outcome)
    ensures outcome == Run(articles, phrase)
  {
    var firstDate: Option<string> := None;
    if |articles| > 0 {
      match articles[0].date {
        case None =>
          return Aborted(FirstDateMissing, []);
        case Some(d) =>
          firstDate := Some(d);
      }
    }
    var data: seq<Record> := [];
    var shots: seq<string> := [];
    for i := 0 to |articles|
      invariant |articles| == 0 ==> data == [] && shots == []
      invariant |articles| > 0 ==> firstDate == articles[0].date && firstDate.Some?
      invariant |articles| > 0 ==> Loop(articles, i, firstDate.value, phrase) == Completed(data, shots)
    {
      var article := articles[i];
      if article.title.None? || article.description.None? || article.date.None? {
        continue;
      }
      var title := article.title.value;
      var description := article.description.value;
      var date := article.date.value;
      if Some(date) != firstDate {
        continue;
      }
      if article.image.None? {
        continue;
      }
      var img := article.image.value;
      var imageAlt := img.alt;
      var countPhrases := Phrases.CountPhrases(title, description, phrase);
      var containsMoney := Money.ContainsMoney(title + description);
      var path := ScreenshotPath(title);
      shots := shots + [path];
      if !img.screenshotSucceeds {
        outcome := Aborted(ScreenshotFailed(path), shots);
        AbortIsFinal(articles, i + 1, |articles|, firstDate.value, phrase);
        return;
      }
      data := data + [Record(title, date, description, ImageName(title), imageAlt, countPhrases, containsMoney)];
    }
    return Completed(data, shots);
  }

  /** Once the loop has stopped with an error, later results change nothing. */
  lemma {:induction false} AbortIsFinal(xs: seq<Article>, m: nat, n: nat, ref: string, phrase: string)
    requires m <= n <= |xs| && Loop(xs, m, ref, phrase).Aborted?
    ensures Loop(xs, n, ref, phrase) == Loop(xs, m, ref, phrase)
    decreases n
  {
    if n > m {
      AbortIsFinal(xs, m, n - 1, ref, phrase);
    }
  }

  // The reference reading: a stable filter of the results by date,
  // followed by one row and one screenshot per selected result.

  /** Indices, among the first `n` results, of those that qualify for a row against `ref`. */
  function CohortIndices(xs: seq<Article>, n: nat, ref: string): (idx: seq<nat>)
    requires n <= |xs|
    ensures |idx| <= n
    ensures forall k :: 0 <= k < |idx| ==> idx[k] < n && InCohort(xs[idx[k]], ref)
    ensures forall k, l :: 0 <= k < l < |idx| ==> idx[k] < idx[l]
    ensures forall i :: 0 <= i < n && InCohort(xs[i], ref) ==> i in idx
  {
    if n == 0 then []
    else CohortIndices(xs, n - 1, ref) + (if InCohort(xs[n - 1], ref) then [n - 1] else [])
  }

  /** Every index of `idx` selects a result whose elements were all found. */
  predicate Selects(xs: seq<Article>, idx: seq<nat>) {
    forall k :: 0 <= k < |idx| ==> idx[k] < |xs| && Complete(xs[idx[k]])
  }

  lemma PrefixSelects(xs: seq<Article>, idx: seq<nat>)
    requires Selects(xs, idx)
    ensures forall m :: 0 <= m <= |idx| ==> Selects(xs, idx[..m])
  {
  }

  /** The rows of the selected results, in the order of `idx`. */
  function Records(xs: seq<Article>, idx: seq<nat>, phrase: string): seq<Record>
    requires Selects(xs, idx)
  {
    seq(|idx|, k requires 0 <= k < |idx| && idx[k] < |xs| && Complete(xs[idx[k]]) =>
      MakeRecord(xs[idx[k]], phrase))
  }

  /** The screenshot paths of the selected results, in the order of `idx`. */
  function Paths(xs: seq<Article>, idx: seq<nat>): seq<string>
    requires Selects(xs, idx)
  {
    seq(|idx|, k requires 0 <= k < |idx| && idx[k] < |xs| && Complete(xs[idx[k]]) =>
      ScreenshotPath(xs[idx[k]].title.value))
  }

  /** The screenshot call on a selected result's thumbnail returns without raising. */
  predicate Captures(a: Article) {
    a.image.Some? && a.image.value.screenshotSucceeds
  }

  /** `k` is the first selected result whose screenshot call raises. */
  predicate FirstCrash(xs: seq<Article>, idx: seq<nat>, k: nat)
    requires Selects(xs, idx)
  {
    k < |idx| && !Captures(xs[idx[k]]) && forall j :: 0 <= j < k ==> Captures(xs[idx[j]])
  }

  /**
   * `out` is what the reference reading predicts for the selected results
   * `idx`: completion exactly when every one of them can be captured,
   * with their rows and screenshot paths in order; otherwise an error at
   * the first one that cannot, after the screenshots before it.
   */
  ghost predicate Agrees(xs: seq<Article>, idx: seq<nat>, phrase: string, out: Outcome)
    requires Selects(xs, idx)
  {
    match out
    case Completed(recs, shots) =>
      (forall k :: 0 <= k < |idx| ==> Captures(xs[idx[k]]))
      && recs == Records(xs, idx, phrase) && shots == Paths(xs, idx)
    case Aborted(e, shots) =>
      exists k: nat :: FirstCrash(xs, idx, k)
        && e == ScreenshotFailed(ScreenshotPath(xs[idx[k]].title.value))
        && shots == Paths(xs, idx[..k + 1])
  }

  lemma AgreesAfterAbort(xs: seq<Article>, before: seq<nat>, extra: seq<nat>, phrase: string, out: Outcome)
    requires Selects(xs, before) && Selects(xs, before + extra)
    requires out.Aborted? && Agrees(xs, before, phrase, out)
    ensures Agrees(xs, before + extra, phrase, out)
  {
    var idx := before + extra;
    PrefixSelects(xs, before);
    var k: nat :| FirstCrash(xs, before, k)
      && out.error == ScreenshotFailed(ScreenshotPath(xs[before[k]].title.value))
      && out.screenshots == Paths(xs, before[..k + 1]);
    assert idx[..k + 1] == before[..k + 1];
    assert FirstCrash(xs, idx, k);
  }

  lemma AgreesAfterEmit(xs: seq<Article>, before: seq<nat>, i: nat, phrase: string, out: Outcome)
    requires i < |xs| && Complete(xs[i]) && Captures(xs[i])
    requires Selects(xs, before) && out.Completed? && Agrees(xs, before, phrase, out)
    ensures Selects(xs, before + [i])
    ensures Agrees(xs, before + [i], phrase,
      Completed(out.records + [MakeRecord(xs[i], phrase)],
                out.screenshots + [ScreenshotPath(xs[i].title.value)]))
  {
    var idx := before + [i];
    assert Records(xs, idx, phrase) == Records(xs, before, phrase) + [MakeRecord(xs[i], phrase)];
    assert Paths(xs, idx) == Paths(xs, before) + [ScreenshotPath(xs[i].title.value)];
  }

  lemma AgreesAfterCrash(xs: seq<Article>, before: seq<nat>, i: nat, phrase: string, out: Outcome)
    requires i < |xs| && Complete(xs[i]) && !Captures(xs[i])
    requires Selects(xs, before) && out.Completed? && Agrees(xs, before, phrase, out)
    ensures Selects(xs, before + [i])
    ensures Agrees(xs, before + [i], phrase,
      Aborted(ScreenshotFailed(ScreenshotPath(xs[i].title.value)),
              out.screenshots + [ScreenshotPath(xs[i].title.value)]))
  {
    var idx := before + [i];
    assert idx[..|before| + 1] == idx;
    assert Paths(xs, idx) == Paths(xs, before) + [ScreenshotPath(xs[i].title.value)];
    assert FirstCrash(xs, idx, |before|);
  }

  /** The reference reading's prediction for the first `n` results holds. */
  ghost predicate PrefixAgrees(xs: seq<Article>, n: nat, ref: string, phrase: string)
    requires n <= |xs|
  {
    Selects(xs, CohortIndices(xs, n, ref))
    && Agrees(xs, CohortIndices(xs, n, ref), phrase, Loop(xs, n, ref, phrase))
  }

  lemma StepSkip(xs: seq<Article>, n: nat, ref: string, phrase: string)
    requires 0 < n <= |xs| && !InCohort(xs[n - 1], ref)
    requires PrefixAgrees(xs, n - 1, ref, phrase)
    ensures PrefixAgrees(xs, n, ref, phrase)
  {
    assert CohortIndices(xs, n, ref) == CohortIndices(xs, n - 1, ref);
    assert Loop(xs, n, ref, phrase) == Loop(xs, n - 1, ref, phrase);
  }

  lemma StepAfterAbort(xs: seq<Article>, n: nat, ref: string, phrase: string)
    requires 0 < n <= |xs| && InCohort(xs[n - 1], ref)
    requires Loop(xs, n - 1, ref, phrase).Aborted?
    requires PrefixAgrees(xs, n - 1, ref, phrase)
    ensures PrefixAgrees(xs, n, ref, phrase)
  {
    var before := CohortIndices(xs, n - 1, ref);
    assert CohortIndices(xs, n, ref) == before + [n - 1];
    assert Loop(xs, n, ref, phrase) == Loop(xs, n - 1, ref, phrase);
    AgreesAfterAbort(xs, before, [n - 1], phrase, Loop(xs, n - 1, ref, phrase));
  }

  lemma StepEmit(xs: seq<Article>, n: nat, ref: string, phrase: string)
    requires 0 < n <= |xs| && InCohort(xs[n - 1], ref) && Captures(xs[n - 1])
    requires Loop(xs, n - 1, ref, phrase).Completed?
    requires PrefixAgrees(xs, n - 1, ref, phrase)
    ensures PrefixAgrees(xs, n, ref, phrase)
  {
    var before := CohortIndices(xs, n - 1, ref);
    var out := Loop(xs, n - 1, ref, phrase);
    var a := xs[n - 1];
    assert CohortIndices(xs, n, ref) == before + [n - 1];
    assert Loop(xs, n, ref, phrase) == Completed(out.records + [MakeRecord(a, phrase)],
      out.screenshots + [ScreenshotPath(a.title.value)]);
    AgreesAfterEmit(xs, before, n - 1, phrase, out);
  }

  lemma StepCrash(xs: seq<Article>, n: nat, ref: string, phrase: string)
    requires 0 < n <= |xs| && InCohort(xs[n - 1], ref) && !Captures(xs[n - 1])
    requires Loop(xs, n - 1, ref, phrase).Completed?
    requires PrefixAgrees(xs, n - 1, ref, phrase)
    ensures PrefixAgrees(xs, n, ref, phrase)
  {
    var before := CohortIndices(xs, n - 1, ref);
    var out := Loop(xs, n - 1, ref, phrase);
    var path := ScreenshotPath(xs[n - 1].title.value);
    assert CohortIndices(xs, n, ref) == before + [n - 1];
    assert Loop(xs, n, ref, phrase) == Aborted(ScreenshotFailed(path), out.screenshots + [path]);
    AgreesAfterCrash(xs, before, n - 1, phrase, out);
  }

  /** The loop over the first `n` results agrees with the reference reading. */
  lemma {:induction false} LoopMatchesCohort(xs: seq<Article>, n: nat, ref: string, phrase: string)
    requires n <= |xs|
    ensures Selects(xs, CohortIndices(xs, n, ref))
    ensures Agrees(xs, CohortIndices(xs, n, ref), phrase, Loop(xs, n, ref, phrase))
    decreases n
  {
    if n > 0 {
      LoopMatchesCohort(xs, n - 1, ref, phrase);
      if !InCohort(xs[n - 1], ref) {
        StepSkip(xs, n, ref, phrase);
      } else if Loop(xs, n - 1, ref, phrase).Aborted? {
        StepAfterAbort(xs, n, ref, phrase);
      } else if Captures(xs[n - 1]) {
        StepEmit(xs, n, ref, phrase);
      } else {
        StepCrash(xs, n, ref, phrase);
      }
    }
  }

  /**
   * A whole run: no results give an empty table; a first result without a
   * date ends the run before any screenshot; otherwise the run agrees with
   * the reference reading against the first result's date text.
   */
  lemma RunFollowsCohort(articles: seq<Article>, phrase: string)
    ensures |articles| == 0 ==> Run(articles, phrase) == Completed([], [])
    ensures |articles| > 0 && articles[0].date.None? ==>
      Run(articles, phrase) == Aborted(FirstDateMissing, [])
    ensures |articles| > 0 && articles[0].date.Some? ==>
      var idx := CohortIndices(articles, |articles|, articles[0].date.value);
      Selects(articles, idx) && Agrees(articles, idx, phrase, Run(articles, phrase))
  {
    if |articles| > 0 && articles[0].date.Some? {
      LoopMatchesCohort(articles, |articles|, articles[0].date.value, phrase);
    }
  }

  /** Every row carries the first result's date text, exactly. */
  lemma RunRecordsShareFirstDate(articles: seq<Article>, phrase: string)
    requires Run(articles, phrase).Completed?
    ensures forall r :: r in Run(articles, phrase).records ==>
      |articles| > 0 && articles[0].date == Some(r.date)
  {
    RunFollowsCohort(articles, phrase);
    if |articles| > 0 {
      var recs := Run(articles, phrase).records;
      var idx := CohortIndices(articles, |articles|, articles[0].date.value);
      forall r | r in recs
        ensures articles[0].date == Some(r.date)
      {
        var k :| 0 <= k < |recs| && recs[k] == r;
        assert r == MakeRecord(articles[idx[k]], phrase);
      }
    }
  }

  /**
   * The rows come from distinct results, in the results' order, one
   * screenshot path per row; so there are never more rows than results.
   */
  lemma RunRecordsInOrder(articles: seq<Article>, phrase: string)
    requires Run(articles, phrase).Completed?
    ensures |Run(articles, phrase).records| <= |articles|
    ensures exists idx: seq<nat> ::
      |idx| == |Run(articles, phrase).records| == |Run(articles, phrase).screenshots|
      && (forall k, l :: 0 <= k < l < |idx| ==> idx[k] < idx[l])
      && Selects(articles, idx)
      && Run(articles, phrase).records == Records(articles, idx, phrase)
      && Run(articles, phrase).screenshots == Paths(articles, idx)
  {
    RunFollowsCohort(articles, phrase);
    if |articles| == 0 {
      var idx: seq<nat> := [];
      assert Records(articles, idx, phrase) == [];
      assert Paths(articles, idx) == [];
    }
  }

  /**
   * A result with a missing title, description, date or image yields no
   * row, and the loop goes on to the next result as if it were not there.
   */
  lemma IncompleteArticleSkipped(xs: seq<Article>, i: nat, ref: string, phrase: string)
    requires i < |xs| && !Complete(xs[i])
    ensures Loop(xs, i + 1, ref, phrase) == Loop(xs, i, ref, phrase)
    ensures i !in CohortIndices(xs, |xs|, ref)
  {
  }

  /** A qualifying result whose screenshot call raises ends the run with an error. */
  lemma ScreenshotFailureAborts(articles: seq<Article>, phrase: string, i: nat)
    requires 0 < |articles| && articles[0].date.Some? && i < |articles|
    requires InCohort(articles[i], articles[0].date.value)
    requires !articles[i].image.value.screenshotSucceeds
    ensures Run(articles, phrase).Aborted?
    ensures Run(articles, phrase).error.ScreenshotFailed?
  {
    RunFollowsCohort(articles, phrase);
    var idx := CohortIndices(articles, |articles|, articles[0].date.value);
    assert i in idx;
    var k :| 0 <= k < |idx| && idx[k] == i;
    assert !Captures(articles[idx[k]]);
  }
}
