/** Concrete runs of the article loop. */
module RunExamples {
  import opened Wrappers
  import opened Articles
  import opened Pipeline

  /** A thumbnail whose capture succeeds when `ok`. */
  function Shot(ok: bool): Option<Image> {
    Some(Image(Some("thumbnail"), ok))
  }

  /** A result with every element found, this title and this date. */
  function Dated(title: string, date: string, ok: bool): Article {
    Article(Some(title), Some("recap"), Some(date), Shot(ok))
  }

  /** Three complete results dated D1, D1, D2: the two D1 results become rows, in order. */
  lemma TwoOfThreeShareTheDate()
    ensures var xs := [Dated("A", "D1", true), Dated("B", "D1", true), Dated("C", "D2", true)];
      Run(xs, "Olympics") == Completed(
        [MakeRecord(xs[0], "Olympics"), MakeRecord(xs[1], "Olympics")],
        ["output/A.png", "output/B.png"])
  {
    var xs := [Dated("A", "D1", true), Dated("B", "D1", true), Dated("C", "D2", true)];
    assert ScreenshotPath("A") == "output/A.png" && ScreenshotPath("B") == "output/B.png";
    assert Loop(xs, 1, "D1", "Olympics") == Completed([MakeRecord(xs[0], "Olympics")], ["output/A.png"]);
    assert Loop(xs, 2, "D1", "Olympics") == Completed(
      [MakeRecord(xs[0], "Olympics"), MakeRecord(xs[1], "Olympics")], ["output/A.png", "output/B.png"]);
  }

  /** No search results: an empty table and no screenshots. */
  lemma NoResults()
    ensures Run([], "Olympics") == Completed([], [])
  {
  }

  /** A screenshot call that raises on the second of three results ends the run after two screenshot attempts. */
  lemma ScreenshotFailureEndsRun()
    ensures var xs := [Dated("A", "D1", true), Dated("B", "D1", false), Dated("C", "D1", true)];
      Run(xs, "Olympics") == Aborted(ScreenshotFailed("output/B.png"), ["output/A.png", "output/B.png"])
  {
    var xs := [Dated("A", "D1", true), Dated("B", "D1", false), Dated("C", "D1", true)];
    assert ScreenshotPath("A") == "output/A.png" && ScreenshotPath("B") == "output/B.png";
    assert Loop(xs, 1, "D1", "Olympics") == Completed([MakeRecord(xs[0], "Olympics")], ["output/A.png"]);
    assert Loop(xs, 2, "D1", "Olympics") == Aborted(ScreenshotFailed("output/B.png"), ["output/A.png", "output/B.png"]);
  }

  /** The first result is skipped for a missing description, yet its date still selects the rest. */
  lemma SkippedFirstStillSetsDate()
    ensures var xs := [Article(Some("A"), None, Some("D1"), Shot(true)),
                       Dated("B", "D2", true), Dated("C", "D1", true)];
      Run(xs, "Olympics") == Completed([MakeRecord(xs[2], "Olympics")], ["output/C.png"])
  {
    var xs := [Article(Some("A"), None, Some("D1"), Shot(true)),
               Dated("B", "D2", true), Dated("C", "D1", true)];
    assert ScreenshotPath("C") == "output/C.png";
    assert Loop(xs, 2, "D1", "Olympics") == Completed([], []);
  }

  /** A first result without a date element ends the run before anything else. */
  lemma MissingFirstDateEndsRun()
    ensures Run([Article(Some("A"), Some("recap"), None, Shot(true)), Dated("B", "D1", true)], "Olympics")
      == Aborted(FirstDateMissing, [])
  {
  }
}
