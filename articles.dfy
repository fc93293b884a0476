/**
 * One search result as the article loop sees it, and what the loop body
 * does with it (newsCase/main.py:69-107). Every element lookup of the
 * browser is reduced to "found, with this text" or "not found".
 */
module Articles {
  import opened Wrappers
  import Phrases
  import Money

  /**
   * The thumbnail element of an article: the value of its `alt`
   * attribute (`None` when the attribute is absent) and whether the
   * `screenshot` call on it returns (`true`) or raises (`false`). The
   * call's return value, which only reports whether the file could be
   * written, is ignored by the loop, so a returning call counts as success.
   */
  datatype Image = Image(alt: Option<string>, screenshotSucceeds: bool)

  /** The four elements looked up in a result item; `None` when the lookup fails. */
  datatype Article = Article(
    title: Option<string>,
    description: Option<string>,
    date: Option<string>,
    image: Option<Image>)

  /** One row of the exported table, with its seven columns in order. */
  datatype Record = Record(
    title: string,
    date: string,
    description: string,
    image: string,
    imageAlt: Option<string>,
    countPhrases: nat,
    containsMoney: bool)

  /** Every element lookup of the loop body succeeds. */
  predicate Complete(a: Article) {
    a.title.Some? && a.description.Some? && a.date.Some? && a.image.Some?
  }

  /** The article yields a row: every element is found and its date text is exactly `ref`. */
  predicate InCohort(a: Article, ref: string) {
    Complete(a) && a.date.value == ref
  }

  /** The `image` column: the screenshot's file name. */
  function ImageName(title: string): string {
    title + ".png"
  }

  /** Where the screenshot of an article with this title is written. */
  function ScreenshotPath(title: string): string {
    "output/" + ImageName(title)
  }

  /** The row built from an article whose elements were all found. */
  function MakeRecord(a: Article, phrase: string): Record
    requires Complete(a)
  {
    var title := a.title.value;
    var description := a.description.value;
    Record(
      title,
      a.date.value,
      description,
      ImageName(title),
      a.image.value.alt,
      Phrases.CountPhrases(title, description, phrase),
      Money.ContainsMoney(title + description))
  }

  /** What one pass of the loop body does with an article. */
  datatype Visit =
    | Skip                              // a lookup failed, or the date differs
    | Emit(record: Record, path: string) // screenshot call for `path` returned, row appended
    | Crash(path: string)                // the screenshot call for `path` raised

  /** One pass of the loop body against the reference date `ref`. */
  function VisitArticle(a: Article, ref: string, phrase: string): (v: Visit)
    ensures v.Skip? <==> !InCohort(a, ref)
    ensures v.Emit? <==> InCohort(a, ref) && a.image.value.screenshotSucceeds
    ensures !v.Skip? ==> v.path == ScreenshotPath(a.title.value)
    ensures v.Emit? ==> v.record == MakeRecord(a, phrase)
  {
    if a.title.None? || a.description.None? || a.date.None? then Skip
    else if a.date.value != ref then Skip
    else if a.image.None? then Skip
    else
      var path := ScreenshotPath(a.title.value);
      if a.image.value.screenshotSucceeds then Emit(MakeRecord(a, phrase), path)
      else Crash(path)
  }
}
