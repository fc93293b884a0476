# newsCase article loop, modelled in Dafny

newsCase searches a news site for a phrase ("Olympics"). It reads the list of
result items and keeps the items published on the same date as the first one.
For each kept item it counts the phrase, checks the text for an amount of
money, saves a screenshot of the thumbnail and adds a row to a table. This
project models that loop, the body of `main()` from the reference-date lookup
to the last append (newsCase/main.py:61-107), and proves what it does.

The browser is replaced by values. A search result is an `Articles.Article`
holding four `Option`s: title, description, date and image. `None` means that
`find_element` found nothing. The image holds its `alt` attribute (itself
optional) and whether the `screenshot` call on it returns (`true`) or raises
(`false`). A run returns a `Pipeline.Outcome`:

- `Completed(records, screenshots)`: the rows of `data` and the paths of the
  screenshot calls made, in order; or
- `Aborted(error, screenshots)`: one of the two failures that are not inside
  the `try`, plus the screenshot paths attempted up to and including the
  one whose call raised.

Modules:

- `Wrappers`: `Option`.
- `Text`: ASCII lower-casing, and the character classes `\d` and `\s`.
- `Phrases`: `str.count`, and the `count_phrases` value (main.py:83).
- `Money`: the currency pattern as a language, and the detector `ContainsMoney`.
  It is proved to answer exactly whether `re.search` finds the pattern
  (main.py:86-87).
- `Articles`: the record type, and what one pass of the loop body does with
  one result.
- `Pipeline`:
  - `Run`, the specification of the loop.
  - `ProcessArticles`, the imperative loop proved equal to `Run`.
  - A reference reading: a stable filter that keeps the results whose
    title, description, date and image were all found and whose date text
    equals the reference date; then one row and one screenshot per kept
    result. `Run` is proved to agree with it.
- `RunExamples`: concrete runs.

The model follows the code, including where the code is stricter than one
might expect:

- A screenshot call that raises ends the whole run. The call at main.py:95
  is outside the `try`, so this failure is not "skip one result".
- A first result with no date element ends the run (main.py:63).
- The unit words `dollars` and `USD` are matched case-sensitively. They may
  follow the number with no whitespace at all (`\s*`).
- The pattern's search runs over `title + description` with no separator, so
  a match can span the two (main.py:87).
- The reference date comes from the first result even when that result is
  later skipped (main.py:61-64).

## Model

| member | source | states |
|---|---|---|
| `Text.Lower` | newsCase/main.py:83 | the result has the input's length and no upper-case ASCII letter; each character is the input's character or its lower-case letter |
| `Phrases.MatchesFrom` | newsCase/main.py:83 | no contract of its own: the left-to-right substring scan behind `str.count`; `MatchesFromGreedy` and `GreedyMatchesUnique` state which positions it takes |
| `Phrases.MatchesFromGreedy` | newsCase/main.py:83 | the positions the substring scan counts are occurrences of the phrase, in order and not overlapping; every occurrence not counted starts inside a counted one |
| `Phrases.GreedyMatchesUnique` | newsCase/main.py:83 | any list of positions with that greedy property is exactly the list the scan counts, so the property fully specifies the count |
| `Phrases.MatchesFromBound` | newsCase/main.py:83 | the counted occurrences fit side by side into the scanned text: count times phrase length is at most the text length |
| `Phrases.Count` | newsCase/main.py:83 | `str.count`: for a non-empty phrase, count times phrase length is at most the text length; for the empty phrase the count is the text length plus one |
| `Phrases.CountPhrases` | newsCase/main.py:83 | the title count plus the description count; for a non-empty phrase, the total times phrase length is at most the combined length of title and description |
| `Phrases.BoundaryOccurrenceNotCounted` | newsCase/main.py:83 | "Olymp" + "ics" contains the phrase once when joined, yet the two fields counted separately give 0 |
| `Phrases.CountPhrasesExample` | newsCase/main.py:83 | "Olympics News" and "olympics recap" give 2 for the phrase "Olympics": case is ignored in the text and the phrase |
| `Phrases.NonOverlappingExample` | newsCase/main.py:83 | "aa" is counted twice in "aaaa" and once in "aaa": overlapping occurrences are not counted |
| `Money.ContainsMoney` | newsCase/main.py:86-87 | no contract of its own: `bool(re.search(...))`; `ContainsMoneyIsPatternSearch` and `ContainsMoneyAt` state what it decides |
| `Money.ContainsMoneyIsPatternSearch` | newsCase/main.py:86-87 | the detector is true if and only if some substring matches `\$\d+(?:,\d{3})*(?:\.\d+)?` or the same number pattern followed by `\s*` and `dollars` or `USD` |
| `Money.ContainsMoneyAt` | newsCase/main.py:86-87 | the detector is true if and only if at some position there is `$` then a digit, or a digit, then whitespace (possibly none), then `dollars` or `USD` |
| `Money.NoDigitNoMoney` | newsCase/main.py:86 | text without a digit is never reported as mentioning money |
| `Money.DollarSignExample` | newsCase/main.py:86-87 | "Tickets cost $1,250.00" mentions money |
| `Money.UnitWordExample` | newsCase/main.py:86-87 | "50 dollars refunded" mentions money |
| `Money.NoSpaceExample` | newsCase/main.py:86-87 | "Fee: 5USD" mentions money: the whitespace before the unit may be empty |
| `Money.NoPricingExample` | newsCase/main.py:86-87 | "no pricing info" does not mention money |
| `Money.CaseSensitiveExample` | newsCase/main.py:86-87 | "50 Dollars" does not mention money: the unit word is matched case-sensitively |
| `Money.MatchAcrossBoundary` | newsCase/main.py:87 | "Prize of $" and "5 million" each mention no money, but joined without a separator they do |
| `Articles.ImageName` | newsCase/main.py:103 | no contract of its own: the `image` column, the title followed by ".png" |
| `Articles.ScreenshotPath` | newsCase/main.py:95 | no contract of its own: the screenshot file, "output/" followed by the image name; `VisitArticle` states that every screenshot goes there |
| `Articles.MakeRecord` | newsCase/main.py:99-107 | no contract of its own: the seven-column row; `VisitArticle` states that every appended row is this one, and `CountPhrases` and `ContainsMoneyIsPatternSearch` state what its two computed columns hold |
| `Articles.VisitArticle` | newsCase/main.py:70-107 | one pass of the loop body: skip exactly when an element is missing or the date text differs from the reference; otherwise a screenshot to "output/" + title + ".png", then a row built from the result when the screenshot call returns, or the end of the run when it raises |
| `Pipeline.Loop` | newsCase/main.py:69-107 | no contract of its own: the loop over the first n results, one `VisitArticle` step at a time, stopping at the first error; `AbortIsFinal` and `LoopMatchesCohort` state what it computes |
| `Pipeline.Run` | newsCase/main.py:61-107 | no contract of its own: the reference-date lookup, then `Loop` over all results; `RunFollowsCohort` and the lemmas after it state what it computes |
| `Pipeline.ProcessArticles` | newsCase/main.py:61-107 | the imperative loop (reference-date lookup, `continue` on a failed lookup or another date, screenshot, append) returns exactly the outcome `Run` specifies |
| `Pipeline.AbortIsFinal` | newsCase/main.py:95 | once the loop has ended with an error, later results change neither the error nor the screenshots |
| `Pipeline.CohortIndices` | newsCase/main.py:69-80 | the kept results form a stable filter: indices in increasing order, each of a result with all elements present and the reference date, every such result included, never more than the results |
| `Pipeline.LoopMatchesCohort` | newsCase/main.py:67-107 | the loop completes exactly when no kept result's screenshot call raises, with their rows and paths in order; otherwise it ends at the first kept result whose screenshot call raises, with the screenshots up to and including it |
| `Pipeline.RunFollowsCohort` | newsCase/main.py:61-107 | no results give an empty table and no screenshots; a first result without a date ends the run with no screenshots; otherwise the run agrees with the filter against the first result's date text |
| `Pipeline.RunRecordsShareFirstDate` | newsCase/main.py:61-101 | every row's date equals the first result's date text exactly |
| `Pipeline.RunRecordsInOrder` | newsCase/main.py:69-107 | the rows and screenshot paths come from distinct results, in their order, one path per row; there are never more rows than results |
| `Pipeline.IncompleteArticleSkipped` | newsCase/main.py:70-93 | a result with a missing title, description, date or image yields no row, and the loop continues as if it were absent |
| `Pipeline.ScreenshotFailureAborts` | newsCase/main.py:95 | a kept result whose screenshot call raises ends the run with a screenshot error |
| `RunExamples.TwoOfThreeShareTheDate` | newsCase/main.py:61-107 | results dated D1, D1, D2 give exactly the rows of the two D1 results, in order, and their two screenshots |
| `RunExamples.NoResults` | newsCase/main.py:61-69 | no results give an empty table |
| `RunExamples.ScreenshotFailureEndsRun` | newsCase/main.py:95 | a screenshot call that raises on the second of three results ends the run after two screenshot attempts |
| `RunExamples.SkippedFirstStillSetsDate` | newsCase/main.py:61-77 | a first result skipped for a missing description still sets the date that selects later results |
| `RunExamples.MissingFirstDateEndsRun` | newsCase/main.py:63 | a first result without a date element ends the run |

## Left out

- Browser setup, navigation, clicking and typing into the search box, and the waits (main.py:22-55). These are browser I/O. The results are a parameter of the model.
- How the result list and its elements are located by XPath and class name (main.py:36-39, 58, 71-81). Each lookup is only "found, with text" or "not found".
- The search phrase is a parameter. The program fixes it to "Olympics" (main.py:33).
- Logging configuration and every log call (main.py:11-19, 46, 55, 59, 64, 89, 92, 96). They have no effect on the rows.
- The table conversion, the spreadsheet export and closing the browser (main.py:110-117). These are a foreign library and file I/O. The model's output is the ordered row sequence and the screenshot paths.
- Writing the screenshot file (main.py:95). Only its path and whether the call raises are modelled.
- A screenshot file that cannot be written (a title holding `/`, say) makes the call return false rather than raise. main.py:95 ignores that value, so the row is still appended with an `image` name for a file that does not exist. The model counts every returning call as a success and has no notion of whether the file exists.
- Text.Lower: maps only ASCII letters. `str.lower()` covers all of Unicode, which is not modelled.
- Text.IsDigit: only the ASCII digits. For text, the pattern class `\d` also matches every other Unicode decimal digit.
