# Rubric grading app: a Dafny model

This project models the logic of a single-page grading app for a course
project ("Notation fil rouge"). A jury scores a group of students on a
rubric. The app:

- reads the rubric from CSV text, one criterion per line;
- shows one slider per criterion, with the level text of the current score;
- sums the scores overall and per category;
- exports the results as a CSV file named after the group and the date.

The model has seven modules:

- `JsString` models JavaScript's `trim`, `split` and `join` on strings.
- `JsNumber` models `parseInt`, `Number.prototype.toString` on integers, and how `score / max` compares with a percentage threshold, including division by zero.
- `Types` holds the rubric item and the three slider levels (`types.ts`), plus the lookup `scores[id] || 0`.
- `CsvHelper` models `parseRubricCSV` and `generateResultCSV` with its `escape`. The parser is a loop proved equal to a specification function. The generator is a function whose output is proved to read back through the parser's own field cleaning.
- `RubricSlider` models the slider's level, its description and its label, and how the level relates to the band written in the export.
- `ScoreSummary` models the total, the maximum, and the per-category breakdown: sums, percentage and display name.
- `App` models the page state as a class `Session` with the handlers for load, score change, reset and export, plus the export file name.

The model keeps the following behaviour of the code, where it may
surprise a reader:

- `parseInt(x) || 10` replaces only NaN and 0 by 10. A negative maximum is kept.
- `""` is collapsed to `"` in every field, quoted or not.
- The split regex treats a comma as a separator when an even number of `"` follow it on the line. On a line with an odd number of quotes this is not "outside quotes" (`SplitFieldsIsScan` states exactly what it is).
- The export file name replaces each run of whitespace in the group name by one `_`.
- At 0 / 0 the ratio is NaN. The slider then shows "high" while the export writes "Insuffisant". The parser never yields a maximum of 0, so this cannot happen for a parsed item.

## Model

| member | source | states |
|---|---|---|
| JsString.Trim | utils/csvHelper.ts:8 | `trim()` gives the empty text exactly when the text is all whitespace; otherwise the result starts and ends with a non-space |
| JsString.JoinSplit | utils/csvHelper.ts:8 | the parts of `split('\n')`, joined again with LF, are the text: splitting loses nothing |
| JsString.SplitJoin | utils/csvHelper.ts:68 | joining LF-free lines with LF and splitting at LF gives the same lines back |
| JsNumber.ParseIntOfIntToString | utils/csvHelper.ts:33 | `ParseInt` (`parseInt(x, 10)`) reads back any integer written by `toString`, negative ones included, whatever non-digit text follows |
| JsNumber.RatioAtMostIsNotAbove | components/RubricSlider.tsx:13-16 | `value / max <= p/100` is the negation of `> p/100`, except when the ratio is NaN (0 / 0), where both are false |
| CsvHelper.SplitFieldsIsScan | utils/csvHelper.ts:12 | `SplitFields` (the regex split) equals a left-to-right scanner that toggles "in quotes" at every `"` and cuts at commas outside quotes, started inside quotes exactly when the line has an odd number of `"` |
| CsvHelper.BalancedLineSplit | utils/csvHelper.ts:12 | on a line with an even number of `"`, a comma separates fields exactly when it is outside a quoted section |
| CsvHelper.JoinSplitFields | utils/csvHelper.ts:19 | the parts of a line, joined with commas, are the line |
| CsvHelper.SplitFieldsConcat | utils/csvHelper.ts:12 | a comma followed by an even number of `"` separates what precedes it from what follows |
| CsvHelper.SplitFieldsOfJoin | utils/csvHelper.ts:19 | cells that are each one field with balanced quotes, joined with commas, split back into the same cells |
| CsvHelper.SplitFieldsOfEscape | utils/csvHelper.ts:56 | an escaped text is a single field with balanced quotes, even when it contains commas and quotes |
| CsvHelper.Escape | utils/csvHelper.ts:56 | `escape` wraps the text in quotes and doubles every inner quote: the result holds two more than twice the text's quotes, and collapsing the doubled quotes between the outer pair gives the text back |
| CsvHelper.CleanEscape | utils/csvHelper.ts:19-22 | `CleanField` (trim, strip one outer quote at each end, collapse `""`) undoes `escape` exactly |
| CsvHelper.PlainCleans | utils/csvHelper.ts:19-22 | `CleanField` keeps a text with no quote, comma or whitespace (a number, a band name) as it is |
| CsvHelper.MaxPointsOf | utils/csvHelper.ts:33 | `parseInt(part, 10) \|\| 10` is never 0 |
| CsvHelper.MaxPointsOfWritten | utils/csvHelper.ts:33 | a written integer gives itself, negatives included, except 0, which gives 10 |
| CsvHelper.MaxPointsOfNaN | utils/csvHelper.ts:33 | a field whose first non-blank character is neither a digit nor a sign followed by a digit (or that is blank) makes `parseInt` NaN, and the maximum is the default 10 |
| CsvHelper.CritIdInjective | utils/csvHelper.ts:26 | `crit_<i>` and `crit_<j>` are equal exactly when i = j |
| CsvHelper.ParseRubricCsv | utils/csvHelper.ts:7-39 | the parsing loop returns the items of the specification `ParseRubric` |
| CsvHelper.ItemLines | utils/csvHelper.ts:15 | the lines that yield items come after the header, below the line count, in increasing order, at most one per line |
| CsvHelper.ItemLinesMembers | utils/csvHelper.ts:15-24 | `LineItem`: every line after the header that is non-empty and has at least seven parts yields an item, and no other line does |
| CsvHelper.ItemsBelowSpec | utils/csvHelper.ts:25-34 | item k is built from the k-th accepted line's cleaned parts, with id `crit_<line index>`; parts beyond the seventh are not used |
| CsvHelper.ParsedItems | utils/csvHelper.ts:7-39 | the parser yields one item per accepted line after the header, in line order, and at most one item fewer than there are lines |
| CsvHelper.ParsedIds | utils/csvHelper.ts:26 | parsed ids are pairwise distinct, none is the header's `crit_0`, and no parsed maximum is 0 |
| CsvHelper.ParsedTextsHaveNoNewline | utils/csvHelper.ts:8-28 | no parsed category or criterion contains a line feed: each comes from one line of the split text, and splitting at commas and cleaning only remove characters |
| CsvHelper.BandThresholds | utils/csvHelper.ts:49-53 | `BandFor` (`levelText`): with a positive maximum the band is "Excellent" above 66/100 of it, "Moyen" above 33/100 up to 66/100, and "Insuffisant" otherwise |
| CsvHelper.ZeroIsInsuffisant | utils/csvHelper.ts:48-53 | a score of 0, which includes a missing score, is "Insuffisant" whatever the maximum |
| CsvHelper.GeneratedLines | utils/csvHelper.ts:68 | the export has one line more than there are items; the header comes first, and line k+1 is item k's row |
| CsvHelper.RowReadsBack | utils/csvHelper.ts:58-65 | a row read back with the parser's split and cleaning gives six fields: group, category and criterion verbatim, the score and maximum as decimal text, and the band |
| CsvHelper.RowDescribesItem | utils/csvHelper.ts:47-66 | each row describes its item: text fields unchanged, numbers that `parseInt` reads back, and "0" with "Insuffisant" for an item without a score |
| CsvHelper.ExportDescribesItems | utils/csvHelper.ts:44-69 | `GenerateResultCsv` (`generateResultCSV`): header first, then one row per item in item order, each describing its item |
| RubricSlider.LevelThresholds | components/RubricSlider.tsx:12-17 | `Level`: with a positive maximum the level cuts at 33/100 and 66/100 of it, and ties fall into the lower level |
| RubricSlider.LevelAgreesWithBand | components/RubricSlider.tsx:12-17 | the slider's level and the exported band agree (low with "Insuffisant", mid with "Moyen", high with "Excellent") unless both value and maximum are 0 |
| RubricSlider.ZeroOverZero | components/RubricSlider.tsx:13 | at 0 / 0 the slider shows "high" while the export writes "Insuffisant" |
| RubricSlider.ParsedItemsAgree | components/RubricSlider.tsx:12-17 | for every parsed item and every score, the level and the band agree |
| RubricSlider.LevelMonotonic | components/RubricSlider.tsx:12-17 | with a positive maximum, a higher score never gives a lower level |
| RubricSlider.TenPointScale | types.ts:6-8 | on a 10-point criterion, scores 0-3 are low, 4-6 mid and 7-10 high |
| RubricSlider.DescriptionShown | components/RubricSlider.tsx:19-25 | `Description` (`getDescription`) shows the rubric text of the level the score reaches: low up to 33/100 of the maximum, mid up to 66/100, high above |
| RubricSlider.LabelNamesBand | components/RubricSlider.tsx:75 | `LevelLabel` is "Niveau " followed by the name of the level's band |
| ScoreSummary.SumValuesRemove | components/ScoreSummary.tsx:19 | `SumValues` (`totalScore`) does not depend on the order of the map's keys: any key can be added first |
| ScoreSummary.SumValuesZero | App.tsx:22-24 | a map whose scores are all 0 totals 0 |
| ScoreSummary.SumValuesUpdate | App.tsx:151 | setting one score moves the footer total by the new value minus the old one (0 when there was none) |
| ScoreSummary.ItemScoresAreTotal | components/ScoreSummary.tsx:19 | when the map's keys are exactly the ids of items with distinct ids, the items' scores add up to the map's total |
| ScoreSummary.Distinct | components/ScoreSummary.tsx:23 | `Array.from(new Set(xs))` holds every value of xs, nothing else, and each value once |
| ScoreSummary.DistinctFirstSeen | components/ScoreSummary.tsx:23 | the distinct values keep the order of their first occurrences |
| ScoreSummary.CategoriesSpec | App.tsx:55-57 | the categories are distinct, are exactly the items' categories, and come in first-seen order |
| ScoreSummary.InCategoryMembers | App.tsx:122 | filtering by category keeps exactly the items of that category |
| ScoreSummary.SumByCategory | components/ScoreSummary.tsx:26-28 | summing category by category, over distinct categories that cover every item, gives the sum over all items |
| ScoreSummary.DropNumberingOf | components/ScoreSummary.tsx:31 | a leading number, dot and spaces are removed from the display name |
| ScoreSummary.DropNumberingNoop | components/ScoreSummary.tsx:31 | a name not starting with a digit keeps its start |
| ScoreSummary.DropPercentOf | components/ScoreSummary.tsx:31 | a trailing `(<digits>%)` and the spaces before it are removed from the display name |
| ScoreSummary.DropPercentNoop | components/ScoreSummary.tsx:31 | a name not ending with `)` keeps its end |
| ScoreSummary.DisplayNameOfNumbered | components/ScoreSummary.tsx:31 | `DisplayName` shows `<n>. <name> (<p>%)` as `<name>` |
| ScoreSummary.Percentage | components/ScoreSummary.tsx:38 | the percentage is 0 when the maximum is not positive, and otherwise score / max × 100 |
| ScoreSummary.PercentageRange | components/ScoreSummary.tsx:38 | a score between 0 and the maximum gives a percentage between 0 and 100 |
| ScoreSummary.CategoryDataSpec | components/ScoreSummary.tsx:22-41 | `CategoryData`: one entry per distinct category, in first-seen order, covering every item; each holds the display name, the full name, the category's score sum (0 per missing id), its maximum sum and its guarded percentage |
| ScoreSummary.EntryMaximaAreMaxTotal | components/ScoreSummary.tsx:20-28 | the entries' maxima add up to `MaxTotal` (`maxTotal`) |
| ScoreSummary.EntryScoresAreTotal | components/ScoreSummary.tsx:19-27 | when the map's keys are exactly the item ids, the entries' scores add up to `totalScore` |
| ScoreSummary.EntryPercentageRange | components/ScoreSummary.tsx:38 | when every score lies between 0 and its item's maximum, every category percentage lies between 0 and 100 |
| App.UnderscoreSpaces | App.tsx:51 | `replace(/\s+/g, '_')` leaves no whitespace |
| App.UnderscoreSpacesOfPlain | App.tsx:51 | text without whitespace is unchanged |
| App.UnderscoreSpacesOfRun | App.tsx:51 | a whole run of whitespace becomes a single `_` |
| App.UnderscoreSpacesConcat | App.tsx:51 | text without whitespace is copied unchanged in front of the rest |
| App.Prefix10 | App.tsx:51 | `slice(0, 10)` keeps the first ten characters, or the whole text when it is shorter |
| App.FilenameHasNoSpace | App.tsx:51 | `Filename` contains no whitespace, whatever the group name |
| App.FilenameOfTwoWords | App.tsx:51 | `<a><spaces><b>` exported on a time stamp gives `Evaluation_<a>_<b>_<first ten characters>.csv` |
| App.InitialScores | App.tsx:22-23 | the loop gives every item id a score of 0 and adds no other key |
| App.Session.constructor | App.tsx:11-14 | the state before loading: no items, empty group name, empty map, not loaded |
| App.Session.Load | App.tsx:17-26 | after loading, the items are the parsed rubric, the map has exactly the item ids, all at 0, the total is 0, and the page is loaded |
| App.Session.HandleScoreChange | App.tsx:28-33 | the item's key takes the new value, which the slider then shows; every other score and the rest of the state stay, and the total moves by the difference |
| App.Session.SetGroupName | App.tsx:84 | the input sets the group name and nothing else |
| App.Session.HandleReset | App.tsx:35-43 | when confirmed, the map becomes exactly the item ids at 0 (total 0) and the group name is emptied; when declined, nothing changes |
| App.Session.HandleExport | App.tsx:45-53 | a blank group name (empty after trim) rejects the export; otherwise the content is `generateResultCSV` of the current state, under the computed file name |
| App.Session.ShownScoreIsExported | App.tsx:127 | the value a slider shows (`scores[item.id] \|\| 0`) is the score the export writes on that item's line, and the slider's label names the band written on that line |
| App.Session.SummaryMatchesFooter | App.tsx:150-152 | the footer's total and maximum equal the sums of the summary panel's category scores and category maxima |
| App.Session.Sections | App.tsx:109-123 | one section of items per category |
| App.Session.SectionsShowEachItem | App.tsx:109-123 | each item appears in its own category's section and in no other, and each category heading appears once |

## Left out

- `downloadCSV` (Blob, object URL, link click) is browser I/O. `HandleExport` returns the file name and content that would be downloaded.
- `confirm` and `alert` are user dialogs. The user's answer is the `confirmed` parameter of `HandleReset`, and the alert is the `Rejected` result. `window.scrollTo` is left out.
- `new Date().toISOString()` reads the clock. The time stamp is a parameter of `HandleExport`.
- `RAW_CSV_DATA` (constants.ts) is not part of this model. `Load` takes the rubric text as a parameter.
- React state, hooks and memoisation are modelled as the fields of `Session` and as functions of them. Re-rendering is not modelled.
- Presentation is not modelled: JSX, colour classes (`getColorClass`, `getSliderColor`), progress bars, the radar chart, `RubricGuide` and `MizaLogo`. `key={d.category}` can repeat when two categories share a display name; this only affects React's rendering.
- The slider input (`Number(e.target.value)` with step 1) is taken to give an integer. Scores and maxima are unbounded integers; doubles, the 2^53 precision limit of `parseInt` and the exponent form of `toString` for huge numbers are not modelled.
- RubricSlider.Level: compares `value / max` with 33/100 and 66/100 exactly, not with the doubles `0.33` and `0.66`. The same holds for `CsvHelper.BandFor`.
- ScoreSummary.Percentage: is computed as an exact real number, not a double.
- Whitespace is space, tab, LF and CR (for `trim`, `\s` and `parseInt`). The other Unicode spaces that JavaScript also treats as whitespace are not modelled.
- ScoreSummary.SumValues: is a ghost function. The key order of a JavaScript object is not modelled, and an integer sum does not depend on it (`SumValuesRemove`).
- CsvHelper.GeneratedLines: requires no LF inside the group name, categories or criteria. An LF inside a quoted cell is legal CSV, but then the export has more physical lines than rows. `CsvHelper.ExportDescribesItems` has the same hypothesis.
- CsvHelper.GeneratedLines: states the header line as the six header cells joined with commas, not as the literal text.
- App.Session.HandleScoreChange: requires the class invariant `Valid` and an id of one of the items. `Valid` says the item ids are distinct, the map holds exactly the item ids, and no maximum is 0. The only caller, the slider of an item (App.tsx:128), passes that item's id. `Valid` holds from the constructor on, and every handler keeps it.
- App.Session.SetGroupName: requires `Valid` as well, so that it can promise `Valid` afterwards.
- App.Session.ShownScoreIsExported: requires no LF inside the group name, like `CsvHelper.GeneratedLines`; categories and criteria of a loaded rubric never hold one (`CsvHelper.ParsedTextsHaveNoNewline`, kept by `Session.Valid`).
- The `EvaluationState` type and its `juryName` field are used by no code and are not modelled.
