# csvParser: a verified model of the innovation CSV loader and its aggregators

The dashboard reads one CSV file of government innovation projects. Each row
describes one project: agency, country, name, project, category, technical
innovation, its "x5" innovation class, the year it started (`When?`),
whether it is still active, and a source. `src/utils/csvParser.ts` turns the
file's text into typed records. It then derives the three views the
dashboard draws:

- projects per country, optionally restricted to a set of categories;
- projects per category;
- a timeline of projects per year.

This project models that core in Dafny and proves what each step promises.

- **Text** (`text.dfy`) holds the JavaScript string primitives the code relies on:
  - `trim`, with the exact ECMAScript WhiteSpace and LineTerminator set;
  - `toLowerCase`/`toUpperCase`, on ASCII;
  - `indexOf` and `split`;
  - `Less`, a code-point order that models both the default `sort` order (UTF-16 code units in JavaScript) and `localeCompare` (locale collation in JavaScript).
- **Counting** (`counting.dfy`) models the `Map<string, number>` that the two count aggregators, `filterDataByCategories` and `getCategoryCounts`, fill with `m.set(k, (m.get(k) || 0) + 1)`. The timeline's `Map<string, { count, projects }>` is modelled separately in `timeline.dfy`:
  - a JavaScript Map iterates in insertion order, so the model is a sequence of key/count pairs in order of first appearance;
  - `Tallies(ks)` is the Map after counting `ks`, and `Bump` is one `set`.
- **Sorting** (`sorting.dfy`) covers `Array.prototype.sort`, which ECMAScript requires to be stable:
  - the comparator `(a, b) => b.count - a.count`, as a stable insertion sort;
  - an ascending sort by a string key, used for the category list and the timeline.
- **CsvLine** (`csvline.dfy`) has `parseCSVLine`:
  - a method with the source's loop;
  - proved equal to a reference function `Fields`, which splits at the commas outside quotes, drops the quotes and trims every field.
- **Loader** (`loader.dfy`) covers the record builder of `loadCategoriesAndData`:
  - the header lookup;
  - the row loop that keeps or skips each line;
  - the sorted category list.
- **Aggregates** (`aggregates.dfy`) has `filterDataByCategories` and `getCategoryCounts`.
- **Timeline** (`timeline.dfy`) has `getTimelineData`.

Every loop in the source is a `method` with the same loop, proved against a
specification function. The properties the code promises are lemmas about
those functions.

## Model

| member | source | states |
|---|---|---|
| CsvLine.ParseCSVLine | src/utils/csvParser.ts:78-98 | The fields are exactly `Fields(line)`. There are one more fields than commas outside quotes. No field contains `"` and every field is trimmed. |
| CsvLine.QuoteStep | src/utils/csvParser.ts:86-88 | After each character, `inQuotes` is the parity of the quotes read so far, and a comma counts as a separator exactly when it is outside quotes. |
| CsvLine.PiecesJoin | src/utils/csvParser.ts:83-96 | Joining the untrimmed fields with `,` gives back the line with its quote characters removed, so no character other than `"` is lost. |
| CsvLine.PiecesHaveNoQuotes | src/utils/csvParser.ts:86-93 | No field ever receives a `"` character. |
| CsvLine.QuotedCommaExample | src/utils/csvParser.ts:77-98 | `a,"b,c",d` parses to the three fields `a`, `b,c` and `d`: a quoted comma does not split. |
| Loader.LoadCategoriesAndData | src/utils/csvParser.ts:106-157 | The result is `Load(csvText)`. It is an error exactly when the header lacks `country` or `category`. Otherwise every record is well formed and the categories are strictly ascending. |
| Text.IndexOf | src/utils/csvParser.ts:109-119 | `indexOf` gives the first position holding exactly the name, or -1 exactly when the name is absent. |
| Loader.ResolveColumnsFacts | src/utils/csvParser.ts:109-119 | Each column index is the first exact, case-sensitive match of its name in the parsed header, or -1 when the header lacks that name. |
| Loader.LoadLines | src/utils/csvParser.ts:107-157 | The header lookup and the row loop compute `Build(lines[0], lines[1..])`. The loop keeps the records and the category Set in step with the rows read so far. |
| Loader.ReadRow | src/utils/csvParser.ts:129-150 | One row gives the single record built from its cells when it is long enough and both country and category are non-empty after trimming; otherwise it gives nothing. |
| Loader.BuildOutcome | src/utils/csvParser.ts:107-157 | The build is an error exactly when a required column is missing. On success the records are those the rows give, in row order, and all are well formed. The categories are strictly ascending and are exactly the categories of the records. |
| Loader.LoadOutcome | src/utils/csvParser.ts:106-157 | The same outcome, stated for the whole text: its trimmed lines, the first of which is the header. |
| Loader.SortedCategories | src/utils/csvParser.ts:125-155 | Sorting the Set of categories gives a strictly ascending list holding exactly the categories of the records. |
| Loader.RecordsWellFormed | src/utils/csvParser.ts:131-149 | Every record has a non-empty country and category, and all ten fields are trimmed. |
| Loader.RecordsAtMostRows | src/utils/csvParser.ts:128-151 | Each row gives at most one record, so there are never more records than data rows. |
| Loader.RecordsOfAppend | src/utils/csvParser.ts:128-152 | Rows are processed independently and in order: the records of two runs of rows are the records of each, concatenated. |
| Loader.SingleLine | src/utils/csvParser.ts:129-150 | A row gives a record exactly when it has more fields than the larger of the two required indices and both required cells are non-empty after trimming. A blank or short row is skipped. |
| Loader.AbsentColumnsEmpty | src/utils/csvParser.ts:131-148 | A column missing from the header gives `''` in every record. |
| Loader.CellTrimmed | src/utils/csvParser.ts:131-148 | Every cell read with `?.trim() \|\| ''` is trimmed. |
| Loader.CategoriesOfMembers | src/utils/csvParser.ts:137 | A category occurs in the per-record category sequence, the values passed to `categories.add`, exactly when some record carries it. |
| Loader.CategoriesStep | src/utils/csvParser.ts:137 | `categories.add` keeps the Set equal to the distinct categories of the records pushed so far. |
| Aggregates.FilterDataByCategories | src/utils/csvParser.ts:164-201 | The result is `CountryCounts`. Counts are non-increasing and positive. They add up to the number of contributing records: all records when no category is selected, otherwise those whose category is selected. |
| Aggregates.CountCountries | src/utils/csvParser.ts:170-174 | The forEach leaves the Map holding one entry per distinct lower-cased country, in first-appearance order, with its number of records. |
| Aggregates.CountryCountsFacts | src/utils/csvParser.ts:164-201 | Each lower-cased country of the contributors appears once, capitalized, with its exact count. There are no other entries, and for ASCII keys no two entries share a name. Counts are positive and non-increasing, and they sum to the number of contributors. |
| Aggregates.CountryCountsStable | src/utils/csvParser.ts:176-181 | Countries with equal counts keep their order of first appearance. |
| Aggregates.SelectedMultiplicity | src/utils/csvParser.ts:185-187 | The filter keeps every copy of a record whose category is selected and no copy of any other record, so duplicate rows are counted as often as they occur. |
| Aggregates.SelectedMembers | src/utils/csvParser.ts:185-187 | A record passes the filter exactly when it came from the input and its category is one of the selected categories. |
| Aggregates.DisplayTalliesMembers | src/utils/csvParser.ts:176-180 | After `charAt(0).toUpperCase() + slice(1)`, each key appears with its count. Every entry comes from some key and has a positive count. |
| Aggregates.DisplayCountriesDistinct | src/utils/csvParser.ts:172-178 | For ASCII keys, capitalizing lower-cased keys keeps them distinct. |
| Aggregates.SumDisplay | src/utils/csvParser.ts:195-199 | Capitalizing the keys does not change the total count. |
| Aggregates.GetCategoryCounts | src/utils/csvParser.ts:203-219 | The result is `CategoryCounts`. It is non-increasing. Every key is non-empty with a positive count, and the counts sum to the number of records with a category. |
| Aggregates.CategoryCountsFacts | src/utils/csvParser.ts:203-219 | Each non-empty category appears once, with the number of records that carry it, and there are no other entries. The total is the number of records minus those with an empty category. |
| Aggregates.CategoryCountsStable | src/utils/csvParser.ts:213-218 | Categories with equal counts keep their order of first appearance. |
| Aggregates.NonEmptyCategoriesCount | src/utils/csvParser.ts:206-211 | Skipping empty categories leaves every non-empty category's number of records unchanged. |
| Aggregates.NonEmptyCategoriesLength | src/utils/csvParser.ts:206-211 | Exactly the records with an empty category are skipped. |
| Aggregates.NonEmptyCategoriesMembers | src/utils/csvParser.ts:208 | A category is counted exactly when it is non-empty and some record carries it. |
| Timeline.GetTimelineData | src/utils/csvParser.ts:221-244 | The result is `TimelineOf(rawData)`. Years are strictly ascending and each is exactly four digits. Each count is the number of records filed under that year and is at least 1. There are never more projects than the count. |
| Timeline.CollectYears | src/utils/csvParser.ts:222-235 | The forEach leaves the Map holding one bucket per distinct valid year, in first-appearance order. |
| Timeline.AddYear | src/utils/csvParser.ts:225-234 | One callback: a record without a valid year changes nothing. Otherwise the year's bucket gains one and, when the name is non-blank, the trimmed name; a new year gets a new bucket at the end. |
| Timeline.BucketsFacts | src/utils/csvParser.ts:222-235 | Bucket years are distinct and are exactly the valid years. Each bucket counts its year's records and lists their non-blank trimmed names in record order, with no more names than the count. |
| Timeline.TimelineFacts | src/utils/csvParser.ts:221-244 | The same facts after sorting: the years ascend strictly, and every bucket keeps its count and project list. |
| Timeline.ValidYearsMembers | src/utils/csvParser.ts:225-227 | A year is collected exactly when some record's trimmed `when` equals it and is four ASCII digits. |
| Timeline.ValidYearsAreYears | src/utils/csvParser.ts:227 | Every collected year matches `/^\d{4}$/`. |
| Timeline.ProjectsBounded | src/utils/csvParser.ts:229-232 | A year never lists more projects than it counts. |
| Timeline.ProjectsTrimmed | src/utils/csvParser.ts:230-231 | Every listed project is non-empty and trimmed. |
| Timeline.NoYearNoProjects | src/utils/csvParser.ts:227-233 | A year that no record carries lists no projects. |
| Counting.TalliesSnoc | src/utils/csvParser.ts:173 | Counting one more key is one `m.set(k, (m.get(k) \|\| 0) + 1)`: an existing entry is bumped in place and a new key is appended with count 1. |
| Counting.TalliesSum | src/utils/csvParser.ts:171-174 | The Map's counts add up to the number of keys counted. |
| Counting.TalliesPositive | src/utils/csvParser.ts:171-174 | Every entry has a positive count, and the keys are exactly the keys counted. |
| Counting.DistinctFacts | src/utils/csvParser.ts:125 | A Set holds each inserted value exactly once. |
| Counting.DistinctFirstAppearance | src/utils/csvParser.ts:176 | Map and Set entries iterate in order of the first insertion of each key. |
| Sorting.SortByCountDesc | src/utils/csvParser.ts:181 | The sort by `b.count - a.count` is a permutation, and its result is non-increasing. |
| Sorting.SortByCountDescStable | src/utils/csvParser.ts:181 | The sort is stable: entries with the same count keep their relative order. |
| Sorting.SumSortByCountDesc | src/utils/csvParser.ts:200 | Sorting does not change the total count. |
| Sorting.SortByAscending | src/utils/csvParser.ts:243 | Sorting items with distinct keys by code-point order gives a strictly ascending sequence. |
| Text.TrimIsTrimmed | src/utils/csvParser.ts:89 | `trim` leaves no leading or trailing white space. |
| Text.TrimCutsOnlySpace | src/utils/csvParser.ts:96 | `trim` removes only white space, and only from the two ends. |
| Text.TrimOfTrimmed | src/utils/csvParser.ts:131 | Trimming a trimmed string changes nothing. |
| Text.CapitalizeRoundTrip | src/utils/csvParser.ts:178 | For ASCII keys, lower-casing the displayed form of a lower-cased key gives the key back. |
| Text.CapitalizeInjective | src/utils/csvParser.ts:197 | For ASCII keys, two countries are displayed alike exactly when their lower-cased keys are equal. |
| Text.SplitJoin | src/utils/csvParser.ts:106 | Joining the pieces of `split('\n')` with newlines gives the text back. |
| Text.SplitPieces | src/utils/csvParser.ts:106 | `split` gives one more piece than there are separators, and no piece contains the separator. |
| Text.LessTransitive | src/utils/csvParser.ts:155 | The modelled string order is transitive. |
| Text.LessTotal | src/utils/csvParser.ts:243 | Two distinct strings are always ordered one way or the other. |

## Left out

- Fetching `/innovations.csv`, `async`/`await`, and the `catch` blocks that log with `console.error` and rethrow are not modelled:
  - the CSV text is a parameter of `LoadCategoriesAndData`;
  - the thrown error is the `Err` case of a `Result`.
- `loadAndProcessCSV` (lines 35-75) is not part of this model. It is the older loader that splits at every comma. `src/pages/Index.tsx` imports it but only calls `loadCategoriesAndData`.
- `innovationAnalysisIndex` (line 116) is looked up but never read, so it is not modelled.
- `Text.Lower`/`Text.Capitalize` map ASCII letters only. JavaScript's full Unicode case mapping, including characters whose upper case is longer than one code unit, is not modelled.
- Aggregates.DisplayCountriesDistinct holds for ASCII keys only. In JavaScript `'ı'` (U+0131) is already lower case and upper-cases to `'I'`, and `'ſ'` (U+017F) upper-cases to `'S'`. So countries `"Iran"` and `"ıran"` give two Map keys, `"iran"` and `"ıran"`, that both display as `"Iran"`, and the output then has two entries with the same name.
- Aggregates.CountryCountsFacts: its "no two entries share a name" clause holds for ASCII keys only, for the same reason.
- Text.CapitalizeRoundTrip holds for ASCII keys only: in JavaScript, lower-casing the display form of `"ıran"` gives `"iran"`, not `"ıran"`.
- Text.CapitalizeInjective holds for ASCII keys only: `"iran"` and `"ıran"` have the same display form `"Iran"`.
- Strings are sequences of code points. JavaScript indexes UTF-16 code units, so a character outside the Basic Multilingual Plane is one character here and two in the source.
- `localeCompare` is modelled as code-point order. It is only applied to four-digit ASCII years, where the two orders agree.
- Loader.SortedCategories: the default `sort` of the category list compares UTF-16 code units, and the model compares code points. The two orders differ only when the list mixes characters outside the Basic Multilingual Plane, whose surrogates are U+D800–U+DFFF, with characters U+E000–U+FFFF. Such a list can come out in a different order in the source.
- `Timeline.AddYear`: the source mutates the `existing` object that the Map entry shares. The model replaces the entry by value. This is equivalent because each bucket object is reachable only through its entry.
- `Loader.LoadLines` requires at least one line. `split` always returns at least one piece (`Lines` ensures it), so this only restates what the caller guarantees.
- The dashboard components that call these functions are not part of this model.
