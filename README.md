# Campus planner core in Dafny

This project models the logic of a browser task planner:

- **Task store.** One shared state object holds the task list and the settings (`scripts/state.js`). Four mutators change it: add, update, delete and sort. Two read-side summaries are computed from it: the statistics card and the seven-day trend.
- **Field validators.** A table of regular expressions (`scripts/validators.js`). `validateField` applies it to one field and `validateTask` to a whole draft.
- **Search.** Regular-expression search over the task list (`scripts/search.js`): compiling the user's pattern, filtering the tasks, and highlighting matches.
- **Import check.** The structural check applied to an imported JSON file (`validateImportData` in `scripts/storage.js`).
- **Generic statistics.** Totals, a tally by category and a seven-day trend over records (`scripts/stats.js`).

Modules:

| module | file | contents |
|---|---|---|
| `Common` | common.dfy | JSON values, digit strings, ASCII case mapping, string order, sums, filters, subsequences |
| `Tasks` | tasks.dfy | the task record, the draft the form builds, the update patch |
| `Tally` | tally.dfy | counting by key (the `acc[k] = (acc[k] \|\| 0) + 1` idiom), key order, the two "most frequent" reductions |
| `Buckets` | buckets.dfy | sums by day key as both trend computations do them |
| `Validators` | validators.dfy | each fixed expression as a recogniser, proved equal to a declarative description; `validateField`, `validateTask` |
| `Search` | search.dfy | an abstract regular-expression engine; `compileRegex`, `highlight`, `searchTasks` |
| `Storage` | storage.dfy | `validateImportData` over parsed JSON; the export format it should accept |
| `Stats` | stats.dfy | `calcTotals` and `last7DaysTrend` over generic records |
| `State` | state.dfy | the store as a class with the source's fields, its mutators as methods, `getStats`, `getTrendData` |

Modelling choices:

- **The store.** The shared `state` object is the class `State.Store`. It has the seven fields of the source. Each mutator is a method that modifies only the task list, or the task list and the current sort for `sortTasks`. Each method's contract gives the new list in terms of the old one.
- **Clock and randomness.** These become parameters:
  - `now` is the timestamp a mutator writes;
  - `freshId` is the value `generateId` would return;
  - `today` is a day number and `dayKey(n)` is the `YYYY-MM-DD` key of day `n`;
  - for `getStats`, `firstDay` is the key of the first day of the week window.
- **Regular expressions.**
  - The eight fixed expressions of `VALIDATORS` are written out as recognisers. The anchored title, duration, date and tag patterns are each proved to accept exactly a declaratively described set of strings. So is the back-reference pattern `duplicateWord`.
  - The user's search pattern is compiled by the browser and is not modelled. It is a `Search.Matcher`: a function reporting the leftmost match at or after a position, no match, or an exception. A flag says whether it is global.
- **Sorting.** `Array.prototype.sort` with the store's comparator is modelled by its contract. The result is a permutation of the tasks, ordered by the field's converted key. Over task records, the sort throws (and changes nothing) exactly when the source's comparator would call `toLowerCase` on a missing priority.

## Model

| member | source | states |
|---|---|---|
| `State.Store.constructor` | scripts/state.js:4-12 | the initial state: no tasks, the six default tags, weekly goal 0, minutes, sort by due date ascending, nothing being edited, no search expression |
| `State.NewTask` | scripts/state.js:19-25 | the new record keeps the draft's title, duration, tag, due date and priority; its id is the fresh id (overriding any id in the draft); both timestamps are `now` |
| `State.Store.AddTask` | scripts/state.js:18-28 | the task list becomes the old list with the new record appended, and that record is returned |
| `State.FindById` | scripts/state.js:31 | `findIndex`: the index of the first task with the id, or none exactly when no task has it |
| `State.Merge` | scripts/state.js:33-37 | each field present in the updates replaces the stored one and every absent field is kept; `updatedAt` is always `now` |
| `State.EmptyPatchOnlyTouchesUpdatedAt` | scripts/state.js:33-37 | merging empty updates changes nothing but `updatedAt` |
| `State.Store.UpdateTask` | scripts/state.js:30-41 | with no task of that id: returns null and leaves the list unchanged; otherwise: only the first match is replaced by the merged record, which is returned |
| `State.Store.DeleteTask` | scripts/state.js:43-50 | returns true exactly when some task has the id; then only the first such task is removed; otherwise the list is unchanged |
| `State.DeleteKeepsOrder` | scripts/state.js:46 | `splice(index, 1)` leaves the other tasks in their order, one fewer, with the removed one missing once from the multiset |
| `State.KeyLeTotal` | scripts/state.js:72-76 | the comparator's order on converted keys is total |
| `State.KeyLeTransitive` | scripts/state.js:72-76 | and transitive, so a sorted order exists |
| `State.InOrderTotal` | scripts/state.js:72-76 | ascending or descending, any two tasks are ordered one way or the other |
| `State.InOrderTransitive` | scripts/state.js:72-76 | the task order is transitive in both directions |
| `State.Insert` | scripts/state.js:53 | inserting a task keeps every task: the multiset grows by exactly that task |
| `State.InsertSorted` | scripts/state.js:53-77 | inserting into a sorted list gives a sorted list |
| `State.SortByKey` | scripts/state.js:53-77 | the sorted list is a permutation of the tasks, ordered by the field's key `State.KeyOf` (`parseInt` for duration, lower case for title, tag and priority) ascending for `asc`, descending otherwise |
| `State.Store.SortTasks` | scripts/state.js:52-80 | succeeds exactly when the comparator cannot throw (`State.SortThrows` says when it can); then the list is a permutation of the old one, sorted by the field in the requested order, and the current sort is recorded; on a throw nothing changes |
| `State.SortThrowsOnlyOnMissingPriority` | scripts/state.js:67-70 | `State.SortThrows`: over task records the sort can throw only for `priority`; it never throws when every task has a priority or there are fewer than two tasks |
| `State.TagsOf` | scripts/state.js:89-91 | the tags in task order |
| `State.TopTag` | scripts/state.js:92-94 | `-` for no tasks, otherwise the tag of some task |
| `State.GetStats` | scripts/state.js:82-105 | `total` is the number of tasks; for no tasks the top tag is `-` and both minute counts are 0; otherwise the top tag belongs to a task |
| `State.TopTagIsLastMostFrequent` | scripts/state.js:88-94 | the top tag has the largest count, and every tag first seen after it has a strictly smaller count (ties go to the later tag) |
| `State.TopTagDashIffEmpty` | scripts/state.js:92-94 | when no task is tagged `-`, the top tag is `-` exactly when there are no tasks |
| `State.TopTagTieGoesToLater` | scripts/state.js:93 | tasks tagged A then B give B |
| `State.WeekWithinTotal` | scripts/state.js:84-101 | with durations not negative, the week's minutes never exceed the total minutes |
| `State.FilterSumWithin` | scripts/state.js:99-101 | a filtered sum of non-negative durations lies between 0 and the full sum |
| `State.FutureTasksCount` | scripts/state.js:97-101 | the week filter `State.DueOnOrAfter`: a task with a valid due date on or after the window's first day counts its whole duration for the week |
| `State.MinutesAddUp` | scripts/state.js:84-101 | appending a task adds its duration to the total minutes, and to the week's minutes exactly when its due date is in the window (no upper bound) |
| `State.MonthDay` | scripts/state.js:120 | `substring(5)`: the key is its first five characters followed by the label; a shorter key gives the empty label |
| `State.TrendData` | scripts/state.js:107-125 | seven entries, oldest first: entry j is the `MM-DD` label of day today-6+j, with the summed minutes of the tasks due that day |
| `State.TrendWithinTotal` | scripts/state.js:111-122 | for distinct day keys and non-negative durations, the seven day buckets add up to at most the total minutes, and exactly to it when every task is due in the window |
| `Validators.TitleExactly` | scripts/validators.js:3 | the title pattern's recogniser `Validators.MatchesTitle` accepts exactly non-empty strings without line terminators whose first and last characters are not white space |
| `Validators.DuplicateWordSound` | scripts/validators.js:7 | every match the recogniser finds is a match of the expression: a word at a boundary, white space, the same word ignoring case, a boundary |
| `Validators.DuplicateWordComplete` | scripts/validators.js:7 | every way the expression can match is found by the recogniser |
| `Validators.DuplicateWordExactly` | scripts/validators.js:7 | the recogniser `Validators.HasDuplicateWord` finds a duplicate exactly when the expression can match |
| `Validators.DurationExactly` | scripts/validators.js:4 | the duration pattern's recogniser `Validators.MatchesDuration` accepts exactly non-empty digit strings that do not start with 0 |
| `Validators.DurationOfNumber` | scripts/validators.js:38 | the string of an integral duration passes exactly when the duration is positive |
| `Validators.DurationRejections` | scripts/validators.js:4 | `0`, `01`, `-5` and the empty string are refused and `90` accepted |
| `Validators.DateExactly` | scripts/validators.js:5 | the date pattern's recogniser `Validators.MatchesDate` accepts exactly `DDDD-MM-DD` with a month from 1 to 12 and a day from 1 to 31 |
| `Validators.DateLeniency` | scripts/validators.js:5 | there is no per-month day check: 2024-02-30 and 2023-02-29 pass; month 13, day 32 and a one-digit month do not |
| `Validators.TagExactly` | scripts/validators.js:6 | the tag pattern's recogniser `Validators.MatchesTag` accepts exactly runs of ASCII letters joined by single spaces or hyphens |
| `Validators.TagExamples` | scripts/validators.js:6 | `Art`, `Self-Care` and `Go Run` pass; a trailing space, a leading hyphen, doubled separators, a digit and the empty string do not |
| `Validators.SearchPatternExamples` | scripts/validators.js:10-12 | examples for `tagSearch` (`Validators.MatchesTagSearch`: a word character after `@`), `timePattern` (`Validators.HasTimePattern`: digits around a colon on word boundaries) and `studyKeywords` (`Validators.HasStudyKeyword`: case ignored) |
| `Validators.TimeHasColon` | scripts/validators.js:11 | a time found has one or two hour digits, a colon and two minute digits |
| `Validators.ValidateField` | scripts/validators.js:15-29 | an empty value fails; a field without an entry (`Validators.HasValidator`) passes; a title passes exactly when it has the title shape and no duplicate word; duration, date and tag pass exactly when their shapes hold, which is what their entries' test `Validators.TestValidator` checks |
| `Validators.DueDateFieldIsUnchecked` | scripts/validators.js:24-28 | `dueDate` has no entry of its own, so any non-empty value passes `validateField('dueDate', v)` |
| `Validators.ValidateTask` | scripts/validators.js:31-54 | valid exactly when there are no errors; only the four field names occur; each field's error is present exactly when its check fails (duration: when it is not positive), with its own message |
| `Search.CompileRegex` | scripts/search.js:4-10 | an empty pattern gives null; otherwise the engine's result, where null stands for a syntax error |
| `Search.EmptyInputCompilesToNothing` | scripts/search.js:6 | the empty pattern never yields an expression, whatever the flags |
| `Search.Spans` | scripts/search.js:16 | the matches a global `replace` collects: each `exec` starts where the previous match ended (one further after an empty match); the spans lie in order inside the text, the first is the first `exec` result, and a throw at any step gives none |
| `Search.MarkAll` | scripts/search.js:16 | the global replace scan: removing the marks from the pieces it builds gives back the scanned text from the start position |
| `Search.MarkAllMarksSpans` | scripts/search.js:16 | the replace scan fails exactly when the scan of matches throws at some step, and otherwise its marked pieces, in order, are exactly the texts of the successive matches |
| `Search.MarkAllInterleavesSpans` | scripts/search.js:16 | the pieces are the text interleaved with the scan's spans (`Search.Interleave`): the text before each match plain, the match marked at its own position, the text after the last match plain |
| `Search.InterleaveMarksInPlace` | scripts/search.js:16 | a match at `[2, 3)` of `xax` gives `xa` plain, `x` marked and an empty tail, so the mark sits on the matched occurrence |
| `Search.Marks` | scripts/search.js:16 | dropping the `<mark>` wrappers gives back the text; no match gives the text as one plain piece; without `g` a match gives the text before it, the match marked, and the text after it; with `g` the pieces are the text interleaved with the scan's spans, each match marked where it was found, and any throw during the scan gives none |
| `Search.Highlight` | scripts/search.js:12-20 | no expression or a non-string gives the input back; otherwise the rendering of the marked pieces, each match wrapped in `<mark>`; an exception anywhere in the scan, or no match, gives the text itself |
| `Search.HighlightFirstLiteral` | scripts/search.js:16 | without `g`, `x` in `xax` gives `<mark>x</mark>ax` |
| `Search.HighlightEveryLiteral` | scripts/search.js:16 | with `g`, `x` in `xax` gives `<mark>x</mark>a<mark>x</mark>` |
| `Search.HighlightKeepsText` | scripts/search.js:16 | highlighting a string gives a string that renders pieces whose unmarked text is the original |
| `Search.AnyHit` | scripts/search.js:26-30 | the `\|\|` chain, left to right: a miss exactly when every field missed; otherwise the verdict is that of the first field that did not miss, so an exception in an earlier field wins over a match in a later one |
| `Search.TaskVerdictOfTotalEngine` | scripts/search.js:25-31 | `Search.TaskVerdict` over the fields `Search.SearchFields`: with an engine that never throws, a task is kept exactly when its title, tag, duration, due date or non-empty priority matches |
| `Search.NoThrowVerdict` | scripts/search.js:26-30 | if no `test` throws, the chain does not throw |
| `Search.SearchTasks` | scripts/search.js:22-32 | no expression gives the tasks back; otherwise it fails exactly when a test throws; the result keeps the tasks' order and holds every copy of each task some field of which matches, and no other task |
| `Search.SearchTasksAsWritten` | scripts/search.js:25-31 | the filter with `lastIndex` shared between tests: with or without `g`, the result is an order-preserving subsequence of the tasks, each kept task matches from some `lastIndex`, a failure means the test of some task threw from some `lastIndex`, and an engine that never throws never makes it fail; without `g` it equals `SearchTasks` |
| `Search.FilterFromIsSubsequence` | scripts/search.js:25 | the threaded filter `Search.FilterFrom` keeps an order-preserving subsequence of the tasks |
| `Search.FilterFromKeepsHits` | scripts/search.js:25-31 | every task the threaded filter keeps matched from some `lastIndex` |
| `Search.FilterFromFailsOnThrow` | scripts/search.js:25-31 | the threaded filter fails only when the test of one of the tasks, from some `lastIndex`, threw |
| `Search.FilterFromNeverFails` | scripts/search.js:25-31 | with an engine that never throws, the threaded filter never fails |
| `Search.ChainNeverThrows` | scripts/search.js:26-30 | with an engine that never throws, the threaded `\|\|` chain never throws |
| `Search.StatelessChain` | scripts/search.js:26-30 | `Search.Test` and `Search.AnyHitFrom` thread `lastIndex` through the tests; without `g`, the threaded chain gives the plain verdict and leaves `lastIndex` alone |
| `Search.StatelessFilter` | scripts/search.js:25-31 | `Search.FilterFrom`, the filter as written: without `g`, the threaded filter is the plain filter, failing exactly when some test throws |
| `Search.LiteralIsSound` | scripts/search.js:16-26 | a literal-pattern engine reports spans inside the text at or after the start position |
| `Search.GlobalSearchDropsMatches` | scripts/search.js:25-30 | two tasks titled `x` and the pattern `x` with `g`, from lastIndex 0: the intended filter keeps both, the one as written keeps only the first |
| `Storage.ValidateImportData` | scripts/storage.js:56-72 | a non-array gives the array message; an empty array is accepted |
| `Storage.AcceptedIff` | scripts/storage.js:61-71 | the per-item checks `Storage.ItemCheck`, run by the loop `Storage.FirstFailure`: the loop accepts exactly when every item passes its checks |
| `Storage.FailureIsFirstOffender` | scripts/storage.js:61-69 | a rejection or exception is the outcome of the first item that fails, all earlier items passing |
| `Storage.OutcomeMessages` | scripts/storage.js:56-72 | every rejection carries one of the three messages; an exception happens only for an array holding `null` |
| `Storage.ValidIff` | scripts/storage.js:56-72 | accepted exactly when the data is an array each item of which has truthy id, title, duration, tag and due date and a duration that is a number greater than 0; such items are objects |
| `Storage.DurationCases` | scripts/storage.js:62-68 | a duration of 0 is reported as a missing field; `"10"` and -1 as a bad duration; 0.5 is accepted |
| `Storage.TaskToJson` | scripts/storage.js:46 | a task as `JSON.stringify` writes it for the export (and `JSON.parse` reads it back on import) is a JSON object whose keys are exactly id, title, duration, tag, dueDate, createdAt and updatedAt, plus priority when the task has one; each holds the task's value, the duration as a number |
| `Storage.ExportIsImportable` | scripts/storage.js:56-72 | an export of tasks with non-empty id, title, tag and due date and positive durations is accepted on import |
| `Storage.ExportOfDegenerateTaskIsRefused` | scripts/storage.js:62-64 | an export holding a task of 0 minutes or an empty title is refused as missing fields |
| `Stats.CalcTotals` | scripts/stats.js:1-7 | `count` is the number of records; `byCat` has exactly the categories that occur, each with its number of records; no records gives no top category |
| `Stats.TotalOfConcatenation` | scripts/stats.js:2 | one record totals its amount `Stats.AmountOf` (`Number(r.amount \|\| 0)`), negative ones included, and a missing amount 0; no records total 0; the total of a concatenation is the sum of the totals |
| `Stats.ByCategorySumsToCount` | scripts/stats.js:3-4 | the category counts add up to `count` |
| `Stats.TopCategoryPresent` | scripts/stats.js:5 | records whose categories are non-empty always have a top category |
| `Stats.TopCategoryIsFirstMostFrequent` | scripts/stats.js:5 | the top category has the largest count, and every category first seen before it has a strictly smaller one (ties go to the earlier category) |
| `Stats.TrendKeys` | scripts/stats.js:11-13 | seven keys, oldest first, entry j being day today-6+j |
| `Stats.Last7DaysTrend` | scripts/stats.js:10-18 | seven entries from six days ago to today; each holds its day's key and the amounts of the records dated that key |
| `Stats.DaySumAddsMatchingRecord` | scripts/stats.js:14 | a new record adds its amount to a day's sum exactly when its date is that day's key |
| `Stats.TrendBoundedByTotal` | scripts/stats.js:2-18 | for distinct day keys and non-negative amounts, the trend adds up to at most the total, and exactly the total when every record is dated in the window |
| `Tally.Keys` | scripts/stats.js:4-5 | the keys of the tally: each value that occurs, once |
| `Tally.Tally` | scripts/state.js:88-91 | the count map holds exactly the values that occur, each mapped to its number of occurrences |
| `Tally.KeysInFirstOccurrenceOrder` | scripts/state.js:92-93 | `Object.keys` of the tally lists the keys in order of first occurrence |
| `Tally.TallySumsToLength` | scripts/state.js:88-91 | the counts add up to the number of values |
| `Tally.ReduceTopIsLastMaximum` | scripts/state.js:93 | the `reduce` (`Tally.ReduceTop`) keeps a key with the largest count, after which every key has a smaller count |
| `Tally.FirstTopIsFirstMaximum` | scripts/stats.js:5 | `Tally.FirstTop`: the first key with the largest count: every earlier key has a smaller one |
| `Tally.StableSortHeadIsFirstTop` | scripts/stats.js:5 | the head of a stable sort by descending count is the first key with the largest count |
| `Tally.ReduceTopOfTally` | scripts/state.js:88-94 | over a tally, the reduce picks a maximal key that beats every key first seen after it |
| `Tally.FirstTopOfTally` | scripts/stats.js:4-5 | over a tally, the first maximal key beats every key first seen before it |
| `Buckets.BucketSumSnoc` | scripts/stats.js:14 | one day's sum `Buckets.BucketSum` (also scripts/state.js:116-118): a new element adds its amount to its own bucket only |
| `Buckets.BucketsTotalSnoc` | scripts/state.js:116-118 | with distinct keys, a new element adds its amount to the total of all buckets at most once |
| `Buckets.BucketsBoundedByTotal` | scripts/state.js:116-118 | with distinct keys and non-negative amounts, the buckets hold at most the overall sum, and exactly it when every element falls in a bucket |
| `Buckets.PointwiseBuckets` | scripts/stats.js:11-16 | a list holding one bucket sum per key adds up to the total of the buckets |
| `Common.NatToStringShape` | scripts/validators.js:38 | `toString` of an integral number is `Common.IntToString` (a minus sign, then the digits); that of a natural number is a digit string, starting with 0 only for 0 |
| `Common.SumOfAppend` | scripts/state.js:84 | the `reduce` sum `Common.SumOf` over a concatenation is the sum of the two sums |
| `Common.FilterMultiset` | scripts/search.js:25 | `filter` (`Common.Filter`) keeps every copy of an element that passes and none of one that does not |
| `Common.FilterIsSubsequence` | scripts/search.js:25 | `filter` keeps a subsequence |
| `Common.SubsequenceCons` | scripts/search.js:25 | putting one element in front of the whole, or of both sequences, keeps a subsequence |
| `Common.RemoveAtIsSubsequence` | scripts/state.js:46 | removing one element keeps a subsequence |
| `Common.Lower` | scripts/state.js:63-64 | `toLowerCase` on ASCII: the same length, each upper-case ASCII letter mapped to its lower-case letter and every other character kept |
| `Common.StrLeTotal` | scripts/state.js:73-75 | string comparison `Common.StrLe` is total |
| `Common.StrLeTransitive` | scripts/state.js:73-75 | string comparison is transitive |

## Left out

- The regular-expression engine: the user's pattern is an abstract `Matcher`, and syntax errors are the engine's null result. Only the `g` flag is modelled. The `i` flag's case folding is the engine's business, and sticky and other flags do not occur.
- Case: `toLowerCase` and the case-insensitive back-reference are modelled on ASCII letters only. Strings are sequences of code points rather than UTF-16 code units.
- Dates and the clock: `Date`, `setDate`, `toISOString` and time zones are not modelled.
  - The trend computations take the day keys as a function `dayKey` of a day number.
  - State.GetStats: the week filter `new Date(t.dueDate) >= sevenDaysAgo` is stated as "a valid `YYYY-MM-DD` due date not before the key `firstDay`". This assumes the caller passes the key of the earliest day still counted. Due dates in other formats that `Date` can parse, and ones it cannot (giving `Invalid Date`), are both treated as not counting. A due date of the right shape that names no real day (`2024-02-30`, `2023-02-29`, which pass the date pattern) is compared by its key, whatever `new Date` makes of it: engines differ between `Invalid Date` and rolling over into March.
- Hours: `totalHours`, `weekHours`, the trend's hour strings, `minutesToHours` and `hoursToMinutes` use floating point and `toFixed`. They are left out; the model keeps the minute counts.
- Default arguments: `compileRegex(input, flags = 'gi')` and `sortTasks(field, order = 'asc')` take both arguments in the model, as every call in scripts/main.js and scripts/ui.js passes both.
- `generateId` (clock and `Math.random`) and the timestamps are parameters of the mutators.
- State.NewTask: other properties the spread operator would copy from a draft are not modelled.
- State.Merge: an update carrying a field explicitly set to `undefined` is not distinguished from an absent field.
- Durations and amounts are unbounded integers. `parseInt` of a non-integral stored duration and `Number()` of a non-numeric amount are not modelled.
- Common.Json: `JSON.parse` rounds number text to the nearest double, so `"duration": 1e-400` parses to 0 and scripts/storage.js:62 reports a missing field. A `JNumber` holds the double `JSON.parse` produced; the model does not round number text, so `Storage.IsPositiveNumber` holds of every positive real, including ones no double represents.
- Tasks.Task and State.SortThrows: the task record has string title, tag, due date and priority. Imported data is stored as it is once `validateImportData` accepts it (scripts/main.js:271), and that check accepts any truthy title, tag or due date (scripts/storage.js:61-69), a number included. Such items are not represented, and for them `sortTasks` can throw on any of the string-keyed fields (`toLowerCase` at scripts/state.js:63-64 and 68-69 of a non-string), which `State.SortThrows` does not describe.
- Validators.ValidateTask: the duration string is the decimal rendering `Common.IntToString`. `Number.prototype.toString` switches to exponent form from 10^21 on (`1e+21` fails the duration pattern), and integers above 2^53 lose precision; the model promises the duration error exactly for durations not positive, which holds for durations below 10^21 only. `Search.SearchFields` renders the duration the same way.
- Stats.Record: `Number(r.amount || 0)` on a non-number is not modelled.
- `Stats.CalcTotals` does not state the order of `Object.keys` for integer-like category names. ECMAScript lists those first, in numeric order; the model lists every key in first-occurrence order. The same applies to `State.TopTag`.
- State.SortByKey:
  - The comparator never answers 0 and is not a consistent comparison function. ECMAScript then leaves the resulting order implementation-defined. The model states instead the order the comparator expresses—a permutation sorted by the converted key—and not the stability or the exact order of equal keys.
  - Keys of different kinds (a number against a string, `undefined` against a string) never meet in one sort of the store. They are given an arbitrary fixed order.
  - The `undefined` key of a field name that is not a task property leaves the order as any permutation.
- `VALIDATORS[field]` with a field name that is an `Object.prototype` property (`constructor`, `toString`, …) would call a non-regex's `test`. The model treats those names as having no entry.
- Tally.Tally: the tag count of `getStats` (scripts/state.js:90) and the category count of `calcTotals` (scripts/stats.js:4) are plain objects, so a tag or category named after an inherited `Object.prototype` property (`constructor`, `toString`, `valueOf`, which pass the tag pattern) starts from that inherited function: its count becomes a string, which changes the `>` of the top-tag reduce and the `b - a` of the category sort. The model counts such names like any other.
- `localStorage`, the export download (`Blob`, object URLs), `FileReader` and `JSON.parse` are I/O. `Storage.ValidateImportData` takes the parsed value. The other functions of `scripts/storage.js` are not part of this model.
- `scripts/main.js` and `scripts/ui.js` (DOM, events, rendering) are not part of this model. Only the flags they pass (main.js:166) and the sort they request (ui.js:303-313) inform the model.

Places where the behaviour of the code differs from what its description suggests, modelled as the code does it:

- `getStats`'s top tag: on a tie, the tag seen later wins (`State.TopTagTieGoesToLater`). `calcTotals`'s top category does the opposite: the sort is stable, so the tie goes to the category seen first.
- The top tag `-` is ambiguous when a task is itself tagged `-` (`State.TopTagDashIffEmpty` needs that excluded).
- `calcTotals` turns an empty-string top category into `null` through `|| null`.
- The week window of `getStats` has no upper bound: tasks due in the future count.
- `sortTasks` by `priority` throws when one of two or more tasks has no priority. `State.Store.SortTasks` returns `false` and changes nothing in that case. (Imported items with non-string fields can make other sorts throw too; see `Tasks.Task` under "Left out".)
- A duration of 0 in imported data is reported as a missing field, not as a bad duration (`Storage.DurationCases`).

## Findings

| source | as written | input that shows it | evidently intended | confidence | as-written member | corrected member |
|---|---|---|---|---|---|---|
| scripts/search.js:25-30 (with the flags of scripts/main.js:166) | the filter calls `test` on an expression compiled with the `g` flag, so `lastIndex` carries over from one task's fields to the next | two tasks both titled `x`, pattern `x` with flags `g` or `gi`: the first test moves `lastIndex` to 1; the second task's title is then tested from position 1 and misses, which resets `lastIndex` to 0; its other fields, tested from 0, hold no `x` and miss too (`Search.SampleFromOne`), so only the first task is kept | every task some field of which matches is kept, each test starting at position 0 | not executed | `Search.SearchTasksAsWritten` (`Search.GlobalSearchDropsMatches`) | `Search.SearchTasks` |
