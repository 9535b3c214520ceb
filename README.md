# Cost optimization analyzer — a Dafny model of its expense core

The cost optimization analyzer is a small expense tracker. A Mongoose
schema describes an expense: a category drawn from eight fixed labels, a
trimmed description, a non-negative amount, a date, an `optimizable` flag
and non-negative potential savings. Creation and update timestamps are
kept automatically. An Express controller offers five operations over the
stored expenses: list (newest first), get, create, update and delete. It
also computes one analytics summary over all of them:
- total expenses, total savings and the savings percentage;
- the number of optimizable expenses and the number of all expenses;
- a per-category breakdown of the amounts;
- a month-by-month trend of the recent ones.

A React component turns that summary into the data for three charts.

The model has six files:

- `wrappers.dfy` (`Wrappers`): the `Option` type. `None` stands for a field that a request body leaves out.
- `sorting.dfy` (`Sorting`): a stable insertion sort, generic over a "may come first" relation. It is proved to yield a permutation that is sorted, and to keep distinct elements distinct. It stands for the database's `sort({ date: -1 })` and for `Array.prototype.sort`.
- `expense.dfy` (`ExpenseModel`): the schema.
  - the category enum with its labels;
  - JavaScript's `String.prototype.trim`;
  - the defaults filled in on creation;
  - validation, with one violation per path;
  - the stored record.
- `analytics.dfy` (`Analytics`): the summary computed by `getAnalytics`.
  - the JavaScript `reduce` and `filter` computations are left folds and filters over the list of records;
  - the `$match`/`$group`/`$sort` aggregation is a grouping by (year, month) with its contents proved.
- `store.dfy` (`ExpenseStore`): the collection as a class. It holds a map from id to record and an id counter, with one method per controller action. Each method's contract states the whole new state.
- `charts.dfy` (`Charts`): the three chart data arrays built at the top of the `Analytics` component.

Modelling choices:
- Amounts are `real`.
- A date is an abstract `Date(year, month, offset)` ordered lexicographically. `offset` orders instants within one month.
- The current instant ("now") and the six-months-ago cutoff are parameters.
- A stored record's id comes from a counter.

## Model

| member | source | states |
|---|---|---|
| ExpenseModel.DateLeIsTotalOrder | backend/controllers/expenseController.js:8 | the date order used to sort expenses is reflexive, total, antisymmetric and transitive |
| ExpenseModel.AllCategoriesListed | backend/models/Expense.js:8-17 | every category is among the eight enum values, listed once each |
| ExpenseModel.ParseCategory | backend/models/Expense.js:8-17 | a string accepted as a category is exactly that category's label |
| ExpenseModel.ParseLabel | backend/models/Expense.js:5-18 | a category's label is accepted as that category; a string is accepted exactly when it is one of the eight labels |
| ExpenseModel.LabelInjective | backend/models/Expense.js:8-17 | distinct categories have distinct labels |
| ExpenseModel.Trim | backend/models/Expense.js:22 | the trimmed description neither starts nor ends with whitespace |
| ExpenseModel.TrimSpec | backend/models/Expense.js:22 | trimming keeps a contiguous slice of the input and drops only whitespace around it; the result is empty exactly when the input is all whitespace |
| ExpenseModel.TrimIdempotent | backend/models/Expense.js:22 | trimming twice is trimming once; a trimmed string is left as it is |
| ExpenseModel.TrimmedUnchanged | backend/models/Expense.js:22 | a string without surrounding whitespace is its own trim |
| ExpenseModel.WithDefaults | backend/models/Expense.js:19-42 | a supplied description reaches validation already trimmed |
| ExpenseModel.CategoryViolations | backend/models/Expense.js:5-18 | the category passes exactly when it is one of the labels; otherwise exactly one violation: "required" when missing or empty, "not in enum" for any other unknown string |
| ExpenseModel.DescriptionViolations | backend/models/Expense.js:19-23 | the description passes exactly when present and non-empty; otherwise the one "required" violation |
| ExpenseModel.AmountViolations | backend/models/Expense.js:24-28 | the amount passes exactly when present and not negative; otherwise exactly one violation: "required" when missing, "negative" when below 0 |
| ExpenseModel.Violations | backend/models/Expense.js:3-43 | a document has no violations exactly when every path passes; each violation is reported exactly when its condition holds (a missing or empty category is "required", not "not in enum"; a missing amount is "required", not "negative"), so never two on the same path |
| ExpenseModel.Validate | backend/models/Expense.js:3-43 | an accepted document is a valid expense whose fields are exactly the document's; a rejected one carries the non-empty set of all its violations (a missing or unknown category, a missing or blank description, a missing or negative amount, negative savings) |
| ExpenseModel.ValidateAcceptsValid | backend/models/Expense.js:3-43 | every valid expense passes validation unchanged |
| ExpenseModel.CreateRoundTrip | backend/controllers/expenseController.js:35-46 | creating from all the fields of a valid expense stores exactly those fields |
| ExpenseModel.CreateDefaults | backend/models/Expense.js:29-42 | a body with only a category label, a non-blank description and a non-negative amount is stored with the trimmed description, the current date, `optimizable` false and savings 0 |
| ExpenseModel.CreateFieldByField | backend/models/Expense.js:19-42 | field by field, a created record holds the supplied category, the supplied description trimmed and the supplied amount; date, `optimizable` and savings are the supplied values, or the creation time, `false` and 0 when omitted |
| ExpenseModel.CreateRejects | backend/models/Expense.js:5-42 | a missing or unknown category, a missing description, a negative amount or negative savings makes creation fail |
| Sorting.Insert | frontend/src/components/Analytics.jsx:11 | inserting adds exactly one element to the multiset of elements |
| Sorting.Sort | frontend/src/components/Analytics.jsx:11 | sorting is a permutation of its input |
| Sorting.SortSorted | frontend/src/components/Analytics.jsx:11 | under a total preorder, the sorted sequence is ordered |
| Sorting.SortDistinct | backend/controllers/expenseController.js:8 | sorting repeats no element that its input did not repeat |
| Analytics.Select | backend/controllers/expenseController.js:113 | the filtered records are exactly the records satisfying the predicate, no more of them than there were |
| Analytics.SelectCount | backend/controllers/expenseController.js:113 | a filter keeps each qualifying record as often as it occurs: its length is the number of qualifying positions |
| Analytics.SumAmounts | backend/controllers/expenseController.js:107 | the total of amounts that are all non-negative is non-negative |
| Analytics.SumSavings | backend/controllers/expenseController.js:110 | the total of savings that are all non-negative is non-negative |
| Analytics.SumAmountsAppend | backend/controllers/expenseController.js:107 | the total of two lists joined is the sum of their totals, so the running sum adds each amount exactly once |
| Analytics.SumsNonNegative | backend/controllers/expenseController.js:107-110 | over valid records the total amount and the total savings are non-negative |
| Analytics.SelectSumBound | backend/controllers/expenseController.js:127-129 | over valid records a filtered subset never adds up to more than the whole |
| Analytics.OptimizableCount | backend/controllers/expenseController.js:113 | the optimizable count is at most the number of records |
| Analytics.OptimizableCountIsCount | backend/controllers/expenseController.js:113 | the optimizable count is the number of positions holding an optimizable record (an instance of SelectCount) |
| Analytics.CategoryBreakdown | backend/controllers/expenseController.js:116-119 | the breakdown has a key exactly for each category that occurs, mapped to the sum of that category's amounts |
| Analytics.BreakdownSumsToTotal | backend/controllers/expenseController.js:107-119 | the breakdown's values add up to the total expenses |
| Analytics.SavingsPercentage | backend/controllers/expenseController.js:151 | with positive total expenses the percentage times the total is 100 times the savings; otherwise it is 0 |
| Analytics.PercentageNonNegative | backend/controllers/expenseController.js:151 | with non-negative savings the percentage is not negative |
| Analytics.SavingsPercentageBounds | backend/controllers/expenseController.js:151 | when the savings do not exceed the expenses the percentage lies between 0 and 100 |
| Analytics.AddTo | backend/controllers/expenseController.js:132-139 | adding one record to the groups keeps them in ascending months and non-empty, adds its month, and raises the counts by one and the totals by its amount |
| Analytics.AddToCounts | backend/controllers/expenseController.js:132-139 | adding one record raises its own month's count by one and total by its amount and leaves every other month as it was |
| Analytics.Group | backend/controllers/expenseController.js:131-143 | the groups are in ascending (year, month) order and each holds at least one record |
| Analytics.MonthlyTrend | backend/controllers/expenseController.js:121-144 | the trend of the records dated on or after the cutoff is in ascending months, every entry holds at least one record, and no entry is for a month before the cutoff's |
| Analytics.GroupInWindow | backend/controllers/expenseController.js:127-139 | grouping records dated on or after the cutoff gives no entry for a month before the cutoff's |
| Analytics.GroupSpec | backend/controllers/expenseController.js:132-139 | each month's count and total are those of its own records, there is an entry exactly for the months that occur, and counts and totals add up to the whole |
| Analytics.AscendingIsStrict | backend/controllers/expenseController.js:141-143 | each month comes strictly before every later one, so no month appears twice |
| Analytics.EntryIsWholeMonth | backend/controllers/expenseController.js:132-139 | an entry's count and total are all that its month receives |
| Analytics.MonthAbsent | backend/controllers/expenseController.js:141-143 | a month before the first entry of an ascending trend receives nothing |
| Analytics.MonthlyTrendSpec | backend/controllers/expenseController.js:121-144 | the monthly trend covers exactly the months of the records dated on or after the cutoff; each entry counts and sums that month's records; the entries add up to the whole window |
| Analytics.Summarize | backend/controllers/expenseController.js:102-154 | the summary counts every record, its optimizable count is no larger, its breakdown adds up to its total expenses, and its trend counts no more records than there are |
| Analytics.SummaryConsistent | backend/controllers/expenseController.js:102-154 | the summary is consistent: the optimizable count is at most the total count, which is the number of records; the breakdown adds up to the total; nothing is negative; the percentage is 0 with no expenses; the trend counts and totals stay within the whole |
| ExpenseStore.Merge | backend/controllers/expenseController.js:67-72 | the merged document always carries a trimmed description |
| ExpenseStore.MergeFieldByField | backend/controllers/expenseController.js:65-74 | a saved update takes the category and description from the body when they are non-empty and the other four fields when they are present, and keeps the stored value otherwise |
| ExpenseStore.MergeNothing | backend/controllers/expenseController.js:67-72 | a body that supplies nothing leaves the stored fields as they were |
| ExpenseStore.MergeIdempotent | backend/controllers/expenseController.js:65-74 | applying the same update body twice gives the same fields as applying it once |
| ExpenseStore.Scan | backend/controllers/expenseController.js:104 | the scanned list holds every stored record, each under its own id, ids strictly increasing |
| ExpenseStore.ScanCount | backend/controllers/expenseController.js:153 | the scanned list holds one element per stored record |
| ExpenseStore.NewerOrSameIsTotalPreorder | backend/controllers/expenseController.js:8 | newest-first date order is a total preorder |
| ExpenseStore.Store.constructor | backend/models/Expense.js:53 | a new collection is empty and valid |
| ExpenseStore.Store.Create | backend/controllers/expenseController.js:35-52 | a valid body is stored under a fresh id with both timestamps at `now`, and nothing else changes; an invalid one is rejected with its violations and the store is unchanged |
| ExpenseStore.Store.Get | backend/controllers/expenseController.js:18-30 | the record under the id, or not found exactly when there is none |
| ExpenseStore.Store.Update | backend/controllers/expenseController.js:57-79 | not found leaves the store unchanged; a rejected merge leaves it unchanged; an accepted merge replaces only that record, keeping `createdAt` and refreshing `updatedAt` exactly when a field changed |
| ExpenseStore.Store.Delete | backend/controllers/expenseController.js:84-97 | removes exactly the record under the id, or reports not found and changes nothing |
| ExpenseStore.Store.List | backend/controllers/expenseController.js:6-13 | every stored record appears exactly once, nothing else appears, and dates never increase along the list |
| ExpenseStore.Store.Summary | backend/controllers/expenseController.js:102-158 | the summary of all stored records: its total count is the number of records, its optimizable count is no larger, and its breakdown adds up to its total |
| ExpenseStore.DeleteTwice | backend/controllers/expenseController.js:84-97 | deleting the same id twice succeeds at most once; the second call reports not found |
| ExpenseStore.CreateThenGet | backend/controllers/expenseController.js:35-52 | a created record is found under the id it was given; a rejected body stores nothing |
| Charts.CategoryData | frontend/src/components/Analytics.jsx:9-11 | one slice per breakdown key, named by its label and carrying its value, largest first, with no name twice; no slices when the breakdown is missing |
| Charts.Entries | frontend/src/components/Analytics.jsx:9-10 | each entry names a breakdown key by its label and carries that key's value, and every key has its entry |
| Charts.EntriesDistinctNames | frontend/src/components/Analytics.jsx:9-10 | with no category listed twice, no two entries share a name |
| Charts.CategorySlicesSum | frontend/src/components/Analytics.jsx:9-11 | the slices add up to the breakdown's total |
| Charts.SortKeepsSum | frontend/src/components/Analytics.jsx:11 | sorting the slices by value does not change their sum |
| Charts.Points | frontend/src/components/Analytics.jsx:13-20 | one point per trend entry, in order, carrying its month, total and count |
| Charts.MonthlyData | frontend/src/components/Analytics.jsx:13-20 | no points when the trend is missing; otherwise one point per trend entry, in order, carrying its month, total and count |
| Charts.PointsAscending | frontend/src/components/Analytics.jsx:13-20 | points drawn from an ascending trend are in strictly ascending months |
| Charts.MonthlyPointsOfTrend | frontend/src/components/Analytics.jsx:13-20 | the monthly points run in strictly ascending months and add up to the amount spent in the window |
| Charts.OptimizableData | frontend/src/components/Analytics.jsx:22-25 | two shares, "Optimizable" with the optimizable count and "Fixed" with the rest, adding up to the total count |
| Charts.CategoryChartOfSummary | frontend/src/components/Analytics.jsx:9-11 | the category chart drawn from a summary adds up to its total expenses |
| Charts.MonthlyChartOfSummary | frontend/src/components/Analytics.jsx:13-20 | the monthly chart drawn from a summary is in strictly ascending months and adds up to no more than the total expenses |
| Charts.OptimizableChartOfSummary | frontend/src/components/Analytics.jsx:22-25 | neither share of the optimizable chart is negative, and together they count every record |

## Left out

- Mongoose type casting is not modelled: strings for numbers, numbers for strings and invalid dates. Values supplied as JSON `null` or with the wrong JavaScript type are not modelled either. A field is either absent (`None`) or a value of the right type.
- Floating point is not modelled: amounts, totals and the percentage are exact reals.
- `SavingsPercentage` does not model `toFixed(2)` rounding, or the string result it gives when the expenses are positive. It is the exact ratio.
- The calendar arithmetic of `setMonth(getMonth() - 6)` and the clock (`Date.now`, `new Date()`) are not modelled. "Now" and the cutoff are parameters.
- The `$year`/`$month` of a stored date is taken from the `Date` value itself (UTC in the database). Time zones are not modelled.
- Charts.Points and Charts.MonthlyData carry the (year, month) key instead of the `toLocaleDateString('en-US', …)` label text. Locale formatting is not modelled.
- Charts.CategoryData lists the breakdown keys in the enum's declaration order before the stable sort. `Object.entries` gives them in first-occurrence order. The two differ only in how slices with equal values are ordered.
- ExpenseStore.Store.List does not promise an order among records with the same date. The database promises none either.
- Record ids come from a counter, not MongoDB `ObjectId`s. A malformed id string, which the database rejects with a cast error, is not modelled.
- Concurrency between requests is not modelled: each method runs atomically.
- HTTP status codes and JSON bodies are not modelled. They become the `Outcome` kinds: `Ok`, `NotFound` (404) and `Invalid` (400).
- Database and network failures (the 500 paths) are not modelled.
- The schema's indexes (`date: -1`, `category: 1`) are not modelled: they affect speed only.
- The JSX rendering of the `Analytics` component after line 25 is not modelled. This covers the colour list, the charts themselves, the annual-savings figure and the percentage bars.
- The `expenses` prop of the component is not modelled, since lines 9-25 do not use it.
