# ReportsApp report page, modelled in Dafny

This project models the report page of ReportsApp, an Angular front end that
lists financial transactions. The page searches transactions by account
name, filters them by type (Debit or Credit), sorts them by a
`field-direction` key and shows them one page at a time. The model covers
two things:

- the page's view-model, `ReportsComponent`, with its load state machine,
  its event handlers and its filter → sort → paginate pipeline
  (`applyFilters` and `slicePage`);
- the pagination control, `PaginationControlsComponent`, with its page
  count and its four navigation handlers.

Modules:

- `Transactions` (transaction.dfy): the transaction record.
- `JsRuntime` (js_runtime.dfy): the JavaScript built-ins the page uses whose
  meaning does not depend on locale. These are `String.prototype.trim`,
  `String.prototype.includes`, the first two parts of `split('-')`, and
  `Array.prototype.slice` with non-negative bounds, following section
  23.1.3.28 of ECMA-262, 2023 edition.
- `StableSort` (stable_sort.dfy): `this.filtered.sort(cmp)`. ECMA-262
  requires this sort to be stable (section 23.1.3.30). It is modelled as an
  insertion sort that works in place on an `array`, and it is proved equal to
  a functional insertion sort. For that function the model proves:
  - it is a permutation;
  - it is ordered, both for adjacent pairs and for every pair;
  - it is stable;
  - it is idempotent.
- `Pagination` (pagination.dfy): the pagination control. It is pure. A
  handler's `pageChange.emit(i)` is modelled as returning `Some(i)`, and
  emitting nothing as `None`.
- `ReportRules` (report_rules.dfy): the page's pure helpers. These are:
  - the filter predicate;
  - the sort-key parse;
  - the record comparator;
  - the sort-menu label;
  - `Derived` and `PageWindow`, which say what `filtered` and `pageItems`
    must hold.
- `ReportsPage` (reports_component.dfy): `class ReportsComponent`. Its fields
  are the component's fields, and `filtered` is an array that is sorted in
  place. Every handler keeps the invariant `Valid()`, which says that
  `filtered` and `pageItems` are what `all` and the view state make them
  be. Every handler also says exactly which fields it changes.
- `ReportScenarios` (scenarios.dfy): worked examples on two records.

Three host facilities are not defined here:
- `String.prototype.toLowerCase`;
- `String.prototype.localeCompare`;
- `new Date(s).getTime()`.

They are the function-valued fields of a `Platform` value that the
component receives.

## Model

| member | source | states |
|---|---|---|
| JsRuntime.TrimStart | src/app/pages/reports/reports.component.ts:83 | the result is a suffix of the input; every character dropped is ECMAScript white space or a line terminator; the result does not start with one |
| JsRuntime.TrimEnd | src/app/pages/reports/reports.component.ts:83 | the result is a prefix of the input; every character dropped is white space or a line terminator; the result does not end with one |
| JsRuntime.Trim | src/app/pages/reports/reports.component.ts:83 | the trimmed term neither starts nor ends with white space |
| JsRuntime.TrimIsSlice | src/app/pages/reports/reports.component.ts:83 | the trimmed term is the infix of the input that starts where the leading white space ends |
| JsRuntime.TrimDropsTrimmable | src/app/pages/reports/reports.component.ts:83 | everything outside that infix, at either end, is white space |
| JsRuntime.TrimIsInfix | src/app/pages/reports/reports.component.ts:83 | `term.trim()` is some `s[i..j]`, and everything before `i` and from `j` on is white space |
| JsRuntime.TrimIsIdempotent | src/app/pages/reports/reports.component.ts:83 | trimming an already trimmed term changes nothing |
| JsRuntime.Includes | src/app/pages/reports/reports.component.ts:111 | `includes`, defined by recursion on the name; JsRuntime.IncludesIff ties it to "occurs at some position" |
| JsRuntime.IncludesIff | src/app/pages/reports/reports.component.ts:111 | `includes(term)` holds exactly when the term occurs at some position of the lower-cased name |
| JsRuntime.FirstCharMissing | src/app/pages/reports/reports.component.ts:111 | a term whose first character is absent from the name is not included in it |
| JsRuntime.IncludesEmpty | src/app/pages/reports/reports.component.ts:111 | every name includes the empty term |
| JsRuntime.SplitFirst | src/app/pages/reports/reports.component.ts:117 | the first part has no '-', and the parts put back together with '-' give the key; without a '-' the first part is the whole key |
| JsRuntime.SplitFirstAt | src/app/pages/reports/reports.component.ts:117 | a '-'-free head followed by '-' splits exactly there |
| JsRuntime.SplitFirstNone | src/app/pages/reports/reports.component.ts:117 | a key without '-' is one part, with no second part |
| JsRuntime.Slice | src/app/pages/reports/reports.component.ts:145 | `slice(start, end)` has at most `end - start` elements; it is empty when `start` is past the end or the range is empty; otherwise its length is the clipped range's length; its k-th element is `s[start + k]` |
| JsRuntime.SliceIsRange | src/app/pages/reports/reports.component.ts:145 | `slice` is the range of `s` between the two bounds, each clipped to the length |
| StableSort.Insert | src/app/pages/reports/reports.component.ts:119 | inserting grows the sequence by one |
| StableSort.InsertionSort | src/app/pages/reports/reports.component.ts:119 | sorting keeps the length |
| StableSort.InsertAt | src/app/pages/reports/reports.component.ts:119 | an element is inserted after the last element not above it, and before the run of elements above it |
| StableSort.InsertIsPermutation | src/app/pages/reports/reports.component.ts:119 | inserting adds exactly one occurrence of the element |
| StableSort.SortIsPermutation | src/app/pages/reports/reports.component.ts:119 | sorting adds and drops nothing (multiset equality) |
| StableSort.InsertLast | src/app/pages/reports/reports.component.ts:119 | the last element after an insert is either the inserted one or the old last one |
| StableSort.InsertOrdered | src/app/pages/reports/reports.component.ts:119 | for a comparator whose sign is antisymmetric, inserting into an ordered sequence keeps it ordered |
| StableSort.SortIsOrdered | src/app/pages/reports/reports.component.ts:119 | for such a comparator, consecutive elements of the result never compare above zero |
| StableSort.OrderedIsPairwise | src/app/pages/reports/reports.component.ts:119 | for a transitive comparator, adjacent order implies that no element compares above a later one |
| StableSort.SortIsOrderedPairwise | src/app/pages/reports/reports.component.ts:119 | for a consistent comparator, no element of the result compares above a later one |
| StableSort.InsertKeepsTies | src/app/pages/reports/reports.component.ts:119 | inserting keeps the relative order of the elements tied with any k, and the inserted element goes after them |
| StableSort.SortIsStable | src/app/pages/reports/reports.component.ts:119 | stability: the elements tied with any k keep their relative order, as section 23.1.3.30 of ECMA-262 requires |
| StableSort.SortOfOrderedIsIdentity | src/app/pages/reports/reports.component.ts:119 | an already ordered sequence is left as it is |
| StableSort.SortIsIdempotent | src/app/pages/reports/reports.component.ts:119 | sorting twice gives the same result as sorting once |
| StableSort.AllTiedLeavesOrder | src/app/pages/reports/reports.component.ts:119 | a comparator that ties every pair leaves the order unchanged |
| StableSort.InsertInPlace | src/app/pages/reports/reports.component.ts:119 | the in-place step turns `a[..i+1]` into the insertion of the old `a[i]` into the old `a[..i]`, and leaves the rest of the array alone |
| StableSort.SortInPlace | src/app/pages/reports/reports.component.ts:119 | `this.filtered.sort(cmp)` leaves the array holding the insertion sort of its old contents |
| Pagination.CeilDiv | src/app/components/pagination-controls/pagination-controls.component.ts:19 | `Math.ceil(a / b)` is the least q with `a <= q * b` |
| Pagination.TotalPages | src/app/components/pagination-controls/pagination-controls.component.ts:18-20 | there is always at least one page; there is exactly one when pageSize is not positive; otherwise the pages hold every record, and when there is more than one page, one fewer page would not hold them all |
| Pagination.CanPrev | src/app/components/pagination-controls/pagination-controls.component.ts:22 | canPrev: the page is past the first; Pagination.GoPrev emits exactly when it holds |
| Pagination.CanNext | src/app/components/pagination-controls/pagination-controls.component.ts:23 | canNext: the page is before the last; Pagination.CanNextIffRecordsRemain states it as "records remain past this page" |
| Pagination.GoFirst | src/app/components/pagination-controls/pagination-controls.component.ts:25 | it emits exactly when the page is not the first, and then it emits 0 |
| Pagination.GoPrev | src/app/components/pagination-controls/pagination-controls.component.ts:26 | it emits exactly when canPrev holds, and then it emits the previous page, which is never negative |
| Pagination.GoNext | src/app/components/pagination-controls/pagination-controls.component.ts:27 | it emits exactly when canNext holds, and then it emits the next page, which never passes the last one |
| Pagination.GoLast | src/app/components/pagination-controls/pagination-controls.component.ts:28 | it emits exactly when the page is not the last, and then it emits the last page, which is never negative |
| Pagination.EmittedPagesInRange | src/app/components/pagination-controls/pagination-controls.component.ts:25-30 | from a page in range, every page that any handler emits is in range |
| Pagination.CanNextIffRecordsRemain | src/app/components/pagination-controls/pagination-controls.component.ts:22-23 | canNext holds exactly when some record lies beyond the current page |
| Pagination.LastPageHoldsTheLastRecord | src/app/components/pagination-controls/pagination-controls.component.ts:18-20 | when there are records, the last page starts before the last record and reaches it |
| ReportRules.FilterRecords | src/app/pages/reports/reports.component.ts:110-114 | the filter keeps no more records than it is given, and every record it keeps passes the term and type tests |
| ReportRules.Matches | src/app/pages/reports/reports.component.ts:111-113 | the filter callback: the term test and the type test; ReportRules.FilterIsExact and ReportRules.TermGuardIsRedundant state what it keeps |
| ReportRules.FilterCounts | src/app/pages/reports/reports.component.ts:110-114 | a passing record is kept as often as it occurs; a failing one is not kept at all |
| ReportRules.FilterIsExact | src/app/pages/reports/reports.component.ts:110-114 | soundness and completeness: a record is kept if and only if it is in `all` and passes both tests |
| ReportRules.FilterOfConcat | src/app/pages/reports/reports.component.ts:110 | the filter keeps the order of `all`: filtering a concatenation gives the filtered parts concatenated |
| ReportRules.NoFilterKeepsAll | src/app/pages/reports/reports.component.ts:109-114 | the empty term with type 'All' keeps every record, in order |
| ReportRules.TermGuardIsRedundant | src/app/pages/reports/reports.component.ts:111 | the `term ? ... : true` guard changes nothing, since every name includes the empty term |
| ReportRules.ParseSort | src/app/pages/reports/reports.component.ts:116-118 | no sort is applied exactly when activeSort is empty |
| ReportRules.ParseFieldDirection | src/app/pages/reports/reports.component.ts:117-118 | `field-direction` sorts by that field, with sign +1 exactly when the direction is "asc" and -1 otherwise |
| ReportRules.ParseIgnoresTail | src/app/pages/reports/reports.component.ts:117-118 | whatever follows a second '-' is ignored: `field-direction-tail` sorts like `field-direction` |
| ReportRules.FieldNamed | src/app/pages/reports/reports.component.ts:120-135 | which branch of the comparator a field name takes; ReportRules.ParseFieldDirection uses it to state the parse |
| ReportRules.Sign | src/app/pages/reports/reports.component.ts:118 | the direction factor, +1 only for "asc"; ReportRules.ParseFieldDirection states when it is +1 |
| ReportRules.ParseFieldOnly | src/app/pages/reports/reports.component.ts:117-118 | a key without '-' sorts by the whole key as the field, descending |
| ReportRules.DateOptionsParse | src/app/pages/reports/reports.component.ts:50-51 | the two date entries of the menu sort by date, newest first and oldest first |
| ReportRules.AmountOptionsParse | src/app/pages/reports/reports.component.ts:52-53 | the two amount entries of the menu sort by amount, high to low and low to high |
| ReportRules.AccountNameAscParse | src/app/pages/reports/reports.component.ts:54 | the A-Z entry sorts by account name, ascending |
| ReportRules.AccountNameDescParse | src/app/pages/reports/reports.component.ts:55 | the Z-A entry sorts by account name, descending |
| ReportRules.CompareBy | src/app/pages/reports/reports.component.ts:119-136 | the comparator for one key; ReportRules.ComparatorIsConsistent, ReportRules.DescendingIsReversed and ReportRules.UnorderedTiesEverything state its properties |
| ReportRules.Comparator | src/app/pages/reports/reports.component.ts:119 | the comparator as the function value the sort receives; ReportRules.ComparatorIsConsistent states it is consistent |
| ReportRules.DescendingIsReversed | src/app/pages/reports/reports.component.ts:118-133 | the descending comparator is the ascending one with its sign flipped |
| ReportRules.ComparatorIsConsistent | src/app/pages/reports/reports.component.ts:119-136 | when localeCompare is a consistent comparator, the record comparator is one too, for every field and both directions |
| ReportRules.UnorderedTiesEverything | src/app/pages/reports/reports.component.ts:135 | a field the record does not have ties every pair |
| ReportRules.Derived | src/app/pages/reports/reports.component.ts:110-119 | what `filtered` holds after applyFilters; ReportRules.DerivedIsFilteredPermutation, ReportRules.DerivedIsOrdered and ReportRules.DerivedIsStable specify it |
| ReportRules.PageWindow | src/app/pages/reports/reports.component.ts:143-145 | the records of one page; ReportRules.PageWindowBounds specifies it |
| ReportRules.DerivedIsFilteredPermutation | src/app/pages/reports/reports.component.ts:110-136 | after the sort `filtered` holds the filtered records, no more and no fewer (multiset), so it holds exactly the records of `all` that pass |
| ReportRules.EmptyKeyKeepsOrder | src/app/pages/reports/reports.component.ts:116 | with an empty key `filtered` is the filtered records in their original order |
| ReportRules.UnorderedKeyKeepsOrder | src/app/pages/reports/reports.component.ts:120-135 | a key naming a field the record lacks keeps the original order |
| ReportRules.DerivedIsOrdered | src/app/pages/reports/reports.component.ts:119-136 | under a key, consecutive records never compare above zero under the comparator times dir; with a consistent localeCompare, no record compares above any later one |
| ReportRules.DerivedIsStable | src/app/pages/reports/reports.component.ts:119-136 | records the comparator ties keep the relative order the filter gave them |
| ReportRules.PageWindowBounds | src/app/pages/reports/reports.component.ts:142-146 | the page holds at most pageSize records; it is empty once `pageIndex*pageSize` reaches the end of `filtered`; its k-th record is `filtered[pageIndex*pageSize + k]` |
| ReportRules.PageWindowMatchesControls | src/app/pages/reports/reports.component.ts:142-146 | a page past the control's last page is empty, and every page up to the last one holds a record when there are any |
| ReportRules.PagesArePrefix | src/app/pages/reports/reports.component.ts:142-146 | the first n pages, one after another, are the first `n*pageSize` records of `filtered` |
| ReportRules.AllPagesCoverAll | src/app/pages/reports/reports.component.ts:142-146 | the control's pages, one after another, are exactly `filtered` |
| ReportRules.FindOption | src/app/pages/reports/reports.component.ts:100 | `find` returns nothing exactly when no entry has the value; otherwise it returns the first entry with that value |
| ReportRules.SortLabel | src/app/pages/reports/reports.component.ts:100 | the label is never empty, and it is 'Sort by' or the text of a menu entry whose value is the key |
| ReportRules.FindFirst | src/app/pages/reports/reports.component.ts:100 | an entry whose value no earlier entry has is the one `find` returns |
| ReportRules.SortOptionValuesDistinct | src/app/pages/reports/reports.component.ts:49-56 | no two entries of the sort menu share a value |
| ReportRules.SortLabelIsEntryText | src/app/pages/reports/reports.component.ts:99-101 | the label of an entry's key is that entry's text, and every other key is labelled 'Sort by' |
| ReportsPage.ReportsComponent.constructor | src/app/pages/reports/reports.component.ts:38-67 | the field initialisers and the start of the first load: no records, an empty term, type 'All', key 'date-desc', page 0 of 10, loading, no error |
| ReportsPage.ReportsComponent.StartLoad | src/app/pages/reports/reports.component.ts:65-67 | a load shows the spinner and clears the error, and nothing else changes |
| ReportsPage.ReportsComponent.OnLoadSuccess | src/app/pages/reports/reports.component.ts:69-73 | the data becomes `all`, `filtered` and the page are recomputed from it, the spinner goes away, and the view state is kept |
| ReportsPage.ReportsComponent.OnLoadError | src/app/pages/reports/reports.component.ts:74-78 | the error becomes 'Failed to load transactions.' and the spinner goes away; `all`, `filtered`, the page and the view state are left as they were |
| ReportsPage.ReportsComponent.OnSearch | src/app/pages/reports/reports.component.ts:82-86 | the stored term is the input trimmed and lower-cased, the page goes back to 0, and everything is recomputed |
| ReportsPage.ReportsComponent.OnTypeChange | src/app/pages/reports/reports.component.ts:88-92 | the type filter is stored, the page goes back to 0, and everything is recomputed |
| ReportsPage.ReportsComponent.OnPageChange | src/app/pages/reports/reports.component.ts:94-97 | the page index is stored and only the page is recomputed; `all`, `filtered` (the array and its contents), the term, the type and the key are unchanged |
| ReportsPage.ReportsComponent.OnSortChange | src/app/pages/reports/reports.component.ts:103-106 | the key is stored and everything is recomputed, while the page index stays where it was |
| ReportsPage.ReportsComponent.ActiveSortLabel | src/app/pages/reports/reports.component.ts:99-101 | the label of a menu entry's key is that entry's text, and every other key is labelled 'Sort by' |
| ReportsPage.ReportsComponent.ApplyFilters | src/app/pages/reports/reports.component.ts:108-140 | `filtered` becomes a new array holding the filtered records, sorted by the key when there is one, and the page becomes its window; `all` and the view state are untouched |
| ReportsPage.ReportsComponent.SlicePage | src/app/pages/reports/reports.component.ts:142-146 | `pageItems` becomes the window of `filtered` for the current page, and nothing else changes |
| ReportScenarios.NewestFirst | src/app/pages/reports/reports.component.ts:108-146 | with the default key, a January record and a February record are shown as [February, January] |
| ReportScenarios.CreditsOnly | src/app/pages/reports/reports.component.ts:112 | the Credit filter shows only the credit record |
| ReportScenarios.NeitherIncludesZzz | src/app/pages/reports/reports.component.ts:111 | neither "alpha" nor "beta" includes "zzz" |
| ReportScenarios.NoMatch | src/app/pages/reports/reports.component.ts:109-114 | a term that no name includes leaves `filtered` empty, and the control then shows a single page for it |
| ReportScenarios.FailedFirstLoad | src/app/pages/reports/reports.component.ts:61-79 | a page whose first load fails shows the message, no spinner and no records |
| ReportScenarios.PagePastTheEnd | src/app/pages/reports/reports.component.ts:94-97 | asking for page 5 of two records gives an empty page |

The load is modelled as three transitions. `StartLoad` is the start of
`load()`. `OnLoadSuccess(data)` and `OnLoadError()` are its `next` and
`error` callbacks. Each transition says what it leaves unchanged.

## Left out

- The HTTP fetch in src/app/services/transactions.service.ts and its `Number(it.amount)` coercion are not modelled. These are I/O and string-to-float parsing. The model receives the records as a sequence.
- Amounts, ids and page numbers are integers, not JavaScript floating-point numbers. Non-integer amounts, NaN and Infinity are not modelled.
- `Date` parsing is not modelled. `new Date(s).getTime()` is an abstract function from the date string to an integer. A date that parses to NaN, which makes the comparator return NaN, is not modelled.
- `toLowerCase` and `localeCompare` are abstract functions, and case folding and collation are not reimplemented. The ordering and stability lemmas assume localeCompare is a consistent comparator, which ECMA-262 requires of it.
- JavaScript strings are UTF-16 code units, while the model's strings are Dafny characters. `trim` and `includes` are defined on those characters.
- The record field `type` is called `kind`, because `type` is a Dafny keyword.
- ReportsPage.ReportsComponent.OnPageChange takes a `nat`. A negative page index is not modelled; `slice` would count it back from the end of `filtered`. The pagination control only emits non-negative indices from a valid page: see Pagination.EmittedPagesInRange.
- `console.error(err)` in the load's error callback is not modelled. It is logging only.
- The asynchronous subscription itself is not modelled. The two callbacks are modelled as transitions, and no load is discarded when a newer one is started, since the code does not do that.
- The page computes no credit or debit totals, keeps `all` when a load fails, and applies every load response it receives, however late. The model follows that.
- `debounceTime` and `distinctUntilChanged` in src/app/components/search-bar/search-bar.component.ts are not modelled. They are timing and stream plumbing.
- The table rendering in src/app/components/transactions-table/transactions-table.component.ts, the dropdown in src/app/components/filter-dropdown/filter-dropdown.component.ts, the Angular bootstrap in src/app/app.component.ts and the routes in src/app/app.routes.ts are not modelled. They are UI wiring with no logic.
- StableSort.SortInPlace is proved equal to an insertion sort. The model does not prove that every stable sort gives the same result. That holds for a consistent comparator, but the host's sort algorithm is not modelled.
