/**
 * The pure parts of the report page (src/app/pages/reports/reports.component.ts):
 * the filter predicate, the parse of the sort key, the record comparator,
 * the sort-menu label, and the functions that say what `filtered` and
 * `pageItems` must hold for a given record list and view state.
 */
module ReportRules {
  import opened Wrappers
  import opened Transactions
  import JsRuntime
  import StableSort
  import Pagination

  /**
   * What the page takes from the JavaScript host without defining it here:
   * String.prototype.toLowerCase, String.prototype.localeCompare and
   * `new Date(s).getTime()`.
   */
  datatype Platform = Platform(
    toLowerCase: string -> string,
    localeCompare: (string, string) -> int,
    getTime: string -> int)

  /** The type filter: 'All' or one transaction type. */
  datatype TypeFilter = All | Only(kind: TransactionType)

  /** An entry of the sort menu. */
  datatype SortOption = SortOption(value: string, viewValue: string)

  /** The sort menu, in the order the page lists it. */
  const SortOptions: seq<SortOption> := [
    SortOption("date-desc", "Date: Newest First"),
    SortOption("date-asc", "Date: Oldest First"),
    SortOption("amount-desc", "Amount: High to Low"),
    SortOption("amount-asc", "Amount: Low to High"),
    SortOption("accountName-asc", "Account Name: A-Z"),
    SortOption("accountName-desc", "Account Name: Z-A")
  ]

  /** The message stored when loading fails. */
  const LoadFailedMessage: string := "Failed to load transactions."

  /** The label shown on the sort menu when no entry is selected. */
  const NoSortLabel: string := "Sort by"

  // ---------------------------------------------------------------------
  // The filter

  /** A record passes when its lower-cased account name includes the term (if any) and its type passes. */
  predicate Matches(t: Transaction, term: string, filter: TypeFilter, p: Platform) {
    && (term == "" || JsRuntime.Includes(p.toLowerCase(t.accountName), term))
    && (filter == All || filter == Only(t.kind))
  }

  /** Array.prototype.filter with Matches: the records that pass, in their order in all. */
  function FilterRecords(all: seq<Transaction>, term: string, filter: TypeFilter, p: Platform): (r: seq<Transaction>)
    ensures |r| <= |all|
    ensures forall i :: 0 <= i < |r| ==> Matches(r[i], term, filter, p)
    decreases |all|
  {
    if all == [] then []
    else (if Matches(all[0], term, filter, p) then [all[0]] else []) + FilterRecords(all[1..], term, filter, p)
  }

  /**
   * The filter is exact: each record appears in the result as often as in
   * all when it passes, and not at all otherwise.
   */
  lemma {:induction false} FilterCounts(all: seq<Transaction>, term: string, filter: TypeFilter, p: Platform, t: Transaction)
    ensures multiset(FilterRecords(all, term, filter, p))[t]
         == if Matches(t, term, filter, p) then multiset(all)[t] else 0
    decreases |all|
  {
    if all != [] {
      FilterCounts(all[1..], term, filter, p, t);
      assert all == [all[0]] + all[1..];
    }
  }

  /** Soundness and completeness: a record is kept if and only if it is in all and passes. */
  lemma FilterIsExact(all: seq<Transaction>, term: string, filter: TypeFilter, p: Platform, t: Transaction)
    ensures t in FilterRecords(all, term, filter, p) <==> t in all && Matches(t, term, filter, p)
  {
    FilterCounts(all, term, filter, p, t);
  }

  /** The filter keeps order: filtering a concatenation concatenates the filtered parts. */
  lemma {:induction false} FilterOfConcat(a: seq<Transaction>, b: seq<Transaction>, term: string,
                                          filter: TypeFilter, p: Platform)
    ensures FilterRecords(a + b, term, filter, p)
         == FilterRecords(a, term, filter, p) + FilterRecords(b, term, filter, p)
    decreases |a|
  {
    if a != [] {
      assert (a + b)[0] == a[0] && (a + b)[1..] == a[1..] + b;
      FilterOfConcat(a[1..], b, term, filter, p);
    } else {
      assert a + b == b;
    }
  }

  /**
   * With the 'All' type filter and the empty term every record passes, so
   * the filter returns all unchanged.
   */
  lemma {:induction false} NoFilterKeepsAll(all: seq<Transaction>, p: Platform)
    ensures FilterRecords(all, "", All, p) == all
    decreases |all|
  {
    if all != [] {
      NoFilterKeepsAll(all[1..], p);
      assert [all[0]] + all[1..] == all;
    }
  }

  /**
   * Testing the term only when it is non-empty changes nothing: every
   * string includes the empty term, so a term is matched exactly when the
   * name includes it.
   */
  lemma TermGuardIsRedundant(t: Transaction, term: string, filter: TypeFilter, p: Platform)
    ensures Matches(t, term, filter, p)
        <==> JsRuntime.Includes(p.toLowerCase(t.accountName), term) && (filter == All || filter == Only(t.kind))
  {
    JsRuntime.IncludesEmpty(p.toLowerCase(t.accountName));
  }

  // ---------------------------------------------------------------------
  // The sort key

  /** The numeric fields of a record. */
  datatype NumberField = Id | Amount

  /** The string fields of a record other than date. */
  datatype TextField = VoucherNo | AccountId | AccountName | Branch | Type

  /**
   * How the comparator treats a field name: `date` through getTime, the
   * number fields by subtraction, the string fields by localeCompare, and
   * any other name (the record has no such field, so both values are
   * undefined) as a tie.
   */
  datatype SortField = ByDate | ByNumber(number: NumberField) | ByText(text: TextField) | Unordered

  datatype Direction = Asc | Desc

  datatype SortKey = SortKey(field: SortField, dir: Direction)

  function FieldNamed(name: string): SortField {
    if name == "date" then ByDate
    else if name == "id" then ByNumber(Id)
    else if name == "amount" then ByNumber(Amount)
    else if name == "voucherNo" then ByText(VoucherNo)
    else if name == "accountId" then ByText(AccountId)
    else if name == "accountName" then ByText(AccountName)
    else if name == "branch" then ByText(Branch)
    else if name == "type" then ByText(Type)
    else Unordered
  }

  /** The factor the comparator is multiplied by: 1 ascending, -1 descending. */
  function Sign(d: Direction): int {
    if d == Asc then 1 else -1
  }

  /**
   * The sort key of activeSort: none when it is empty (no sort is applied),
   * otherwise the field named before the first '-' and the direction
   * named between the first and the second '-'.
   */
  function ParseSort(activeSort: string): (r: Option<SortKey>)
    ensures r.None? <==> activeSort == ""
  {
    if activeSort == "" then None
    else
      var (field, rest) := JsRuntime.SplitFirst(activeSort, '-');
      var direction := if rest.Some? then Some(JsRuntime.SplitFirst(rest.value, '-').0) else None;
      Some(SortKey(FieldNamed(field), if direction == Some("asc") then Asc else Desc))
  }

  /** A key `field-direction` sorts by that field, ascending exactly when the direction is "asc". */
  lemma ParseFieldDirection(field: string, direction: string)
    requires '-' !in field && '-' !in direction
    ensures ParseSort(field + "-" + direction)
         == Some(SortKey(FieldNamed(field), if direction == "asc" then Asc else Desc))
    ensures ParseSort(field + "-" + direction).value.dir == Asc <==> direction == "asc"
  {
    JsRuntime.SplitFirstAt(field, '-', direction);
    JsRuntime.SplitFirstNone(direction, '-');
  }

  /**
   * Parts after the second '-' are ignored: `field-direction-tail` sorts
   * like `field-direction`.
   */
  lemma ParseIgnoresTail(field: string, direction: string, tail: string)
    requires '-' !in field && '-' !in direction
    ensures ParseSort(field + "-" + direction + "-" + tail)
         == Some(SortKey(FieldNamed(field), if direction == "asc" then Asc else Desc))
  {
    var rest := direction + "-" + tail;
    assert field + "-" + direction + "-" + tail == field + "-" + rest;
    JsRuntime.SplitFirstAt(field, '-', rest);
    JsRuntime.SplitFirstAt(direction, '-', tail);
  }

  /** A key without '-' sorts by the whole key as a field name, descending. */
  lemma ParseFieldOnly(field: string)
    requires field != "" && '-' !in field
    ensures ParseSort(field) == Some(SortKey(FieldNamed(field), Desc))
  {
    JsRuntime.SplitFirstNone(field, '-');
  }

  /** The date entries of the sort menu sort by date in the direction they name. */
  lemma DateOptionsParse()
    ensures ParseSort("date-desc") == Some(SortKey(ByDate, Desc))
    ensures ParseSort("date-asc") == Some(SortKey(ByDate, Asc))
  {
    var field, first, second := "date", "desc", "asc";
    assert '-' !in field && '-' !in first && '-' !in second;
    assert FieldNamed(field) == ByDate;
    assert field + "-" + first == "date-desc";
    assert field + "-" + second == "date-asc";
    ParseFieldDirection(field, first);
    ParseFieldDirection(field, second);
  }

  /** The amount entries of the sort menu sort by amount in the direction they name. */
  lemma AmountOptionsParse()
    ensures ParseSort("amount-desc") == Some(SortKey(ByNumber(Amount), Desc))
    ensures ParseSort("amount-asc") == Some(SortKey(ByNumber(Amount), Asc))
  {
    var field, first, second := "amount", "desc", "asc";
    assert '-' !in field && '-' !in first && '-' !in second;
    assert FieldNamed(field) == ByNumber(Amount);
    assert field + "-" + first == "amount-desc";
    assert field + "-" + second == "amount-asc";
    ParseFieldDirection(field, first);
    ParseFieldDirection(field, second);
  }

  /** The "A-Z" entry of the sort menu sorts by account name, ascending. */
  lemma AccountNameAscParse()
    ensures ParseSort("accountName-asc") == Some(SortKey(ByText(AccountName), Asc))
  {
    var field, direction := "accountName", "asc";
    assert '-' !in field && '-' !in direction;
    assert field + "-" + direction == "accountName-asc";
    assert FieldNamed(field) == ByText(AccountName);
    ParseFieldDirection(field, direction);
  }

  /** The "Z-A" entry of the sort menu sorts by account name, descending. */
  lemma AccountNameDescParse()
    ensures ParseSort("accountName-desc") == Some(SortKey(ByText(AccountName), Desc))
  {
    var field, direction := "accountName", "desc";
    assert '-' !in field && '-' !in direction;
    assert field + "-" + direction == "accountName-desc";
    assert FieldNamed(field) == ByText(AccountName);
    ParseFieldDirection(field, direction);
  }

  // ---------------------------------------------------------------------
  // The comparator

  function NumberOf(t: Transaction, f: NumberField): int {
    match f
    case Id => t.id
    case Amount => t.amount
  }

  function TextOf(t: Transaction, f: TextField): string {
    match f
    case VoucherNo => t.voucherNo
    case AccountId => t.accountId
    case AccountName => t.accountName
    case Branch => t.branch
    case Type => TypeName(t.kind)
  }

  /** The comparator passed to this.filtered.sort, for one key. */
  function CompareBy(key: SortKey, p: Platform, a: Transaction, b: Transaction): int {
    var dir := Sign(key.dir);
    match key.field
    case ByDate => (p.getTime(a.date) - p.getTime(b.date)) * dir
    case ByText(f) => p.localeCompare(TextOf(a, f), TextOf(b, f)) * dir
    case ByNumber(f) => (NumberOf(a, f) - NumberOf(b, f)) * dir
    case Unordered => 0
  }

  function Comparator(key: SortKey, p: Platform): (Transaction, Transaction) -> int {
    (a, b) => CompareBy(key, p, a, b)
  }

  /** The descending comparator is the ascending one with its sign flipped. */
  lemma DescendingIsReversed(field: SortField, p: Platform, a: Transaction, b: Transaction)
    ensures CompareBy(SortKey(field, Desc), p, a, b) == -CompareBy(SortKey(field, Asc), p, a, b)
  {
  }

  /**
   * Whenever localeCompare is a consistent comparator, so is the record
   * comparator for every key, in both directions.
   */
  lemma ComparatorIsConsistent(key: SortKey, p: Platform)
    requires StableSort.Consistent(p.localeCompare)
    ensures StableSort.Consistent(Comparator(key, p))
  {
    var cmp := Comparator(key, p);
    var lc := p.localeCompare;
    forall a, b ensures cmp(a, b) > 0 <==> cmp(b, a) < 0 {
      match key.field
      case ByText(f) =>
        assert lc(TextOf(a, f), TextOf(b, f)) > 0 <==> lc(TextOf(b, f), TextOf(a, f)) < 0;
      case _ =>
    }
    forall a, b, c | cmp(a, b) <= 0 && cmp(b, c) <= 0 ensures cmp(a, c) <= 0 {
      match key.field
      case ByText(f) =>
        var x, y, z := TextOf(a, f), TextOf(b, f), TextOf(c, f);
        if key.dir == Asc {
          assert lc(x, y) <= 0 && lc(y, z) <= 0;
        } else {
          assert lc(y, x) <= 0 && lc(z, y) <= 0;
          assert lc(z, x) <= 0;
        }
      case _ =>
    }
  }

  /**
   * The comparator for a field the record does not have ties every pair.
   */
  lemma UnorderedTiesEverything(key: SortKey, p: Platform)
    requires key.field == Unordered
    ensures forall a, b :: Comparator(key, p)(a, b) == 0
  {
  }

  // ---------------------------------------------------------------------
  // The derived state

  /** `filtered` after applyFilters: the filtered records, sorted when a key is set. */
  function Derived(all: seq<Transaction>, term: string, filter: TypeFilter, activeSort: string,
                   p: Platform): seq<Transaction>
  {
    var kept := FilterRecords(all, term, filter, p);
    match ParseSort(activeSort)
    case None => kept
    case Some(key) => StableSort.InsertionSort(kept, Comparator(key, p))
  }

  /** slicePage: the records of page pageIndex. */
  function PageWindow(s: seq<Transaction>, pageIndex: nat, pageSize: nat): seq<Transaction> {
    JsRuntime.Slice(s, pageIndex * pageSize, pageIndex * pageSize + pageSize)
  }

  /**
   * Sorting adds and drops nothing: `filtered` holds exactly the records of
   * all that pass the filter, as often as they occur in all.
   */
  lemma DerivedIsFilteredPermutation(all: seq<Transaction>, term: string, filter: TypeFilter,
                                     activeSort: string, p: Platform)
    ensures multiset(Derived(all, term, filter, activeSort, p)) == multiset(FilterRecords(all, term, filter, p))
    ensures forall t :: t in Derived(all, term, filter, activeSort, p) <==> t in all && Matches(t, term, filter, p)
  {
    var kept := FilterRecords(all, term, filter, p);
    match ParseSort(activeSort)
    case None =>
    case Some(key) => StableSort.SortIsPermutation(kept, Comparator(key, p));
    forall t ensures t in Derived(all, term, filter, activeSort, p) <==> t in all && Matches(t, term, filter, p) {
      FilterIsExact(all, term, filter, p, t);
      assert t in Derived(all, term, filter, activeSort, p) <==> multiset(Derived(all, term, filter, activeSort, p))[t] > 0;
      assert t in kept <==> multiset(kept)[t] > 0;
    }
  }

  /** With no sort key, `filtered` is the filtered records in their original order. */
  lemma EmptyKeyKeepsOrder(all: seq<Transaction>, term: string, filter: TypeFilter, p: Platform)
    ensures Derived(all, term, filter, "", p) == FilterRecords(all, term, filter, p)
  {
  }

  /** A key naming a field the record does not have keeps the original order too. */
  lemma UnorderedKeyKeepsOrder(all: seq<Transaction>, term: string, filter: TypeFilter,
                               activeSort: string, p: Platform)
    requires ParseSort(activeSort).Some? && ParseSort(activeSort).value.field == Unordered
    ensures Derived(all, term, filter, activeSort, p) == FilterRecords(all, term, filter, p)
  {
    var key := ParseSort(activeSort).value;
    UnorderedTiesEverything(key, p);
    StableSort.AllTiedLeavesOrder(FilterRecords(all, term, filter, p), Comparator(key, p));
  }

  /**
   * Under a key, consecutive records of `filtered` never compare above zero;
   * when localeCompare is consistent, no record compares above any later one.
   */
  lemma DerivedIsOrdered(all: seq<Transaction>, term: string, filter: TypeFilter,
                         activeSort: string, p: Platform)
    requires StableSort.Consistent(p.localeCompare)
    requires ParseSort(activeSort).Some?
    ensures var s := Derived(all, term, filter, activeSort, p);
      forall i :: 0 < i < |s| ==> CompareBy(ParseSort(activeSort).value, p, s[i - 1], s[i]) <= 0
    ensures var s := Derived(all, term, filter, activeSort, p);
      forall i, j :: 0 <= i < j < |s| ==> CompareBy(ParseSort(activeSort).value, p, s[i], s[j]) <= 0
  {
    var key := ParseSort(activeSort).value;
    ComparatorIsConsistent(key, p);
    var kept := FilterRecords(all, term, filter, p);
    StableSort.SortIsOrdered(kept, Comparator(key, p));
    StableSort.SortIsOrderedPairwise(kept, Comparator(key, p));
  }

  /**
   * Stability: records the comparator ties with any record k keep the
   * relative order the filter gave them.
   */
  lemma DerivedIsStable(all: seq<Transaction>, term: string, filter: TypeFilter,
                        activeSort: string, p: Platform, k: Transaction)
    requires StableSort.Consistent(p.localeCompare)
    requires ParseSort(activeSort).Some?
    ensures var cmp := Comparator(ParseSort(activeSort).value, p);
      StableSort.TiedWith(Derived(all, term, filter, activeSort, p), k, cmp)
      == StableSort.TiedWith(FilterRecords(all, term, filter, p), k, cmp)
  {
    var key := ParseSort(activeSort).value;
    ComparatorIsConsistent(key, p);
    StableSort.SortIsStable(FilterRecords(all, term, filter, p), k, Comparator(key, p));
  }

  /** The page window never holds more than a page, and is empty from the end of `filtered` on. */
  lemma PageWindowBounds(s: seq<Transaction>, pageIndex: nat, pageSize: nat)
    ensures |PageWindow(s, pageIndex, pageSize)| <= pageSize
    ensures pageIndex * pageSize >= |s| ==> PageWindow(s, pageIndex, pageSize) == []
    ensures forall k :: 0 <= k < |PageWindow(s, pageIndex, pageSize)| ==>
      PageWindow(s, pageIndex, pageSize)[k] == s[pageIndex * pageSize + k]
  {
  }

  /**
   * The window and the pagination control agree: with a positive page size,
   * a page past the control's last page is empty, and every page up to the
   * last one holds a record when there are any.
   */
  lemma {:induction false} PageWindowMatchesControls(s: seq<Transaction>, pageIndex: nat, pageSize: nat)
    requires pageSize > 0
    ensures var last := Pagination.TotalPages(Pagination.Controls(|s|, pageSize, pageIndex)) - 1;
      (pageIndex > last ==> PageWindow(s, pageIndex, pageSize) == [])
      && (pageIndex <= last && s != [] ==> PageWindow(s, pageIndex, pageSize) != [])
  {
    var c := Pagination.Controls(|s|, pageSize, pageIndex);
    var r := Pagination.TotalPages(c);
    if pageIndex > r - 1 {
      Pagination.MulMonotone(r, pageIndex, pageSize);
    } else if s != [] {
      Pagination.LastPageHoldsTheLastRecord(c);
      Pagination.MulMonotone(pageIndex, r - 1, pageSize);
      assert PageWindow(s, pageIndex, pageSize)[0] == s[pageIndex * pageSize];
    }
  }

  /** The first n pages, one after the other. */
  function Pages(s: seq<Transaction>, pageSize: nat, n: nat): seq<Transaction> {
    if n == 0 then [] else Pages(s, pageSize, n - 1) + PageWindow(s, n - 1, pageSize)
  }

  /** The first n pages are the first n * pageSize records (all of them, if fewer). */
  lemma {:induction false} PagesArePrefix(s: seq<Transaction>, pageSize: nat, n: nat)
    ensures Pages(s, pageSize, n) == s[..if n * pageSize < |s| then n * pageSize else |s|]
  {
    if n > 0 {
      PagesArePrefix(s, pageSize, n - 1);
      var lo, hi := (n - 1) * pageSize, n * pageSize;
      assert lo + pageSize == hi;
      JsRuntime.SliceIsRange(s, lo, hi);
      var a := if lo < |s| then lo else |s|;
      var b := if hi < |s| then hi else |s|;
      assert s[..a] + s[a..b] == s[..b];
    }
  }

  /**
   * The pages the control offers cover `filtered` exactly: every record is
   * on exactly one page, in order.
   */
  lemma AllPagesCoverAll(s: seq<Transaction>, pageSize: nat)
    requires pageSize > 0
    ensures Pages(s, pageSize, Pagination.TotalPages(Pagination.Controls(|s|, pageSize, 0))) == s
  {
    var n := Pagination.TotalPages(Pagination.Controls(|s|, pageSize, 0));
    PagesArePrefix(s, pageSize, n);
    assert s[..|s|] == s;
  }

  // ---------------------------------------------------------------------
  // The sort-menu label

  /** Array.prototype.find on the menu: the first entry whose value is v. */
  function FindOption(opts: seq<SortOption>, v: string): (r: Option<SortOption>)
    ensures r.None? <==> forall i :: 0 <= i < |opts| ==> opts[i].value != v
    ensures r.Some? ==> r.value.value == v
    ensures r.Some? ==> exists i :: (0 <= i < |opts| && opts[i] == r.value
                                     && forall j :: 0 <= j < i ==> opts[j].value != v)
    decreases |opts|
  {
    if opts == [] then None
    else if opts[0].value == v then Some(opts[0])
    else
      var r := FindOption(opts[1..], v);
      assert forall i :: 0 < i < |opts| ==> opts[i] == opts[1..][i - 1];
      r
  }

  /**
   * The text of the first menu entry whose value is activeSort; 'Sort by'
   * when there is none, or when that entry's text is empty.
   */
  function SortLabel(activeSort: string): (r: string)
    ensures r != ""
    ensures r == NoSortLabel
         || exists i :: (0 <= i < |SortOptions| && SortOptions[i].value == activeSort
                         && SortOptions[i].viewValue == r)
  {
    match FindOption(SortOptions, activeSort)
    case Some(o) => if o.viewValue != "" then o.viewValue else NoSortLabel
    case None => NoSortLabel
  }

  /** The first entry whose value is v is the one find returns. */
  lemma {:induction false} FindFirst(opts: seq<SortOption>, i: nat)
    requires i < |opts|
    requires forall j :: 0 <= j < i ==> opts[j].value != opts[i].value
    ensures FindOption(opts, opts[i].value) == Some(opts[i])
    decreases i
  {
    if i > 0 {
      assert opts[1..][i - 1] == opts[i];
      FindFirst(opts[1..], i - 1);
    }
  }

  /** No two entries of the sort menu share a value. */
  lemma SortOptionValuesDistinct()
    ensures forall i, j :: 0 <= i < j < |SortOptions| ==> SortOptions[i].value != SortOptions[j].value
  {
  }

  /** The label of a menu entry's key is that entry's text; any other key is labelled 'Sort by'. */
  lemma SortLabelIsEntryText(activeSort: string)
    ensures forall i :: 0 <= i < |SortOptions| && SortOptions[i].value == activeSort ==>
      SortLabel(activeSort) == SortOptions[i].viewValue
    ensures (forall i :: 0 <= i < |SortOptions| ==> SortOptions[i].value != activeSort) ==>
      SortLabel(activeSort) == NoSortLabel
  {
    forall i | 0 <= i < |SortOptions| && SortOptions[i].value == activeSort
      ensures SortLabel(activeSort) == SortOptions[i].viewValue
    {
      SortOptionValuesDistinct();
      FindFirst(SortOptions, i);
    }
  }
}
