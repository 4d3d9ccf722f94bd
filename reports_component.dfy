/**
 * The report page's view-model (class ReportsComponent in
 * src/app/pages/reports/reports.component.ts). Its event handlers update
 * the view state and recompute `filtered` (a fresh array, sorted in place)
 * and `pageItems` (a copy of one page of it). The asynchronous load is
 * split into its three transitions: the start, the data arriving, and the
 * failure arriving.
 *
 * Valid() is the page's invariant: `filtered` and `pageItems` are what the
 * view state and `all` say they must be. Every handler keeps it.
 */
module ReportsPage {
  import opened Wrappers
  import opened Transactions
  import opened ReportRules
  import JsRuntime
  import StableSort

  class ReportsComponent {
    var loading: bool
    var error: Option<string>

    var all: seq<Transaction>
    var filtered: array<Transaction>
    var pageItems: seq<Transaction>

    var searchTerm: string
    var typeFilter: TypeFilter
    var activeSort: string
    var pageIndex: nat
    const pageSize: nat

    /** The host's string and date facilities. */
    const platform: Platform

    ghost predicate Valid()
      reads this, filtered
    {
      && filtered[..] == Derived(all, searchTerm, typeFilter, activeSort, platform)
      && pageItems == PageWindow(filtered[..], pageIndex, pageSize)
    }

    /** The field initialisers, followed by the start of the first load. */
    constructor (platform: Platform)
      ensures Valid() && fresh(filtered)
      ensures this.platform == platform && pageSize == 10
      ensures all == [] && filtered[..] == [] && pageItems == []
      ensures searchTerm == "" && typeFilter == All && activeSort == "date-desc" && pageIndex == 0
      ensures loading && error == None
    {
      this.platform := platform;
      pageSize := 10;
      all := [];
      filtered := new Transaction[0];
      pageItems := [];
      searchTerm := "";
      typeFilter := All;
      activeSort := "date-desc";
      pageIndex := 0;
      loading := true;
      error := None;
    }

    /** load(), up to the request: shows the spinner and clears the error. */
    method StartLoad()
      requires Valid()
      modifies this
      ensures Valid()
      ensures loading && error == None
      ensures all == old(all) && filtered == old(filtered) && pageItems == old(pageItems)
      ensures searchTerm == old(searchTerm) && typeFilter == old(typeFilter)
      ensures activeSort == old(activeSort) && pageIndex == old(pageIndex)
    {
      loading := true;
      error := None;
    }

    /** The load's `next` callback: stores the records, recomputes, hides the spinner. */
    method OnLoadSuccess(data: seq<Transaction>)
      requires Valid()
      modifies this
      ensures Valid() && fresh(filtered)
      ensures all == data && !loading && error == old(error)
      ensures searchTerm == old(searchTerm) && typeFilter == old(typeFilter)
      ensures activeSort == old(activeSort) && pageIndex == old(pageIndex)
    {
      all := data;
      ApplyFilters();
      loading := false;
    }

    /** The load's `error` callback: records the message and hides the spinner; the records stay. */
    method OnLoadError()
      requires Valid()
      modifies this
      ensures Valid()
      ensures error == Some(LoadFailedMessage) && !loading
      ensures all == old(all) && filtered == old(filtered) && pageItems == old(pageItems)
      ensures searchTerm == old(searchTerm) && typeFilter == old(typeFilter)
      ensures activeSort == old(activeSort) && pageIndex == old(pageIndex)
    {
      error := Some(LoadFailedMessage);
      loading := false;
    }

    /** onSearch: stores the trimmed, lower-cased term and goes back to the first page. */
    method OnSearch(term: string)
      requires Valid()
      modifies this
      ensures Valid() && fresh(filtered)
      ensures searchTerm == platform.toLowerCase(JsRuntime.Trim(term)) && pageIndex == 0
      ensures all == old(all) && typeFilter == old(typeFilter) && activeSort == old(activeSort)
      ensures loading == old(loading) && error == old(error)
    {
      searchTerm := platform.toLowerCase(JsRuntime.Trim(term));
      pageIndex := 0;
      ApplyFilters();
    }

    /** onTypeChange: stores the type filter and goes back to the first page. */
    method OnTypeChange(t: TypeFilter)
      requires Valid()
      modifies this
      ensures Valid() && fresh(filtered)
      ensures typeFilter == t && pageIndex == 0
      ensures all == old(all) && searchTerm == old(searchTerm) && activeSort == old(activeSort)
      ensures loading == old(loading) && error == old(error)
    {
      typeFilter := t;
      pageIndex := 0;
      ApplyFilters();
    }

    /** onPageChange: stores the page and recomputes only the page window. */
    method OnPageChange(index: nat)
      requires Valid()
      modifies this
      ensures Valid()
      ensures pageIndex == index && pageItems == PageWindow(filtered[..], index, pageSize)
      ensures all == old(all) && filtered == old(filtered) && filtered[..] == old(filtered[..])
      ensures searchTerm == old(searchTerm) && typeFilter == old(typeFilter) && activeSort == old(activeSort)
      ensures loading == old(loading) && error == old(error)
    {
      pageIndex := index;
      SlicePage();
    }

    /** activeSortLabel: the text of the selected menu entry, or 'Sort by'. */
    function ActiveSortLabel(): (r: string)
      reads this
      ensures forall i :: 0 <= i < |SortOptions| && SortOptions[i].value == activeSort ==>
        r == SortOptions[i].viewValue
      ensures (forall i :: 0 <= i < |SortOptions| ==> SortOptions[i].value != activeSort) ==> r == NoSortLabel
    {
      SortLabelIsEntryText(activeSort);
      SortLabel(activeSort)
    }

    /** onSortChange: stores the key and recomputes; the page stays where it is. */
    method OnSortChange(sortValue: string)
      requires Valid()
      modifies this
      ensures Valid() && fresh(filtered)
      ensures activeSort == sortValue && pageIndex == old(pageIndex)
      ensures all == old(all) && searchTerm == old(searchTerm) && typeFilter == old(typeFilter)
      ensures loading == old(loading) && error == old(error)
    {
      activeSort := sortValue;
      ApplyFilters();
    }

    /**
     * applyFilters: a fresh array of the records that pass the filter,
     * sorted in place when a key is set, then the page window. `all` and
     * the view state are left alone.
     */
    method ApplyFilters()
      modifies this
      ensures fresh(filtered)
      ensures filtered[..] == Derived(all, searchTerm, typeFilter, activeSort, platform)
      ensures pageItems == PageWindow(filtered[..], pageIndex, pageSize)
      ensures all == old(all) && searchTerm == old(searchTerm) && typeFilter == old(typeFilter)
      ensures activeSort == old(activeSort) && pageIndex == old(pageIndex)
      ensures loading == old(loading) && error == old(error)
    {
      var term := searchTerm;
      var kept := FilterRecords(all, term, typeFilter, platform);
      filtered := new Transaction[|kept|](i requires 0 <= i < |kept| => kept[i]);
      assert filtered[..] == kept;
      var key := ParseSort(activeSort);
      if key.Some? {
        StableSort.SortInPlace(filtered, Comparator(key.value, platform));
      }
      SlicePage();
    }

    /** slicePage: the window of `filtered` for the current page. */
    method SlicePage()
      modifies this`pageItems
      ensures pageItems == PageWindow(filtered[..], pageIndex, pageSize)
    {
      var start := pageIndex * pageSize;
      var end := start + pageSize;
      pageItems := JsRuntime.Slice(filtered[..], start, end);
    }
  }
}
