/**
 * Worked examples of the report page on two records: one credit of 100
 * for "Alpha" on 2024-01-01 and one debit of 50 for "Beta" on 2024-02-01.
 */
module ReportScenarios {
  import opened Wrappers
  import opened Transactions
  import opened ReportRules
  import opened ReportsPage
  import StableSort
  import JsRuntime
  import Pagination

  const Alpha := Transaction(1, "2024-01-01", "V-1", "A-1", "Alpha", "Main", Credit, 100)
  const Beta := Transaction(2, "2024-02-01", "V-2", "A-2", "Beta", "Main", Debit, 50)

  /** A host whose clock puts January before February. */
  ghost predicate JanuaryFirst(p: Platform) {
    p.getTime(Alpha.date) < p.getTime(Beta.date)
  }

  /** Newest first: the default key shows the February record, then the January one. */
  lemma {:induction false} NewestFirst(p: Platform)
    requires JanuaryFirst(p)
    ensures PageWindow(Derived([Alpha, Beta], "", All, "date-desc", p), 0, 10) == [Beta, Alpha]
  {
    DateOptionsParse();
    NoFilterKeepsAll([Alpha, Beta], p);
    var cmp := Comparator(SortKey(ByDate, Desc), p);
    assert cmp(Alpha, Beta) > 0;
    assert [Alpha, Beta][..1] == [Alpha];
    assert StableSort.InsertionSort([Alpha], cmp) == [Alpha] by {
      assert [Alpha][..0] == [];
    }
    assert StableSort.Insert([Alpha], Beta, cmp) == [Beta, Alpha] by {
      assert cmp(Alpha, Beta) > 0;
      assert [Alpha][..0] == [];
    }
  }

  /** The credit filter keeps only the credit record. */
  lemma {:induction false} CreditsOnly(p: Platform)
    ensures PageWindow(Derived([Alpha, Beta], "", Only(Credit), "date-desc", p), 0, 10) == [Alpha]
  {
    DateOptionsParse();
    assert Matches(Alpha, "", Only(Credit), p) && !Matches(Beta, "", Only(Credit), p);
    assert [Alpha, Beta][1..] == [Beta] && [Beta][1..] == [];
    assert FilterRecords([Beta], "", Only(Credit), p) == [];
    assert FilterRecords([Alpha, Beta], "", Only(Credit), p) == [Alpha];
    assert [Alpha][..0] == [];
  }

  /** Neither record's lower-cased name includes "zzz". */
  lemma {:induction false} NeitherIncludesZzz(p: Platform)
    requires p.toLowerCase("Alpha") == "alpha" && p.toLowerCase("Beta") == "beta"
    ensures !Matches(Alpha, "zzz", All, p) && !Matches(Beta, "zzz", All, p)
  {
    var a, b, z := "alpha", "beta", "zzz";
    assert z[0] !in a && z[0] !in b;
    JsRuntime.FirstCharMissing(a, z);
    JsRuntime.FirstCharMissing(b, z);
  }

  /** A term no account name includes leaves nothing to show, on a single page. */
  lemma {:induction false} NoMatch(p: Platform)
    requires p.toLowerCase("Alpha") == "alpha" && p.toLowerCase("Beta") == "beta"
    ensures Derived([Alpha, Beta], "zzz", All, "date-desc", p) == []
    ensures Pagination.TotalPages(Pagination.Controls(|Derived([Alpha, Beta], "zzz", All, "date-desc", p)|, 10, 0)) == 1
  {
    NeitherIncludesZzz(p);
    assert [Alpha, Beta][1..] == [Beta] && [Beta][1..] == [];
    assert FilterRecords([Beta], "zzz", All, p) == [];
    assert FilterRecords([Alpha, Beta], "zzz", All, p) == [];
  }

  /** After a failed first load the page shows the message and no records. */
  method FailedFirstLoad(p: Platform) returns (page: ReportsComponent)
    ensures page.error == Some(LoadFailedMessage) && !page.loading
    ensures page.all == [] && page.pageItems == []
  {
    page := new ReportsComponent(p);
    page.OnLoadError();
  }

  /** Asking for a page past the last one gives an empty page, not a failure. */
  method PagePastTheEnd(p: Platform) returns (page: ReportsComponent)
    ensures page.all == [Alpha, Beta] && page.pageIndex == 5
    ensures page.pageItems == []
  {
    page := new ReportsComponent(p);
    page.OnLoadSuccess([Alpha, Beta]);
    page.OnPageChange(5);
    DerivedIsFilteredPermutation(page.all, page.searchTerm, page.typeFilter, page.activeSort, p);
    assert |page.filtered[..]| <= 2;
  }
}
