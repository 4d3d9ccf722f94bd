/**
 * The pagination control (src/app/components/pagination-controls/
 * pagination-controls.component.ts). Its inputs are the number of records,
 * the page size and the current zero-based page; its getters and its four
 * navigation handlers only read them. A handler's `pageChange.emit(i)` is
 * modelled as returning Some(i), and emitting nothing as None. Since the
 * handlers are functions of an immutable value, none of them can change
 * the inputs.
 */
module Pagination {
  import opened Wrappers

  /** The control's three inputs (JavaScript numbers, modelled as integers). */
  datatype Controls = Controls(length: int, pageSize: int, pageIndex: int)

  function Max(a: int, b: int): int {
    if a < b then b else a
  }

  /** Math.ceil(a / b) for a positive b: the least q with a <= q * b. */
  function CeilDiv(a: int, b: int): (q: int)
    requires b > 0
    ensures a <= q * b
    ensures (q - 1) * b < a
  {
    var n := -a;
    var m := n % b;
    assert n == (n / b) * b + m;
    assert (-(n / b)) * b == -((n / b) * b);
    assert (-(n / b) - 1) * b == -((n / b) * b) - b;
    -(n / b)
  }

  /**
   * The number of pages: at least one, and otherwise the fewest pages of
   * pageSize records that hold length records.
   */
  function TotalPages(c: Controls): (r: int)
    ensures r >= 1
    ensures c.pageSize <= 0 ==> r == 1
    ensures c.pageSize > 0 ==> c.length <= r * c.pageSize
    ensures c.pageSize > 0 && r > 1 ==> (r - 1) * c.pageSize < c.length
  {
    if c.pageSize > 0 then Max(1, CeilDiv(c.length, c.pageSize)) else 1
  }

  predicate CanPrev(c: Controls) {
    c.pageIndex > 0
  }

  predicate CanNext(c: Controls) {
    c.pageIndex < TotalPages(c) - 1
  }

  /** goFirst: emits 0 unless the first page is already shown. */
  function GoFirst(c: Controls): (r: Option<int>)
    ensures r.Some? <==> c.pageIndex != 0
    ensures r.Some? ==> r.value == 0
  {
    if c.pageIndex != 0 then Some(0) else None
  }

  /** goPrev: emits the previous page, which is never negative, exactly when there is one. */
  function GoPrev(c: Controls): (r: Option<int>)
    ensures r.Some? <==> c.pageIndex > 0
    ensures r.Some? ==> r.value == c.pageIndex - 1 && r.value >= 0
  {
    if CanPrev(c) then Some(c.pageIndex - 1) else None
  }

  /** goNext: emits the next page, which never passes the last one, exactly when there is one. */
  function GoNext(c: Controls): (r: Option<int>)
    ensures r.Some? <==> c.pageIndex < TotalPages(c) - 1
    ensures r.Some? ==> r.value == c.pageIndex + 1 && r.value <= TotalPages(c) - 1
  {
    if CanNext(c) then Some(c.pageIndex + 1) else None
  }

  /** goLast: emits the last page unless it is already shown. */
  function GoLast(c: Controls): (r: Option<int>)
    ensures r.Some? <==> c.pageIndex != TotalPages(c) - 1
    ensures r.Some? ==> r.value == TotalPages(c) - 1 && r.value >= 0
  {
    var last := TotalPages(c) - 1;
    if c.pageIndex != last then Some(last) else None
  }

  /** A page index the control can show. */
  predicate InRange(c: Controls, i: int) {
    0 <= i <= TotalPages(c) - 1
  }

  /** Every page any handler emits is one the control can show. */
  lemma EmittedPagesInRange(c: Controls)
    requires InRange(c, c.pageIndex)
    ensures forall r :: r in [GoFirst(c), GoPrev(c), GoNext(c), GoLast(c)] && r.Some? ==> InRange(c, r.value)
  {
  }

  lemma MulMonotone(a: int, b: int, k: int)
    requires a <= b && k > 0
    ensures a * k <= b * k
  {
  }

  /**
   * For any page at or after the first, canNext holds exactly when some
   * record lies past the end of the current page.
   */
  lemma {:induction false} CanNextIffRecordsRemain(c: Controls)
    requires c.pageSize > 0 && c.pageIndex >= 0
    ensures CanNext(c) <==> (c.pageIndex + 1) * c.pageSize < c.length
  {
    var r := TotalPages(c);
    if CanNext(c) {
      MulMonotone(c.pageIndex + 1, r - 1, c.pageSize);
    } else {
      MulMonotone(r, c.pageIndex + 1, c.pageSize);
    }
  }

  /** When there are records, the last page starts before the last record and reaches it. */
  lemma {:induction false} LastPageHoldsTheLastRecord(c: Controls)
    requires c.pageSize > 0 && c.length > 0
    ensures (TotalPages(c) - 1) * c.pageSize < c.length <= TotalPages(c) * c.pageSize
  {
    var r := TotalPages(c);
    if r == 1 {
      assert (r - 1) * c.pageSize == 0;
    }
  }
}
