/** The state logic of `auth_emp_frontend/src/pages/EmployeeList.jsx`: the
    sort-header toggle, the sort indicator, the clamped paging buttons and the
    local list updates after a delete or a status toggle. The component's
    state is the class `ListPage`; each handler is a method that makes the
    state update the component makes. */
module EmployeeListPage {
  import opened Optional
  import opened Text
  import opened EmployeeModel
  import opened EmployeeQuery
  import EmployeeController

  /** The fields of the clickable table headers. */
  const Headers: seq<string> := ["id", "name", "email", "date"]

  /** The initial `sortBy`. */
  const InitialSort: string := "date_desc"

  /** The page size of every fetch. */
  const PageLimit: nat := 10

  /** `handleSortChange(field)`: the same header again selects
      `<field before any _>_desc`, any other header selects its field. */
  function NextSort(sortBy: string, field: string): string {
    if sortBy == field then Split(field, '_')[0] + "_desc" else field
  }

  /** A header field has no `_`, so the `split` gives it back. */
  lemma HeaderSplit(field: string)
    requires field in Headers
    ensures Split(field, '_')[0] == field
  {
    assert '_' !in field;
    SplitNoSeparator(field, '_');
  }

  /** A click on a header selects that header's field, descending exactly
      when the list was sorted ascending by it; the order the server then
      applies is that field in that direction. */
  lemma SortClick(sortBy: string, field: string)
    requires field in Headers
    ensures NextSort(sortBy, field) == (if sortBy == field then field + "_desc" else field)
    ensures NextSort(sortBy, field) in SortKeys
    ensures FieldName(SortFor(NextSort(sortBy, field)).field) == field
    ensures SortFor(NextSort(sortBy, field)).descending <==> sortBy == field
  {
    HeaderSplit(field);
    HeaderKeys(field);
  }

  /** Each header field and its `_desc` form are keys of the server's table,
      ordering by that field, ascending and descending. */
  lemma HeaderKeys(field: string)
    requires field in Headers
    ensures field in SortKeys && field + "_desc" in SortKeys
    ensures FieldName(SortFor(field).field) == field && !SortFor(field).descending
    ensures FieldName(SortFor(field + "_desc").field) == field && SortFor(field + "_desc").descending
  {
    if field == "id" {
      assert field + "_desc" == "id_desc";
    } else if field == "name" {
      assert field + "_desc" == "name_desc";
    } else if field == "email" {
      assert field + "_desc" == "email_desc";
    } else {
      assert field + "_desc" == "date_desc";
    }
  }

  /** From ascending, two clicks on the same header return to ascending;
      from descending, one click does. */
  lemma SortClickTwice(field: string)
    requires field in Headers
    ensures NextSort(NextSort(field, field), field) == field
    ensures NextSort(field + "_desc", field) == field
  {
    HeaderSplit(field);
    assert field + "_desc" != field by {
      assert |field + "_desc"| == |field| + 5;
    }
  }

  datatype Direction = Ascending | Descending

  /** `getSortIndicator(field)`: nothing unless `sortBy` starts with the
      field, then descending exactly when it ends in `_desc`. */
  function Indicator(sortBy: string, field: string): Option<Direction> {
    if !StartsWith(sortBy, field) then None
    else if EndsWith(sortBy, "_desc") then Some(Descending)
    else Some(Ascending)
  }

  /** For every key the page can hold, each header shows an indicator exactly
      when the server sorts by its field, pointing the way the server sorts. */
  lemma IndicatorMatchesOrder(sortBy: string, field: string)
    requires sortBy in SortKeys && field in Headers
    ensures Indicator(sortBy, field).Some? <==> FieldName(SortFor(sortBy).field) == field
    ensures Indicator(sortBy, field).Some? ==>
      (Indicator(sortBy, field) == Some(Descending) <==> SortFor(sortBy).descending)
  {
    SortForTable(sortBy);
    var o := SortFor(sortBy);
    assert sortBy == FieldName(o.field) + (if o.descending then "_desc" else "");
    IndicatorOf(FieldName(o.field), o.descending, field);
  }

  lemma IndicatorOf(name: string, descending: bool, field: string)
    requires name in Headers && field in Headers
    ensures var key := name + (if descending then "_desc" else "");
      && (StartsWith(key, field) <==> name == field)
      && EndsWith(key, "_desc") == descending
  {
    var key := name + (if descending then "_desc" else "");
    assert key[..|name|] == name;
    if StartsWith(key, field) {
      assert key[..|field|] == field;
      assert name[0] == field[0];
      assert |field| <= |name| ==> name[..|field|] == field;
    }
    if descending {
      assert key[|key| - 5..] == "_desc";
    } else {
      assert |key| < 5 || key[|key| - 1] != 'c';
    }
  }

  /** `Math.max(prev - 1, 1)`. */
  function PrevPage(p: int): int {
    if p - 1 >= 1 then p - 1 else 1
  }

  /** `Math.min(prev + 1, totalPages)`. */
  function NextPage(p: int, totalPages: int): int {
    if p + 1 <= totalPages then p + 1 else totalPages
  }

  /** Within `[1, totalPages]` both buttons stay within it: Previous moves one
      back except on the first page, Next one forward except on the last. */
  lemma PagingStaysInRange(p: int, totalPages: int)
    requires 1 <= p <= totalPages
    ensures 1 <= PrevPage(p) <= totalPages && 1 <= NextPage(p, totalPages) <= totalPages
    ensures PrevPage(p) == (if p == 1 then p else p - 1)
    ensures NextPage(p, totalPages) == (if p == totalPages then p else p + 1)
  {
  }

  /** `employees.filter(employee => employee.id !== id)`. */
  function WithoutId(employees: seq<Employee>, id: nat): (r: seq<Employee>)
    ensures |r| <= |employees|
    ensures forall e :: e in r <==> e in employees && e.id != id
  {
    if employees == [] then []
    else if employees[0].id == id then WithoutId(employees[1..], id)
    else [employees[0]] + WithoutId(employees[1..], id)
  }

  /** Filtering out an id that no entry has gives the list back unchanged. */
  lemma {:induction false} WithoutAbsentId(employees: seq<Employee>, id: nat)
    requires forall k :: 0 <= k < |employees| ==> employees[k].id != id
    ensures WithoutId(employees, id) == employees
  {
    if employees != [] {
      WithoutAbsentId(employees[1..], id);
      assert [employees[0]] + employees[1..] == employees;
    }
  }

  /** The `map` after a toggle: entries with the id get `isActive = !currentStatus`. */
  function WithToggled(employees: seq<Employee>, id: nat, currentStatus: bool): (r: seq<Employee>)
    ensures |r| == |employees|
  {
    seq(|employees|, k requires 0 <= k < |employees| =>
      if employees[k].id == id then employees[k].(isActive := !currentStatus) else employees[k])
  }

  /** The toggle touches only `isActive` of the entries with the id. */
  lemma ToggledTouchesOnly(employees: seq<Employee>, id: nat, currentStatus: bool)
    ensures var r := WithToggled(employees, id, currentStatus);
      forall k :: 0 <= k < |employees| ==>
        && (employees[k].id != id ==> r[k] == employees[k])
        && (employees[k].id == id ==> r[k].isActive == !currentStatus && r[k].(isActive := employees[k].isActive) == employees[k])
  {
  }

  /** Entries that came from the store stay consistent with it after a
      successful delete: every entry left is still stored. */
  lemma DeleteAgreesWithServer(st: EmployeeController.State, employees: seq<Employee>, id: nat)
    requires StoreOk(st.records)
    requires forall e :: e in employees ==> e in st.records
    ensures forall e :: e in WithoutId(employees, id) ==> e in EmployeeController.DeleteOutcome(st, id).state.records
  {
    EmployeeController.DeleteKeepsOthers(st, id);
  }

  /** An entry that came from the store, toggled with its own status, equals
      the stored document after the server's toggle. */
  lemma ToggleAgreesWithServer(st: EmployeeController.State, employees: seq<Employee>, id: nat, k: nat)
    requires StoreOk(st.records) && IndexOfId(st.records, id).Some?
    requires forall e :: e in employees ==> e in st.records
    requires k < |employees| && employees[k].id == id
    ensures WithToggled(employees, id, employees[k].isActive)[k] ==
      EmployeeController.ToggleOutcome(st, id).state.records[IndexOfId(st.records, id).value]
  {
    var i := IndexOfId(st.records, id).value;
    EmployeeController.ToggleState(st, id);
    assert |EmployeeController.ToggleOutcome(st, id).state.records| == |st.records|;
    assert employees[k] in st.records;
    var m :| 0 <= m < |st.records| && st.records[m] == employees[k];
    UniqueIdIndex(st.records, id, m);
  }

  /** With unique ids, a document with the id is the one lookup finds. */
  lemma UniqueIdIndex(records: seq<Employee>, id: nat, m: nat)
    requires UniqueKeys(records) && m < |records| && records[m].id == id
    ensures IndexOfId(records, id) == Some(m)
  {
    var i := IndexOfId(records, id).value;
    if m != i {
      EmployeeController.Distinct(records, m, i);
    }
  }

  /** ... and the entries with other ids are still stored after it. */
  lemma ToggleKeepsOtherEntries(st: EmployeeController.State, employees: seq<Employee>, id: nat)
    requires StoreOk(st.records) && IndexOfId(st.records, id).Some?
    requires forall e :: e in employees ==> e in st.records
    ensures forall e :: e in employees && e.id != id ==> e in EmployeeController.ToggleOutcome(st, id).state.records
  {
    EmployeeController.ToggleState(st, id);
    FlipKeepsOthers(st.records, IndexOfId(st.records, id).value);
  }

  lemma FlipKeepsOthers(records: seq<Employee>, i: nat)
    requires i < |records|
    ensures forall e :: e in records && e.id != records[i].id ==> e in EmployeeController.Flip(records, i)
  {
    var after := EmployeeController.Flip(records, i);
    forall e | e in records && e.id != records[i].id ensures e in after {
      var j :| 0 <= j < |records| && records[j] == e;
      assert after[j] == e;
    }
  }

  /** The query of every fetch. */
  datatype FetchParams = FetchParams(search: string, sort: string, page: int, limit: nat)

  /** The component state the handlers change. */
  class ListPage {
    var employees: seq<Employee>
    var totalCount: int
    var currentPage: int
    var totalPages: int
    var sortBy: string
    var debouncedSearch: string

    /** The sort is one the server knows, and the page is at least 1. */
    predicate Valid()
      reads this
    {
      sortBy in SortKeys && currentPage >= 1
    }

    /** The initial state: page 1 of the default order, no search. */
    constructor ()
      ensures employees == [] && totalCount == 0 && currentPage == 1 && totalPages == 1
      ensures sortBy == InitialSort && debouncedSearch == ""
      ensures Valid() && SortFor(sortBy) == DefaultOrder
    {
      employees := [];
      totalCount := 0;
      currentPage := 1;
      totalPages := 1;
      sortBy := InitialSort;
      debouncedSearch := "";
    }

    /** The query `fetchEmployees` sends. */
    function Params(): (p: FetchParams)
      reads this
      ensures p.limit == PageLimit
      ensures p.search == debouncedSearch && p.sort == sortBy && p.page == currentPage
    {
      FetchParams(debouncedSearch, sortBy, currentPage, PageLimit)
    }

    /** The three `set` calls after a fetch succeeds. */
    method ReceivePage(r: ListResult)
      modifies this
      ensures employees == r.employees && totalCount == r.totalCount && totalPages == r.totalPages
      ensures currentPage == old(currentPage) && sortBy == old(sortBy) && debouncedSearch == old(debouncedSearch)
    {
      employees := r.employees;
      totalCount := r.totalCount;
      totalPages := r.totalPages;
    }

    /** A click on the header of `field`. */
    method HandleSortChange(field: string)
      requires field in Headers
      modifies this
      ensures sortBy == NextSort(old(sortBy), field) && currentPage == 1
      ensures employees == old(employees) && totalCount == old(totalCount) && totalPages == old(totalPages)
      ensures debouncedSearch == old(debouncedSearch)
      ensures Valid()
    {
      SortClick(sortBy, field);
      if sortBy == field {
        var parts := Split(field, '_');
        sortBy := parts[0] + "_desc";
      } else {
        sortBy := field;
      }
      currentPage := 1;
    }

    method Previous()
      modifies this
      ensures currentPage == PrevPage(old(currentPage))
      ensures employees == old(employees) && totalCount == old(totalCount) && totalPages == old(totalPages)
      ensures sortBy == old(sortBy) && debouncedSearch == old(debouncedSearch)
      ensures old(Valid()) ==> Valid()
    {
      currentPage := if currentPage - 1 >= 1 then currentPage - 1 else 1;
    }

    /** The buttons are shown only when there is more than one page. */
    method Next()
      requires totalPages > 1
      modifies this
      ensures currentPage == NextPage(old(currentPage), totalPages)
      ensures employees == old(employees) && totalCount == old(totalCount) && totalPages == old(totalPages)
      ensures sortBy == old(sortBy) && debouncedSearch == old(debouncedSearch)
      ensures old(Valid()) ==> Valid()
    {
      currentPage := if currentPage + 1 <= totalPages then currentPage + 1 else totalPages;
    }

    /** After the server confirmed a delete. */
    method HandleDelete(id: nat)
      modifies this
      ensures employees == WithoutId(old(employees), id) && totalCount == old(totalCount) - 1
      ensures currentPage == old(currentPage) && totalPages == old(totalPages)
      ensures sortBy == old(sortBy) && debouncedSearch == old(debouncedSearch)
    {
      employees := WithoutId(employees, id);
      totalCount := totalCount - 1;
    }

    /** After the server confirmed a status toggle. */
    method HandleToggleStatus(id: nat, currentStatus: bool)
      modifies this
      ensures employees == WithToggled(old(employees), id, currentStatus)
      ensures totalCount == old(totalCount) && currentPage == old(currentPage) && totalPages == old(totalPages)
      ensures sortBy == old(sortBy) && debouncedSearch == old(debouncedSearch)
    {
      employees := WithToggled(employees, id, currentStatus);
    }
  }
}
