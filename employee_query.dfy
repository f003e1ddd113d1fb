/** `getAllEmployees` of `Backend/controllers/employeeController.js`: the
    search filter, the table of sort keys, and skip/limit paging over the
    sorted matches. The database's sort is modelled by an insertion sort; the
    model's own choice among records with equal keys is not part of what is
    promised, which `IsListingOf` states without it. */
module EmployeeQuery {
  import opened Text
  import opened EmployeeModel

  datatype SortField = ByName | ByEmail | ById | ByCreateDate
  datatype SortOrder = SortOrder(field: SortField, descending: bool)

  /** The `sort` values the switch names. */
  const SortKeys: seq<string> := ["name", "name_desc", "email", "email_desc", "id", "id_desc", "date", "date_desc"]

  /** The order used without a `sort` value or with an unknown one. */
  const DefaultOrder := SortOrder(ByCreateDate, true)

  /** The switch on `sort` (an absent value, the empty string, behaves as unknown). */
  function SortFor(key: string): SortOrder {
    match key
    case "name" => SortOrder(ByName, false)
    case "name_desc" => SortOrder(ByName, true)
    case "email" => SortOrder(ByEmail, false)
    case "email_desc" => SortOrder(ByEmail, true)
    case "id" => SortOrder(ById, false)
    case "id_desc" => SortOrder(ById, true)
    case "date" => SortOrder(ByCreateDate, false)
    case "date_desc" => SortOrder(ByCreateDate, true)
    case _ => DefaultOrder
  }

  /** The field name the key uses, as the client's headers also spell it. */
  function FieldName(f: SortField): string {
    match f
    case ByName => "name"
    case ByEmail => "email"
    case ById => "id"
    case ByCreateDate => "date"
  }

  /** The key that selects an order: the field name, with `_desc` for descending. */
  function KeyOf(o: SortOrder): (key: string)
    ensures key in SortKeys
    ensures key == FieldName(o.field) + if o.descending then "_desc" else ""
  {
    match o
    case SortOrder(ByName, false) => "name"
    case SortOrder(ByName, true) => "name_desc"
    case SortOrder(ByEmail, false) => "email"
    case SortOrder(ByEmail, true) => "email_desc"
    case SortOrder(ById, false) => "id"
    case SortOrder(ById, true) => "id_desc"
    case SortOrder(ByCreateDate, false) => "date"
    case SortOrder(ByCreateDate, true) => "date_desc"
  }

  /** The table: each of the eight keys selects the order it spells, any
      other key selects the default. */
  lemma SortForTable(key: string)
    ensures key !in SortKeys ==> SortFor(key) == DefaultOrder
    ensures key in SortKeys ==> KeyOf(SortFor(key)) == key
  {
    if key in SortKeys {
      var k :| 0 <= k < |SortKeys| && SortKeys[k] == key;
      if k == 0 {} else if k == 1 {} else if k == 2 {} else if k == 3 {}
      else if k == 4 {} else if k == 5 {} else if k == 6 {} else {}
    }
  }

  /** Every order has exactly one key: `SortFor` undoes `KeyOf`. */
  lemma SortForKeyOf(o: SortOrder)
    ensures SortFor(KeyOf(o)) == o
  {
  }

  /** Compares one field of two records, ascending. */
  predicate FieldLe(f: SortField, a: Employee, b: Employee) {
    match f
    case ByName => StrLe(a.name, b.name)
    case ByEmail => StrLe(a.email, b.email)
    case ById => a.id <= b.id
    case ByCreateDate => a.createDate <= b.createDate
  }

  predicate KeyLe(o: SortOrder, a: Employee, b: Employee) {
    if o.descending then FieldLe(o.field, b, a) else FieldLe(o.field, a, b)
  }

  lemma KeyLeTotal(o: SortOrder, a: Employee, b: Employee)
    ensures KeyLe(o, a, b) || KeyLe(o, b, a)
  {
    match o.field
    case ByName => StrLeTotal(a.name, b.name);
    case ByEmail => StrLeTotal(a.email, b.email);
    case _ =>
  }

  lemma KeyLeTransitive(o: SortOrder, a: Employee, b: Employee, c: Employee)
    requires KeyLe(o, a, b) && KeyLe(o, b, c)
    ensures KeyLe(o, a, c)
  {
    match o.field
    case ByName =>
      if o.descending { StrLeTransitive(c.name, b.name, a.name); } else { StrLeTransitive(a.name, b.name, c.name); }
    case ByEmail =>
      if o.descending { StrLeTransitive(c.email, b.email, a.email); } else { StrLeTransitive(a.email, b.email, c.email); }
    case _ =>
  }

  predicate SortedBy(o: SortOrder, s: seq<Employee>) {
    forall i, j :: 0 <= i < j < |s| ==> KeyLe(o, s[i], s[j])
  }

  /** Puts `x` into `s` before the first record that must follow it. */
  function Insert(o: SortOrder, x: Employee, s: seq<Employee>): (r: seq<Employee>)
    ensures multiset(r) == multiset(s) + multiset{x}
  {
    if s == [] then [x]
    else if KeyLe(o, s[0], x) then
      assert s == [s[0]] + s[1..];
      [s[0]] + Insert(o, x, s[1..])
    else
      [x] + s
  }

  lemma SortedCons(o: SortOrder, x: Employee, s: seq<Employee>)
    requires SortedBy(o, s)
    requires forall j :: 0 <= j < |s| ==> KeyLe(o, x, s[j])
    ensures SortedBy(o, [x] + s)
  {
    var r := [x] + s;
    forall i, j | 0 <= i < j < |r| ensures KeyLe(o, r[i], r[j]) {
      assert r[j] == s[j - 1];
      if i > 0 { assert r[i] == s[i - 1]; }
    }
  }

  /** Inserting into a sorted sequence keeps it sorted. */
  lemma {:induction false} InsertSorted(o: SortOrder, x: Employee, s: seq<Employee>)
    requires SortedBy(o, s)
    ensures SortedBy(o, Insert(o, x, s))
  {
    if s == [] {
    } else if KeyLe(o, s[0], x) {
      var tail := s[1..];
      assert SortedBy(o, tail) by {
        forall i, j | 0 <= i < j < |tail| ensures KeyLe(o, tail[i], tail[j]) {
          assert tail[i] == s[i + 1] && tail[j] == s[j + 1];
        }
      }
      InsertSorted(o, x, tail);
      var rest := Insert(o, x, tail);
      forall j | 0 <= j < |rest| ensures KeyLe(o, s[0], rest[j]) {
        assert rest[j] in multiset(rest);
        if rest[j] != x {
          assert rest[j] in multiset(tail);
          var k :| 0 <= k < |tail| && tail[k] == rest[j];
          assert s[k + 1] == rest[j];
        }
      }
      SortedCons(o, s[0], rest);
    } else {
      KeyLeTotal(o, s[0], x);
      forall j | 0 <= j < |s| ensures KeyLe(o, x, s[j]) {
        if j > 0 { KeyLeTransitive(o, x, s[0], s[j]); }
      }
      SortedCons(o, x, s);
    }
  }

  /** The records in the order `o`, as `find(query).sort(sortOptions)` returns them. */
  function SortBy(o: SortOrder, s: seq<Employee>): (r: seq<Employee>)
    ensures multiset(r) == multiset(s)
    ensures SortedBy(o, r)
  {
    if s == [] then []
    else
      assert s == [s[0]] + s[1..];
      var rest := SortBy(o, s[1..]);
      InsertSorted(o, s[0], rest);
      Insert(o, s[0], rest)
  }

  /** The `$or` of two case-insensitive matches on `name` and `email`; with
      no search text there is no condition. */
  predicate Matches(e: Employee, search: string) {
    search == "" || Contains(Lower(e.name), Lower(search)) || Contains(Lower(e.email), Lower(search))
  }

  /** `find(query)`: the matching records, in collection order. */
  function Filter(records: seq<Employee>, search: string): (r: seq<Employee>)
    ensures |r| <= |records|
    ensures forall e :: e in r <==> e in records && Matches(e, search)
  {
    if records == [] then []
    else
      var rest := Filter(records[1..], search);
      assert forall e :: e in records <==> e == records[0] || e in records[1..];
      if Matches(records[0], search) then [records[0]] + rest else rest
  }

  /** With no search text every record matches, in order. */
  lemma {:induction false} FilterEmptySearch(records: seq<Employee>)
    ensures Filter(records, "") == records
  {
    if records != [] {
      FilterEmptySearch(records[1..]);
    }
  }

  /** Each matching record appears as often as in the collection and every
      other record not at all, so `|Filter(records, search)|` is what
      `countDocuments(query)` counts. */
  lemma {:induction false} FilterCounts(records: seq<Employee>, search: string)
    ensures forall e :: multiset(Filter(records, search))[e] == if Matches(e, search) then multiset(records)[e] else 0
  {
    if records != [] {
      FilterCounts(records[1..], search);
      assert records == [records[0]] + records[1..];
    }
  }

  /** The search text matches names and emails as a substring, ignoring case. */
  lemma MatchesIff(e: Employee, search: string)
    ensures Matches(e, search) <==>
      search == "" ||
      (exists i :: OccursAt(Lower(e.name), Lower(search), i)) ||
      (exists i :: OccursAt(Lower(e.email), Lower(search), i))
  {
    ContainsIff(Lower(e.name), Lower(search));
    ContainsIff(Lower(e.email), Lower(search));
    MatchesUnfold(e, search);
  }

  lemma MatchesUnfold(e: Employee, search: string)
    ensures Matches(e, search) <==>
      search == "" || Contains(Lower(e.name), Lower(search)) || Contains(Lower(e.email), Lower(search))
  {
  }

  datatype ListResult = ListResult(employees: seq<Employee>, totalPages: nat, currentPage: nat, totalCount: nat)

  /** `Math.ceil(total / limit)`. */
  function CeilDiv(total: nat, limit: nat): (q: nat)
    requires limit >= 1
    ensures q * limit >= total
    ensures q >= 1 ==> (q - 1) * limit < total
  {
    (total + limit - 1) / limit
  }

  /** `skip(skip).limit(limit)` of a sequence. */
  function Window<T>(s: seq<T>, skip: nat, limit: nat): (r: seq<T>)
    ensures |r| <= limit
    ensures skip >= |s| ==> r == []
    ensures skip < |s| ==> |r| == if skip + limit <= |s| then limit else |s| - skip
    ensures forall k :: 0 <= k < |r| ==> skip + k < |s| && r[k] == s[skip + k]
  {
    if skip >= |s| then [] else if skip + limit <= |s| then s[skip..skip + limit] else s[skip..]
  }

  /** `(page - 1) * limit`, the number of matches before the page. */
  function Skip(page: nat, limit: nat): nat
    requires page >= 1
  {
    (page - 1) * limit
  }

  /** The response of `getAllEmployees` for a query `(search, sort, page, limit)`. */
  function List(records: seq<Employee>, search: string, sort: string, page: nat, limit: nat): (r: ListResult)
    requires page >= 1 && limit >= 1
    ensures |r.employees| <= limit
    ensures r.totalCount == |Filter(records, search)|
    ensures r.totalPages == CeilDiv(r.totalCount, limit) && r.currentPage == page
    ensures forall e :: e in r.employees ==> e in records && Matches(e, search)
    ensures SortedBy(SortFor(sort), r.employees)
  {
    var matches := Filter(records, search);
    var ordered := SortBy(SortFor(sort), matches);
    var employees := Window(ordered, Skip(page, limit), limit);
    assert forall e :: e in employees ==> e in multiset(ordered);
    ListResult(employees, CeilDiv(|matches|, limit), page, |matches|)
  }

  /** `ordered` holds exactly the records of `matches`, sorted by `o`. */
  ghost predicate IsOrdering(ordered: seq<Employee>, matches: seq<Employee>, o: SortOrder) {
    multiset(ordered) == multiset(matches) && SortedBy(o, ordered)
  }

  /** What the route promises of a listing, without fixing an order among
      equal keys: some ordering of exactly the matching records, sorted by the
      requested order, of which the result is the requested page. */
  ghost predicate IsListingOf(r: ListResult, records: seq<Employee>, search: string, sort: string, page: nat, limit: nat)
    requires page >= 1 && limit >= 1
  {
    var matches := Filter(records, search);
    && r.totalCount == |matches|
    && r.totalPages == CeilDiv(|matches|, limit)
    && r.currentPage == page
    && exists ordered :: IsOrdering(ordered, matches, SortFor(sort)) && r.employees == Window(ordered, Skip(page, limit), limit)
  }

  lemma ListIsListing(records: seq<Employee>, search: string, sort: string, page: nat, limit: nat)
    requires page >= 1 && limit >= 1
    ensures IsListingOf(List(records, search, sort, page, limit), records, search, sort, page, limit)
  {
    var matches := Filter(records, search);
    var ordered := SortBy(SortFor(sort), matches);
    assert IsOrdering(ordered, matches, SortFor(sort));
    ListPage(records, search, sort, page, limit);
  }

  lemma ListPage(records: seq<Employee>, search: string, sort: string, page: nat, limit: nat)
    requires page >= 1 && limit >= 1
    ensures List(records, search, sort, page, limit).employees ==
      Window(SortBy(SortFor(sort), Filter(records, search)), Skip(page, limit), limit)
  {
  }

  /** The pages `1..totalPages` together hold each match exactly once. */
  lemma {:induction false} PagesCover(ordered: seq<Employee>, limit: nat, pages: nat)
    requires limit >= 1 && pages >= 1 && pages == CeilDiv(|ordered|, limit)
    ensures Concat(ordered, limit, pages) == ordered
  {
    ConcatPrefix(ordered, limit, pages);
    assert |ordered| <= pages * limit;
  }

  /** Pages `1..n` laid end to end. */
  function Concat<T>(s: seq<T>, limit: nat, n: nat): seq<T>
    requires limit >= 1
  {
    if n == 0 then [] else Concat(s, limit, n - 1) + Window(s, (n - 1) * limit, limit)
  }

  lemma {:induction false} ConcatPrefix<T>(s: seq<T>, limit: nat, n: nat)
    requires limit >= 1
    ensures Concat(s, limit, n) == s[..if n * limit <= |s| then n * limit else |s|]
  {
    if n > 0 {
      ConcatPrefix(s, limit, n - 1);
      var a := (n - 1) * limit;
      assert n * limit == a + limit;
      PrefixThenWindow(s, a, limit);
    }
  }

  /** The first `a` elements followed by the window at `a` are the first `a + limit`. */
  lemma PrefixThenWindow<T>(s: seq<T>, a: nat, limit: nat)
    ensures s[..if a <= |s| then a else |s|] + Window(s, a, limit) == s[..if a + limit <= |s| then a + limit else |s|]
  {
    if a < |s| {
      var b := if a + limit <= |s| then a + limit else |s|;
      assert Window(s, a, limit) == s[a..b];
      assert s[..a] + s[a..b] == s[..b];
    }
  }
}
