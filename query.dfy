/** The listing query of the repository: the four AND-combined filters read
    from an untyped filter array, and 1-indexed, length-aware pages. */
module Query {
  import opened Wrappers
  import opened PhpValues
  import Strings
  import Gender
  import MaritalStatus
  import opened SalesmanModel

  /** The filter keys buildQuery looks at. */
  const FilterKeys: set<string> := {"search", "gender", "marital_status", "prosight_id"}

  /** The filters that take effect; None for one that is ignored. */
  datatype Filters = Filters(
    search: Option<string>,
    gender: Option<string>,
    maritalStatus: Option<string>,
    prosightId: Option<string>)

  /** The value given for a filter key takes effect: it is a string, and for
      gender and marital_status one of the codes. */
  predicate Applies(key: string, v: Mixed) {
    && v.Str?
    && (key == "gender" ==> v.s in ["m", "f"])
    && (key == "marital_status" ==> v.s in ["single", "married", "divorced", "widowed"])
  }

  function Effective(filters: map<string, Mixed>, key: string): Option<string> {
    if IsSet(filters, key) && Applies(key, filters[key]) then Some(filters[key].s) else None
  }

  /** buildQuery's guards. */
  function ReadFilters(filters: map<string, Mixed>): Filters {
    Filters(Effective(filters, "search"), Effective(filters, "gender"),
      Effective(filters, "marital_status"), Effective(filters, "prosight_id"))
  }

  /** A row passes every filter that takes effect. */
  predicate Matches(f: Filters, s: Salesman) {
    && (f.search.Some? ==> MatchesSearch(s, f.search.value))
    && (f.gender.Some? ==> ByGender(s, f.gender.value))
    && (f.maritalStatus.Some? ==> ByMaritalStatus(s, f.maritalStatus.value))
    && (f.prosightId.Some? ==> Strings.ContainsIgnoreCase(s.prosightId, f.prosightId.value))
  }

  /** The rows passing the filters, in table order. */
  function Select(rows: seq<Salesman>, f: Filters): (r: seq<Salesman>)
    ensures |r| <= |rows|
    ensures forall s :: s in r <==> s in rows && Matches(f, s)
  {
    if rows == [] then []
    else
      var rest := Select(rows[1..], f);
      assert forall s | s in rows[1..] :: s in rows;
      assert forall s | s in rows :: s == rows[0] || s in rows[1..];
      if Matches(f, rows[0]) then [rows[0]] + rest else rest
  }

  /** buildQuery over the stored rows. */
  function BuildQuery(rows: seq<Salesman>, filters: map<string, Mixed>): seq<Salesman> {
    Select(rows, ReadFilters(filters))
  }

  /** Selection keeps table order: selecting from two parts in turn is
      selecting from the whole. */
  lemma {:induction false} SelectAppend(a: seq<Salesman>, b: seq<Salesman>, f: Filters)
    ensures Select(a + b, f) == Select(a, f) + Select(b, f)
  {
    if a == [] {
      assert a + b == b;
    } else {
      assert (a + b)[0] == a[0] && (a + b)[1..] == a[1..] + b;
      SelectAppend(a[1..], b, f);
    }
  }

  /** With no effective filter every row is listed, in table order. */
  lemma {:induction false} SelectNothing(rows: seq<Salesman>)
    ensures Select(rows, Filters(None, None, None, None)) == rows
  {
    if rows != [] {
      SelectNothing(rows[1..]);
    }
  }

  /** A filter key whose value does not take effect (not a string, or a
      gender or marital status outside the codes), and any key outside the
      four, is ignored without error: removing it lists the same rows. */
  lemma IgnoredFilter(rows: seq<Salesman>, filters: map<string, Mixed>, key: string)
    requires key in filters
    requires key !in FilterKeys || !Applies(key, filters[key])
    ensures BuildQuery(rows, filters) == BuildQuery(rows, filters - {key})
  {
    var rest := filters - {key};
    assert forall k | k != key :: Effective(filters, k) == Effective(rest, k);
    assert ReadFilters(filters) == ReadFilters(rest);
  }

  /** A gender filter of "m" or "f" lists exactly the rows with that gender. */
  lemma GenderFilter(rows: seq<Salesman>, g: string)
    requires g == "m" || g == "f"
    ensures forall s :: s in BuildQuery(rows, map["gender" := Str(g)]) <==> s in rows && s.gender == g
  {
    assert ReadFilters(map["gender" := Str(g)]) == Filters(None, Some(g), None, None);
  }

  /** The prosight_id filter is a case-insensitive substring match, not an
      equality: "abc" finds a row whose prosight id is "XABCX". */
  lemma ProsightIdFilterIsSubstring(s: Salesman)
    requires s.prosightId == "XABCX"
    ensures Matches(ReadFilters(map["prosight_id" := Str("abc")]), s)
  {
    assert ReadFilters(map["prosight_id" := Str("abc")]) == Filters(None, None, None, Some("abc"));
    assert Strings.Lower("XABCX") == "xabcx";
    assert Strings.OccursAt("abc", "xabcx", 1);
  }

  // ---------------------------------------------------------------------
  // Pages
  // ---------------------------------------------------------------------

  /** One page of a length-aware paginator. */
  datatype Page = Page(items: seq<Salesman>, total: nat, perPage: nat, currentPage: nat, lastPage: nat)

  /** max(ceil(total / perPage), 1). */
  function LastPage(total: nat, perPage: nat): (n: nat)
    requires perPage >= 1
    ensures n >= 1
    ensures (n - 1) * perPage < total || n == 1
    ensures total <= n * perPage
  {
    var q := (total + perPage - 1) / perPage;
    if q < 1 then 1 else q
  }

  /** The number of rows before page `page`. */
  function Offset(page: nat, perPage: nat): nat
    requires page >= 1
  {
    (page - 1) * perPage
  }

  /** paginate: the perPage rows starting at offset (page - 1) * perPage, and
      the page counters. */
  function PageOf(rows: seq<Salesman>, page: nat, perPage: nat): (p: Page)
    requires page >= 1 && perPage >= 1
    ensures |p.items| <= perPage && p.total == |rows|
    ensures forall k | 0 <= k < |p.items| ::
      Offset(page, perPage) + k < |rows| && p.items[k] == rows[Offset(page, perPage) + k]
    ensures |p.items| == if |rows| <= Offset(page, perPage) then 0
      else if Offset(page, perPage) + perPage <= |rows| then perPage
      else |rows| - Offset(page, perPage)
  {
    var offset := Offset(page, perPage);
    var from := if offset < |rows| then offset else |rows|;
    var to := if from + perPage < |rows| then from + perPage else |rows|;
    Page(rows[from..to], |rows|, perPage, page, LastPage(|rows|, perPage))
  }

  lemma MulMonotone(a: nat, b: nat, c: nat)
    requires a <= b
    ensures a * c <= b * c
  {
  }

  /** Every row is listed on exactly one page: the row at offset
      q * perPage + r (r < perPage) is item r of page q + 1, and that page
      is never past the last one. */
  lemma RowOnItsPage(rows: seq<Salesman>, perPage: nat, q: nat, r: nat)
    requires perPage >= 1 && r < perPage && q * perPage + r < |rows|
    ensures var p := PageOf(rows, q + 1, perPage);
      r < |p.items| && p.items[r] == rows[q * perPage + r] && q + 1 <= p.lastPage
  {
    var n := LastPage(|rows|, perPage);
    if n <= q {
      MulMonotone(n, q, perPage);
      assert false;
    }
  }

  /** The feature-test example: 25 rows, 10 per page, page 2 has 10 rows
      (rows 10 to 19) and there are 3 pages. */
  lemma TwentyFiveRows(rows: seq<Salesman>)
    requires |rows| == 25
    ensures PageOf(rows, 2, 10).items == rows[10..20]
    ensures PageOf(rows, 2, 10).lastPage == 3
  {
  }
}
