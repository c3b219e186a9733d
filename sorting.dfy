/** The `sort` query parameter of the listing: a whitelisted column, with a
    leading '-' for descending order, and the ORDER BY it produces. */
module Sorting {
  import opened Wrappers
  import Strings
  import opened SalesmanModel

  datatype Direction = Asc | Desc

  datatype Sort = Sort(field: string, direction: Direction)

  /** The columns the listing may be ordered by. */
  const SortableFields: seq<string> :=
    ["first_name", "last_name", "prosight_id", "email", "gender", "marital_status",
     "created_at", "updated_at"]

  /** applySorting's parse: a leading '-' selects descending order and is
      stripped (one character only); a column outside the whitelist gives
      no ordering at all. */
  function ParseSort(sort: string): Option<Sort> {
    var descending := |sort| > 0 && sort[0] == '-';
    var field := if descending then sort[1..] else sort;
    if field in SortableFields then Some(Sort(field, if descending then Desc else Asc))
    else None
  }

  /** The parameter that asks for an ordering. */
  function Render(s: Sort): string {
    (if s.direction == Desc then "-" else "") + s.field
  }

  lemma NoFieldStartsWithDash(f: string)
    requires f in SortableFields
    ensures |f| > 0 && f[0] != '-'
  {
  }

  /** Every whitelisted ordering can be asked for: parsing its rendering
      gives it back. */
  lemma ParseRender(s: Sort)
    requires s.field in SortableFields
    ensures ParseSort(Render(s)) == Some(s)
  {
    NoFieldStartsWithDash(s.field);
    if s.direction == Desc {
      assert Render(s)[0] == '-' && Render(s)[1..] == s.field;
    } else {
      assert Render(s) == s.field;
    }
  }

  /** Every accepted parameter is the rendering of what it parses to, so
      a whitelisted column is ascending exactly when written bare and
      descending exactly when written after one '-'. */
  lemma RenderParse(sort: string)
    requires ParseSort(sort).Some?
    ensures ParseSort(sort).value.field in SortableFields
    ensures Render(ParseSort(sort).value) == sort
  {
    if |sort| > 0 && sort[0] == '-' {
      assert sort == "-" + sort[1..];
    }
  }

  /** Only one '-' is stripped; unknown columns, such as id, and the empty
      parameter order nothing. */
  lemma ParseSortRejects()
    ensures ParseSort("--first_name").None? && ParseSort("").None? && ParseSort("id").None?
    ensures ParseSort("-first_name") == Some(Sort("first_name", Desc))
  {
    assert "--first_name"[1..] == "-first_name";
    assert "-first_name"[1..] == "first_name";
  }

  /** A column value as the database orders it. */
  datatype Key = Text(s: string) | Time(t: nat) | Null

  function KeyOf(s: Salesman, field: string): Key {
    if field == "first_name" then Text(s.firstName)
    else if field == "last_name" then Text(s.lastName)
    else if field == "prosight_id" then Text(s.prosightId)
    else if field == "email" then Text(s.email)
    else if field == "gender" then Text(s.gender)
    else if field == "marital_status" then
      (if s.maritalStatus.Some? then Text(s.maritalStatus.value) else Null)
    else if field == "created_at" then Time(s.createdAt)
    else if field == "updated_at" then Time(s.updatedAt)
    else Null
  }

  /** Ascending key order: strings by code point, times numerically, and
      NULL after everything (so NULLs come last ascending and first
      descending). A column never mixes texts and times; ordering them is
      only for totality. */
  predicate KeyLe(a: Key, b: Key) {
    match (a, b)
    case (_, Null) => true
    case (Null, _) => false
    case (Text(x), Text(y)) => Strings.LessEq(x, y)
    case (Time(x), Time(y)) => x <= y
    case (Text(_), Time(_)) => true
    case (Time(_), Text(_)) => false
  }

  lemma KeyLeTotal(a: Key, b: Key)
    ensures KeyLe(a, b) || KeyLe(b, a)
  {
    if a.Text? && b.Text? {
      Strings.LessEqTotal(a.s, b.s);
    }
  }

  lemma KeyLeTransitive(a: Key, b: Key, c: Key)
    requires KeyLe(a, b) && KeyLe(b, c)
    ensures KeyLe(a, c)
  {
    if a.Text? && b.Text? && c.Text? {
      Strings.LessEqTransitive(a.s, b.s, c.s);
    }
  }

  lemma KeyLeAntisymmetric(a: Key, b: Key)
    requires KeyLe(a, b) && KeyLe(b, a)
    ensures a == b
  {
    if a.Text? && b.Text? {
      Strings.LessEqAntisymmetric(a.s, b.s);
    }
  }

  /** a may come before b under the ordering. */
  predicate Before(a: Salesman, b: Salesman, o: Sort) {
    if o.direction == Asc then KeyLe(KeyOf(a, o.field), KeyOf(b, o.field))
    else KeyLe(KeyOf(b, o.field), KeyOf(a, o.field))
  }

  lemma BeforeTotal(a: Salesman, b: Salesman, o: Sort)
    ensures Before(a, b, o) || Before(b, a, o)
  {
    KeyLeTotal(KeyOf(a, o.field), KeyOf(b, o.field));
  }

  lemma BeforeTransitive(a: Salesman, b: Salesman, c: Salesman, o: Sort)
    requires Before(a, b, o) && Before(b, c, o)
    ensures Before(a, c, o)
  {
    if o.direction == Asc {
      KeyLeTransitive(KeyOf(a, o.field), KeyOf(b, o.field), KeyOf(c, o.field));
    } else {
      KeyLeTransitive(KeyOf(c, o.field), KeyOf(b, o.field), KeyOf(a, o.field));
    }
  }

  predicate Sorted(rows: seq<Salesman>, o: Sort) {
    forall i, j | 0 <= i < j < |rows| :: Before(rows[i], rows[j], o)
  }

  /** x placed before the first row it may precede, so rows with an equal
      key keep their relative order. */
  function Insert(x: Salesman, rows: seq<Salesman>, o: Sort): seq<Salesman> {
    if rows == [] then [x]
    else if Before(x, rows[0], o) then [x] + rows
    else [rows[0]] + Insert(x, rows[1..], o)
  }

  /** ORDER BY the column in the direction, stable with respect to the
      order of the input. */
  function SortRows(rows: seq<Salesman>, o: Sort): seq<Salesman> {
    if rows == [] then [] else Insert(rows[0], SortRows(rows[1..], o), o)
  }

  lemma SortedTail(rows: seq<Salesman>, o: Sort)
    requires rows != [] && Sorted(rows, o)
    ensures Sorted(rows[1..], o)
  {
    var rest := rows[1..];
    forall i, j | 0 <= i < j < |rest| ensures Before(rest[i], rest[j], o) {
      assert rest[i] == rows[i + 1] && rest[j] == rows[j + 1];
    }
  }

  lemma SortedCons(h: Salesman, t: seq<Salesman>, o: Sort)
    requires Sorted(t, o)
    requires forall k | 0 <= k < |t| :: Before(h, t[k], o)
    ensures Sorted([h] + t, o)
  {
    var r := [h] + t;
    forall i, j | 0 <= i < j < |r| ensures Before(r[i], r[j], o) {
      assert r[j] == t[j - 1];
      if i > 0 {
        assert r[i] == t[i - 1];
      }
    }
  }

  lemma {:induction false} InsertSorted(x: Salesman, rows: seq<Salesman>, o: Sort)
    requires Sorted(rows, o)
    ensures Sorted(Insert(x, rows, o), o)
    ensures multiset(Insert(x, rows, o)) == multiset(rows) + multiset{x}
  {
    if rows == [] {
    } else if Before(x, rows[0], o) {
      forall j | 0 <= j < |rows| ensures Before(x, rows[j], o) {
        if j > 0 {
          BeforeTransitive(x, rows[0], rows[j], o);
        }
      }
      SortedCons(x, rows, o);
    } else {
      BeforeTotal(x, rows[0], o);
      var rest := rows[1..];
      SortedTail(rows, o);
      InsertSorted(x, rest, o);
      var tail := Insert(x, rest, o);
      assert rows == [rows[0]] + rest;
      InsertAfterHead(x, rows, tail, o);
      SortedCons(rows[0], tail, o);
    }
  }

  lemma InsertAfterHead(x: Salesman, rows: seq<Salesman>, tail: seq<Salesman>, o: Sort)
    requires rows != [] && Sorted(rows, o) && Before(rows[0], x, o)
    requires multiset(tail) == multiset(rows[1..]) + multiset{x}
    ensures forall k | 0 <= k < |tail| :: Before(rows[0], tail[k], o)
  {
    forall k | 0 <= k < |tail| ensures Before(rows[0], tail[k], o) {
      assert tail[k] in multiset(tail);
      if tail[k] != x {
        assert tail[k] in multiset(rows[1..]);
        var m :| 0 <= m < |rows| - 1 && rows[1..][m] == tail[k];
        assert rows[m + 1] == tail[k];
      }
    }
  }

  /** The result is ordered and is a permutation of the input. */
  lemma {:induction false} SortRowsSorted(rows: seq<Salesman>, o: Sort)
    ensures Sorted(SortRows(rows, o), o)
    ensures multiset(SortRows(rows, o)) == multiset(rows)
  {
    if rows != [] {
      SortRowsSorted(rows[1..], o);
      InsertSorted(rows[0], SortRows(rows[1..], o), o);
      assert rows == [rows[0]] + rows[1..];
    }
  }

  /** No two different rows of the sequence share a key in the column. */
  predicate DistinctKeys(rows: seq<Salesman>, field: string) {
    forall x, y | x in rows && y in rows && KeyOf(x, field) == KeyOf(y, field) :: x == y
  }

  /** The first row of an ordered sequence may precede any of its rows. */
  lemma SortedHeadFirst(a: seq<Salesman>, y: Salesman, o: Sort)
    requires a != [] && Sorted(a, o) && y in a
    ensures a[0] == y || Before(a[0], y, o)
  {
    var k :| 0 <= k < |a| && a[k] == y;
  }

  lemma SortedHeadsEqual(a: seq<Salesman>, b: seq<Salesman>, o: Sort)
    requires a != [] && b != [] && Sorted(a, o) && Sorted(b, o)
    requires a[0] in b && b[0] in a
    requires DistinctKeys(a, o.field)
    ensures a[0] == b[0]
  {
    SortedHeadFirst(a, b[0], o);
    SortedHeadFirst(b, a[0], o);
    if a[0] != b[0] {
      if o.direction == Asc {
        KeyLeAntisymmetric(KeyOf(a[0], o.field), KeyOf(b[0], o.field));
      } else {
        KeyLeAntisymmetric(KeyOf(b[0], o.field), KeyOf(a[0], o.field));
      }
    }
  }

  /** With distinct keys there is only one ordered arrangement. */
  lemma {:induction false} SortedUnique(a: seq<Salesman>, b: seq<Salesman>, o: Sort)
    requires Sorted(a, o) && Sorted(b, o) && multiset(a) == multiset(b)
    requires DistinctKeys(a, o.field)
    ensures a == b
    decreases |a|
  {
    if a == [] {
      assert |multiset(b)| == 0;
    } else {
      assert a[0] in multiset(b);
      assert b[0] in multiset(a);
      SortedHeadsEqual(a, b, o);
      TailsSameRows(a, b);
      SortedTail(a, o);
      SortedTail(b, o);
      DistinctKeysTail(a, o.field);
      SortedUnique(a[1..], b[1..], o);
    }
  }

  lemma TailsSameRows(a: seq<Salesman>, b: seq<Salesman>)
    requires a != [] && b != [] && a[0] == b[0] && multiset(a) == multiset(b)
    ensures multiset(a[1..]) == multiset(b[1..])
  {
    assert a == [a[0]] + a[1..] && b == [b[0]] + b[1..];
    calc {
      multiset(a[1..]);
      multiset(a) - multiset{a[0]};
      multiset(b) - multiset{b[0]};
      multiset(b[1..]);
    }
  }

  lemma DistinctKeysTail(a: seq<Salesman>, field: string)
    requires a != [] && DistinctKeys(a, field)
    ensures DistinctKeys(a[1..], field)
  {
    assert forall x | x in a[1..] :: x in a;
  }

  function Reverse(s: seq<Salesman>): seq<Salesman> {
    if s == [] then [] else Reverse(s[1..]) + [s[0]]
  }

  lemma {:induction false} ReverseFacts(s: seq<Salesman>)
    ensures |Reverse(s)| == |s|
    ensures forall i | 0 <= i < |s| :: Reverse(s)[i] == s[|s| - 1 - i]
    ensures multiset(Reverse(s)) == multiset(s)
  {
    if s != [] {
      ReverseFacts(s[1..]);
      assert s == [s[0]] + s[1..];
    }
  }

  /** On a column whose values are all different, descending order is
      exactly ascending order reversed. */
  lemma DescendingIsReversed(rows: seq<Salesman>, field: string)
    requires DistinctKeys(rows, field)
    ensures SortRows(rows, Sort(field, Desc)) == Reverse(SortRows(rows, Sort(field, Asc)))
  {
    var up, down := Sort(field, Asc), Sort(field, Desc);
    var asc := SortRows(rows, up);
    var desc := SortRows(rows, down);
    SortRowsSorted(rows, up);
    SortRowsSorted(rows, down);
    var rev := Reverse(asc);
    ReverseFacts(asc);
    var n := |asc|;
    forall i, j | 0 <= i < j < n ensures Before(rev[i], rev[j], down) {
      assert Before(asc[n - 1 - j], asc[n - 1 - i], up);
    }
    forall x | x in desc ensures x in rows {
      assert x in multiset(desc);
    }
    SortedUnique(desc, rev, down);
  }

  /** The feature-test example: ascending by first name puts Alice before
      Zoe, descending puts Zoe before Alice. */
  lemma AliceAndZoe(alice: Salesman, zoe: Salesman)
    requires alice.firstName == "Alice" && zoe.firstName == "Zoe"
    ensures SortRows([zoe, alice], Sort("first_name", Asc)) == [alice, zoe]
    ensures SortRows([zoe, alice], Sort("first_name", Desc)) == [zoe, alice]
  {
    assert Strings.LessEq("Alice", "Zoe");
    assert !Strings.LessEq("Zoe", "Alice");
    var up, down := Sort("first_name", Asc), Sort("first_name", Desc);
    assert [zoe, alice][1..] == [alice] && [alice][1..] == [];
    assert SortRows([alice], up) == [alice] && SortRows([alice], down) == [alice];
    assert !Before(zoe, alice, up) && Before(zoe, alice, down);
    assert Insert(zoe, [alice], up) == [alice] + Insert(zoe, [], up);
  }
}
