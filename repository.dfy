/** The salesman repository over an abstract table: the rows in insertion
    order, looked up, inserted, saved and deleted in place. */
module Repository {
  import opened Wrappers
  import opened PhpValues
  import SalesmanData
  import opened SalesmanModel
  import Sorting
  import Query

  /** No two rows share a primary key. */
  predicate DistinctIds(rows: seq<Salesman>) {
    forall i, j | 0 <= i < j < |rows| :: rows[i].id != rows[j].id
  }

  predicate HasId(rows: seq<Salesman>, id: Id) {
    exists i | 0 <= i < |rows| :: rows[i].id == id
  }

  /** The position of the row with the key, or |rows| when there is none. */
  function IdIndex(rows: seq<Salesman>, id: Id): (k: nat)
    ensures k <= |rows|
    ensures k < |rows| ==> rows[k].id == id
    ensures forall j | 0 <= j < k :: rows[j].id != id
    ensures k < |rows| <==> HasId(rows, id)
  {
    if rows == [] then 0
    else if rows[0].id == id then 0
    else
      var k := IdIndex(rows[1..], id);
      assert forall j | 1 <= j < |rows| :: rows[j] == rows[1..][j - 1];
      1 + k
  }

  /** The two columns that must be unique. */
  datatype UniqueField = ProsightIdField | EmailField

  function ValueOf(s: Salesman, f: UniqueField): string {
    if f == ProsightIdField then s.prosightId else s.email
  }

  /** existsBy…($value, $excludeId): some row has the value in the column
      and, when a key to exclude is given, a different key. */
  predicate Taken(rows: seq<Salesman>, f: UniqueField, value: string, excludeId: Option<Id>) {
    exists i | 0 <= i < |rows| ::
      ValueOf(rows[i], f) == value && (excludeId.None? || rows[i].id != excludeId.value)
  }

  /** The position of the first row with the value in the column, or |rows|. */
  function FirstWith(rows: seq<Salesman>, f: UniqueField, value: string): (k: nat)
    ensures k <= |rows|
    ensures k < |rows| ==> ValueOf(rows[k], f) == value
    ensures forall j | 0 <= j < k :: ValueOf(rows[j], f) != value
  {
    if rows == [] || ValueOf(rows[0], f) == value then 0
    else 1 + FirstWith(rows[1..], f, value)
  }

  /** The first row, in table order, with no key to exclude. */
  function FirstTaken(rows: seq<Salesman>, f: UniqueField, value: string, excludeId: Option<Id>): (k: nat)
    ensures k <= |rows|
    ensures k < |rows| <==> Taken(rows, f, value, excludeId)
  {
    if rows == [] then 0
    else if ValueOf(rows[0], f) == value && (excludeId.None? || rows[0].id != excludeId.value) then 0
    else
      var k := FirstTaken(rows[1..], f, value, excludeId);
      assert forall j | 1 <= j < |rows| :: rows[j] == rows[1..][j - 1];
      assert Taken(rows, f, value, excludeId) ==> Taken(rows[1..], f, value, excludeId) by {
        if Taken(rows, f, value, excludeId) {
          var i :| 0 <= i < |rows| && ValueOf(rows[i], f) == value && (excludeId.None? || rows[i].id != excludeId.value);
          assert i > 0 && rows[1..][i - 1] == rows[i];
        }
      }
      1 + k
  }

  /** The table with every row of the key removed, the others in order. */
  function Without(rows: seq<Salesman>, id: Id): (r: seq<Salesman>)
    ensures |r| <= |rows|
    ensures forall s :: s in r <==> s in rows && s.id != id
  {
    if rows == [] then []
    else
      var rest := Without(rows[1..], id);
      assert forall s | s in rows :: s == rows[0] || s in rows[1..];
      if rows[0].id == id then rest else [rows[0]] + rest
  }

  lemma DistinctTail(rows: seq<Salesman>)
    requires rows != [] && DistinctIds(rows)
    ensures DistinctIds(rows[1..]) && !HasId(rows[1..], rows[0].id)
    ensures forall id | rows[0].id != id :: HasId(rows, id) == HasId(rows[1..], id)
  {
    var rest := rows[1..];
    assert forall j | 0 <= j < |rest| :: rest[j] == rows[j + 1];
    forall id | rows[0].id != id && HasId(rows, id) ensures HasId(rest, id) {
      var i :| 0 <= i < |rows| && rows[i].id == id;
      assert rest[i - 1] == rows[i];
    }
  }

  /** Deleting an existing key from a table with distinct keys removes
      exactly one row; deleting a missing key changes nothing. */
  lemma {:induction false} WithoutCount(rows: seq<Salesman>, id: Id)
    requires DistinctIds(rows)
    ensures HasId(rows, id) ==> |Without(rows, id)| == |rows| - 1
    ensures !HasId(rows, id) ==> Without(rows, id) == rows
  {
    if rows != [] {
      DistinctTail(rows);
      WithoutCount(rows[1..], id);
      if rows[0].id != id {
        assert rows == [rows[0]] + rows[1..];
      }
    }
  }

  /** Deleting keeps the keys distinct. */
  lemma {:induction false} WithoutDistinct(rows: seq<Salesman>, id: Id)
    requires DistinctIds(rows)
    ensures DistinctIds(Without(rows, id))
  {
    if rows != [] {
      DistinctTail(rows);
      var w := Without(rows[1..], id);
      WithoutDistinct(rows[1..], id);
      if rows[0].id != id {
        var r := [rows[0]] + w;
        forall i, j | 0 <= i < j < |r| ensures r[i].id != r[j].id {
          assert r[j] == w[j - 1] && r[j] in rows[1..];
          if i == 0 {
            var m :| 0 <= m < |rows| - 1 && rows[1..][m] == r[j];
          } else {
            assert r[i] == w[i - 1];
          }
        }
      }
    }
  }

  /** The table after saving a row: the row with its key replaced. */
  function Replace(rows: seq<Salesman>, s: Salesman): (r: seq<Salesman>)
    ensures |r| == |rows|
    ensures forall i | 0 <= i < |rows| :: r[i] == if rows[i].id == s.id then s else rows[i]
  {
    seq(|rows|, i requires 0 <= i < |rows| => if rows[i].id == s.id then s else rows[i])
  }

  /** Eloquent's save of an existing model: updated_at is set to the save
      time only when some attribute differs from the stored row. */
  function Saved(rows: seq<Salesman>, s: Salesman, now: nat): Salesman {
    var k := IdIndex(rows, s.id);
    if k < |rows| && Data(rows[k]) == Data(s) then s else s.(updatedAt := now)
  }

  /** The listing before pagination: the filtered rows, ordered when the
      sort parameter names a whitelisted column. */
  function Ordered(rows: seq<Salesman>, filters: map<string, Mixed>, sort: Option<string>): seq<Salesman> {
    var selected := Query.BuildQuery(rows, filters);
    if sort.Some? && Sorting.ParseSort(sort.value).Some? then
      Sorting.SortRows(selected, Sorting.ParseSort(sort.value).value)
    else selected
  }

  /** An unknown or absent sort leaves the filtered rows in table order;
      a whitelisted one orders a permutation of them. */
  lemma OrderedRows(rows: seq<Salesman>, filters: map<string, Mixed>, sort: Option<string>)
    ensures sort.None? || Sorting.ParseSort(sort.value).None? ==>
      Ordered(rows, filters, sort) == Query.BuildQuery(rows, filters)
    ensures multiset(Ordered(rows, filters, sort)) == multiset(Query.BuildQuery(rows, filters))
    ensures sort.Some? && Sorting.ParseSort(sort.value).Some? ==>
      Sorting.Sorted(Ordered(rows, filters, sort), Sorting.ParseSort(sort.value).value)
  {
    if sort.Some? && Sorting.ParseSort(sort.value).Some? {
      Sorting.SortRowsSorted(Query.BuildQuery(rows, filters), Sorting.ParseSort(sort.value).value);
    }
  }

  class SalesmanRepository {
    /** The table, in insertion order. */
    var rows: seq<Salesman>

    /** The primary key is unique. */
    ghost predicate Valid()
      reads this
    {
      DistinctIds(rows)
    }

    constructor()
      ensures rows == [] && Valid()
    {
      rows := [];
    }

    /** findById: the row with the key, or null. */
    method FindById(id: Id) returns (r: Option<Salesman>)
      ensures r.Some? <==> HasId(rows, id)
      ensures r.Some? ==> r.value in rows && r.value.id == id
    {
      var k := IdIndex(rows, id);
      r := if k < |rows| then Some(rows[k]) else None;
    }

    /** findByProsightId: the first row, in table order, with the prosight
        id, or null when no row has it. */
    method FindByProsightId(prosightId: string) returns (r: Option<Salesman>)
      ensures r.None? <==> forall i | 0 <= i < |rows| :: rows[i].prosightId != prosightId
      ensures r.Some? ==> exists i | 0 <= i < |rows| ::
        rows[i] == r.value && r.value.prosightId == prosightId && forall j | 0 <= j < i :: rows[j].prosightId != prosightId
    {
      var k := FirstWith(rows, ProsightIdField, prosightId);
      r := if k < |rows| then Some(rows[k]) else None;
    }

    /** findByEmail: the first row, in table order, with the e-mail, or
        null when no row has it. */
    method FindByEmail(email: string) returns (r: Option<Salesman>)
      ensures r.None? <==> forall i | 0 <= i < |rows| :: rows[i].email != email
      ensures r.Some? ==> exists i | 0 <= i < |rows| ::
        rows[i] == r.value && r.value.email == email && forall j | 0 <= j < i :: rows[j].email != email
    {
      var k := FirstWith(rows, EmailField, email);
      r := if k < |rows| then Some(rows[k]) else None;
    }

    /** create: the first save of a new model inserts it with the generated
        key, which no row has yet, and both timestamps set to the save time. */
    method Create(d: SalesmanData.SalesmanData, newId: Id, now: nat) returns (s: Salesman)
      requires Valid() && !HasId(rows, newId)
      modifies this
      ensures s == Inserted(d, newId, now)
      ensures rows == old(rows) + [s]
      ensures Valid()
    {
      s := Inserted(d, newId, now);
      rows := rows + [s];
      forall i, j | 0 <= i < j < |rows| ensures rows[i].id != rows[j].id {
        if j == |rows| - 1 {
          assert rows[i] == old(rows)[i];
        }
      }
    }

    /** update: saving an existing model writes it over the row with its
        key; the key is unchanged, so the keys stay distinct. */
    method Update(s: Salesman, now: nat) returns (saved: Salesman)
      requires Valid()
      modifies this
      ensures saved == Saved(old(rows), s, now)
      ensures rows == Replace(old(rows), saved)
      ensures Valid()
    {
      saved := Saved(rows, s, now);
      rows := Replace(rows, saved);
    }

    /** delete: whether a row with the key existed; afterwards none has it
        and the other rows are kept in order. */
    method Delete(id: Id) returns (deleted: bool)
      requires Valid()
      modifies this
      ensures deleted <==> HasId(old(rows), id)
      ensures rows == Without(old(rows), id)
      ensures Valid()
    {
      deleted := IdIndex(rows, id) < |rows|;
      WithoutDistinct(rows, id);
      rows := Without(rows, id);
    }

    /** existsByProsightId. */
    method ExistsByProsightId(prosightId: string, excludeId: Option<Id>) returns (b: bool)
      ensures b <==> exists i | 0 <= i < |rows| ::
        rows[i].prosightId == prosightId && (excludeId.None? || rows[i].id != excludeId.value)
      ensures b <==> Taken(rows, ProsightIdField, prosightId, excludeId)
    {
      b := FirstTaken(rows, ProsightIdField, prosightId, excludeId) < |rows|;
    }

    /** existsByEmail. */
    method ExistsByEmail(email: string, excludeId: Option<Id>) returns (b: bool)
      ensures b <==> exists i | 0 <= i < |rows| ::
        rows[i].email == email && (excludeId.None? || rows[i].id != excludeId.value)
      ensures b <==> Taken(rows, EmailField, email, excludeId)
    {
      b := FirstTaken(rows, EmailField, email, excludeId) < |rows|;
    }

    /** paginate: the page of the filtered, optionally ordered rows. The
        page and page size are at least 1, as the controller guarantees. */
    method Paginate(filters: map<string, Mixed>, sort: Option<string>, page: nat, perPage: nat)
      returns (p: Query.Page)
      requires page >= 1 && perPage >= 1
      ensures p == Query.PageOf(Ordered(rows, filters, sort), page, perPage)
      ensures p.total == |Query.BuildQuery(rows, filters)| && |p.items| <= perPage
      ensures forall s | s in p.items :: s in rows && Query.Matches(Query.ReadFilters(filters), s)
    {
      OrderedRows(rows, filters, sort);
      var listed := Ordered(rows, filters, sort);
      assert |listed| == |multiset(listed)| == |multiset(Query.BuildQuery(rows, filters))| == |Query.BuildQuery(rows, filters)|;
      p := Query.PageOf(listed, page, perPage);
      forall s | s in p.items ensures s in rows && Query.Matches(Query.ReadFilters(filters), s) {
        var k :| 0 <= k < |p.items| && p.items[k] == s;
        assert s in multiset(listed);
      }
    }

    /** getAll: every filtered row, in table order. */
    method GetAll(filters: map<string, Mixed>) returns (r: seq<Salesman>)
      ensures r == Query.BuildQuery(rows, filters)
      ensures forall s :: s in r <==> s in rows && Query.Matches(Query.ReadFilters(filters), s)
    {
      r := Query.BuildQuery(rows, filters);
    }
  }
}
