/** The salesman service: uniqueness pre-checks in front of the repository
    writes. Each operation is specified by a function from the table before
    to the result and the table after; the lemmas state what the service
    promises about those functions. */
module Service {
  import opened Wrappers
  import opened PhpValues
  import SalesmanData
  import opened SalesmanModel
  import opened Repository
  import Query

  /** SalesmanNotFoundException and SalesmanAlreadyExistsException. */
  datatype ServiceError = NotFound(id: Id) | AlreadyExists(field: string, value: string)
  {
    function Message(): string {
      match this
      case NotFound(id) => "Salesman \"" + id + "\" not found."
      case AlreadyExists(field, value) => "Salesman with such " + field + " " + value + " is already registered."
    }
  }

  /** What an operation returns or throws, and the table afterwards. */
  datatype Outcome<T> = Outcome(result: Result<T, ServiceError>, rows: seq<Salesman>)

  /** validateUniqueConstraints: the prosight id is checked before the
      e-mail; the row with the excluded key does not count. */
  function UniqueCheck(rows: seq<Salesman>, d: SalesmanData.SalesmanData, excludeId: Option<Id>): Option<ServiceError> {
    if Taken(rows, ProsightIdField, d.prosightId, excludeId) then Some(AlreadyExists("prosight_id", d.prosightId))
    else if Taken(rows, EmailField, d.email, excludeId) then Some(AlreadyExists("email", d.email))
    else None
  }

  /** create. */
  function CreateOutcome(rows: seq<Salesman>, d: SalesmanData.SalesmanData, newId: Id, now: nat): Outcome<Salesman> {
    match UniqueCheck(rows, d, None)
    case Some(e) => Outcome(Failure(e), rows)
    case None =>
      var s := Inserted(d, newId, now);
      Outcome(Success(s), rows + [s])
  }

  /** update: the lookup of the key comes first, then the uniqueness checks
      with the key excluded, then the fill and save. */
  function UpdateOutcome(rows: seq<Salesman>, id: Id, d: SalesmanData.SalesmanData, now: nat): Outcome<Salesman> {
    var k := IdIndex(rows, id);
    if k == |rows| then Outcome(Failure(NotFound(id)), rows)
    else match UniqueCheck(rows, d, Some(id))
      case Some(e) => Outcome(Failure(e), rows)
      case None =>
        var saved := Saved(rows, Fill(rows[k], d), now);
        Outcome(Success(saved), Replace(rows, saved))
  }

  /** delete. */
  function DeleteOutcome(rows: seq<Salesman>, id: Id): Outcome<bool> {
    if HasId(rows, id) then Outcome(Success(true), Without(rows, id))
    else Outcome(Failure(NotFound(id)), rows)
  }

  /** The table invariant the service keeps: keys, prosight ids and e-mails
      are each unique. */
  predicate UniqueKeys(rows: seq<Salesman>) {
    && DistinctIds(rows)
    && (forall i, j | 0 <= i < j < |rows| :: rows[i].prosightId != rows[j].prosightId)
    && (forall i, j | 0 <= i < j < |rows| :: rows[i].email != rows[j].email)
  }

  // ---------------------------------------------------------------------
  // create
  // ---------------------------------------------------------------------

  /** create fails exactly when the prosight id or the e-mail is already
      in use, reporting the prosight id when both are; a failure leaves the
      table unchanged. */
  lemma CreateChecks(rows: seq<Salesman>, d: SalesmanData.SalesmanData, newId: Id, now: nat)
    ensures var o := CreateOutcome(rows, d, newId, now);
      && (o.result.Failure? <==> exists i | 0 <= i < |rows| :: rows[i].prosightId == d.prosightId || rows[i].email == d.email)
      && ((exists i | 0 <= i < |rows| :: rows[i].prosightId == d.prosightId) ==>
            o.result == Failure(AlreadyExists("prosight_id", d.prosightId)))
      && ((forall i | 0 <= i < |rows| :: rows[i].prosightId != d.prosightId) &&
          (exists i | 0 <= i < |rows| :: rows[i].email == d.email) ==>
            o.result == Failure(AlreadyExists("email", d.email)))
      && (o.result.Failure? ==> o.rows == rows)
  {
    if exists i | 0 <= i < |rows| :: rows[i].prosightId == d.prosightId || rows[i].email == d.email {
      var i :| 0 <= i < |rows| && (rows[i].prosightId == d.prosightId || rows[i].email == d.email);
      assert ValueOf(rows[i], ProsightIdField) == d.prosightId || ValueOf(rows[i], EmailField) == d.email;
    }
    if exists i | 0 <= i < |rows| :: rows[i].prosightId == d.prosightId {
      var i :| 0 <= i < |rows| && rows[i].prosightId == d.prosightId;
      assert ValueOf(rows[i], ProsightIdField) == d.prosightId;
    }
    if exists i | 0 <= i < |rows| :: rows[i].email == d.email {
      var i :| 0 <= i < |rows| && rows[i].email == d.email;
      assert ValueOf(rows[i], EmailField) == d.email;
    }
  }

  /** A successful create appends exactly one row: the record's nine
      fields under the fresh key, with both timestamps at the save time. */
  lemma CreateAppends(rows: seq<Salesman>, d: SalesmanData.SalesmanData, newId: Id, now: nat)
    requires CreateOutcome(rows, d, newId, now).result.Success?
    ensures var o := CreateOutcome(rows, d, newId, now);
      && o.rows == rows + [o.result.value]
      && Data(o.result.value) == d && o.result.value.id == newId
      && o.result.value.createdAt == now && o.result.value.updatedAt == now
  {
  }

  /** create keeps keys, prosight ids and e-mails unique when the new key is
      fresh. */
  lemma CreatePreservesUniqueKeys(rows: seq<Salesman>, d: SalesmanData.SalesmanData, newId: Id, now: nat)
    requires UniqueKeys(rows) && !HasId(rows, newId)
    ensures UniqueKeys(CreateOutcome(rows, d, newId, now).rows)
  {
    var o := CreateOutcome(rows, d, newId, now);
    if o.result.Success? {
      CreateChecks(rows, d, newId, now);
      var r := o.rows;
      forall i, j | 0 <= i < j < |r|
        ensures r[i].id != r[j].id && r[i].prosightId != r[j].prosightId && r[i].email != r[j].email
      {
        assert r[i] == rows[i];
        if j < |rows| {
          assert r[j] == rows[j];
        }
      }
    }
  }

  // ---------------------------------------------------------------------
  // update
  // ---------------------------------------------------------------------

  /** update of an unknown key throws NotFound, whatever the data, before
      any uniqueness check; the table is unchanged. */
  lemma UpdateNotFoundFirst(rows: seq<Salesman>, id: Id, d: SalesmanData.SalesmanData, now: nat)
    requires !HasId(rows, id)
    ensures UpdateOutcome(rows, id, d, now) == Outcome(Failure(NotFound(id)), rows)
  {
  }

  /** A failed update leaves the table unchanged; a conflict is reported
      only against rows with another key, prosight id first. */
  lemma UpdateFailure(rows: seq<Salesman>, id: Id, d: SalesmanData.SalesmanData, now: nat)
    requires UpdateOutcome(rows, id, d, now).result.Failure?
    ensures UpdateOutcome(rows, id, d, now).rows == rows
    ensures var e := UpdateOutcome(rows, id, d, now).result.error;
      && (e.NotFound? <==> !HasId(rows, id))
      && (e == AlreadyExists("prosight_id", d.prosightId) ==>
            exists i | 0 <= i < |rows| :: rows[i].id != id && rows[i].prosightId == d.prosightId)
      && (e == AlreadyExists("email", d.email) ==>
            exists i | 0 <= i < |rows| :: rows[i].id != id && rows[i].email == d.email)
  {
  }

  /** Updating a row with its own prosight id and e-mail succeeds: its own
      row is excluded from the uniqueness checks. */
  lemma UpdateKeepsOwnKeys(rows: seq<Salesman>, id: Id, d: SalesmanData.SalesmanData, now: nat)
    requires UniqueKeys(rows) && HasId(rows, id)
    requires d.prosightId == rows[IdIndex(rows, id)].prosightId && d.email == rows[IdIndex(rows, id)].email
    ensures UpdateOutcome(rows, id, d, now).result.Success?
  {
    var k := IdIndex(rows, id);
    forall i | 0 <= i < |rows| && rows[i].id != id
      ensures rows[i].prosightId != d.prosightId && rows[i].email != d.email
    {
      assert i != k;
    }
  }

  /** A successful update overwrites the nine fillable fields of the row
      with the key, in place; the key and created_at are kept, and every
      other row is unchanged. */
  lemma UpdateOverwrites(rows: seq<Salesman>, id: Id, d: SalesmanData.SalesmanData, now: nat)
    requires DistinctIds(rows)
    requires UpdateOutcome(rows, id, d, now).result.Success?
    ensures var o := UpdateOutcome(rows, id, d, now);
      var k := IdIndex(rows, id);
      && k < |rows| && |o.rows| == |rows|
      && o.rows[k] == o.result.value
      && Data(o.result.value) == d && o.result.value.id == id
      && o.result.value.createdAt == rows[k].createdAt
      && (forall j | 0 <= j < |rows| && j != k :: o.rows[j] == rows[j])
  {
    var k := IdIndex(rows, id);
    forall j | 0 <= j < |rows| && j != k ensures rows[j].id != id {
      assert rows[j].id != rows[k].id;
    }
  }

  /** update keeps keys, prosight ids and e-mails unique. */
  lemma UpdatePreservesUniqueKeys(rows: seq<Salesman>, id: Id, d: SalesmanData.SalesmanData, now: nat)
    requires UniqueKeys(rows)
    ensures UniqueKeys(UpdateOutcome(rows, id, d, now).rows)
  {
    var o := UpdateOutcome(rows, id, d, now);
    if o.result.Success? {
      UpdateOverwrites(rows, id, d, now);
      var k := IdIndex(rows, id);
      var r := o.rows;
      forall j | 0 <= j < |rows| && j != k
        ensures r[j].prosightId != d.prosightId && r[j].email != d.email
      {
        assert rows[j].id != id;
        assert ValueOf(rows[j], ProsightIdField) != d.prosightId;
        assert ValueOf(rows[j], EmailField) != d.email;
      }
      forall i, j | 0 <= i < j < |r|
        ensures r[i].id != r[j].id && r[i].prosightId != r[j].prosightId && r[i].email != r[j].email
      {
        if i != k && j != k {
          assert r[i] == rows[i] && r[j] == rows[j];
        }
      }
    }
  }

  // ---------------------------------------------------------------------
  // delete
  // ---------------------------------------------------------------------

  /** delete of an unknown key throws NotFound and changes nothing;
      otherwise exactly that row is removed and the others keep their
      order. */
  lemma DeleteRemovesOne(rows: seq<Salesman>, id: Id)
    requires DistinctIds(rows)
    ensures var o := DeleteOutcome(rows, id);
      && (o.result.Failure? <==> !HasId(rows, id))
      && (o.result.Failure? ==> o.result.error == NotFound(id) && o.rows == rows)
      && (o.result.Success? ==> |o.rows| == |rows| - 1 && !HasId(o.rows, id))
      && (forall s :: s in o.rows <==> s in rows && (o.result.Success? ==> s.id != id))
  {
    WithoutCount(rows, id);
  }

  /** delete keeps keys, prosight ids and e-mails unique. */
  lemma DeletePreservesUniqueKeys(rows: seq<Salesman>, id: Id)
    requires UniqueKeys(rows)
    ensures UniqueKeys(DeleteOutcome(rows, id).rows)
  {
    if HasId(rows, id) {
      WithoutUnique(rows, id);
    }
  }

  lemma {:induction false} WithoutUnique(rows: seq<Salesman>, id: Id)
    requires UniqueKeys(rows)
    ensures UniqueKeys(Without(rows, id))
  {
    if rows != [] {
      var rest := rows[1..];
      assert forall j | 0 <= j < |rest| :: rest[j] == rows[j + 1];
      assert UniqueKeys(rest);
      WithoutUnique(rest, id);
      var w := Without(rest, id);
      if rows[0].id != id {
        var r := [rows[0]] + w;
        forall i, j | 0 <= i < j < |r|
          ensures r[i].id != r[j].id && r[i].prosightId != r[j].prosightId && r[i].email != r[j].email
        {
          assert r[j] == w[j - 1] && r[j] in rest;
          if i == 0 {
            var m :| 0 <= m < |rest| && rest[m] == r[j];
            assert rows[m + 1] == r[j];
          } else {
            assert r[i] == w[i - 1];
          }
        }
      }
    }
  }

  /** The unit-of-work examples of the feature tests, on one stored row:
      creating a second record with the same prosight id fails on the
      prosight id; updating the row with its own values succeeds. */
  lemma DuplicateExamples(row: Salesman, d: SalesmanData.SalesmanData, newId: Id, now: nat)
    requires row.prosightId == d.prosightId
    ensures CreateOutcome([row], d, newId, now).result == Failure(AlreadyExists("prosight_id", d.prosightId))
    ensures UpdateOutcome([row], row.id, Data(row), now).result.Success?
  {
    assert ValueOf([row][0], ProsightIdField) == d.prosightId;
  }

  class SalesmanService {
    const repository: SalesmanRepository

    constructor(repository: SalesmanRepository)
      ensures this.repository == repository
    {
      this.repository := repository;
    }

    /** validateUniqueConstraints: the first conflict, if any. */
    method ValidateUniqueConstraints(d: SalesmanData.SalesmanData, excludeId: Option<Id>) returns (e: Option<ServiceError>)
      ensures e.None? <==>
        !Taken(repository.rows, ProsightIdField, d.prosightId, excludeId) && !Taken(repository.rows, EmailField, d.email, excludeId)
      ensures e == UniqueCheck(repository.rows, d, excludeId)
    {
      var prosightIdTaken := repository.ExistsByProsightId(d.prosightId, excludeId);
      if prosightIdTaken {
        return Some(AlreadyExists("prosight_id", d.prosightId));
      }
      var emailTaken := repository.ExistsByEmail(d.email, excludeId);
      if emailTaken {
        return Some(AlreadyExists("email", d.email));
      }
      e := None;
    }

    /** create. The generated key is one no row has. */
    method Create(d: SalesmanData.SalesmanData, newId: Id, now: nat) returns (r: Result<Salesman, ServiceError>)
      requires repository.Valid() && !HasId(repository.rows, newId)
      modifies repository
      ensures Outcome(r, repository.rows) == CreateOutcome(old(repository.rows), d, newId, now)
      ensures repository.Valid()
    {
      var e := ValidateUniqueConstraints(d, None);
      if e.Some? {
        return Failure(e.value);
      }
      var s := repository.Create(d, newId, now);
      r := Success(s);
    }

    /** findById: the row with the key, or NotFound. */
    method FindById(id: Id) returns (r: Result<Salesman, ServiceError>)
      ensures r.Failure? <==> !HasId(repository.rows, id)
      ensures r.Failure? ==> r.error == NotFound(id)
      ensures r.Success? ==> r.value in repository.rows && r.value.id == id
    {
      var found := repository.FindById(id);
      if found.None? {
        return Failure(NotFound(id));
      }
      r := Success(found.value);
    }

    /** update: the found row is filled with the record and saved. */
    method Update(id: Id, d: SalesmanData.SalesmanData, now: nat) returns (r: Result<Salesman, ServiceError>)
      requires repository.Valid()
      modifies repository
      ensures Outcome(r, repository.rows) == UpdateOutcome(old(repository.rows), id, d, now)
      ensures repository.Valid()
    {
      var found := FindById(id);
      if found.Failure? {
        return Failure(found.error);
      }
      var k := IdIndex(repository.rows, id);
      assert found.value == repository.rows[k] by {
        var i :| 0 <= i < |repository.rows| && repository.rows[i] == found.value;
        assert i == k;
      }
      var e := ValidateUniqueConstraints(d, Some(id));
      if e.Some? {
        return Failure(e.value);
      }
      var saved := repository.Update(Fill(found.value, d), now);
      r := Success(saved);
    }

    /** delete: NotFound for an unknown key, otherwise the repository's
        delete of the found row's key. */
    method Delete(id: Id) returns (r: Result<bool, ServiceError>)
      requires repository.Valid()
      modifies repository
      ensures Outcome(r, repository.rows) == DeleteOutcome(old(repository.rows), id)
      ensures repository.Valid()
    {
      var found := FindById(id);
      if found.Failure? {
        return Failure(found.error);
      }
      var deleted := repository.Delete(found.value.id);
      r := Success(deleted);
    }

    /** paginate: delegated to the repository. */
    method Paginate(filters: map<string, Mixed>, sort: Option<string>, page: nat, perPage: nat)
      returns (p: Query.Page)
      requires page >= 1 && perPage >= 1
      ensures p == Query.PageOf(Ordered(repository.rows, filters, sort), page, perPage)
    {
      p := repository.Paginate(filters, sort, page, perPage);
    }
  }
}
