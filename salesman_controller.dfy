/** The HTTP actions of the salesman API: how `index` reads its query
    parameters, and which status each action answers with. Each action is
    a function from the table before to its reply, or the exception it
    lets through, and the table after. */
module Controller {
  import opened Wrappers
  import opened PhpValues
  import opened SalesmanModel
  import Query
  import Repository
  import SalesmanData
  import Service
  import Handler
  import CreateRequest
  import SalesmanResource
  import Strings

  /** The body of a successful reply. */
  datatype Body =
    | Resource(data: map<string, SalesmanResource.Json>)
    | Listing(page: Query.Page)
    | NoContent

  datatype Reply = Reply(status: nat, body: Body)

  /** What an action returns or throws, and the table afterwards. */
  datatype Outcome = Outcome(result: Result<Reply, Handler.Exception>, rows: seq<Salesman>)

  // ---------------------------------------------------------------------
  // index
  // ---------------------------------------------------------------------

  /** max(1, is_numeric(v) ? (int) v : fallback), where v is the query
      parameter, or the fallback itself when the parameter is absent. */
  function Clamped(query: map<string, Mixed>, key: string, fallback: int): (n: nat)
    ensures n >= 1
  {
    var v := if key in query then query[key] else Int(fallback);
    var raw := if NumericInt(v).Some? then NumericInt(v).value else fallback;
    if raw < 1 then 1 else raw
  }

  function PageParam(query: map<string, Mixed>): (page: nat)
    ensures page >= 1
  {
    Clamped(query, "page", 1)
  }

  function PerPageParam(query: map<string, Mixed>): (perPage: nat)
    ensures perPage >= 1
  {
    Clamped(query, "per_page", 15)
  }

  /** Without parameters the first page of fifteen is listed. */
  lemma PageDefaults()
    ensures PageParam(map[]) == 1 && PerPageParam(map[]) == 15
  {
  }

  /** A page number or size written in decimal is read back. */
  lemma PageParamsRoundTrip(n: nat)
    requires n >= 1
    ensures PageParam(map["page" := Str(NatToString(n))]) == n
    ensures PerPageParam(map["per_page" := Str(NatToString(n))]) == n
  {
    NumericStringIntRoundTrip(n);
  }

  /** A number below 1 is raised to 1. */
  lemma PageParamsRaised(m: int)
    requires m < 1
    ensures PageParam(map["page" := Int(m)]) == 1 && PerPageParam(map["per_page" := Int(m)]) == 1
  {
  }

  /** A non-numeric value falls back to the default. */
  lemma PageParamsFallback()
    ensures PageParam(map["page" := Str("abc")]) == 1 && PerPageParam(map["per_page" := Str("abc")]) == 15
  {
    assert NumericStringInt("abc") == None by {
      assert StripLeadingSpace("abc") == "abc";
      assert StripTrailingSpace("abc") == "abc";
      assert DigitPrefix("abc") == 0;
    }
  }

  /** A fraction is cut off. */
  lemma PageParamTruncated()
    ensures PageParam(map["page" := Str("2.9")]) == 2
  {
    assert NumericStringInt("2.9") == Some(2) by {
      assert StripLeadingSpace("2.9") == "2.9";
      assert StripTrailingSpace("2.9") == "2.9";
      assert DigitPrefix("2.9") == 1;
      assert DigitsValue("2") == 2;
    }
  }

  /** $request->only(the four filter keys), keeping only string values. */
  function FilterParams(query: map<string, Mixed>): (filters: map<string, Mixed>)
    ensures forall k :: k in filters <==> k in query && k in Query.FilterKeys && query[k].Str?
    ensures forall k | k in filters :: filters[k] == query[k]
  {
    map k | k in query && k in Query.FilterKeys && query[k].Str? :: query[k]
  }

  /** Dropping the other keys and the non-string values loses nothing: the
      listing query sees the same filters. */
  lemma FilterParamsSameListing(rows: seq<Salesman>, query: map<string, Mixed>)
    ensures Query.BuildQuery(rows, FilterParams(query)) == Query.BuildQuery(rows, query)
  {
    var f := FilterParams(query);
    assert forall k | k in Query.FilterKeys :: Query.Effective(f, k) == Query.Effective(query, k);
    assert Query.ReadFilters(f) == Query.ReadFilters(query);
  }

  /** $request->get('sort'): absent or null is no sort, a string is passed
      on, and anything else is rejected by the service's ?string parameter
      with a TypeError. */
  function SortParam(query: map<string, Mixed>): Result<Option<string>, Handler.Exception> {
    var v := Lookup(query, "sort");
    if v.Null? then Success(None)
    else if v.Str? then Success(Some(v.s))
    else Failure(Handler.Other("paginate(): Argument #2 ($sort) must be of type ?string, " + TypeName(v) + " given"))
  }

  /** index. */
  function Index(rows: seq<Salesman>, query: map<string, Mixed>): Outcome {
    match SortParam(query)
    case Failure(e) => Outcome(Failure(e), rows)
    case Success(sort) =>
      var page := Query.PageOf(Repository.Ordered(rows, FilterParams(query), sort), PageParam(query), PerPageParam(query));
      Outcome(Success(Reply(200, Listing(page))), rows)
  }

  /** The listing answers 200 without changing the table; the page is no
      longer than the page size and lists only stored rows passing the
      filters of the query. */
  lemma IndexListing(rows: seq<Salesman>, query: map<string, Mixed>)
    requires !Lookup(query, "sort").Null? ==> Lookup(query, "sort").Str?
    ensures var o := Index(rows, query);
      && o.rows == rows && o.result.Success? && o.result.value.status == 200
      && o.result.value.body.Listing?
      && |o.result.value.body.page.items| <= PerPageParam(query)
      && forall s | s in o.result.value.body.page.items ::
           s in rows && Query.Matches(Query.ReadFilters(query), s)
  {
    var sort := SortParam(query).value;
    var listed := Repository.Ordered(rows, FilterParams(query), sort);
    Repository.OrderedRows(rows, FilterParams(query), sort);
    FilterParamsSameListing(rows, query);
    var page := Query.PageOf(listed, PageParam(query), PerPageParam(query));
    forall s | s in page.items ensures s in rows && Query.Matches(Query.ReadFilters(query), s) {
      var k :| 0 <= k < |page.items| && page.items[k] == s;
      assert s in listed;
      assert s in multiset(listed);
      assert s in Query.BuildQuery(rows, FilterParams(query));
    }
  }

  // ---------------------------------------------------------------------
  // store, show, update, destroy
  // ---------------------------------------------------------------------

  /** An exception thrown while building the input record
      (InvalidArgumentException), which the handler treats as unexpected. */
  function ParseFailure(e: SalesmanData.ParseError): Handler.Exception {
    Handler.Other(e.Message())
  }

  /** store: the request's rules, then fromArray on the validated input,
      then the service's create; 201 with the new row. */
  function Store(rows: seq<Salesman>, input: map<string, Mixed>, emailRule: CreateRequest.EmailRule,
                 emailOk: SalesmanData.EmailCheck, newId: Id, now: nat): Outcome
  {
    if CreateRequest.Errors(input, rows, emailRule) != {} then Outcome(Failure(Handler.ValidationFailed), rows)
    else match SalesmanData.FromArray(CreateRequest.Validated(input), emailOk)
      case Failure(e) => Outcome(Failure(ParseFailure(e)), rows)
      case Success(d) =>
        var o := Service.CreateOutcome(rows, d, newId, now);
        match o.result
        case Failure(e) => Outcome(Failure(Handler.FromServiceError(e)), o.rows)
        case Success(s) => Outcome(Success(Reply(201, Resource(SalesmanResource.ToArray(s)))), o.rows)
  }

  /** show: 200 with the row. */
  function Show(rows: seq<Salesman>, id: Id): Outcome {
    var k := Repository.IdIndex(rows, id);
    if k == |rows| then Outcome(Failure(Handler.SalesmanNotFound(id)), rows)
    else Outcome(Success(Reply(200, Resource(SalesmanResource.ToArray(rows[k])))), rows)
  }

  /** update: fromArray on the validated input (whose rules are not part of
      this model), then the service's update; 200 with the saved row. */
  function Update(rows: seq<Salesman>, id: Id, validated: map<string, Mixed>,
                  emailOk: SalesmanData.EmailCheck, now: nat): Outcome
  {
    match SalesmanData.FromArray(validated, emailOk)
    case Failure(e) => Outcome(Failure(ParseFailure(e)), rows)
    case Success(d) =>
      var o := Service.UpdateOutcome(rows, id, d, now);
      match o.result
      case Failure(e) => Outcome(Failure(Handler.FromServiceError(e)), o.rows)
      case Success(s) => Outcome(Success(Reply(200, Resource(SalesmanResource.ToArray(s)))), o.rows)
  }

  /** destroy: 204 with no content. */
  function Destroy(rows: seq<Salesman>, id: Id): Outcome {
    var o := Service.DeleteOutcome(rows, id);
    match o.result
    case Failure(e) => Outcome(Failure(Handler.FromServiceError(e)), o.rows)
    case Success(_) => Outcome(Success(Reply(204, NoContent)), o.rows)
  }

  /** A request that breaks the rules throws the validation exception and
      writes nothing. */
  lemma StoreRejectsInvalid(rows: seq<Salesman>, input: map<string, Mixed>, emailRule: CreateRequest.EmailRule,
                            emailOk: SalesmanData.EmailCheck, newId: Id, now: nat)
    requires CreateRequest.Errors(input, rows, emailRule) != {}
    ensures Store(rows, input, emailRule, emailOk, newId, now) == Outcome(Failure(Handler.ValidationFailed), rows)
  {
  }

  /** A created salesman is answered 201 with its representation under the
      new key, and is the one row added to the table. */
  lemma StoreCreated(rows: seq<Salesman>, input: map<string, Mixed>, emailRule: CreateRequest.EmailRule,
                     emailOk: SalesmanData.EmailCheck, newId: Id, now: nat)
    requires Store(rows, input, emailRule, emailOk, newId, now).result.Success?
    ensures var o := Store(rows, input, emailRule, emailOk, newId, now);
      && o.result.value.status == 201
      && |o.rows| == |rows| + 1 && o.rows[..|rows|] == rows
      && o.result.value.body == Resource(SalesmanResource.ToArray(o.rows[|rows|]))
      && o.rows[|rows|].id == newId && o.rows[|rows|].createdAt == now
  {
    var d := SalesmanData.FromArray(CreateRequest.Validated(input), emailOk).value;
    Service.CreateAppends(rows, d, newId, now);
  }

  /** Input the rules accept is stored: the rules' uniqueness checks imply
      the service's, so given ASCII names and prosight id, an e-mail the
      record also accepts and a marital status that is not a blank string,
      store answers 201. */
  lemma StoreAccepted(rows: seq<Salesman>, input: map<string, Mixed>, emailRule: CreateRequest.EmailRule,
                      emailOk: SalesmanData.EmailCheck, newId: Id, now: nat)
    requires CreateRequest.Errors(input, rows, emailRule) == {}
    requires !CreateRequest.BlankString(input, "marital_status")
    requires Lookup(input, "first_name").Str? && Strings.IsAscii(input["first_name"].s)
    requires Lookup(input, "last_name").Str? && Strings.IsAscii(input["last_name"].s)
    requires Lookup(input, "prosight_id").Str? && Strings.IsAscii(input["prosight_id"].s)
    requires Lookup(input, "email").Str? && emailOk(input["email"].s)
    ensures Store(rows, input, emailRule, emailOk, newId, now).result.Success?
    ensures Store(rows, input, emailRule, emailOk, newId, now).result.value.status == 201
  {
    CreateRequest.AcceptedInputParses(input, rows, emailRule, emailOk);
    CreateRequest.Accepted(input, rows, emailRule);
    var d := SalesmanData.FromArray(CreateRequest.Validated(input), emailOk).value;
    assert Service.UniqueCheck(rows, d, None) == None;
  }

  /** show, update and destroy of a key that is not stored throw the
      not-found exception, which the handler answers 404 with the message
      naming the key; nothing is written. */
  lemma UnknownIdNotFound(rows: seq<Salesman>, id: Id, validated: map<string, Mixed>,
                          emailOk: SalesmanData.EmailCheck, now: nat)
    requires !Repository.HasId(rows, id)
    ensures Show(rows, id) == Outcome(Failure(Handler.SalesmanNotFound(id)), rows)
    ensures Destroy(rows, id) == Outcome(Failure(Handler.SalesmanNotFound(id)), rows)
    ensures SalesmanData.FromArray(validated, emailOk).Success? ==>
      Update(rows, id, validated, emailOk, now) == Outcome(Failure(Handler.SalesmanNotFound(id)), rows)
    ensures Handler.HandleApiException(Handler.SalesmanNotFound(id)) ==
      Handler.ErrorResponse(404, [Handler.ErrorItem("PERSON_NOT_FOUND", "Salesman \"" + id + "\" not found.")])
  {
    if SalesmanData.FromArray(validated, emailOk).Success? {
      Service.UpdateNotFoundFirst(rows, id, SalesmanData.FromArray(validated, emailOk).value, now);
    }
  }

  /** show of a stored key answers 200 with that row's representation. */
  lemma ShowFound(rows: seq<Salesman>, id: Id)
    requires Repository.HasId(rows, id)
    ensures var o := Show(rows, id);
      && o.rows == rows && o.result.Success? && o.result.value.status == 200
      && exists i | 0 <= i < |rows| :: rows[i].id == id && o.result.value.body == Resource(SalesmanResource.ToArray(rows[i]))
  {
    var k := Repository.IdIndex(rows, id);
    assert k < |rows|;
  }

  /** update of a stored key, with data whose prosight id and e-mail no
      other row holds, answers 200 with the representation of the row
      overwritten in place: the nine fields from the data, the key kept,
      every other row unchanged. */
  lemma UpdateFound(rows: seq<Salesman>, id: Id, validated: map<string, Mixed>,
                    emailOk: SalesmanData.EmailCheck, now: nat)
    requires Repository.DistinctIds(rows) && Repository.HasId(rows, id)
    requires SalesmanData.FromArray(validated, emailOk).Success?
    requires forall i | 0 <= i < |rows| && rows[i].id != id ::
      && rows[i].prosightId != SalesmanData.FromArray(validated, emailOk).value.prosightId
      && rows[i].email != SalesmanData.FromArray(validated, emailOk).value.email
    ensures var o := Update(rows, id, validated, emailOk, now);
      var k := Repository.IdIndex(rows, id);
      && k < |rows| && |o.rows| == |rows|
      && o.result == Success(Reply(200, Resource(SalesmanResource.ToArray(o.rows[k]))))
      && SalesmanModel.Data(o.rows[k]) == SalesmanData.FromArray(validated, emailOk).value
      && o.rows[k].id == id
      && (forall j | 0 <= j < |rows| && j != k :: o.rows[j] == rows[j])
  {
    var d := SalesmanData.FromArray(validated, emailOk).value;
    forall i | 0 <= i < |rows| && rows[i].id != id
      ensures Repository.ValueOf(rows[i], Repository.ProsightIdField) != d.prosightId
      ensures Repository.ValueOf(rows[i], Repository.EmailField) != d.email
    {
    }
    assert Service.UniqueCheck(rows, d, Some(id)) == None;
    Service.UpdateOverwrites(rows, id, d, now);
  }

  /** destroy of a stored key answers 204 with no content and removes the
      row with that key. */
  lemma DestroyFound(rows: seq<Salesman>, id: Id)
    requires Repository.HasId(rows, id)
    ensures Destroy(rows, id) == Outcome(Success(Reply(204, NoContent)), Repository.Without(rows, id))
  {
  }
}
