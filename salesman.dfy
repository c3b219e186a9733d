/** A stored salesman row: the nine fillable attributes, the UUID primary
    key and the two timestamps, with the derived attributes and the query
    scopes of the Eloquent model. */
module SalesmanModel {
  import opened Wrappers
  import Strings
  import SalesmanData

  /** A UUID primary key, as text. */
  type Id = string

  datatype Salesman = Salesman(
    id: Id,
    firstName: string,
    lastName: string,
    titlesBefore: Option<seq<string>>,
    titlesAfter: Option<seq<string>>,
    prosightId: string,
    email: string,
    phone: Option<string>,
    gender: string,
    maritalStatus: Option<string>,
    createdAt: nat,
    updatedAt: nat)

  /** $fillable: the attributes mass assignment may set. */
  const Fillable: set<string> :=
    {"first_name", "last_name", "titles_before", "titles_after", "prosight_id",
     "email", "phone", "gender", "marital_status"}

  /** The nine fillable attributes of a row, as an input record. */
  function Data(s: Salesman): SalesmanData.SalesmanData {
    SalesmanData.SalesmanData(s.firstName, s.lastName, s.titlesBefore, s.titlesAfter,
      s.prosightId, s.email, s.phone, s.gender, s.maritalStatus)
  }

  /** fill($data->toArray()): the nine fillable attributes are overwritten
      with the record's values; the key and the timestamps are kept. */
  function Fill(s: Salesman, d: SalesmanData.SalesmanData): (r: Salesman)
    ensures Data(r) == d
    ensures r.id == s.id && r.createdAt == s.createdAt && r.updatedAt == s.updatedAt
  {
    Salesman(s.id, d.firstName, d.lastName, d.titlesBefore, d.titlesAfter,
      d.prosightId, d.email, d.phone, d.gender, d.maritalStatus, s.createdAt, s.updatedAt)
  }

  /** A new row as the first save writes it: the attributes of the record,
      the generated key and both timestamps set to the save time. */
  function Inserted(d: SalesmanData.SalesmanData, id: Id, now: nat): (r: Salesman)
    ensures Data(r) == d && r.id == id && r.createdAt == now && r.updatedAt == now
  {
    Fill(Salesman(id, "", "", None, None, "", "", None, "", None, now, now), d)
  }

  /** The record's toArray() has exactly the fillable keys, so filling from
      it sets every fillable attribute; id, created_at and updated_at are
      not fillable. */
  lemma FillableKeys(d: SalesmanData.SalesmanData)
    ensures SalesmanData.ToArray(d).Keys == Fillable
    ensures "id" !in Fillable && "created_at" !in Fillable && "updated_at" !in Fillable
  {
    SalesmanData.ToArrayFields(d);
  }

  /** Filling with a row's own attributes changes nothing, and a second
      fill overrides the first entirely. */
  lemma {:induction false} FillLaws(s: Salesman, d: SalesmanData.SalesmanData, e: SalesmanData.SalesmanData)
    ensures Fill(s, Data(s)) == s
    ensures Fill(Fill(s, d), e) == Fill(s, e)
  {
  }

  /** The display_name attribute: the same parts list as the input
      record's display name. */
  function DisplayName(s: Salesman): (name: string)
    ensures name == SalesmanData.DisplayName(Data(s))
    ensures name == SalesmanData.Prefix(s.titlesBefore) + s.firstName + " " + s.lastName
      + SalesmanData.Suffix(s.titlesAfter)
  {
    SalesmanData.DisplayNameLayout(s.titlesBefore, s.firstName, s.lastName, s.titlesAfter);
    SalesmanData.ComposeDisplayName(s.titlesBefore, s.firstName, s.lastName, s.titlesAfter)
  }

  /** The self attribute: the row's path under /salesmen/. */
  function SelfLink(s: Salesman): string {
    "/salesmen/" + s.id
  }

  /** The self link determines the key: it ends with the key, after the
      fixed ten-character prefix. */
  lemma SelfLinkKey(a: Salesman, b: Salesman)
    ensures |SelfLink(a)| == 10 + |a.id| && SelfLink(a)[10..] == a.id
    ensures SelfLink(a) == SelfLink(b) <==> a.id == b.id
  {
    if SelfLink(a) == SelfLink(b) {
      assert a.id == SelfLink(a)[10..] == SelfLink(b)[10..] == b.id;
    }
  }

  /** scopeSearch: the term occurs, ignoring ASCII case, in the first
      name, the last name, the e-mail or the prosight id. */
  predicate MatchesSearch(s: Salesman, term: string) {
    || Strings.ContainsIgnoreCase(s.firstName, term)
    || Strings.ContainsIgnoreCase(s.lastName, term)
    || Strings.ContainsIgnoreCase(s.email, term)
    || Strings.ContainsIgnoreCase(s.prosightId, term)
  }

  /** A row matches the search exactly when the lower-cased term is a
      substring of one of the four lower-cased fields; the empty term
      matches every row. */
  lemma SearchIff(s: Salesman, term: string)
    ensures MatchesSearch(s, term) <==>
      || Strings.IsSubstring(Strings.Lower(term), Strings.Lower(s.firstName))
      || Strings.IsSubstring(Strings.Lower(term), Strings.Lower(s.lastName))
      || Strings.IsSubstring(Strings.Lower(term), Strings.Lower(s.email))
      || Strings.IsSubstring(Strings.Lower(term), Strings.Lower(s.prosightId))
    ensures MatchesSearch(s, "")
  {
    assert Strings.OccursAt(Strings.Lower(""), Strings.Lower(s.firstName), 0);
  }

  /** scopeByGender: rows whose gender equals the argument. */
  predicate ByGender(s: Salesman, gender: string) {
    s.gender == gender
  }

  /** scopeByMaritalStatus: rows whose marital status equals the argument;
      a null status equals no string. */
  predicate ByMaritalStatus(s: Salesman, maritalStatus: string) {
    s.maritalStatus == Some(maritalStatus)
  }
}
