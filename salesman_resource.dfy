/** The JSON representation of one stored salesman. */
module SalesmanResource {
  import opened Wrappers
  import opened SalesmanModel

  /** A JSON value of the representation. A timestamp is kept as the instant
      it renders; its ISO-8601 text is not part of this model. */
  datatype Json = JNull | JStr(s: string) | JList(items: seq<string>) | JTime(t: nat)

  /** The fourteen keys of the representation. */
  const Keys: set<string> :=
    {"id", "self", "first_name", "last_name", "display_name", "titles_before",
     "titles_after", "prosight_id", "email", "phone", "gender", "marital_status",
     "created_at", "updated_at"}

  function Nullable(v: Option<string>): Json {
    if v.Some? then JStr(v.value) else JNull
  }

  /** A title list is sent only when it is non-empty (PHP truthiness of an
      array); an empty or missing list becomes null. */
  function TitleList(titles: Option<seq<string>>): Json {
    if titles.Some? && titles.value != [] then JList(titles.value) else JNull
  }

  /** toArray. */
  function ToArray(s: Salesman): map<string, Json> {
    map[
      "id" := JStr(s.id),
      "self" := JStr(SelfLink(s)),
      "first_name" := JStr(s.firstName),
      "last_name" := JStr(s.lastName),
      "display_name" := JStr(DisplayName(s)),
      "titles_before" := TitleList(s.titlesBefore),
      "titles_after" := TitleList(s.titlesAfter),
      "prosight_id" := JStr(s.prosightId),
      "email" := JStr(s.email),
      "phone" := Nullable(s.phone),
      "gender" := JStr(s.gender),
      "marital_status" := Nullable(s.maritalStatus),
      "created_at" := JTime(s.createdAt),
      "updated_at" := JTime(s.updatedAt)]
  }

  /** The output has exactly the fourteen keys. */
  lemma ToArrayKeys(s: Salesman)
    ensures ToArray(s).Keys == Keys
  {
  }

  /** The stored attributes are copied unchanged, nullable ones as null
      when absent. */
  lemma ToArrayCopies(s: Salesman)
    ensures ToArray(s)["id"] == JStr(s.id)
    ensures ToArray(s)["first_name"] == JStr(s.firstName)
    ensures ToArray(s)["last_name"] == JStr(s.lastName)
    ensures ToArray(s)["prosight_id"] == JStr(s.prosightId)
    ensures ToArray(s)["email"] == JStr(s.email)
    ensures ToArray(s)["gender"] == JStr(s.gender)
    ensures ToArray(s)["phone"] == (if s.phone.Some? then JStr(s.phone.value) else JNull)
    ensures ToArray(s)["marital_status"] == (if s.maritalStatus.Some? then JStr(s.maritalStatus.value) else JNull)
  {
  }

  /** display_name and self are the model's derived attributes, and the
      timestamps are the stored ones. */
  lemma ToArrayDerived(s: Salesman)
    ensures ToArray(s)["display_name"] == JStr(DisplayName(s))
    ensures ToArray(s)["self"] == JStr("/salesmen/" + s.id)
    ensures ToArray(s)["created_at"] == JTime(s.createdAt) && ToArray(s)["updated_at"] == JTime(s.updatedAt)
  {
  }

  /** A title list serialises as null exactly when it is missing or empty,
      and otherwise as its values in their stored order. */
  lemma TitleListsIff(s: Salesman)
    ensures ToArray(s)["titles_before"] == JNull <==> s.titlesBefore.None? || s.titlesBefore.value == []
    ensures ToArray(s)["titles_before"].JList? ==> ToArray(s)["titles_before"].items == s.titlesBefore.value
    ensures ToArray(s)["titles_after"] == JNull <==> s.titlesAfter.None? || s.titlesAfter.value == []
    ensures ToArray(s)["titles_after"].JList? ==> ToArray(s)["titles_after"].items == s.titlesAfter.value
  {
  }

  /** Two rows with the same representation are the same row, except that
      an empty title list and a missing one are not told apart. */
  lemma ToArrayInjective(a: Salesman, b: Salesman)
    requires ToArray(a) == ToArray(b)
    ensures a.id == b.id && a.firstName == b.firstName && a.lastName == b.lastName
    ensures a.prosightId == b.prosightId && a.email == b.email && a.phone == b.phone
    ensures a.gender == b.gender && a.maritalStatus == b.maritalStatus
    ensures a.createdAt == b.createdAt && a.updatedAt == b.updatedAt
    ensures (a.titlesBefore.Some? && a.titlesBefore.value != []) ==> a.titlesBefore == b.titlesBefore
    ensures (a.titlesAfter.Some? && a.titlesAfter.value != []) ==> a.titlesAfter == b.titlesAfter
  {
    assert ToArray(a)["id"] == ToArray(b)["id"];
    assert ToArray(a)["first_name"] == ToArray(b)["first_name"];
    assert ToArray(a)["last_name"] == ToArray(b)["last_name"];
    assert ToArray(a)["prosight_id"] == ToArray(b)["prosight_id"];
    assert ToArray(a)["email"] == ToArray(b)["email"];
    assert ToArray(a)["phone"] == ToArray(b)["phone"];
    assert ToArray(a)["gender"] == ToArray(b)["gender"];
    assert ToArray(a)["marital_status"] == ToArray(b)["marital_status"];
    assert ToArray(a)["created_at"] == ToArray(b)["created_at"];
    assert ToArray(a)["updated_at"] == ToArray(b)["updated_at"];
    assert ToArray(a)["titles_before"] == ToArray(b)["titles_before"];
    assert ToArray(a)["titles_after"] == ToArray(b)["titles_after"];
  }
}
