/** The validated input record for a salesman. Direct construction runs a
    fail-fast validation in a fixed order; fromArray parses an untyped
    key/value array leniently and then goes through the same construction,
    so every record it returns is valid. */
module SalesmanData {
  import opened Wrappers
  import opened PhpValues
  import Strings
  import Vocabulary
  import Gender
  import MaritalStatus
  import TitleBefore
  import TitleAfter

  /** PHP's filter_var($email, FILTER_VALIDATE_EMAIL), supplied by the
      caller: the model does not interpret e-mail syntax. */
  type EmailCheck = string -> bool

  datatype SalesmanData = SalesmanData(
    firstName: string,
    lastName: string,
    titlesBefore: Option<seq<string>>,
    titlesAfter: Option<seq<string>>,
    prosightId: string,
    email: string,
    phone: Option<string>,
    gender: string,
    maritalStatus: Option<string>)

  // ---------------------------------------------------------------------
  // The checks of the constructor
  // ---------------------------------------------------------------------

  /** A first or last name of 2 to 50 bytes (strlen). */
  predicate NameLengthOk(name: string) {
    2 <= Strings.ByteLen(name) <= 50
  }

  /** A title list that is absent or made only of codes from the list. */
  predicate TitlesOk(titles: Option<seq<string>>, codes: seq<string>) {
    titles.None? || forall t | t in titles.value :: t in codes
  }

  /** Check number k of validate(), in the order the constructor runs them. */
  predicate Passes(d: SalesmanData, k: nat, emailOk: EmailCheck) {
    if k == 0 then NameLengthOk(d.firstName)
    else if k == 1 then NameLengthOk(d.lastName)
    else if k == 2 then Strings.ByteLen(d.prosightId) == 5
    else if k == 3 then emailOk(d.email)
    else if k == 4 then Gender.IsValid(d.gender)
    else if k == 5 then d.maritalStatus.None? || MaritalStatus.IsValid(d.maritalStatus.value)
    else if k == 6 then TitlesOk(d.titlesBefore, TitleBefore.Codes())
    else if k == 7 then TitlesOk(d.titlesAfter, TitleAfter.Codes())
    else true
  }

  /** The record satisfies every check of the constructor. */
  predicate Valid(d: SalesmanData, emailOk: EmailCheck) {
    && NameLengthOk(d.firstName)
    && NameLengthOk(d.lastName)
    && Strings.ByteLen(d.prosightId) == 5
    && emailOk(d.email)
    && Gender.IsValid(d.gender)
    && (d.maritalStatus.None? || MaritalStatus.IsValid(d.maritalStatus.value))
    && TitlesOk(d.titlesBefore, TitleBefore.Codes())
    && TitlesOk(d.titlesAfter, TitleAfter.Codes())
  }

  /** The reason validate() rejects a record, one per check. */
  datatype Violation =
    | FirstNameLength
    | LastNameLength
    | ProsightIdLength
    | EmailFormat
    | GenderCode
    | MaritalStatusCode
    | TitleBeforeCode(title: string)
    | TitleAfterCode(title: string)
  {
    /** The position of the failed check in validate(). */
    function Rank(): nat {
      match this
      case FirstNameLength => 0
      case LastNameLength => 1
      case ProsightIdLength => 2
      case EmailFormat => 3
      case GenderCode => 4
      case MaritalStatusCode => 5
      case TitleBeforeCode(_) => 6
      case TitleAfterCode(_) => 7
    }

    /** The message of the InvalidArgumentException thrown. */
    function Message(): string {
      match this
      case FirstNameLength => "First name must be between 2 and 50 characters"
      case LastNameLength => "Last name must be between 2 and 50 characters"
      case ProsightIdLength => "Prosight ID must be exactly 5 characters"
      case EmailFormat => "Invalid email format"
      case GenderCode => "Invalid gender code"
      case MaritalStatusCode => "Invalid marital status code"
      case TitleBeforeCode(t) => "Invalid title before code: " + t
      case TitleAfterCode(t) => "Invalid title after code: " + t
    }
  }

  /** The foreach over a title list with an early throw: the position of
      the first title not in the list of codes, or the length of the list
      when every title is a code. */
  function FirstInvalid(titles: seq<string>, codes: seq<string>): (k: nat)
    ensures k <= |titles|
    ensures forall j | 0 <= j < k :: titles[j] in codes
    ensures k < |titles| ==> titles[k] !in codes
  {
    if titles == [] || titles[0] !in codes then 0
    else 1 + FirstInvalid(titles[1..], codes)
  }

  /** validate(): the first check, in constructor order, that d fails. */
  function Validate(d: SalesmanData, emailOk: EmailCheck): (r: Option<Violation>)
    ensures r.None? <==> Valid(d, emailOk)
    ensures r.Some? ==> !Passes(d, r.value.Rank(), emailOk)
    ensures r.Some? ==> forall k | 0 <= k < r.value.Rank() :: Passes(d, k, emailOk)
    ensures r.Some? && r.value.TitleBeforeCode? ==>
      && d.titlesBefore.Some?
      && exists k | 0 <= k < |d.titlesBefore.value| ::
           && d.titlesBefore.value[k] == r.value.title && r.value.title !in TitleBefore.Codes()
           && forall j | 0 <= j < k :: d.titlesBefore.value[j] in TitleBefore.Codes()
    ensures r.Some? && r.value.TitleAfterCode? ==>
      && d.titlesAfter.Some?
      && exists k | 0 <= k < |d.titlesAfter.value| ::
           && d.titlesAfter.value[k] == r.value.title && r.value.title !in TitleAfter.Codes()
           && forall j | 0 <= j < k :: d.titlesAfter.value[j] in TitleAfter.Codes()
  {
    if !NameLengthOk(d.firstName) then Some(FirstNameLength)
    else if !NameLengthOk(d.lastName) then Some(LastNameLength)
    else if Strings.ByteLen(d.prosightId) != 5 then Some(ProsightIdLength)
    else if !emailOk(d.email) then Some(EmailFormat)
    else if !Gender.IsValid(d.gender) then Some(GenderCode)
    else if d.maritalStatus.Some? && !MaritalStatus.IsValid(d.maritalStatus.value) then Some(MaritalStatusCode)
    else if d.titlesBefore.Some? && FirstInvalid(d.titlesBefore.value, TitleBefore.Codes()) < |d.titlesBefore.value| then
      Some(TitleBeforeCode(d.titlesBefore.value[FirstInvalid(d.titlesBefore.value, TitleBefore.Codes())]))
    else if d.titlesAfter.Some? && FirstInvalid(d.titlesAfter.value, TitleAfter.Codes()) < |d.titlesAfter.value| then
      Some(TitleAfterCode(d.titlesAfter.value[FirstInvalid(d.titlesAfter.value, TitleAfter.Codes())]))
    else None
  }

  /** The constructor: the record itself, or the violation it throws. */
  function New(d: SalesmanData, emailOk: EmailCheck): (r: Result<SalesmanData, Violation>)
    ensures r.Success? <==> Valid(d, emailOk)
    ensures r.Success? ==> r.value == d
  {
    match Validate(d, emailOk)
    case None => Success(d)
    case Some(v) => Failure(v)
  }

  // ---------------------------------------------------------------------
  // toArray and getDisplayName
  // ---------------------------------------------------------------------

  /** The nine snake_case keys of toArray(), which are also the keys
      fromArray() reads. */
  const FieldNames: set<string> :=
    {"first_name", "last_name", "titles_before", "titles_after", "prosight_id",
     "email", "phone", "gender", "marital_status"}

  function OptStr(v: Option<string>): Mixed {
    if v.Some? then Str(v.value) else Null
  }

  function OptList(v: Option<seq<string>>): Mixed {
    if v.Some? then StrList(v.value) else Null
  }

  /** toArray. */
  function ToArray(d: SalesmanData): map<string, Mixed> {
    map[
      "first_name" := Str(d.firstName),
      "last_name" := Str(d.lastName),
      "titles_before" := OptList(d.titlesBefore),
      "titles_after" := OptList(d.titlesAfter),
      "prosight_id" := Str(d.prosightId),
      "email" := Str(d.email),
      "phone" := OptStr(d.phone),
      "gender" := Str(d.gender),
      "marital_status" := OptStr(d.maritalStatus)
    ]
  }

  /** toArray has exactly the nine keys and copies each field, unchanged,
      to its key; absent optional fields become null. */
  lemma ToArrayFields(d: SalesmanData)
    ensures ToArray(d).Keys == FieldNames
    ensures ToArray(d)["first_name"] == Str(d.firstName) && ToArray(d)["last_name"] == Str(d.lastName)
    ensures ToArray(d)["prosight_id"] == Str(d.prosightId) && ToArray(d)["email"] == Str(d.email)
    ensures ToArray(d)["gender"] == Str(d.gender)
    ensures ToArray(d)["phone"] == (if d.phone.Some? then Str(d.phone.value) else Null)
    ensures ToArray(d)["marital_status"] == (if d.maritalStatus.Some? then Str(d.maritalStatus.value) else Null)
    ensures ToArray(d)["titles_before"] == (if d.titlesBefore.Some? then StrList(d.titlesBefore.value) else Null)
    ensures ToArray(d)["titles_after"] == (if d.titlesAfter.Some? then StrList(d.titlesAfter.value) else Null)
  {
  }

  function ListOrEmpty(titles: Option<seq<string>>): seq<string> {
    if titles.Some? then titles.value else []
  }

  /** The parts list of getDisplayName (and of the stored model's
      display_name attribute) joined by single spaces: the titles before,
      the first and last name, the titles after; a null list adds nothing. */
  function ComposeDisplayName(titlesBefore: Option<seq<string>>, first: string, last: string,
                              titlesAfter: Option<seq<string>>): string
  {
    Strings.Join(ListOrEmpty(titlesBefore) + [first, last] + ListOrEmpty(titlesAfter), " ")
  }

  /** getDisplayName. */
  function DisplayName(d: SalesmanData): string {
    ComposeDisplayName(d.titlesBefore, d.firstName, d.lastName, d.titlesAfter)
  }

  /** The titles of a list joined by spaces, followed by a space; nothing
      for a null or empty list. */
  function Prefix(titles: Option<seq<string>>): string {
    if ListOrEmpty(titles) == [] then "" else Strings.Join(titles.value, " ") + " "
  }

  /** A space followed by the titles of a list joined by spaces; nothing for
      a null or empty list. */
  function Suffix(titles: Option<seq<string>>): string {
    if ListOrEmpty(titles) == [] then "" else " " + Strings.Join(titles.value, " ")
  }

  /** The display name is the titles before, the first name, a space, the
      last name and the titles after, each title group separated from the
      names by exactly one space and omitted when null or empty. */
  lemma DisplayNameLayout(titlesBefore: Option<seq<string>>, first: string, last: string,
                          titlesAfter: Option<seq<string>>)
    ensures ComposeDisplayName(titlesBefore, first, last, titlesAfter)
      == Prefix(titlesBefore) + first + " " + last + Suffix(titlesAfter)
  {
    var before, after := ListOrEmpty(titlesBefore), ListOrEmpty(titlesAfter);
    var names := [first, last];
    assert Strings.Join(names, " ") == first + " " + last by {
      assert names[1..] == [last];
    }
    calc {
      ComposeDisplayName(titlesBefore, first, last, titlesAfter);
      Strings.Join((before + names) + after, " ");
      { JoinBeforeSuffix(before + names, after); }
      Strings.Join(before + names, " ") + Suffix(titlesAfter);
      { JoinAfterPrefix(before, names); }
      Prefix(titlesBefore) + (first + " " + last) + Suffix(titlesAfter);
    }
  }

  /** A possibly empty list of titles in front of the names. */
  lemma JoinAfterPrefix(before: seq<string>, names: seq<string>)
    requires names != []
    ensures Strings.Join(before + names, " ")
      == (if before == [] then "" else Strings.Join(before, " ") + " ") + Strings.Join(names, " ")
  {
    if before == [] {
      assert before + names == names;
    } else {
      Strings.JoinAppend(before, names, " ");
    }
  }

  /** A possibly empty list of titles after the names. */
  lemma JoinBeforeSuffix(names: seq<string>, after: seq<string>)
    requires names != []
    ensures Strings.Join(names + after, " ")
      == Strings.Join(names, " ") + (if after == [] then "" else " " + Strings.Join(after, " "))
  {
    if after == [] {
      assert names + after == names;
    } else {
      Strings.JoinAppend(names, after, " ");
    }
  }

  /** The two examples of the unit tests. */
  lemma DisplayNameExamples(emailOk: EmailCheck)
    ensures DisplayName(SalesmanData("John", "Doe", Some(["Ing."]), Some(["PhD."]), "12345",
      "john.doe@example.com", Some("+421123456789"), "m", Some("single"))) == "Ing. John Doe PhD."
    ensures DisplayName(SalesmanData("John", "Doe", None, None, "12345",
      "john.doe@example.com", Some("+421123456789"), "m", Some("single"))) == "John Doe"
  {
    DisplayNameLayout(Some(["Ing."]), "John", "Doe", Some(["PhD."]));
    DisplayNameLayout(None, "John", "Doe", None);
  }

  // ---------------------------------------------------------------------
  // fromArray
  // ---------------------------------------------------------------------

  /** The reasons fromArray throws InvalidArgumentException. */
  datatype ParseError =
    | InvalidGender(shown: string)
    | InvalidMaritalStatus(value: string)
    | NotAString(field: string)
    | Rejected(violation: Violation)
  {
    function Message(): string {
      match this
      case InvalidGender(shown) => "Invalid gender: " + shown
      case InvalidMaritalStatus(v) => "Invalid marital status: " + v
      case NotAString(field) => field + " must be a string"
      case Rejected(v) => v.Message()
    }
  }

  /** A title list as fromArray reads it: only when the key is set to an
      array, its string elements filtered by filterValid; null otherwise. */
  function TitlesFrom(data: map<string, Mixed>, key: string, codes: seq<string>): (r: Option<seq<string>>)
    ensures r.Some? ==> r.value != [] && forall t | t in r.value :: t in codes
  {
    if IsSet(data, key) && data[key].Arr? then Vocabulary.Filter(StringItems(data[key].items), codes)
    else None
  }

  /** An optional string field as fromArray reads it: kept when set to a
      string, null otherwise. */
  function OptionalString(data: map<string, Mixed>, key: string): Option<string> {
    if IsSet(data, key) && data[key].Str? then Some(data[key].s) else None
  }

  /** fromArray. */
  function FromArray(data: map<string, Mixed>, emailOk: EmailCheck): Result<SalesmanData, ParseError> {
    var titlesBefore := TitlesFrom(data, "titles_before", TitleBefore.Codes());
    var titlesAfter := TitlesFrom(data, "titles_after", TitleAfter.Codes());
    var gender := Lookup(data, "gender");
    if !(gender.Str? && gender.s in ["f", "m"]) then
      Failure(InvalidGender(if gender.Str? then gender.s else TypeName(gender)))
    else
      var maritalStatus := OptionalString(data, "marital_status");
      if maritalStatus.Some? && maritalStatus.value !in ["single", "married", "divorced", "widowed"] then
        Failure(InvalidMaritalStatus(maritalStatus.value))
      else if !Lookup(data, "first_name").Str? then Failure(NotAString("first_name"))
      else if !Lookup(data, "last_name").Str? then Failure(NotAString("last_name"))
      else if !Lookup(data, "prosight_id").Str? then Failure(NotAString("prosight_id"))
      else if !Lookup(data, "email").Str? then Failure(NotAString("email"))
      else
        var d := SalesmanData(
          data["first_name"].s, data["last_name"].s, titlesBefore, titlesAfter,
          data["prosight_id"].s, data["email"].s, OptionalString(data, "phone"),
          gender.s, maritalStatus);
        match New(d, emailOk)
        case Success(d) => Success(d)
        case Failure(v) => Failure(Rejected(v))
  }

  /** Every record fromArray returns passes the constructor's checks, and
      its title lists are exactly the filtered string elements of the
      input's lists. */
  lemma FromArrayValid(data: map<string, Mixed>, emailOk: EmailCheck)
    requires FromArray(data, emailOk).Success?
    ensures Valid(FromArray(data, emailOk).value, emailOk)
    ensures FromArray(data, emailOk).value.titlesBefore == TitlesFrom(data, "titles_before", TitleBefore.Codes())
    ensures FromArray(data, emailOk).value.titlesAfter == TitlesFrom(data, "titles_after", TitleAfter.Codes())
  {
  }

  /** The gender is checked first: a value that is not exactly the string
      "m" or "f" throws "Invalid gender: <value>", naming a non-string by
      its type. */
  lemma FromArrayGenderFirst(data: map<string, Mixed>, emailOk: EmailCheck)
    requires !(Lookup(data, "gender") == Str("m") || Lookup(data, "gender") == Str("f"))
    ensures FromArray(data, emailOk).Failure?
    ensures FromArray(data, emailOk).error.Message() ==
      "Invalid gender: " + (if Lookup(data, "gender").Str? then Lookup(data, "gender").s else TypeName(Lookup(data, "gender")))
  {
  }

  /** With a valid gender, a marital status that is a string outside the
      four codes throws "Invalid marital status: <value>". */
  lemma FromArrayMaritalStatus(data: map<string, Mixed>, emailOk: EmailCheck)
    requires Lookup(data, "gender") == Str("m") || Lookup(data, "gender") == Str("f")
    requires Lookup(data, "marital_status").Str? && !MaritalStatus.IsValid(data["marital_status"].s)
    ensures FromArray(data, emailOk) == Failure(InvalidMaritalStatus(data["marital_status"].s))
  {
    MaritalStatus.IsValidIff(data["marital_status"].s);
  }

  /** A marital status or phone that is not a string is dropped to null
      without an error. */
  lemma FromArrayCoercesNonStrings(data: map<string, Mixed>, emailOk: EmailCheck)
    requires FromArray(data, emailOk).Success?
    ensures !Lookup(data, "marital_status").Str? ==> FromArray(data, emailOk).value.maritalStatus.None?
    ensures !Lookup(data, "phone").Str? ==> FromArray(data, emailOk).value.phone.None?
  {
  }

  /** The unit-test example: gender "invalid" is rejected with the message
      "Invalid gender: invalid". */
  lemma FromArrayInvalidGenderExample(emailOk: EmailCheck)
    ensures FromArray(map["first_name" := Str("John"), "last_name" := Str("Doe"),
      "prosight_id" := Str("12345"), "email" := Str("john.doe@example.com"),
      "gender" := Str("invalid")], emailOk).error.Message() == "Invalid gender: invalid"
  {
  }

  /** What fromArray demands of the attributes other than the title lists:
      the gender and marital status among the codes it accepts, the four
      required strings present as strings and passing the constructor's
      checks. */
  predicate Accepts(data: map<string, Mixed>, emailOk: EmailCheck) {
    var gender := Lookup(data, "gender");
    var maritalStatus := OptionalString(data, "marital_status");
    && gender.Str? && gender.s in ["f", "m"]
    && (maritalStatus.None? || maritalStatus.value in ["single", "married", "divorced", "widowed"])
    && Lookup(data, "first_name").Str? && NameLengthOk(Lookup(data, "first_name").s)
    && Lookup(data, "last_name").Str? && NameLengthOk(Lookup(data, "last_name").s)
    && Lookup(data, "prosight_id").Str? && Strings.ByteLen(Lookup(data, "prosight_id").s) == 5
    && Lookup(data, "email").Str? && emailOk(Lookup(data, "email").s)
  }

  /** fromArray succeeds exactly on the inputs it accepts: the title lists
      are filtered, never rejected. */
  lemma FromArraySucceeds(data: map<string, Mixed>, emailOk: EmailCheck)
    ensures FromArray(data, emailOk).Success? <==> Accepts(data, emailOk)
  {
    var gender := Lookup(data, "gender");
    if gender.Str? {
      Gender.IsValidIff(gender.s);
    }
    var maritalStatus := OptionalString(data, "marital_status");
    if maritalStatus.Some? {
      MaritalStatus.IsValidIff(maritalStatus.value);
    }
  }

  /** Titles never make fromArray fail: replacing a title list by any value
      at all changes the outcome only in that list. */
  lemma TitlesNeverFail(data: map<string, Mixed>, key: string, v: Mixed, emailOk: EmailCheck)
    requires key == "titles_before" || key == "titles_after"
    ensures FromArray(data, emailOk).Success? <==> FromArray(data[key := v], emailOk).Success?
  {
    var data' := data[key := v];
    FromArraySucceeds(data, emailOk);
    FromArraySucceeds(data', emailOk);
    assert forall k | k != key :: Lookup(data', k) == Lookup(data, k) && IsSet(data', k) == IsSet(data, k);
    assert OptionalString(data', "marital_status") == OptionalString(data, "marital_status");
    assert Accepts(data', emailOk) == Accepts(data, emailOk);
  }

  /** An empty title list is what fromArray turns into null. */
  function Normalized(d: SalesmanData): SalesmanData {
    d.(titlesBefore := if ListOrEmpty(d.titlesBefore) == [] then None else d.titlesBefore,
       titlesAfter := if ListOrEmpty(d.titlesAfter) == [] then None else d.titlesAfter)
  }

  lemma TitlesRoundTrip(titles: Option<seq<string>>, codes: seq<string>, key: string, data: map<string, Mixed>)
    requires TitlesOk(titles, codes)
    requires key in data && data[key] == OptList(titles)
    ensures TitlesFrom(data, key, codes) == if ListOrEmpty(titles) == [] then None else titles
  {
    if titles.Some? {
      StringsOfStrList(titles.value);
      Vocabulary.KeepAllValid(titles.value, codes);
    }
  }

  /** Round trip: a valid record read back from its own toArray() is the
      same record, except that an empty title list comes back as null. */
  lemma FromArrayToArray(d: SalesmanData, emailOk: EmailCheck)
    requires Valid(d, emailOk)
    ensures FromArray(ToArray(d), emailOk) == Success(Normalized(d))
  {
    var data := ToArray(d);
    ToArrayFields(d);
    TitlesRoundTrip(d.titlesBefore, TitleBefore.Codes(), "titles_before", data);
    TitlesRoundTrip(d.titlesAfter, TitleAfter.Codes(), "titles_after", data);
    Gender.IsValidIff(d.gender);
    assert Lookup(data, "gender") == Str(d.gender) && d.gender in ["f", "m"];
    assert OptionalString(data, "marital_status") == d.maritalStatus;
    if d.maritalStatus.Some? {
      MaritalStatus.IsValidIff(d.maritalStatus.value);
    }
    assert OptionalString(data, "phone") == d.phone;
    var n := Normalized(d);
    assert n == SalesmanData(
      data["first_name"].s, data["last_name"].s,
      TitlesFrom(data, "titles_before", TitleBefore.Codes()), TitlesFrom(data, "titles_after", TitleAfter.Codes()),
      data["prosight_id"].s, data["email"].s, OptionalString(data, "phone"), d.gender, d.maritalStatus);
    assert Valid(n, emailOk);
  }

  /** For a valid record whose title lists are null or non-empty the round
      trip is exact. */
  lemma FromArrayToArrayExact(d: SalesmanData, emailOk: EmailCheck)
    requires Valid(d, emailOk)
    requires d.titlesBefore != Some([]) && d.titlesAfter != Some([])
    ensures FromArray(ToArray(d), emailOk) == Success(d)
  {
    FromArrayToArray(d, emailOk);
  }
}
