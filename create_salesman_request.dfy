/** The rules of the create request, as the set of attributes that fail
    them. Validation is not fail-fast: every attribute is checked and all
    failing ones are reported together. Lengths here count characters,
    while the input record's own checks count UTF-8 bytes. */
module CreateRequest {
  import opened Wrappers
  import opened PhpValues
  import Strings
  import Gender
  import MaritalStatus
  import TitleBefore
  import TitleAfter
  import SalesmanData
  import opened SalesmanModel
  import opened Repository

  /** Laravel's `email` rule, whose syntax is library behaviour. */
  type EmailRule = string -> bool

  /** The attributes with rules of their own. */
  const Fields: set<string> :=
    {"first_name", "last_name", "titles_before", "titles_after", "prosight_id",
     "email", "phone", "gender", "marital_status"}

  /** A string that trims to nothing: trim characters only. */
  predicate Blank(s: string) {
    forall k | 0 <= k < |s| :: Strings.IsTrimChar(s[k])
  }

  /** Blank is the `trim($value) === ''` test of the rules. */
  lemma BlankIff(s: string)
    ensures Blank(s) <==> Strings.Trim(s) == ""
  {
    var i :| Strings.CutAt(s, Strings.Trim(s), i);
  }

  /** The `required` rule: present, not null, not a blank string and not an
      empty array. */
  predicate Required(data: map<string, Mixed>, key: string) {
    && key in data
    && !data[key].Null?
    && !(data[key].Str? && Blank(data[key].s))
    && !(data[key].Arr? && |data[key].items| == 0)
  }

  /** The rules that are not implicit are skipped for an attribute that is
      absent or a blank string, and, when the attribute is `nullable`, for
      null. */
  predicate Skipped(data: map<string, Mixed>, key: string, nullable: bool) {
    || key !in data
    || (data[key].Str? && Blank(data[key].s))
    || (nullable && data[key].Null?)
  }

  /** first_name and last_name: required, string, 2 to 50 characters. */
  predicate NameOk(data: map<string, Mixed>, key: string) {
    Required(data, key) && data[key].Str? && 2 <= |data[key].s| <= 50
  }

  /** titles_before and titles_after: nullable, array, at most 10 elements. */
  predicate TitleListOk(data: map<string, Mixed>, key: string) {
    Skipped(data, key, true) || (data[key].Arr? && |data[key].items| <= 10)
  }

  /** One element of a title list: string, 2 to 10 characters, one of the
      codes; a blank string element is skipped. */
  predicate TitleOk(v: Mixed, codes: seq<string>) {
    v.Str? && (Blank(v.s) || (2 <= |v.s| <= 10 && v.s in codes))
  }

  /** prosight_id: required, string, exactly 5 characters, not stored. */
  predicate ProsightIdOk(data: map<string, Mixed>, rows: seq<Salesman>) {
    && Required(data, "prosight_id") && data["prosight_id"].Str?
    && |data["prosight_id"].s| == 5
    && !Taken(rows, ProsightIdField, data["prosight_id"].s, None)
  }

  /** email: required, an e-mail address, not stored. */
  predicate EmailOk(data: map<string, Mixed>, rows: seq<Salesman>, emailRule: EmailRule) {
    && Required(data, "email") && data["email"].Str?
    && emailRule(data["email"].s)
    && !Taken(rows, EmailField, data["email"].s, None)
  }

  /** phone: nullable, string, at most 20 characters. */
  predicate PhoneOk(data: map<string, Mixed>) {
    Skipped(data, "phone", true) || (data["phone"].Str? && |data["phone"].s| <= 20)
  }

  /** gender: required, string, one of the gender codes. */
  predicate GenderOk(data: map<string, Mixed>) {
    Required(data, "gender") && data["gender"].Str? && data["gender"].s in ["m", "f"]
  }

  /** marital_status: nullable, string, one of the marital status codes. */
  predicate MaritalStatusOk(data: map<string, Mixed>) {
    || Skipped(data, "marital_status", true)
    || (data["marital_status"].Str? && data["marital_status"].s in ["single", "married", "divorced", "widowed"])
  }

  /** The rules of one attribute with rules of its own. */
  predicate FieldOk(data: map<string, Mixed>, rows: seq<Salesman>, emailRule: EmailRule, key: string) {
    if key == "first_name" || key == "last_name" then NameOk(data, key)
    else if key == "titles_before" || key == "titles_after" then TitleListOk(data, key)
    else if key == "prosight_id" then ProsightIdOk(data, rows)
    else if key == "email" then EmailOk(data, rows, emailRule)
    else if key == "phone" then PhoneOk(data)
    else if key == "gender" then GenderOk(data)
    else if key == "marital_status" then MaritalStatusOk(data)
    else true
  }

  /** The `key.*` attributes that fail: one "key.i" per failing element of
      a list; nothing when the value is not a list. */
  function ElementErrors(data: map<string, Mixed>, key: string, codes: seq<string>): (r: set<string>)
    ensures forall x | x in r :: '.' in x
  {
    if key in data && data[key].Arr? then
      set i | 0 <= i < |data[key].items| && !TitleOk(data[key].items[i], codes) :: ElementKey(key, i)
    else {}
  }

  /** The attribute name of element i of a list: "key.i". */
  function ElementKey(key: string, i: nat): (x: string)
    ensures '.' in x
  {
    assert (key + "." + NatToString(i))[|key|] == '.';
    key + "." + NatToString(i)
  }

  /** Every attribute whose rules fail. */
  function Errors(data: map<string, Mixed>, rows: seq<Salesman>, emailRule: EmailRule): set<string> {
    (set key | key in Fields && !FieldOk(data, rows, emailRule, key))
      + ElementErrors(data, "titles_before", TitleBefore.Codes())
      + ElementErrors(data, "titles_after", TitleAfter.Codes())
  }

  /** validated(): the input restricted to the attributes with rules. */
  function Validated(data: map<string, Mixed>): (v: map<string, Mixed>)
    ensures v.Keys == data.Keys * Fields
    ensures forall k | k in v :: v[k] == data[k]
  {
    map k | k in data && k in Fields :: data[k]
  }

  // ---------------------------------------------------------------------
  // Properties of the rules
  // ---------------------------------------------------------------------

  /** An empty body fails exactly the five required attributes, all of
      them at once. */
  lemma EmptyBody(rows: seq<Salesman>, emailRule: EmailRule)
    ensures Errors(map[], rows, emailRule) == {"first_name", "last_name", "prosight_id", "email", "gender"}
  {
    var e := Errors(map[], rows, emailRule);
    assert forall key | key in Fields :: key in e <==> key in {"first_name", "last_name", "prosight_id", "email", "gender"};
  }

  /** The data with only the given attribute. */
  function Only(data: map<string, Mixed>, key: string): map<string, Mixed> {
    map k | k in data && k == key :: data[k]
  }

  /** Accumulate-all: whether an attribute fails depends on its own value
      only, never on whether another attribute failed first. */
  lemma FieldsIndependent(data: map<string, Mixed>, rows: seq<Salesman>, emailRule: EmailRule, key: string)
    requires key in Fields
    ensures key in Errors(data, rows, emailRule) <==> key in Errors(Only(data, key), rows, emailRule)
  {
    var o := Only(data, key);
    assert key in data <==> key in o;
    assert key in data ==> data[key] == o[key];
    assert FieldOk(data, rows, emailRule, key) == FieldOk(o, rows, emailRule, key);
    FieldInErrors(data, rows, emailRule, key);
    FieldInErrors(o, rows, emailRule, key);
  }

  /** An attribute with rules is reported exactly when its own rules fail:
      no element of a list is reported under a plain attribute name. */
  lemma FieldInErrors(data: map<string, Mixed>, rows: seq<Salesman>, emailRule: EmailRule, key: string)
    requires key in Fields
    ensures key in Errors(data, rows, emailRule) <==> !FieldOk(data, rows, emailRule, key)
  {
    assert '.' !in key;
  }

  /** Every title code has 2 to 10 characters, so for a non-blank string
      element the length rules never reject what the `in` rule accepts. */
  lemma TitleCodesFit()
    ensures forall t | t in TitleBefore.Codes() :: 2 <= |t| <= 10
    ensures forall t | t in TitleAfter.Codes() :: 2 <= |t| <= 10
  {
    forall t | t in TitleBefore.Codes() ensures 2 <= |t| <= 10 {
      var i :| 0 <= i < |TitleBefore.Codes()| && TitleBefore.Codes()[i] == t;
      BeforeLength(TitleBefore.Cases[i]);
    }
    forall t | t in TitleAfter.Codes() ensures 2 <= |t| <= 10 {
      var i :| 0 <= i < |TitleAfter.Codes()| && TitleAfter.Codes()[i] == t;
      AfterLength(TitleAfter.Cases[i]);
    }
  }

  lemma BeforeLength(c: TitleBefore.TitleBefore)
    ensures 2 <= |c.Value()| <= 10
  {
  }

  lemma AfterLength(c: TitleAfter.TitleAfter)
    ensures 2 <= |c.Value()| <= 10
  {
  }

  /** Hence a non-blank string element passes exactly when it is a code. */
  lemma TitleRuleIsMembership(v: Mixed)
    requires v.Str? && !Blank(v.s)
    ensures TitleOk(v, TitleBefore.Codes()) <==> v.s in TitleBefore.Codes()
    ensures TitleOk(v, TitleAfter.Codes()) <==> v.s in TitleAfter.Codes()
  {
    TitleCodesFit();
  }

  /** The rules pass exactly when no attribute with rules fails and no
      title element fails. */
  lemma NoErrorsIff(data: map<string, Mixed>, rows: seq<Salesman>, emailRule: EmailRule)
    ensures Errors(data, rows, emailRule) == {} <==>
      && (forall key | key in Fields :: FieldOk(data, rows, emailRule, key))
      && ElementsOk(data, "titles_before", TitleBefore.Codes())
      && ElementsOk(data, "titles_after", TitleAfter.Codes())
  {
    var top := set key | key in Fields && !FieldOk(data, rows, emailRule, key);
    assert top == {} <==> forall key | key in Fields :: FieldOk(data, rows, emailRule, key) by {
      forall key | key in Fields && !FieldOk(data, rows, emailRule, key) ensures key in top {
      }
    }
    ElementErrorsEmpty(data, "titles_before", TitleBefore.Codes());
    ElementErrorsEmpty(data, "titles_after", TitleAfter.Codes());
  }

  /** Every element of the list at key, if it is one, passes. */
  predicate ElementsOk(data: map<string, Mixed>, key: string, codes: seq<string>) {
    IsList(data, key) ==> forall i | 0 <= i < |data[key].items| :: TitleOk(data[key].items[i], codes)
  }

  lemma ElementErrorsEmpty(data: map<string, Mixed>, key: string, codes: seq<string>)
    ensures ElementErrors(data, key, codes) == {} <==> ElementsOk(data, key, codes)
  {
    if IsList(data, key) {
      forall i | 0 <= i < |data[key].items| && !TitleOk(data[key].items[i], codes)
        ensures ElementKey(key, i) in ElementErrors(data, key, codes)
      {
      }
    }
  }

  predicate IsList(data: map<string, Mixed>, key: string) {
    key in data && data[key].Arr?
  }

  // ---------------------------------------------------------------------
  // The rules and the input record
  // ---------------------------------------------------------------------

  /** An attribute that is a blank string (which the rules skip when it is
      nullable). */
  predicate BlankString(data: map<string, Mixed>, key: string) {
    key in data && data[key].Str? && Blank(data[key].s)
  }

  /** Input whose gender, marital status and four required strings get
      past fromArray's own type and code checks. */
  predicate WellTyped(v: map<string, Mixed>) {
    && (Lookup(v, "gender") == Str("m") || Lookup(v, "gender") == Str("f"))
    && (SalesmanData.OptionalString(v, "marital_status").Some? ==>
          SalesmanData.OptionalString(v, "marital_status").value in ["single", "married", "divorced", "widowed"])
    && Lookup(v, "first_name").Str? && Lookup(v, "last_name").Str?
    && Lookup(v, "prosight_id").Str? && Lookup(v, "email").Str?
  }

  /** The record fromArray hands to the constructor. */
  function Record(v: map<string, Mixed>): SalesmanData.SalesmanData
    requires WellTyped(v)
  {
    SalesmanData.SalesmanData(
      v["first_name"].s, v["last_name"].s,
      SalesmanData.TitlesFrom(v, "titles_before", TitleBefore.Codes()),
      SalesmanData.TitlesFrom(v, "titles_after", TitleAfter.Codes()),
      v["prosight_id"].s, v["email"].s, SalesmanData.OptionalString(v, "phone"),
      v["gender"].s, SalesmanData.OptionalString(v, "marital_status"))
  }

  /** For such input fromArray returns the record, or the first violation
      of the constructor's checks. */
  lemma FromArrayWellTyped(v: map<string, Mixed>, emailOk: SalesmanData.EmailCheck)
    requires WellTyped(v)
    ensures SalesmanData.FromArray(v, emailOk) ==
      if SalesmanData.Valid(Record(v), emailOk) then Success(Record(v))
      else Failure(SalesmanData.Rejected(SalesmanData.Validate(Record(v), emailOk).value))
  {
  }

  /** Each attribute passing its own rules is every attribute passing. */
  lemma AllFieldsOk(data: map<string, Mixed>, rows: seq<Salesman>, emailRule: EmailRule)
    requires NameOk(data, "first_name") && NameOk(data, "last_name")
    requires ProsightIdOk(data, rows) && EmailOk(data, rows, emailRule)
    requires GenderOk(data) && MaritalStatusOk(data) && PhoneOk(data)
    requires TitleListOk(data, "titles_before") && TitleListOk(data, "titles_after")
    ensures forall key | key in Fields :: FieldOk(data, rows, emailRule, key)
  {
    forall key | key in Fields ensures FieldOk(data, rows, emailRule, key) {
      if key == "first_name" || key == "last_name" {
        assert NameOk(data, key);
      } else if key == "titles_before" || key == "titles_after" {
        assert TitleListOk(data, key);
      }
    }
  }

  /** Without title lists, the rules pass exactly when every attribute
      passes its own. */
  lemma NoListNoElementErrors(data: map<string, Mixed>, rows: seq<Salesman>, emailRule: EmailRule)
    requires "titles_before" !in data && "titles_after" !in data
    ensures Errors(data, rows, emailRule) == {} <==> forall key | key in Fields :: FieldOk(data, rows, emailRule, key)
  {
    ElementErrorsEmpty(data, "titles_before", TitleBefore.Codes());
    ElementErrorsEmpty(data, "titles_after", TitleAfter.Codes());
    NoErrorsIff(data, rows, emailRule);
  }

  /** Input without title lists whose attributes each pass their own rules
      passes the rules. */
  lemma FieldsWithoutLists(data: map<string, Mixed>, rows: seq<Salesman>, emailRule: EmailRule)
    requires NameOk(data, "first_name") && NameOk(data, "last_name")
    requires ProsightIdOk(data, rows) && EmailOk(data, rows, emailRule)
    requires GenderOk(data) && MaritalStatusOk(data) && PhoneOk(data)
    requires "titles_before" !in data && "titles_after" !in data
    ensures Errors(data, rows, emailRule) == {}
  {
    AllFieldsOk(data, rows, emailRule);
    NoListNoElementErrors(data, rows, emailRule);
  }

  /** The facts an accepted input gives about its attributes. */
  lemma Accepted(data: map<string, Mixed>, rows: seq<Salesman>, emailRule: EmailRule)
    requires Errors(data, rows, emailRule) == {}
    ensures NameOk(data, "first_name") && NameOk(data, "last_name")
    ensures ProsightIdOk(data, rows) && EmailOk(data, rows, emailRule)
    ensures GenderOk(data) && MaritalStatusOk(data) && PhoneOk(data)
  {
    NoErrorsIff(data, rows, emailRule);
    assert FieldOk(data, rows, emailRule, "first_name");
    assert FieldOk(data, rows, emailRule, "last_name");
    assert FieldOk(data, rows, emailRule, "prosight_id");
    assert FieldOk(data, rows, emailRule, "email");
    assert FieldOk(data, rows, emailRule, "phone");
    assert FieldOk(data, rows, emailRule, "gender");
    assert FieldOk(data, rows, emailRule, "marital_status");
  }

  /** Input that passes the rules also passes fromArray and the record's
      checks, provided its names and prosight id are ASCII (so that bytes
      and characters agree), its e-mail passes the record's own e-mail
      check, and its marital status is not a blank string. The record then
      carries the input's strings. */
  lemma AcceptedInputParses(data: map<string, Mixed>, rows: seq<Salesman>, emailRule: EmailRule, emailOk: SalesmanData.EmailCheck)
    requires Errors(data, rows, emailRule) == {}
    requires !BlankString(data, "marital_status")
    requires Lookup(data, "first_name").Str? && Strings.IsAscii(data["first_name"].s)
    requires Lookup(data, "last_name").Str? && Strings.IsAscii(data["last_name"].s)
    requires Lookup(data, "prosight_id").Str? && Strings.IsAscii(data["prosight_id"].s)
    requires Lookup(data, "email").Str? && emailOk(data["email"].s)
    ensures var r := SalesmanData.FromArray(Validated(data), emailOk);
      && r.Success?
      && r.value.firstName == data["first_name"].s && r.value.lastName == data["last_name"].s
      && r.value.prosightId == data["prosight_id"].s && r.value.email == data["email"].s
      && r.value.gender == data["gender"].s
  {
    Accepted(data, rows, emailRule);
    AcceptedWellTyped(data, rows, emailRule);
    var v := Validated(data);
    RecordValid(v, emailOk);
    FromArrayWellTyped(v, emailOk);
  }

  /** The attributes of accepted input have the types and codes fromArray
      wants, and the record takes the input's strings. */
  lemma AcceptedWellTyped(data: map<string, Mixed>, rows: seq<Salesman>, emailRule: EmailRule)
    requires NameOk(data, "first_name") && NameOk(data, "last_name")
    requires ProsightIdOk(data, rows) && EmailOk(data, rows, emailRule)
    requires GenderOk(data) && MaritalStatusOk(data) && !BlankString(data, "marital_status")
    ensures WellTyped(Validated(data))
    ensures var d := Record(Validated(data));
      && d.firstName == data["first_name"].s && d.lastName == data["last_name"].s
      && d.prosightId == data["prosight_id"].s && d.email == data["email"].s
      && d.gender == data["gender"].s
      && 2 <= |d.firstName| <= 50 && 2 <= |d.lastName| <= 50 && |d.prosightId| == 5
  {
    var v := Validated(data);
    assert v["gender"] == data["gender"];
    if "marital_status" in data {
      assert v["marital_status"] == data["marital_status"];
    }
  }

  /** The record of well-typed input passes the constructor's checks when
      its names and prosight id have the right lengths in ASCII and its
      e-mail passes the record's e-mail check. */
  lemma RecordValid(v: map<string, Mixed>, emailOk: SalesmanData.EmailCheck)
    requires WellTyped(v)
    requires var d := Record(v);
      && 2 <= |d.firstName| <= 50 && 2 <= |d.lastName| <= 50 && |d.prosightId| == 5
      && Strings.IsAscii(d.firstName) && Strings.IsAscii(d.lastName) && Strings.IsAscii(d.prosightId)
      && emailOk(d.email)
    ensures SalesmanData.Valid(Record(v), emailOk)
  {
    var d := Record(v);
    Gender.IsValidIff(d.gender);
    if d.maritalStatus.Some? {
      MaritalStatus.IsValidIff(d.maritalStatus.value);
    }
  }

  /** A string with a character that is not a trim character is not blank. */
  lemma NotBlank(s: string, k: nat)
    requires k < |s| && !Strings.IsTrimChar(s[k])
    ensures !Blank(s)
  {
  }

  /** A request body whose prosight id has five characters, the first of
      them (U+017E) two bytes long in UTF-8. */
  const NonAsciiExample: map<string, Mixed> := map[
    "first_name" := Str("John"), "last_name" := Str("Doe"), "prosight_id" := Str("\U{17E}1234"),
    "email" := Str("john@example.com"), "gender" := Str("m")]

  /** The rules count characters and the record counts bytes: a prosight id
      of five characters, one of them outside ASCII, passes the rules but is
      rejected by the record, which the controller then answers with a
      server error. */
  lemma NonAsciiProsightId(emailRule: EmailRule, emailOk: SalesmanData.EmailCheck)
    requires emailRule("john@example.com") && emailOk("john@example.com")
    ensures Errors(NonAsciiExample, [], emailRule) == {}
    ensures SalesmanData.FromArray(Validated(NonAsciiExample), emailOk) ==
      Failure(SalesmanData.Rejected(SalesmanData.ProsightIdLength))
  {
    NonAsciiExampleAccepted(emailRule);
    NonAsciiExampleRejected(emailOk);
  }

  lemma NonAsciiExampleAccepted(emailRule: EmailRule)
    requires emailRule("john@example.com")
    ensures Errors(NonAsciiExample, [], emailRule) == {}
  {
    NonAsciiExampleNames();
    NonAsciiExampleKeys(emailRule);
    NonAsciiExampleCodes();
    assert "titles_before" !in NonAsciiExample && "titles_after" !in NonAsciiExample;
    FieldsWithoutLists(NonAsciiExample, [], emailRule);
  }

  lemma NonAsciiExampleNames()
    ensures NameOk(NonAsciiExample, "first_name") && NameOk(NonAsciiExample, "last_name")
  {
    NotBlank("John", 0);
    NotBlank("Doe", 0);
  }

  lemma NonAsciiExampleKeys(emailRule: EmailRule)
    requires emailRule("john@example.com")
    ensures ProsightIdOk(NonAsciiExample, []) && EmailOk(NonAsciiExample, [], emailRule)
  {
    NotBlank("\U{17E}1234", 0);
    NotBlank("john@example.com", 0);
  }

  lemma NonAsciiExampleCodes()
    ensures GenderOk(NonAsciiExample) && MaritalStatusOk(NonAsciiExample) && PhoneOk(NonAsciiExample)
    ensures TitleListOk(NonAsciiExample, "titles_before") && TitleListOk(NonAsciiExample, "titles_after")
  {
    NotBlank("m", 0);
  }

  lemma NonAsciiExampleRejected(emailOk: SalesmanData.EmailCheck)
    ensures SalesmanData.FromArray(Validated(NonAsciiExample), emailOk) ==
      Failure(SalesmanData.Rejected(SalesmanData.ProsightIdLength))
  {
    var v := Validated(NonAsciiExample);
    assert v == NonAsciiExample;
    assert WellTyped(v);
    var d := Record(v);
    assert Strings.ByteLen("John") == 4 && Strings.ByteLen("Doe") == 3;
    assert Strings.ByteLen("\U{17E}1234") == 6;
    assert SalesmanData.Passes(d, 0, emailOk) && SalesmanData.Passes(d, 1, emailOk) && !SalesmanData.Passes(d, 2, emailOk);
    FromArrayWellTyped(v, emailOk);
  }
}
