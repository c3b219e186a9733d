/** The codelist document served to clients building forms: the toArray()
    listing of each of the four enums under a fixed key. */
module CodelistData {
  import Vocabulary
  import Gender
  import MaritalStatus
  import TitleBefore
  import TitleAfter

  /** The four keys of getAll(), as fields. */
  datatype Codelists = Codelists(
    maritalStatuses: seq<MaritalStatus.Entry>,
    genders: seq<Vocabulary.Entry>,
    titlesBefore: seq<Vocabulary.Entry>,
    titlesAfter: seq<Vocabulary.Entry>)

  predicate HasCode(entries: seq<Vocabulary.Entry>, code: string) {
    exists i | 0 <= i < |entries| :: entries[i].code == code
  }

  predicate HasMaritalCode(entries: seq<MaritalStatus.Entry>, code: string) {
    exists i | 0 <= i < |entries| :: entries[i].code == code
  }

  /** getAll: under each key, the enum's toArray() listing, which offers
      exactly the codes that enum's isValid accepts. */
  function GetAll(): (c: Codelists)
    ensures forall v :: HasMaritalCode(c.maritalStatuses, v) <==> MaritalStatus.IsValid(v)
    ensures forall v :: HasCode(c.genders, v) <==> Gender.IsValid(v)
    ensures forall v :: HasCode(c.titlesBefore, v) <==> TitleBefore.IsValid(v)
    ensures forall v :: HasCode(c.titlesAfter, v) <==> TitleAfter.IsValid(v)
  {
    MaritalStatusCodes();
    ListedCodes(Gender.ToArray(), Gender.Codes());
    TitleBefore.ToArrayShape();
    ListedCodes(TitleBefore.ToArray(), TitleBefore.Codes());
    TitleAfter.ToArrayShape();
    ListedCodes(TitleAfter.ToArray(), TitleAfter.Codes());
    Codelists(MaritalStatus.ToArray(), Gender.ToArray(), TitleBefore.ToArray(), TitleAfter.ToArray())
  }

  /** A listing whose codes are, position by position, the enum's codes
      offers exactly those codes. */
  lemma ListedCodes(entries: seq<Vocabulary.Entry>, codes: seq<string>)
    requires |entries| == |codes|
    requires forall i | 0 <= i < |codes| :: entries[i].code == codes[i]
    ensures forall v :: HasCode(entries, v) <==> v in codes
  {
    forall v | v in codes ensures HasCode(entries, v) {
      var i :| 0 <= i < |codes| && codes[i] == v;
      assert entries[i].code == v;
    }
  }

  lemma MaritalStatusCodes()
    ensures forall v :: HasMaritalCode(MaritalStatus.ToArray(), v) <==> MaritalStatus.IsValid(v)
  {
    MaritalStatus.ToArrayShape();
    var e := MaritalStatus.ToArray();
    forall v | MaritalStatus.IsValid(v) ensures HasMaritalCode(e, v) {
      var i :| 0 <= i < |MaritalStatus.Codes()| && MaritalStatus.Codes()[i] == v;
      assert e[i].code == v;
    }
    forall v | HasMaritalCode(e, v) ensures MaritalStatus.IsValid(v) {
      var i :| 0 <= i < |e| && e[i].code == v;
      assert MaritalStatus.Codes()[i] == v;
    }
  }

  /** Both genders are listed, m first. */
  lemma GendersListed()
    ensures |GetAll().genders| == 2
    ensures GetAll().genders[0].code == "m" && GetAll().genders[1].code == "f"
    ensures HasCode(GetAll().genders, "m") && HasCode(GetAll().genders, "f")
  {
    var g := GetAll().genders;
    assert g[0].code == "m" && g[1].code == "f";
  }

  /** All four marital statuses are listed, in declaration order. */
  lemma MaritalStatusesListed()
    ensures |GetAll().maritalStatuses| == 4
    ensures forall i | 0 <= i < 4 :: GetAll().maritalStatuses[i].code == ["single", "married", "divorced", "widowed"][i]
  {
  }

  /** All 21 titles before the name are listed, Ing., Mgr. and Dr. among them. */
  lemma TitlesBeforeListed()
    ensures |GetAll().titlesBefore| == 21
    ensures HasCode(GetAll().titlesBefore, "Ing.") && HasCode(GetAll().titlesBefore, "Mgr.")
      && HasCode(GetAll().titlesBefore, "Dr.")
  {
    var t := GetAll().titlesBefore;
    assert t[2].code == "Ing." && t[1].code == "Mgr." && t[11].code == "Dr.";
  }

  /** All 16 titles after the name are listed, PhD., MBA and CSc. among them. */
  lemma TitlesAfterListed()
    ensures |GetAll().titlesAfter| == 16
    ensures HasCode(GetAll().titlesAfter, "PhD.") && HasCode(GetAll().titlesAfter, "MBA")
      && HasCode(GetAll().titlesAfter, "CSc.")
  {
    var t := GetAll().titlesAfter;
    assert t[2].code == "PhD." && t[9].code == "MBA" && t[0].code == "CSc.";
  }
}
