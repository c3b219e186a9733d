/** The two gender codes and their Slovak display names. */
module Gender {
  import Vocabulary

  datatype Gender = Male | Female {
    /** The backing value of the case. */
    function Value(): string {
      match this
      case Male => "m"
      case Female => "f"
    }

    /** getDisplayName: getOptions() looked up at the case's own value. */
    function DisplayName(): (name: string)
      ensures Value() in GetOptions() && name == GetOptions()[Value()]
      ensures name == (if this == Male then "muž" else "žena")
    {
      GetOptions()[Value()]
    }
  }

  /** cases(), in declaration order. */
  const Cases: seq<Gender> := [Male, Female]

  /** array_column(cases(), 'value'). */
  function Codes(): seq<string> {
    seq(|Cases|, i requires 0 <= i < |Cases| => Cases[i].Value())
  }

  /** isValid: strict in_array over the case values. */
  predicate IsValid(v: string) {
    v in Codes()
  }

  /** getOptions: code to display name. */
  function GetOptions(): map<string, string> {
    map["m" := "muž", "f" := "žena"]
  }

  /** toArray: `{code, name}` per case, the name taken from getOptions(). */
  function ToArray(): seq<Vocabulary.Entry> {
    seq(|Cases|, i requires 0 <= i < |Cases| => Vocabulary.Entry(Cases[i].Value(), GetOptions()[Cases[i].Value()]))
  }

  /** Exactly "m" and "f" are valid; the check is case-sensitive and the
      empty string is not a code. */
  lemma IsValidIff(v: string)
    ensures IsValid(v) <==> v == "m" || v == "f"
    ensures !IsValid("invalid") && !IsValid("") && !IsValid("M")
  {
    assert Codes() == ["m", "f"];
  }

  /** getOptions maps m to "muž" and f to "žena", and nothing else. */
  lemma OptionsTable()
    ensures GetOptions().Keys == {"m", "f"}
    ensures GetOptions()["m"] == "muž" && GetOptions()["f"] == "žena"
    ensures forall v :: v in GetOptions() <==> IsValid(v)
  {
    IsValidIffAll();
  }

  lemma IsValidIffAll()
    ensures forall v :: IsValid(v) <==> v == "m" || v == "f"
  {
    forall v ensures IsValid(v) <==> v == "m" || v == "f" {
      IsValidIff(v);
    }
  }

  /** toArray has two entries, m then f, each named by getOptions(). */
  lemma ToArrayShape()
    ensures ToArray() == [Vocabulary.Entry("m", "muž"), Vocabulary.Entry("f", "žena")]
    ensures forall i | 0 <= i < |ToArray()| :: ToArray()[i].name == GetOptions()[ToArray()[i].code]
  {
  }
}
