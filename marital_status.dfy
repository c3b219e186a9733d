/** The four marital-status codes and their Slovak display names, which
    depend on the gender of the person described. */
module MaritalStatus {
  import Gender

  datatype MaritalStatus = Single | Married | Divorced | Widowed {
    /** The backing value of the case. */
    function Value(): string {
      match this
      case Single => "single"
      case Married => "married"
      case Divorced => "divorced"
      case Widowed => "widowed"
    }

    /** getDisplayName(gender): getOptions()[gender][value]. The gender is
        one of the GenderCode values, as the declared parameter type
        demands. */
    function DisplayName(gender: string): (name: string)
      requires Gender.IsValid(gender)
      ensures gender in GetOptions() && Value() in GetOptions()[gender]
      ensures name == GetOptions()[gender][Value()]
      ensures name == if gender == "m" then MaleName(this) else FemaleName(this)
    {
      Gender.IsValidIff(gender);
      GetOptions()[gender][Value()]
    }
  }

  function MaleName(s: MaritalStatus): string {
    match s
    case Single => "slobodný"
    case Married => "ženatý"
    case Divorced => "rozvedený"
    case Widowed => "vdovec"
  }

  function FemaleName(s: MaritalStatus): string {
    match s
    case Single => "slobodná"
    case Married => "vydatá"
    case Divorced => "rozvedená"
    case Widowed => "vdova"
  }

  /** cases(), in declaration order. */
  const Cases: seq<MaritalStatus> := [Single, Married, Divorced, Widowed]

  /** array_column(cases(), 'value'). */
  function Codes(): seq<string> {
    seq(|Cases|, i requires 0 <= i < |Cases| => Cases[i].Value())
  }

  /** isValid: strict in_array over the case values. */
  predicate IsValid(v: string) {
    v in Codes()
  }

  /** getOptions: gender code to (status code to name). */
  function GetOptions(): map<string, map<string, string>> {
    map[
      "m" := map["single" := "slobodný", "married" := "ženatý", "divorced" := "rozvedený", "widowed" := "vdovec"],
      "f" := map["single" := "slobodná", "married" := "vydatá", "divorced" := "rozvedená", "widowed" := "vdova"]
    ]
  }

  /** The gender-neutral names toArray() uses for `name.general`. */
  function GeneralNames(): map<string, string> {
    map["single" := "slobodný / slobodná", "married" := "ženatý / vydatá",
        "divorced" := "rozvedený / rozvedená", "widowed" := "vdovec / vdova"]
  }

  /** One element of toArray(): the code and its three names. */
  datatype Entry = Entry(code: string, general: string, m: string, f: string)

  /** toArray: one entry per case, in declaration order. */
  function ToArray(): seq<Entry> {
    seq(|Cases|, i requires 0 <= i < |Cases| =>
      var c := Cases[i].Value();
      Entry(c, GeneralNames()[c], GetOptions()["m"][c], GetOptions()["f"][c]))
  }

  /** Exactly the four declared codes are valid. */
  lemma IsValidIff(v: string)
    ensures IsValid(v) <==> v == "single" || v == "married" || v == "divorced" || v == "widowed"
  {
    assert Codes() == ["single", "married", "divorced", "widowed"];
  }

  /** getOptions is keyed by exactly the two gender codes, and each inner
      table names every marital-status code and nothing else. */
  lemma OptionsTable()
    ensures GetOptions().Keys == {"m", "f"}
    ensures forall g | g in GetOptions() :: forall v :: v in GetOptions()[g] <==> IsValid(v)
    ensures forall g | Gender.IsValid(g) :: g in GetOptions()
  {
    forall v ensures IsValid(v) <==> v == "single" || v == "married" || v == "divorced" || v == "widowed" {
      IsValidIff(v);
    }
    Gender.IsValidIffAll();
  }

  /** toArray has four entries in declaration order; each entry's gendered
      names are those getOptions gives for its code and the case's
      getDisplayName returns them. */
  lemma ToArrayShape()
    ensures |ToArray()| == 4 && Gender.IsValid("m") && Gender.IsValid("f")
    ensures forall i | 0 <= i < 4 :: ToArray()[i].code == Cases[i].Value()
    ensures forall i | 0 <= i < 4 ::
      && ToArray()[i].m == GetOptions()["m"][ToArray()[i].code] == Cases[i].DisplayName("m")
      && ToArray()[i].f == GetOptions()["f"][ToArray()[i].code] == Cases[i].DisplayName("f")
  {
    Gender.IsValidIff("m");
    Gender.IsValidIff("f");
  }
}
