/** The closed list of academic titles written after a name (16 codes);
    the display text of each title is its code. */
module TitleAfter {
  import opened Wrappers
  import Vocabulary

  datatype TitleAfter =
    | Csc | Drsc | Phd | Artd | Dis | DisArt | Febo | Mph
    | Bsba | Mba | Dba | Mha | Fcca | Msc | Febu | Llm
  {
    /** The backing value of the case. */
    function Value(): string {
      match this
      case Csc => "CSc."
      case Drsc => "DrSc."
      case Phd => "PhD."
      case Artd => "ArtD."
      case Dis => "DiS"
      case DisArt => "DiS.art"
      case Febo => "FEBO"
      case Mph => "MPH"
      case Bsba => "BSBA"
      case Mba => "MBA"
      case Dba => "DBA"
      case Mha => "MHA"
      case Fcca => "FCCA"
      case Msc => "MSc."
      case Febu => "FEBU"
      case Llm => "LL.M"
    }

    /** getDisplayName: the entry getOptions() lists for this case's code. */
    function DisplayName(): (name: string)
      ensures Value() in GetOptions() && name == GetOptions()[Value()]
    {
      CaseListed(this);
      Value()
    }
  }

  /** cases(), in declaration order. */
  const Cases: seq<TitleAfter> :=
    [Csc, Drsc, Phd, Artd, Dis, DisArt, Febo, Mph,
     Bsba, Mba, Dba, Mha, Fcca, Msc, Febu, Llm]

  /** array_column(cases(), 'value'). */
  function Codes(): seq<string> {
    seq(|Cases|, i requires 0 <= i < |Cases| => Cases[i].Value())
  }

  /** isValid: strict in_array over the case values. */
  predicate IsValid(v: string) {
    v in Codes()
  }

  /** getOptions: every code mapped to itself. */
  function GetOptions(): map<string, string> {
    map c | c in Codes() :: c
  }

  /** toArray: one `{code, name}` entry per case, in declaration order. */
  function ToArray(): seq<Vocabulary.Entry> {
    seq(|Cases|, i requires 0 <= i < |Cases| => Vocabulary.Entry(Cases[i].Value(), Cases[i].Value()))
  }

  /** filterValid: the valid titles in their original order, duplicates
      kept, or null when none is valid. */
  method FilterValid(values: seq<string>) returns (r: Option<seq<string>>)
    ensures r.None? <==> forall i | 0 <= i < |values| :: !IsValid(values[i])
    ensures r.Some? ==> r.value == Vocabulary.Keep(values, Codes())
    ensures r.Some? ==> forall t | t in r.value :: IsValid(t)
  {
    r := Vocabulary.FilterValid(values, Codes());
    Vocabulary.FilterNoneIff(values, Codes());
  }

  lemma CaseListed(t: TitleAfter)
    ensures t in Cases && t.Value() in Codes()
  {
    var i := match t
      case Csc => 0
      case Drsc => 1
      case Phd => 2
      case Artd => 3
      case Dis => 4
      case DisArt => 5
      case Febo => 6
      case Mph => 7
      case Bsba => 8
      case Mba => 9
      case Dba => 10
      case Mha => 11
      case Fcca => 12
      case Msc => 13
      case Febu => 14
      case Llm => 15;
    assert Cases[i] == t;
    assert Codes()[i] == t.Value();
  }

  /** A string is valid exactly when it is, case-sensitively, the value of
      one of the declared cases. */
  lemma IsValidIff(v: string)
    ensures IsValid(v) <==> exists t: TitleAfter :: t.Value() == v
  {
    if IsValid(v) {
      var i :| 0 <= i < |Codes()| && Codes()[i] == v;
      assert Cases[i].Value() == v;
    }
    if exists t: TitleAfter :: t.Value() == v {
      var t: TitleAfter :| t.Value() == v;
      CaseListed(t);
    }
  }

  /** Distinct cases have distinct values. */
  lemma ValueInjective(a: TitleAfter, b: TitleAfter)
    requires a.Value() == b.Value()
    ensures a == b
  {
  }

  /** toArray lists all 16 cases, each exactly once, in declaration order,
      with the name equal to the code. */
  lemma ToArrayShape()
    ensures |ToArray()| == 16
    ensures forall i | 0 <= i < 16 :: ToArray()[i].code == Codes()[i] && ToArray()[i].name == ToArray()[i].code
    ensures forall i, j | 0 <= i < j < 16 :: ToArray()[i].code != ToArray()[j].code
  {
    forall i, j | 0 <= i < j < 16 ensures ToArray()[i].code != ToArray()[j].code {
      if Cases[i].Value() == Cases[j].Value() {
        ValueInjective(Cases[i], Cases[j]);
      }
    }
  }

  /** getOptions is the identity map on exactly the declared codes. */
  lemma OptionsIdentity()
    ensures forall v :: v in GetOptions() <==> IsValid(v)
    ensures forall v | v in GetOptions() :: GetOptions()[v] == v
  {
  }
}
