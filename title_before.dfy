/** The closed list of academic titles written before a name (21 codes);
    the display text of each title is its code. */
module TitleBefore {
  import opened Wrappers
  import Vocabulary

  datatype TitleBefore =
    | Bc | Mgr | Ing | Judr | Mvdr | Mudr | Paeddr | Prof | Doc | Dipl | Mddr
    | Dr | MgrArt | Thlic | Phdr | Phmr | Rndr | Thdr | Rsdr | Arch | Pharmdr
  {
    /** The backing value of the case. */
    function Value(): string {
      match this
      case Bc => "Bc."
      case Mgr => "Mgr."
      case Ing => "Ing."
      case Judr => "JUDr."
      case Mvdr => "MVDr."
      case Mudr => "MUDr."
      case Paeddr => "PaedDr."
      case Prof => "prof."
      case Doc => "doc."
      case Dipl => "dipl."
      case Mddr => "MDDr."
      case Dr => "Dr."
      case MgrArt => "Mgr. art."
      case Thlic => "ThLic."
      case Phdr => "PhDr."
      case Phmr => "PhMr."
      case Rndr => "RNDr."
      case Thdr => "ThDr."
      case Rsdr => "RSDr."
      case Arch => "arch."
      case Pharmdr => "PharmDr."
    }

    /** getDisplayName: the entry getOptions() lists for this case's code. */
    function DisplayName(): (name: string)
      ensures Value() in GetOptions() && name == GetOptions()[Value()]
    {
      CaseListed(this);
      Value()
    }
  }

  /** cases(), in declaration order. */
  const Cases: seq<TitleBefore> :=
    [Bc, Mgr, Ing, Judr, Mvdr, Mudr, Paeddr, Prof, Doc, Dipl, Mddr,
     Dr, MgrArt, Thlic, Phdr, Phmr, Rndr, Thdr, Rsdr, Arch, Pharmdr]

  /** array_column(cases(), 'value'). */
  function Codes(): seq<string> {
    seq(|Cases|, i requires 0 <= i < |Cases| => Cases[i].Value())
  }

  /** isValid: strict in_array over the case values. */
  predicate IsValid(v: string) {
    v in Codes()
  }

  /** getOptions: every code mapped to itself. */
  function GetOptions(): map<string, string> {
    map c | c in Codes() :: c
  }

  /** toArray: one `{code, name}` entry per case, in declaration order. */
  function ToArray(): seq<Vocabulary.Entry> {
    seq(|Cases|, i requires 0 <= i < |Cases| => Vocabulary.Entry(Cases[i].Value(), Cases[i].Value()))
  }

  /** filterValid: the valid titles in their original order, duplicates
      kept, or null when none is valid. */
  method FilterValid(values: seq<string>) returns (r: Option<seq<string>>)
    ensures r.None? <==> forall i | 0 <= i < |values| :: !IsValid(values[i])
    ensures r.Some? ==> r.value == Vocabulary.Keep(values, Codes())
    ensures r.Some? ==> forall t | t in r.value :: IsValid(t)
  {
    r := Vocabulary.FilterValid(values, Codes());
    Vocabulary.FilterNoneIff(values, Codes());
  }

  lemma CaseListed(t: TitleBefore)
    ensures t in Cases && t.Value() in Codes()
  {
    var i := match t
      case Bc => 0
      case Mgr => 1
      case Ing => 2
      case Judr => 3
      case Mvdr => 4
      case Mudr => 5
      case Paeddr => 6
      case Prof => 7
      case Doc => 8
      case Dipl => 9
      case Mddr => 10
      case Dr => 11
      case MgrArt => 12
      case Thlic => 13
      case Phdr => 14
      case Phmr => 15
      case Rndr => 16
      case Thdr => 17
      case Rsdr => 18
      case Arch => 19
      case Pharmdr => 20;
    assert Cases[i] == t;
    assert Codes()[i] == t.Value();
  }

  /** A string is valid exactly when it is, case-sensitively, the value of
      one of the declared cases. */
  lemma IsValidIff(v: string)
    ensures IsValid(v) <==> exists t: TitleBefore :: t.Value() == v
  {
    if IsValid(v) {
      var i :| 0 <= i < |Codes()| && Codes()[i] == v;
      assert Cases[i].Value() == v;
    }
    if exists t: TitleBefore :: t.Value() == v {
      var t: TitleBefore :| t.Value() == v;
      CaseListed(t);
    }
  }

  /** Distinct cases have distinct values. */
  lemma ValueInjective(a: TitleBefore, b: TitleBefore)
    requires a.Value() == b.Value()
    ensures a == b
  {
  }

  /** toArray lists all 21 cases, each exactly once, in declaration order,
      with the name equal to the code. */
  lemma ToArrayShape()
    ensures |ToArray()| == 21
    ensures forall i | 0 <= i < 21 :: ToArray()[i].code == Codes()[i] && ToArray()[i].name == ToArray()[i].code
    ensures forall i, j | 0 <= i < j < 21 :: ToArray()[i].code != ToArray()[j].code
  {
    forall i, j | 0 <= i < j < 21 ensures ToArray()[i].code != ToArray()[j].code {
      if Cases[i].Value() == Cases[j].Value() {
        ValueInjective(Cases[i], Cases[j]);
      }
    }
  }

  /** getOptions is the identity map on exactly the declared codes. */
  lemma OptionsIdentity()
    ensures forall v :: v in GetOptions() <==> IsValid(v)
    ensures forall v | v in GetOptions() :: GetOptions()[v] == v
  {
  }
}
