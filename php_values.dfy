/** PHP's dynamically typed values as they reach the core: decoded JSON
    bodies, query parameters and CSV rows. An associative array with string
    keys is a map<string, Mixed>. */
module PhpValues {
  import opened Wrappers


  /** A PHP value of one of the types JSON decoding and CSV parsing produce.
      A PHP list is an Arr of its values in iteration order. */
  datatype Mixed =
    | Null
    | Bool(b: bool)
    | Int(i: int)
    | Dbl(r: real)
    | Str(s: string)
    | Arr(items: seq<Mixed>)

  /** PHP's gettype(). */
  function TypeName(v: Mixed): string {
    match v
    case Null => "NULL"
    case Bool(_) => "boolean"
    case Int(_) => "integer"
    case Dbl(_) => "double"
    case Str(_) => "string"
    case Arr(_) => "array"
  }

  /** `$data[$key]`: a missing key reads as null. */
  function Lookup(data: map<string, Mixed>, key: string): Mixed {
    if key in data then data[key] else Null
  }

  /** `isset($data[$key])`: present and not null. */
  predicate IsSet(data: map<string, Mixed>, key: string) {
    key in data && data[key] != Null
  }

  /** A list of strings as a PHP array value. */
  function StrList(xs: seq<string>): (v: Mixed)
    ensures v.Arr? && |v.items| == |xs|
    ensures forall i | 0 <= i < |xs| :: v.items[i] == Str(xs[i])
  {
    Arr(seq(|xs|, i requires 0 <= i < |xs| => Str(xs[i])))
  }

  /** The string elements of a list, in order (array_filter with is_string
      followed by array_values). */
  function StringItems(items: seq<Mixed>): (r: seq<string>)
    ensures |r| <= |items|
    ensures forall x | x in r :: Str(x) in items
    ensures forall i | 0 <= i < |items| && items[i].Str? :: items[i].s in r
  {
    if items == [] then []
    else
      var rest := StringItems(items[1..]);
      assert forall i | 1 <= i < |items| :: items[i] == items[1..][i - 1];
      (if items[0].Str? then [items[0].s] else []) + rest
  }

  /** array_filter visits the items in order: one more item adds its
      payload when it is a string, and nothing otherwise. */
  lemma {:induction false} StringItemsAppend(items: seq<Mixed>, v: Mixed)
    ensures StringItems(items + [v]) == StringItems(items) + (if v.Str? then [v.s] else [])
  {
    if items == [] {
      assert [v][1..] == [];
    } else {
      assert (items + [v])[1..] == items[1..] + [v];
      StringItemsAppend(items[1..], v);
    }
  }

  /** Non-string items are dropped, strings kept in their order. */
  lemma StringItemsExample()
    ensures StringItems([Int(1), Str("Ing."), Null, Arr([]), Str("Mgr.")]) == ["Ing.", "Mgr."]
  {
    var items := [Int(1), Str("Ing."), Null, Arr([]), Str("Mgr.")];
    assert items[1..][1..][1..][1..][1..] == [];
  }

  lemma {:induction false} StringsOfStrList(xs: seq<string>)
    ensures StringItems(StrList(xs).items) == xs
  {
    if xs != [] {
      assert StrList(xs).items[1..] == StrList(xs[1..]).items;
      StringsOfStrList(xs[1..]);
    }
  }

  // ---------------------------------------------------------------------
  // is_numeric and the (int) cast, as the controller applies them to
  // query parameters
  // ---------------------------------------------------------------------

  predicate IsDigit(c: char) {
    '0' <= c <= '9'
  }

  predicate AllDigits(s: string) {
    forall i | 0 <= i < |s| :: IsDigit(s[i])
  }

  /** The whitespace PHP allows around a numeric string. */
  predicate IsNumericSpace(c: char) {
    c == ' ' || c == '\t' || c == '\n' || c == '\r' || c == '\U{B}' || c == '\U{C}'
  }

  /** The leading whitespace run of s cut off. */
  function StripLeadingSpace(s: string): (r: string)
    ensures |r| <= |s|
  {
    if s != [] && IsNumericSpace(s[0]) then StripLeadingSpace(s[1..]) else s
  }

  /** The trailing whitespace run of s cut off. */
  function StripTrailingSpace(s: string): (r: string)
    ensures |r| <= |s|
  {
    if s != [] && IsNumericSpace(s[|s| - 1]) then StripTrailingSpace(s[..|s| - 1]) else s
  }

  /** Exactly the leading whitespace is cut: the result is a suffix of s,
      everything cut is whitespace, and the result does not start with
      whitespace. */
  lemma {:induction false} StripLeadingSpaceCuts(s: string)
    ensures var r := StripLeadingSpace(s);
      && r == s[|s| - |r|..]
      && (forall k | 0 <= k < |s| - |r| :: IsNumericSpace(s[k]))
      && (r != [] ==> !IsNumericSpace(r[0]))
  {
    if s != [] && IsNumericSpace(s[0]) {
      StripLeadingSpaceCuts(s[1..]);
      var r := StripLeadingSpace(s);
      assert forall k | 1 <= k < |s| - |r| :: s[k] == s[1..][k - 1];
    }
  }

  /** Exactly the trailing whitespace is cut: the result is a prefix of s,
      everything cut is whitespace, and the result does not end with
      whitespace. */
  lemma {:induction false} StripTrailingSpaceCuts(s: string)
    ensures var r := StripTrailingSpace(s);
      && r == s[..|r|]
      && (forall k | |r| <= k < |s| :: IsNumericSpace(s[k]))
      && (r != [] ==> !IsNumericSpace(r[|r| - 1]))
  {
    if s != [] && IsNumericSpace(s[|s| - 1]) {
      var t := s[..|s| - 1];
      StripTrailingSpaceCuts(t);
      var r := StripTrailingSpace(s);
      assert forall k | |r| <= k < |t| :: s[k] == t[k];
    }
  }

  /** Number of leading decimal digits of s. */
  function DigitPrefix(s: string): (k: nat)
    ensures k <= |s| && AllDigits(s[..k])
    ensures k < |s| ==> !IsDigit(s[k])
  {
    if s != [] && IsDigit(s[0]) then
      var k := 1 + DigitPrefix(s[1..]);
      assert s[..k] == [s[0]] + s[1..][..k - 1];
      k
    else 0
  }

  /** The value of a string of decimal digits. */
  function DigitsValue(s: string): nat
    requires AllDigits(s)
  {
    if s == [] then 0
    else DigitsValue(s[..|s| - 1]) * 10 + (s[|s| - 1] as int - '0' as int)
  }

  /** The decimal text of n, without leading zeros. */
  function NatToString(n: nat): (s: string)
    ensures s != [] && AllDigits(s)
  {
    var d := [(('0' as int) + n % 10) as char];
    if n < 10 then d else NatToString(n / 10) + d
  }

  lemma {:induction false} DigitsValueOfNatToString(n: nat)
    ensures DigitsValue(NatToString(n)) == n
  {
    var s := NatToString(n);
    if n >= 10 {
      DigitsValueOfNatToString(n / 10);
      assert s[..|s| - 1] == NatToString(n / 10);
    }
  }

  /** Some((int) s) when PHP's is_numeric(s) holds, None otherwise, for the
      decimal forms: optional surrounding whitespace, an optional sign, and
      digits with an optional fractional part. The cast truncates the
      fraction toward zero. */
  function NumericStringInt(s: string): Option<int> {
    var t := StripTrailingSpace(StripLeadingSpace(s));
    var negative := |t| > 0 && t[0] == '-';
    var body := if |t| > 0 && (t[0] == '+' || t[0] == '-') then t[1..] else t;
    var k := DigitPrefix(body);
    var whole: int := DigitsValue(body[..k]);
    var rest := body[k..];
    var value: int := if negative then -whole else whole;
    if rest == [] && k > 0 then Some(value)
    else if rest != [] && rest[0] == '.' && AllDigits(rest[1..]) && (k > 0 || |rest| > 1) then Some(value)
    else None
  }

  /** The decimal text of an integer is numeric and casts back to it. */
  lemma NumericStringIntRoundTrip(n: int)
    ensures n >= 0 ==> NumericStringInt(NatToString(n)) == Some(n)
    ensures n < 0 ==> NumericStringInt("-" + NatToString(-n)) == Some(n)
  {
    var m: nat := if n >= 0 then n else -n;
    var digits := NatToString(m);
    DigitsValueOfNatToString(m);
    DigitPrefixAllDigits(digits);
    var s := if n >= 0 then digits else "-" + digits;
    assert !IsNumericSpace(s[0]);
    assert StripLeadingSpace(s) == s;
    assert s[|s| - 1] == digits[|digits| - 1];
    assert StripTrailingSpace(s) == s;
    var body := if n >= 0 then digits else s[1..];
    assert body == digits;
    assert body[..|digits|] == digits;
  }

  /** is_numeric accepts whitespace around the digits, and the (int) cast
      ignores it. */
  lemma NumericStringIntSpaced(n: nat)
    ensures NumericStringInt(" \t" + NatToString(n) + "\n") == Some(n)
  {
    var digits := NatToString(n);
    SpacedDigitsStripped(digits);
    NumericStringIntRoundTrip(n);
    assert !IsNumericSpace(digits[0]) && !IsNumericSpace(digits[|digits| - 1]);
    assert StripTrailingSpace(StripLeadingSpace(digits)) == digits;
    SameStrippedSameInt(" \t" + digits + "\n", digits);
  }

  /** is_numeric and (int) look only at the text inside the whitespace. */
  lemma SameStrippedSameInt(s: string, s': string)
    requires StripTrailingSpace(StripLeadingSpace(s)) == StripTrailingSpace(StripLeadingSpace(s'))
    ensures NumericStringInt(s) == NumericStringInt(s')
  {
  }

  lemma SpacedDigitsStripped(digits: string)
    requires digits != [] && AllDigits(digits)
    ensures StripTrailingSpace(StripLeadingSpace(" \t" + digits + "\n")) == digits
  {
    var s := " \t" + digits + "\n";
    var u := digits + "\n";
    assert s[1..] == "\t" + u && s[1..][1..] == u;
    assert !IsNumericSpace(u[0]);
    assert StripLeadingSpace(u) == u;
    assert StripLeadingSpace(s[1..]) == u;
    assert StripLeadingSpace(s) == u;
    assert u[..|u| - 1] == digits;
    assert IsNumericSpace(u[|u| - 1]);
    assert StripTrailingSpace(u) == StripTrailingSpace(digits);
    assert !IsNumericSpace(digits[|digits| - 1]);
    assert StripTrailingSpace(digits) == digits;
  }

  lemma {:induction false} DigitPrefixAllDigits(s: string)
    requires AllDigits(s)
    ensures DigitPrefix(s) == |s|
  {
    if s != [] {
      DigitPrefixAllDigits(s[1..]);
    }
  }

  /** PHP's (int) cast of a float: truncation toward zero. */
  function TruncateReal(r: real): int {
    if r >= 0.0 then r.Floor else -((-r).Floor)
  }

  /** Some((int) v) when is_numeric(v) holds, None otherwise. */
  function NumericInt(v: Mixed): Option<int> {
    match v
    case Int(i) => Some(i)
    case Dbl(r) => Some(TruncateReal(r))
    case Str(s) => NumericStringInt(s)
    case _ => None
  }
}
