/** What the four closed code lists (gender, marital status, titles before
    and after the name) have in common: a `{code, name}` listing and, for
    the two title lists, filterValid, which keeps the valid codes of a list
    in their original order. */
module Vocabulary {
  import opened Wrappers

  /** One `{code, name}` element of an enum's toArray(). */
  datatype Entry = Entry(code: string, name: string)

  /** a is a subsequence of b: a can be obtained from b by deleting
      elements, without reordering. */
  ghost predicate IsSubsequence(a: seq<string>, b: seq<string>)
    decreases |b|
  {
    if a == [] then true
    else if b == [] then false
    else (a[0] == b[0] && IsSubsequence(a[1..], b[1..])) || IsSubsequence(a, b[1..])
  }

  /** The elements of values that belong to codes, in their original order,
      duplicates kept. */
  function Keep(values: seq<string>, codes: seq<string>): (r: seq<string>)
    ensures |r| <= |values|
    ensures forall t | t in r :: t in codes
  {
    if values == [] then []
    else (if values[0] in codes then [values[0]] else []) + Keep(values[1..], codes)
  }

  lemma {:induction false} KeepAppend(a: seq<string>, b: seq<string>, codes: seq<string>)
    ensures Keep(a + b, codes) == Keep(a, codes) + Keep(b, codes)
  {
    if a != [] {
      assert (a + b)[1..] == a[1..] + b;
      KeepAppend(a[1..], b, codes);
    } else {
      assert a + b == b;
    }
  }

  /** Keep preserves order: its result is a subsequence of its input. */
  lemma {:induction false} KeepIsSubsequence(values: seq<string>, codes: seq<string>)
    ensures IsSubsequence(Keep(values, codes), values)
  {
    if values != [] {
      KeepIsSubsequence(values[1..], codes);
      var rest := Keep(values[1..], codes);
      if values[0] in codes {
        assert Keep(values, codes) == [values[0]] + rest;
        assert ([values[0]] + rest)[1..] == rest;
      } else {
        assert Keep(values, codes) == rest;
      }
    }
  }

  /** Keep drops nothing valid and keeps nothing invalid: every valid value
      occurs in the result exactly as often as in the input, every invalid
      value not at all. */
  lemma {:induction false} KeepCounts(values: seq<string>, codes: seq<string>, t: string)
    ensures multiset(Keep(values, codes))[t] == if t in codes then multiset(values)[t] else 0
  {
    if values != [] {
      KeepCounts(values[1..], codes, t);
      assert values == [values[0]] + values[1..];
      assert multiset(values) == multiset([values[0]]) + multiset(values[1..]);
    }
  }

  /** Keep returns nothing exactly when no value is valid. */
  lemma {:induction false} KeepEmptyIff(values: seq<string>, codes: seq<string>)
    ensures Keep(values, codes) == [] <==> forall i | 0 <= i < |values| :: values[i] !in codes
  {
    if values != [] {
      KeepEmptyIff(values[1..], codes);
      assert forall i | 1 <= i < |values| :: values[i] == values[1..][i - 1];
    }
  }

  /** A list of valid codes is kept unchanged. */
  lemma {:induction false} KeepAllValid(values: seq<string>, codes: seq<string>)
    requires forall t | t in values :: t in codes
    ensures Keep(values, codes) == values
  {
    if values != [] {
      assert values[0] in values;
      KeepAllValid(values[1..], codes);
      assert values == [values[0]] + values[1..];
    }
  }

  /** filterValid: the valid values in order, or null (None) when there are
      none, the empty list included. */
  function Filter(values: seq<string>, codes: seq<string>): (r: Option<seq<string>>)
    ensures r.Some? ==> r.value != [] && r.value == Keep(values, codes)
  {
    var kept := Keep(values, codes);
    if kept == [] then None else Some(kept)
  }

  /** filterValid returns null exactly when no element is valid. */
  lemma FilterNoneIff(values: seq<string>, codes: seq<string>)
    ensures Filter(values, codes).None? <==> forall i | 0 <= i < |values| :: values[i] !in codes
  {
    KeepEmptyIff(values, codes);
  }

  /** filterValid is idempotent on its non-null results. */
  lemma FilterIdempotent(values: seq<string>, codes: seq<string>)
    requires Filter(values, codes).Some?
    ensures Filter(Filter(values, codes).value, codes) == Filter(values, codes)
  {
    KeepAllValid(Keep(values, codes), codes);
  }

  /** One more value extends the kept prefix by that value when it is
      valid, and by nothing otherwise. */
  lemma KeepStep(values: seq<string>, codes: seq<string>, i: nat)
    requires i < |values|
    ensures Keep(values[..i + 1], codes)
      == Keep(values[..i], codes) + (if values[i] in codes then [values[i]] else [])
  {
    var x := values[i];
    calc {
      Keep(values[..i + 1], codes);
      { assert values[..i + 1] == values[..i] + [x]; }
      Keep(values[..i] + [x], codes);
      { KeepAppend(values[..i], [x], codes); }
      Keep(values[..i], codes) + Keep([x], codes);
      { assert [x][1..] == []; }
      Keep(values[..i], codes) + (if x in codes then [x] else []);
    }
  }

  /** The foreach loop of filterValid, appending each valid value. */
  method FilterValid(values: seq<string>, codes: seq<string>) returns (r: Option<seq<string>>)
    ensures r == Filter(values, codes)
  {
    var valid: seq<string> := [];
    for i := 0 to |values|
      invariant valid == Keep(values[..i], codes)
    {
      KeepStep(values, codes, i);
      if values[i] in codes {
        valid := valid + [values[i]];
      }
    }
    assert values[..|values|] == values;
    r := if valid == [] then None else Some(valid);
  }
}
