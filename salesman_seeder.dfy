/** The seeder's reading of a semicolon-separated file of salesmen: the
    file's lines (as file() returns them with empty lines skipped) become
    rows keyed by the header, with the title columns split into lists and
    empty optional columns turned into null. */
module SeederParsing {
  import opened Wrappers
  import opened PhpValues
  import Strings

  // ---------------------------------------------------------------------
  // parseTitles
  // ---------------------------------------------------------------------

  /** array_map('trim', …). */
  function TrimAll(xs: seq<string>): (r: seq<string>)
    ensures |r| == |xs| && forall i | 0 <= i < |xs| :: r[i] == Strings.Trim(xs[i])
  {
    seq(|xs|, i requires 0 <= i < |xs| => Strings.Trim(xs[i]))
  }

  /** array_filter(…, fn($t) => !empty($t)) followed by array_values. */
  function DropEmpty(xs: seq<string>): (r: seq<string>)
    ensures forall t :: t in r <==> t in xs && !Strings.PhpEmpty(t)
    ensures |r| <= |xs|
  {
    if xs == [] then []
    else
      var rest := DropEmpty(xs[1..]);
      assert forall t | t in xs :: t == xs[0] || t in xs[1..];
      if Strings.PhpEmpty(xs[0]) then rest else [xs[0]] + rest
  }

  /** The comma-separated pieces of a title column, trimmed. */
  function TitlePieces(s: string): seq<string> {
    TrimAll(Strings.Split(s, ','))
  }

  /** parseTitles: null for an empty() string; otherwise the trimmed
      pieces between commas that are not empty(), in order, or null when
      none is left. */
  function ParseTitles(s: string): (r: Option<seq<string>>)
    ensures Strings.PhpEmpty(s) ==> r.None?
    ensures r.Some? ==> r.value != []
    ensures r.Some? ==> forall t :: t in r.value <==> t in TitlePieces(s) && !Strings.PhpEmpty(t)
  {
    if Strings.PhpEmpty(s) then None
    else
      var titles := DropEmpty(TitlePieces(s));
      if titles == [] then None else Some(titles)
  }

  /** A title ParseTitles returns is trimmed, not empty() and holds no
      comma. */
  lemma ParsedTitlesClean(s: string)
    requires ParseTitles(s).Some?
    ensures forall t | t in ParseTitles(s).value ::
      && !Strings.PhpEmpty(t) && ',' !in t && Strings.Trim(t) == t
  {
    var parts := Strings.Split(s, ',');
    forall t | t in ParseTitles(s).value ensures ',' !in t && Strings.Trim(t) == t {
      var i :| 0 <= i < |parts| && TitlePieces(s)[i] == t;
      TrimNoNewChars(parts[i], ',');
      TrimIdempotent(parts[i]);
    }
  }

  /** Trimming removes characters only from the ends. */
  lemma TrimNoNewChars(s: string, c: char)
    requires c !in s
    ensures c !in Strings.Trim(s)
  {
    var i :| Strings.CutAt(s, Strings.Trim(s), i);
  }

  /** Trimming twice is trimming once. */
  lemma TrimIdempotent(s: string)
    ensures Strings.Trim(Strings.Trim(s)) == Strings.Trim(s)
  {
    var t := Strings.Trim(s);
    assert Strings.TrimLeft(t) == t;
    assert Strings.TrimRight(t) == t;
  }

  /** Splitting undoes joining with a separator that no part contains. */
  lemma {:induction false} SplitJoin(parts: seq<string>, c: char)
    requires |parts| >= 1
    requires forall i | 0 <= i < |parts| :: c !in parts[i]
    ensures Strings.Split(Strings.Join(parts, [c]), c) == parts
  {
    var s := Strings.Join(parts, [c]);
    if |parts| == 1 {
      assert s == parts[0];
      assert Strings.IndexOf(s, c) == |s|;
    } else {
      var p := parts[0];
      var rest := Strings.Join(parts[1..], [c]);
      assert s == p + [c] + rest;
      var k := Strings.IndexOf(s, c);
      assert s[|p|] == c;
      assert k == |p|;
      assert s[..k] == p;
      assert s[k + 1..] == rest;
      SplitJoin(parts[1..], c);
    }
  }

  /** DropEmpty keeps a list with no empty() element as it is. */
  lemma {:induction false} DropEmptyKeeps(xs: seq<string>)
    requires forall i | 0 <= i < |xs| :: !Strings.PhpEmpty(xs[i])
    ensures DropEmpty(xs) == xs
  {
    if xs != [] {
      DropEmptyKeeps(xs[1..]);
    }
  }

  /** Titles joined with commas are read back: parseTitles inverts implode
      for lists of trimmed, comma-free titles none of which is empty(). */
  lemma ParseTitlesJoin(ts: seq<string>)
    requires ts != []
    requires forall i | 0 <= i < |ts| :: !Strings.PhpEmpty(ts[i]) && ',' !in ts[i] && Strings.Trim(ts[i]) == ts[i]
    ensures ParseTitles(Strings.Join(ts, ",")) == Some(ts)
  {
    var s := Strings.Join(ts, ",");
    assert [','] == ",";
    SplitJoin(ts, ',');
    assert TitlePieces(s) == ts;
    DropEmptyKeeps(ts);
    JoinNotEmpty(ts);
  }

  /** Titles that are not empty() joined with commas are not empty(). */
  lemma JoinNotEmpty(ts: seq<string>)
    requires ts != [] && !Strings.PhpEmpty(ts[0])
    ensures !Strings.PhpEmpty(Strings.Join(ts, ","))
  {
    var s := Strings.Join(ts, ",");
    if |ts| == 1 {
      assert s == ts[0];
    } else {
      assert s == ts[0] + "," + Strings.Join(ts[1..], ",");
      assert |s| >= 2;
    }
  }

  /** empty() strings give null, and so does a column of separators and
      spaces only. */
  lemma ParseTitlesEmpty()
    ensures ParseTitles("") == None && ParseTitles("0") == None
    ensures ParseTitles(" , ") == None
  {
    var parts := Strings.Split(" , ", ',');
    assert Strings.IndexOf(" , ", ',') == 1;
    assert " , "[..1] == " " && " , "[2..] == " ";
    assert Strings.IndexOf(" ", ',') == 1;
    assert Strings.Split(" ", ',') == [" "];
    assert parts == [" ", " "];
    assert Strings.Trim(" ") == "" by {
      assert Strings.TrimLeft(" ") == "";
    }
    assert TitlePieces(" , ") == ["", ""];
  }

  // ---------------------------------------------------------------------
  // parseCsvFile
  // ---------------------------------------------------------------------

  /** A CSV row: column name to value. */
  type Row = map<string, Mixed>

  /** array_map('trim', explode(';', $line)). */
  function Fields(line: string): seq<string> {
    TrimAll(Strings.Split(line, ';'))
  }

  /** array_combine($header, $values): a later duplicate column name
      overwrites an earlier one. */
  function Combine(header: seq<string>, values: seq<string>): (row: Row)
    requires |header| == |values|
    ensures row.Keys == set j | 0 <= j < |header| :: header[j]
    decreases |header|
  {
    if header == [] then map[]
    else
      var n := |header| - 1;
      var prefix := Combine(header[..n], values[..n]);
      assert forall j | 0 <= j < n :: header[..n][j] == header[j];
      prefix[header[n] := Str(values[n])]
  }

  /** The column value of a CSV line is the last value given under that
      column name. */
  lemma {:induction false} CombineLast(header: seq<string>, values: seq<string>, j: nat)
    requires |header| == |values| && j < |header|
    requires forall k | j < k < |header| :: header[k] != header[j]
    ensures Combine(header, values)[header[j]] == Str(values[j])
    decreases |header|
  {
    var n := |header| - 1;
    if j < n {
      assert header[..n][j] == header[j];
      CombineLast(header[..n], values[..n], j);
    }
  }

  /** The list value of a titles column, or null. */
  function TitlesValue(titles: Option<seq<string>>): Mixed {
    if titles.Some? then StrList(titles.value) else Null
  }

  /** A column read as a string, '' when missing (`?? ''`). */
  function ColumnOrEmpty(row: Row, key: string): string {
    if key in row && row[key].Str? then row[key].s else ""
  }

  /** `empty($row[$key]) ? null : $row[$key]`. */
  function NullIfEmpty(row: Row, key: string): Mixed {
    if key !in row || (row[key].Str? && Strings.PhpEmpty(row[key].s)) || row[key].Null? then Null else row[key]
  }

  /** The title columns of a row replaced by their parsed lists. */
  function WithTitles(row: Row): Row {
    row["titles_before" := TitlesValue(ParseTitles(ColumnOrEmpty(row, "titles_before")))]
       ["titles_after" := TitlesValue(ParseTitles(ColumnOrEmpty(row, "titles_after")))]
  }

  /** The row one data line becomes. */
  function RowOf(header: seq<string>, values: seq<string>): Row
    requires |header| == |values|
  {
    var withTitles := WithTitles(Combine(header, values));
    var withPhone := withTitles["phone" := NullIfEmpty(withTitles, "phone")];
    withPhone["marital_status" := NullIfEmpty(withPhone, "marital_status")]
  }

  /** The rows of the data lines under the header, in line order. */
  function DataRows(header: seq<string>, lines: seq<string>): seq<Row>
    decreases |lines|
  {
    if lines == [] then []
    else
      var n := |lines| - 1;
      DataRows(header, lines[..n]) + LineRows(header, lines[n])
  }

  /** The row of one data line, or none when its field count is not the
      header's. */
  function LineRows(header: seq<string>, line: string): seq<Row> {
    var values := Fields(line);
    if |values| == |header| then [RowOf(header, values)] else []
  }

  /** parseCsvFile's result for the lines of the file. */
  function ParseCsv(lines: seq<string>): seq<Row> {
    if |lines| < 2 then [] else DataRows(Fields(lines[0]), lines[1..])
  }

  // ---------------------------------------------------------------------
  // Properties of the parse
  // ---------------------------------------------------------------------

  /** A file with fewer than two lines gives no rows; otherwise there is at
      most one row per data line. */
  lemma ParseCsvSize(lines: seq<string>)
    ensures |lines| < 2 ==> ParseCsv(lines) == []
    ensures |ParseCsv(lines)| <= if |lines| < 2 then 0 else |lines| - 1
  {
    if |lines| >= 2 {
      DataRowsSize(Fields(lines[0]), lines[1..]);
    }
  }

  lemma {:induction false} DataRowsSize(header: seq<string>, lines: seq<string>)
    ensures |DataRows(header, lines)| <= |lines|
    decreases |lines|
  {
    if lines != [] {
      DataRowsSize(header, lines[..|lines| - 1]);
    }
  }

  /** Lines are read in order and independently: the rows of two blocks
      of lines are the rows of the first block followed by those of the
      second. */
  lemma {:induction false} DataRowsAppend(header: seq<string>, a: seq<string>, b: seq<string>)
    ensures DataRows(header, a + b) == DataRows(header, a) + DataRows(header, b)
    decreases |b|
  {
    if b == [] {
      assert a + b == a;
    } else {
      var n := |b| - 1;
      var ab := a + b;
      assert ab[..|ab| - 1] == a + b[..n];
      assert ab[|ab| - 1] == b[n];
      DataRowsAppend(header, a, b[..n]);
      DataRowsLast(header, ab);
      DataRowsLast(header, b);
    }
  }

  lemma DataRowsLast(header: seq<string>, lines: seq<string>)
    requires lines != []
    ensures DataRows(header, lines)
      == DataRows(header, lines[..|lines| - 1]) + LineRows(header, lines[|lines| - 1])
  {
  }

  /** A single data line gives exactly one row when its field count is the
      header's, and none otherwise. */
  lemma DataRowsOne(header: seq<string>, line: string)
    ensures DataRows(header, [line]) ==
      if |Fields(line)| == |header| then [RowOf(header, Fields(line))] else []
  {
    assert [line][..0] == [];
  }

  /** In a row, every header column is a key, and so is each of the four
      rewritten columns. */
  lemma RowOfKeys(header: seq<string>, values: seq<string>)
    requires |header| == |values|
    ensures RowOf(header, values).Keys
      == (set k | 0 <= k < |header| :: header[k]) + {"titles_before", "titles_after", "phone", "marital_status"}
  {
  }

  /** A column whose name occurs once in the header, and is none of the
      four rewritten ones, holds its trimmed field. */
  lemma RowOfColumn(header: seq<string>, values: seq<string>, j: nat)
    requires |header| == |values| && j < |header|
    requires forall k | 0 <= k < |header| && k != j :: header[k] != header[j]
    requires header[j] !in {"titles_before", "titles_after", "phone", "marital_status"}
    ensures RowOf(header, values)[header[j]] == Str(values[j])
  {
    CombineLast(header, values, j);
  }

  /** The title columns hold their parsed lists, or null. */
  lemma RowOfTitles(header: seq<string>, values: seq<string>)
    requires |header| == |values|
    ensures RowOf(header, values)["titles_before"]
      == TitlesValue(ParseTitles(ColumnOrEmpty(Combine(header, values), "titles_before")))
    ensures RowOf(header, values)["titles_after"]
      == TitlesValue(ParseTitles(ColumnOrEmpty(Combine(header, values), "titles_after")))
  {
  }

  /** An empty() or missing phone becomes null, and any other phone is
      kept. */
  lemma RowOfPhone(header: seq<string>, values: seq<string>)
    requires |header| == |values|
    ensures RowOf(header, values)["phone"] == Null
      <==> Strings.PhpEmpty(ColumnOrEmpty(Combine(header, values), "phone"))
    ensures !Strings.PhpEmpty(ColumnOrEmpty(Combine(header, values), "phone"))
      ==> RowOf(header, values)["phone"] == Str(ColumnOrEmpty(Combine(header, values), "phone"))
  {
    var c := Combine(header, values);
    CombineStrings(header, values);
    var w := WithTitles(c);
    assert ("phone" in w) == ("phone" in c) && ("phone" in c ==> w["phone"] == c["phone"]);
  }

  /** An empty() or missing marital status becomes null, and any other
      marital status is kept. */
  lemma RowOfMaritalStatus(header: seq<string>, values: seq<string>)
    requires |header| == |values|
    ensures RowOf(header, values)["marital_status"] == Null
      <==> Strings.PhpEmpty(ColumnOrEmpty(Combine(header, values), "marital_status"))
    ensures !Strings.PhpEmpty(ColumnOrEmpty(Combine(header, values), "marital_status"))
      ==> RowOf(header, values)["marital_status"] == Str(ColumnOrEmpty(Combine(header, values), "marital_status"))
  {
    var c := Combine(header, values);
    CombineStrings(header, values);
    var w := WithTitles(c);
    assert ("marital_status" in w) == ("marital_status" in c)
      && ("marital_status" in c ==> w["marital_status"] == c["marital_status"]);
    var p := w["phone" := NullIfEmpty(w, "phone")];
    assert ("marital_status" in p) == ("marital_status" in c)
      && ("marital_status" in c ==> p["marital_status"] == c["marital_status"]);
  }

  /** Every value array_combine produces is a string. */
  lemma {:induction false} CombineStrings(header: seq<string>, values: seq<string>)
    requires |header| == |values|
    ensures forall k | k in Combine(header, values) :: Combine(header, values)[k].Str?
    decreases |header|
  {
    if header != [] {
      CombineStrings(header[..|header| - 1], values[..|header| - 1]);
    }
  }
}

/** The seeder's parseCsvFile, step by step over the file's lines, proved
    against the definitions of SeederParsing. */
module Seeder {
  import opened PhpValues
  import opened SeederParsing

  /** The body of parseCsvFile's loop for a line with as many fields as
      the header: array_combine, then the four columns rewritten in place. */
  method CombineRow(header: seq<string>, values: seq<string>) returns (row: Row)
    requires |header| == |values|
    ensures row == RowOf(header, values)
  {
    row := Combine(header, values);
    var titlesBefore := ColumnOrEmpty(row, "titles_before");
    var titlesAfter := ColumnOrEmpty(row, "titles_after");
    row := row["titles_before" := TitlesValue(ParseTitles(titlesBefore))];
    row := row["titles_after" := TitlesValue(ParseTitles(titlesAfter))];
    row := row["phone" := NullIfEmpty(row, "phone")];
    row := row["marital_status" := NullIfEmpty(row, "marital_status")];
  }

  /** One pass of parseCsvFile's loop over data line j: a line with as many
      fields as the header adds its row, any other line is skipped. */
  method ReadLine(header: seq<string>, body: seq<string>, j: nat, data: seq<Row>) returns (data': seq<Row>)
    requires j < |body|
    requires data == DataRows(header, body[..j])
    ensures data' == DataRows(header, body[..j + 1])
  {
    assert body[..j + 1][..j] == body[..j];
    data' := data;
    var values := Fields(body[j]);
    if |values| == |header| {
      var row := CombineRow(header, values);
      data' := data + [row];
    }
  }

  /** parseCsvFile: the header line, then one row per data line with as
      many fields as the header. */
  method ParseCsvFile(lines: seq<string>) returns (data: seq<Row>)
    ensures data == ParseCsv(lines)
  {
    if |lines| < 2 {
      return [];
    }
    var header := Fields(lines[0]);
    var body := lines[1..];
    data := [];
    var j := 0;
    assert body[..0] == [];
    while j < |body|
      invariant j <= |body|
      invariant data == DataRows(header, body[..j])
    {
      data := ReadLine(header, body, j, data);
      j := j + 1;
    }
    assert body[..j] == body;
  }
}
