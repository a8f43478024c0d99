/**
 * The input normaliser: the code list typed into the text area
 * (`getCodesFromInput`) and the content of an uploaded file
 * (`parseFileContent`, `parseCSV`).
 */
module Input {
  import opened Wrappers
  import opened JsString

  datatype InputError =
    | EmptyText      // the text area holds only whitespace
    | NoValidCodes   // no line is left after trimming (never raised, see GetCodesFromInput)
    | MissingHeader  // a `.csv` file with no non-blank line: `lines[0]` is undefined

  /** `lines.map(line => line.trim()).filter(line => line)`. */
  function NonEmptyTrimmed(lines: seq<string>): (r: seq<string>)
    ensures |r| <= |lines|
    ensures forall i :: 0 <= i < |r| ==> r[i] != [] && IsTrimmed(r[i])
  {
    if lines == [] then []
    else
      var t := Trim(lines[0]);
      (if t == [] then [] else [t]) + NonEmptyTrimmed(lines[1..])
  }

  /** Nothing survives exactly when every line is blank. */
  lemma {:induction false} NonEmptyTrimmedEmptyIff(lines: seq<string>)
    ensures NonEmptyTrimmed(lines) == [] <==> forall i :: 0 <= i < |lines| ==> Trim(lines[i]) == []
    decreases |lines|
  {
    if lines != [] {
      NonEmptyTrimmedEmptyIff(lines[1..]);
      assert forall i :: 1 <= i < |lines| ==> lines[i] == lines[1..][i - 1];
    }
  }

  lemma {:induction false} NonEmptyTrimmedAppend(a: seq<string>, b: seq<string>)
    ensures NonEmptyTrimmed(a + b) == NonEmptyTrimmed(a) + NonEmptyTrimmed(b)
    decreases |a|
  {
    if a == [] {
      assert a + b == b;
    } else {
      assert (a + b)[0] == a[0];
      assert (a + b)[1..] == a[1..] + b;
      NonEmptyTrimmedAppend(a[1..], b);
    }
  }

  /** The trimmed, non-empty lines of `text`, in order. */
  function TrimmedLines(text: string): seq<string> {
    NonEmptyTrimmed(Split(text, '\n'))
  }

  /** Only what the lines trim to matters. */
  lemma {:induction false} NonEmptyTrimmedSameTrims(p: seq<string>, q: seq<string>)
    requires |p| == |q|
    requires forall i :: 0 <= i < |p| ==> Trim(p[i]) == Trim(q[i])
    ensures NonEmptyTrimmed(p) == NonEmptyTrimmed(q)
    decreases |p|
  {
    if p != [] {
      assert forall i :: 1 <= i < |p| ==> p[i] == p[1..][i - 1] && q[i] == q[1..][i - 1];
      NonEmptyTrimmedSameTrims(p[1..], q[1..]);
    }
  }

  lemma TrimmedLinesCons(c: char, s: string)
    requires IsWhitespace(c)
    ensures TrimmedLines([c] + s) == TrimmedLines(s)
  {
    SplitCons(c, s, '\n');
    var p := Split(s, '\n');
    if c == '\n' {
      assert ([[]] + p)[1..] == p;
    } else {
      var q := [[c] + p[0]] + p[1..];
      TrimCons(c, p[0]);
      forall i | 0 <= i < |p| ensures Trim(p[i]) == Trim(q[i]) {
        if i > 0 { assert q[i] == p[i]; }
      }
      NonEmptyTrimmedSameTrims(p, q);
    }
  }

  lemma TrimmedLinesSnoc(s: string, c: char)
    requires IsWhitespace(c)
    ensures TrimmedLines(s + [c]) == TrimmedLines(s)
  {
    var p := Split(s, '\n');
    if c == '\n' {
      SplitSnocSep(s, '\n');
      NonEmptyTrimmedAppend(p, [[]]);
    } else {
      SplitSnocOther(s, c, '\n');
      var q := Split(s + [c], '\n');
      var n := |p|;
      TrimSnoc(p[n - 1], c);
      forall i | 0 <= i < n ensures Trim(p[i]) == Trim(q[i]) {
        if i < n - 1 { assert q[i] == q[..n - 1][i] == p[..n - 1][i] == p[i]; }
      }
      NonEmptyTrimmedSameTrims(p, q);
    }
  }

  lemma {:induction false} TrimmedLinesTrimStart(s: string)
    ensures TrimmedLines(TrimStart(s)) == TrimmedLines(s)
    decreases |s|
  {
    if s != [] && IsWhitespace(s[0]) {
      TrimmedLinesTrimStart(s[1..]);
      TrimmedLinesCons(s[0], s[1..]);
      assert [s[0]] + s[1..] == s;
    }
  }

  lemma {:induction false} TrimmedLinesTrimEnd(s: string)
    ensures TrimmedLines(TrimEnd(s)) == TrimmedLines(s)
    decreases |s|
  {
    if s != [] && IsWhitespace(s[|s| - 1]) {
      TrimmedLinesTrimEnd(s[..|s| - 1]);
      TrimmedLinesSnoc(s[..|s| - 1], s[|s| - 1]);
      assert s[..|s| - 1] + [s[|s| - 1]] == s;
    }
  }

  /** Trimming the whole text first does not change which lines survive. */
  lemma TrimmedLinesTrim(s: string)
    ensures TrimmedLines(Trim(s)) == TrimmedLines(s)
  {
    TrimmedLinesTrimStart(s);
    TrimmedLinesTrimEnd(TrimStart(s));
  }

  /** A text that is not blank has at least one non-blank line. */
  lemma TrimmedLinesOfTrimmed(t: string)
    requires t != [] && IsTrimmed(t)
    ensures |TrimmedLines(t)| > 0
  {
    var p := Split(t, '\n');
    assert t == [t[0]] + t[1..];
    SplitCons(t[0], t[1..], '\n');
    assert p[0] == [t[0]] + Split(t[1..], '\n')[0];
    assert p[0][0] == t[0];
    TrimEmptyIff(p[0]);
    NonEmptyTrimmedEmptyIff(p);
  }

  /**
   * `getCodesFromInput`: an error when the text is blank, otherwise the
   * trimmed non-blank lines of the text, of which there is at least one.
   */
  function GetCodesFromInput(text: string): (r: Result<seq<string>, InputError>)
    ensures r.Err? <==> AllWhitespace(text)
    ensures r.Err? ==> r.error == EmptyText
    ensures r.Ok? ==> r.value == TrimmedLines(text) && |r.value| > 0
    ensures r.Ok? ==> forall i :: 0 <= i < |r.value| ==> r.value[i] != [] && IsTrimmed(r.value[i])
  {
    var t := Trim(text);
    TrimEmptyIff(text);
    if t == [] then Err(EmptyText)
    else
      TrimmedLinesTrim(text);
      TrimmedLinesOfTrimmed(t);
      var codes := TrimmedLines(t);
      if |codes| == 0 then Err(NoValidCodes) else Ok(codes)
  }

  /** The header names of a CSV header line: split on commas, trimmed, lower-cased. */
  function HeaderNames(line: string): seq<string> {
    LowerTrimmed(Split(line, ','))
  }

  /** `parts.map(h => h.trim().toLowerCase())`. */
  function LowerTrimmed(parts: seq<string>): (r: seq<string>)
    ensures |r| == |parts|
    ensures forall i :: 0 <= i < |parts| ==> r[i] == ToLower(Trim(parts[i]))
  {
    if parts == [] then [] else [ToLower(Trim(parts[0]))] + LowerTrimmed(parts[1..])
  }

  /** `headers.findIndex(h => h.includes(needle))`. */
  function FindIndexContaining(headers: seq<string>, needle: string): (r: Option<nat>)
    ensures r.Some? ==> r.value < |headers| && Contains(headers[r.value], needle)
                        && forall j :: 0 <= j < r.value ==> !Contains(headers[j], needle)
    ensures r.None? ==> forall j :: 0 <= j < |headers| ==> !Contains(headers[j], needle)
  {
    if headers == [] then None
    else if Contains(headers[0], needle) then Some(0)
    else
      match FindIndexContaining(headers[1..], needle)
      case None => None
      case Some(k) => Some(k + 1)
  }

  /** The code column: the first header containing "code", or column 0 when there is none. */
  function CodeColumn(headerLine: string): (col: nat)
    ensures var h := HeaderNames(headerLine);
            (col < |h| && Contains(h[col], "code") && forall j :: 0 <= j < col ==> !Contains(h[j], "code"))
            || (col == 0 && forall j :: 0 <= j < |h| ==> !Contains(h[j], "code"))
  {
    match FindIndexContaining(HeaderNames(headerLine), "code")
    case Some(i) => i
    case None => 0
  }

  /** The trimmed field `col` of a data row, when the row has that column and it is not empty. */
  function RowField(row: string, col: nat): (r: Option<string>)
    ensures r.Some? ==> r.value != [] && IsTrimmed(r.value) && ',' !in r.value
  {
    var cols := Split(row, ',');
    if col < |cols| && Trim(cols[col]) != [] then
      TrimAddsNothing(cols[col], ',');
      Some(Trim(cols[col]))
    else None
  }

  /** The codes a CSV body yields: each row's code field when present and non-empty, in row order. */
  function CsvCodes(rows: seq<string>, col: nat): (r: seq<string>)
    ensures |r| <= |rows|
    ensures forall i :: 0 <= i < |r| ==> r[i] != [] && IsTrimmed(r[i]) && ',' !in r[i]
  {
    if rows == [] then []
    else CsvCodes(rows[..|rows| - 1], col) + FieldCodes(rows[|rows| - 1], col)
  }

  /** The codes one data row contributes: none or one. */
  function FieldCodes(row: string, col: nat): (r: seq<string>)
    ensures |r| <= 1
    ensures forall i :: 0 <= i < |r| ==> r[i] != [] && IsTrimmed(r[i]) && ',' !in r[i]
  {
    match RowField(row, col) case Some(x) => [x] case None => []
  }

  lemma CsvCodesSnoc(lines: seq<string>, i: nat, col: nat)
    requires 1 <= i < |lines|
    ensures CsvCodes(lines[1..i + 1], col) == CsvCodes(lines[1..i], col) + FieldCodes(lines[i], col)
    ensures var cols := Split(lines[i], ',');
            FieldCodes(lines[i], col) == if col < |cols| && Trim(cols[col]) != [] then [Trim(cols[col])] else []
  {
    assert lines[1..i + 1][..i - 1] == lines[1..i];
    assert lines[1..i + 1][i - 1] == lines[i];
  }

  /** A code comes out of the CSV body exactly when some data row has it as its code field. */
  lemma {:induction false} CsvCodesMembership(rows: seq<string>, col: nat, x: string)
    ensures x in CsvCodes(rows, col) <==> exists i :: 0 <= i < |rows| && RowField(rows[i], col) == Some(x)
    decreases |rows|
  {
    if rows != [] {
      var init := rows[..|rows| - 1];
      CsvCodesMembership(init, col, x);
      assert forall i :: 0 <= i < |init| ==> init[i] == rows[i];
      if RowField(rows[|rows| - 1], col) == Some(x) {
        assert x in FieldCodes(rows[|rows| - 1], col);
      }
    }
  }

  /** What `parseCSV` returns for the given (already trimmed, non-blank) lines. */
  function CsvResult(lines: seq<string>): Result<seq<string>, InputError> {
    if lines == [] then Err(MissingHeader) else Ok(CsvCodes(lines[1..], CodeColumn(lines[0])))
  }

  /** `parseCSV`: header row first, then one code per data row that has a non-empty code field. */
  method ParseCsv(lines: seq<string>) returns (r: Result<seq<string>, InputError>)
    ensures r == CsvResult(lines)
    ensures r.Err? <==> lines == []
  {
    if lines == [] {
      return Err(MissingHeader);
    }
    var headers := HeaderNames(lines[0]);
    var col := match FindIndexContaining(headers, "code") case Some(i) => i case None => 0;
    assert col == CodeColumn(lines[0]);
    var codes := [];
    for i := 1 to |lines|
      invariant codes == CsvCodes(lines[1..i], col)
    {
      var columns := Split(lines[i], ',');
      if col < |columns| && Trim(columns[col]) != [] {
        codes := codes + [Trim(columns[col])];
      }
      CsvCodesSnoc(lines, i, col);
    }
    assert lines[1..|lines|] == lines[1..];
    return Ok(codes);
  }

  /** What `parseFileContent` returns for a file's content and name. */
  function FileCodes(content: string, filename: string): Result<seq<string>, InputError> {
    var lines := TrimmedLines(content);
    if EndsWith(ToLower(filename), ".csv") then CsvResult(lines) else Ok(lines)
  }

  /** `parseFileContent`: trimmed non-blank lines, read as CSV when the name ends in `.csv`. */
  method ParseFileContent(content: string, filename: string) returns (r: Result<seq<string>, InputError>)
    ensures r == FileCodes(content, filename)
    ensures r.Ok? ==> forall i :: 0 <= i < |r.value| ==> r.value[i] != [] && IsTrimmed(r.value[i])
    ensures r.Err? <==> EndsWith(ToLower(filename), ".csv") && AllWhitespace(content)
  {
    var lines := TrimmedLines(content);
    if EndsWith(ToLower(filename), ".csv") {
      r := ParseCsv(lines);
      TrimmedEmptyIff(content);
    } else {
      r := Ok(lines);
    }
  }

  /** A text has no non-blank line exactly when it is blank. */
  lemma TrimmedEmptyIff(text: string)
    ensures TrimmedLines(text) == [] <==> AllWhitespace(text)
  {
    TrimEmptyIff(text);
    TrimmedLinesTrim(text);
    if !AllWhitespace(text) {
      TrimmedLinesOfTrimmed(Trim(text));
    } else {
      assert Trim(text) == [];
      assert Split([], '\n') == [[]];
    }
  }
}
