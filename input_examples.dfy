/** The worked CSV example, proved step by step. */
module InputExamples {
  import opened Wrappers
  import opened JsString
  import opened Input

  lemma SplitThree(a: string, b: string, c: string)
    requires ',' !in a && ',' !in b && ',' !in c
    ensures Split(a + "," + b + "," + c, ',') == [a, b, c]
  {
    SplitAtSep(a, ',', b + "," + c);
    SplitAtSep(b, ',', c);
    SplitNoSep(c, ',');
    assert a + "," + b + "," + c == a + [','] + (b + [','] + c);
  }

  lemma CsvCodesThree(a: string, b: string, c: string, col: nat)
    ensures CsvCodes([a, b, c], col) == FieldCodes(a, col) + FieldCodes(b, col) + FieldCodes(c, col)
  {
    assert [a, b, c][..2] == [a, b];
    assert [a, b][..1] == [a];
    assert [a][..0] == [];
    assert CsvCodes([a], col) == FieldCodes(a, col);
    assert CsvCodes([a, b], col) == FieldCodes(a, col) + FieldCodes(b, col);
  }

  lemma FieldOfThree(a: string, b: string, c: string)
    requires ',' !in a && ',' !in b && ',' !in c && IsTrimmed(b)
    ensures FieldCodes(a + "," + b + "," + c, 1) == if b == [] then [] else [b]
  {
    SplitThree(a, b, c);
    TrimOfTrimmed(b);
  }

  lemma HeaderSplit(line: string, id: string, code: string, note: string)
    requires line == "id,code,note" && id == "id" && code == "code" && note == "note"
    ensures Split(line, ',') == [id, code, note]
  {
    assert line == id + "," + code + "," + note;
    SplitThree(id, code, note);
  }

  /** A word of lower-case ASCII letters is its own trimmed, lower-cased form. */
  lemma LowercaseWord(w: string)
    requires forall i :: 0 <= i < |w| ==> 'a' <= w[i] <= 'z'
    ensures ToLower(Trim(w)) == w
  {
    TrimOfTrimmed(w);
  }

  lemma HeaderNamesExample(line: string, id: string, code: string, note: string)
    requires line == "id,code,note" && id == "id" && code == "code" && note == "note"
    ensures HeaderNames(line) == [id, code, note]
  {
    HeaderSplit(line, id, code, note);
    LowercaseWord(id);
    LowercaseWord(code);
    LowercaseWord(note);
  }

  lemma FindCodeExample(h: seq<string>, needle: string)
    requires h == ["id", "code", "note"] && needle == "code"
    ensures FindIndexContaining(h, needle) == Some(1)
  {
    assert !Contains(h[0], needle);
    assert OccursAt(h[1], needle, 0);
    assert h[1..][1..] == [h[2]];
  }

  lemma HeaderExample(line: string)
    requires line == "id,code,note"
    ensures CodeColumn(line) == 1
  {
    HeaderNamesExample(line, "id", "code", "note");
    FindCodeExample(HeaderNames(line), "code");
  }

  lemma FirstRowExample(r: string)
    requires r == "1,ABC,x"
    ensures FieldCodes(r, 1) == ["ABC"]
  {
    assert r == "1" + "," + "ABC" + "," + "x";
    FieldOfThree("1", "ABC", "x");
  }

  lemma SecondRowExample(r: string)
    requires r == "2,,y"
    ensures FieldCodes(r, 1) == []
  {
    assert r == "2" + "," + "" + "," + "y";
    FieldOfThree("2", "", "y");
  }

  lemma ThirdRowExample(r: string)
    requires r == "3,XYZ,z"
    ensures FieldCodes(r, 1) == ["XYZ"]
  {
    assert r == "3" + "," + "XYZ" + "," + "z";
    FieldOfThree("3", "XYZ", "z");
  }

  lemma RowsExample(r1: string, r2: string, r3: string)
    requires r1 == "1,ABC,x" && r2 == "2,,y" && r3 == "3,XYZ,z"
    ensures CsvCodes([r1, r2, r3], 1) == ["ABC", "XYZ"]
  {
    FirstRowExample(r1);
    SecondRowExample(r2);
    ThirdRowExample(r3);
    CsvCodesThree(r1, r2, r3, 1);
  }

  /** The CSV example: header `id,code,note`, rows `1,ABC,x`, `2,,y`, `3,XYZ,z`. */
  lemma CsvExample(lines: seq<string>)
    requires lines == ["id,code,note", "1,ABC,x", "2,,y", "3,XYZ,z"]
    ensures CsvResult(lines) == Ok(["ABC", "XYZ"])
  {
    HeaderExample(lines[0]);
    RowsExample(lines[1], lines[2], lines[3]);
    assert lines[1..] == [lines[1], lines[2], lines[3]];
  }
}
