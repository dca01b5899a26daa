/** The writer, `arr_csv`: the grid is turned into text by writing every
    field followed by ',' and ending every row with '\n', so each line keeps
    a trailing comma and nothing is quoted or escaped. Opening and writing
    the output file are not modelled; the text built is the output. */
module Writer {
  import opened PyText

  const FieldEnd: char := ','
  const RowEnd: char := '\n'

  /** The text of one row before its line break: each field followed by a
      comma, so a row with at least one field ends with a comma. */
  function RowText(fields: seq<string>): (text: string)
    ensures fields != [] ==> |text| > 0 && text[|text| - 1] == FieldEnd
  {
    if fields == [] then "" else fields[0] + [FieldEnd] + RowText(fields[1..])
  }

  /** The whole text `arr_csv` writes: each row's text followed by '\n', so
      the output of a non-empty grid ends with a line break. */
  function CsvText(rows: seq<seq<string>>): (text: string)
    ensures rows != [] ==> |text| > 0 && text[|text| - 1] == RowEnd
  {
    if rows == [] then "" else RowText(rows[0]) + [RowEnd] + CsvText(rows[1..])
  }

  lemma {:induction false} RowTextAppend(fields: seq<string>, f: string)
    ensures RowText(fields + [f]) == RowText(fields) + f + [FieldEnd]
  {
    if fields == [] {
      assert [f][1..] == [];
    } else {
      assert (fields + [f])[1..] == fields[1..] + [f];
      RowTextAppend(fields[1..], f);
    }
  }

  lemma {:induction false} CsvTextAppend(rows: seq<seq<string>>, row: seq<string>)
    ensures CsvText(rows + [row]) == CsvText(rows) + RowText(row) + [RowEnd]
  {
    if rows == [] {
      assert [row][1..] == [];
    } else {
      assert (rows + [row])[1..] == rows[1..] + [row];
      CsvTextAppend(rows[1..], row);
    }
  }

  /** `arr_csv` without the file: the accumulator `text_to_write` grows by
      each field, a comma after it, and a line break after each row. */
  method Serialise(arr: seq<seq<string>>) returns (textToWrite: string)
    ensures textToWrite == CsvText(arr)
  {
    textToWrite := "";
    for z := 0 to |arr|
      invariant textToWrite == CsvText(arr[..z])
    {
      var row := arr[z];
      ghost var before := textToWrite;
      for g := 0 to |row|
        invariant textToWrite == before + RowText(row[..g])
      {
        textToWrite := textToWrite + row[g];
        textToWrite := textToWrite + [FieldEnd];
        assert textToWrite == before + RowText(row[..g + 1]) by {
          RowTextAppend(row[..g], row[g]);
          assert row[..g + 1] == row[..g] + [row[g]];
        }
      }
      textToWrite := textToWrite + [RowEnd];
      assert textToWrite == CsvText(arr[..z + 1]) by {
        assert row[..|row|] == row;
        CsvTextAppend(arr[..z], row);
        assert arr[..z + 1] == arr[..z] + [row];
      }
    }
    assert arr[..|arr|] == arr;
  }

  /** The text of a row is its fields and one empty field joined by commas:
      the join that the trailing comma comes from. */
  lemma {:induction false} RowTextIsJoin(fields: seq<string>)
    ensures RowText(fields) == Join(fields + [""], FieldEnd)
  {
    if fields != [] {
      RowTextIsJoin(fields[1..]);
      assert (fields + [""])[1..] == fields[1..] + [""];
    }
  }

  /** The text of each row, without its line break. */
  function Lines(rows: seq<seq<string>>): seq<string>
  {
    seq(|rows|, z requires 0 <= z < |rows| => RowText(rows[z]))
  }

  lemma {:induction false} CsvTextIsJoin(rows: seq<seq<string>>)
    ensures CsvText(rows) == Join(Lines(rows) + [""], RowEnd)
  {
    if rows != [] {
      CsvTextIsJoin(rows[1..]);
      assert (Lines(rows) + [""])[1..] == Lines(rows[1..]) + [""];
    }
  }

  /** A character other than the comma that no field holds is not in the
      row's text. */
  lemma {:induction false} RowTextFree(fields: seq<string>, c: char)
    requires c != FieldEnd
    requires forall g :: 0 <= g < |fields| ==> c !in fields[g]
    ensures c !in RowText(fields)
  {
    if fields != [] {
      RowTextFree(fields[1..], c);
    }
  }

  /** When no field holds a line break, the output splits at its line breaks
      into exactly the rows' texts, followed by the empty piece after the
      last '\n'. */
  lemma CsvLines(rows: seq<seq<string>>)
    requires forall z, g :: 0 <= z < |rows| && 0 <= g < |rows[z]| ==> RowEnd !in rows[z][g]
    ensures Split(CsvText(rows), RowEnd) == Lines(rows) + [""]
  {
    var parts := Lines(rows) + [""];
    forall z | 0 <= z < |parts| ensures RowEnd !in parts[z] {
      if z < |rows| {
        RowTextFree(rows[z], RowEnd);
      }
    }
    CsvTextIsJoin(rows);
    SplitJoin(parts, RowEnd);
  }

  /** The output has exactly one line break per row, when no field holds a
      line break. */
  lemma CsvLineCount(rows: seq<seq<string>>)
    requires forall z, g :: 0 <= z < |rows| && 0 <= g < |rows[z]| ==> RowEnd !in rows[z][g]
    ensures Count(CsvText(rows), RowEnd) == |rows|
  {
    CsvLines(rows);
  }

  /** Sum of the lengths of a row's fields. */
  function RowFieldLength(fields: seq<string>): nat
  {
    if fields == [] then 0 else |fields[0]| + RowFieldLength(fields[1..])
  }

  /** Sum of the lengths of all fields of the grid. */
  function FieldLength(rows: seq<seq<string>>): nat
  {
    if rows == [] then 0 else RowFieldLength(rows[0]) + FieldLength(rows[1..])
  }

  /** Number of fields in the grid. */
  function FieldCount(rows: seq<seq<string>>): nat
  {
    if rows == [] then 0 else |rows[0]| + FieldCount(rows[1..])
  }

  lemma {:induction false} RowTextLength(fields: seq<string>)
    ensures |RowText(fields)| == RowFieldLength(fields) + |fields|
  {
    if fields != [] {
      RowTextLength(fields[1..]);
    }
  }

  /** The output is as long as all fields together, plus one comma per
      field, plus one line break per row: fields are written verbatim. */
  lemma {:induction false} CsvLength(rows: seq<seq<string>>)
    ensures |CsvText(rows)| == FieldLength(rows) + FieldCount(rows) + |rows|
  {
    if rows != [] {
      RowTextLength(rows[0]);
      CsvLength(rows[1..]);
    }
  }

  /** Reading the output back as CSV: split into lines on '\n' dropping the
      empty piece after the last one, and each line on ',' dropping the
      empty piece after its trailing comma. */
  function DecodeCsv(text: string): seq<seq<string>>
  {
    var lines := Split(text, RowEnd);
    seq(|lines| - 1, z requires 0 <= z < |lines| - 1 =>
      var pieces := Split(lines[z], FieldEnd);
      pieces[..|pieces| - 1])
  }

  /** When no field holds a comma or a line break, reading the output back
      gives the grid that was written, row by row and field by field. */
  lemma DecodeCsvText(rows: seq<seq<string>>)
    requires forall z, g :: 0 <= z < |rows| && 0 <= g < |rows[z]| ==>
               FieldEnd !in rows[z][g] && RowEnd !in rows[z][g]
    ensures DecodeCsv(CsvText(rows)) == rows
  {
    CsvLines(rows);
    var lines := Lines(rows) + [""];
    forall z | 0 <= z < |rows|
      ensures var pieces := Split(lines[z], FieldEnd); pieces[..|pieces| - 1] == rows[z]
    {
      RowTextIsJoin(rows[z]);
      SplitJoin(rows[z] + [""], FieldEnd);
      assert (rows[z] + [""])[..|rows[z]|] == rows[z];
    }
  }

  /** Example: `[["A","B","C"]]` is written as `A,B,C,` and a
      line break. */
  lemma CsvExample()
    ensures CsvText([["A", "B", "C"]]) == "A,B,C,\n"
  {
    assert [["A", "B", "C"]][1..] == [];
    assert ["A", "B", "C"][1..] == ["B", "C"];
    assert ["B", "C"][1..] == ["C"];
    assert ["C"][1..] == [];
  }
}
