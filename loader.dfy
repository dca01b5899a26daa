/** The loader, `make_this_crap_a_list`: the text of the input file is split
    into lines on '\n', every line into fields on '|', and every field has
    all its leading and trailing '"' characters stripped. Opening and reading
    the file are not modelled; the text read is the input. */
module Loader {
  import opened PyText

  const LineSep: char := '\n'
  const FieldSep: char := '|'
  const Quote: char := '"'

  /** The fields of one line: its '|'-separated pieces, each stripped of
      surrounding quotes. */
  function ParseLine(line: string): (fields: seq<string>)
    ensures |fields| == Count(line, FieldSep) + 1
    ensures forall g :: 0 <= g < |fields| ==> FieldSep !in fields[g]
  {
    var pieces := Split(line, FieldSep);
    var fields := seq(|pieces|, g requires 0 <= g < |pieces| => Strip(pieces[g], Quote));
    assert forall g :: 0 <= g < |fields| ==> FieldSep !in fields[g] by {
      SplitPiecesFree(line, FieldSep);
      forall g | 0 <= g < |fields| ensures FieldSep !in fields[g] {
        StripChars(pieces[g], Quote);
      }
    }
    fields
  }

  /** The grid the loader returns: one row per line of the text. */
  function ParseText(text: string): (rows: seq<seq<string>>)
    ensures |rows| == Count(text, LineSep) + 1
  {
    var lines := Split(text, LineSep);
    seq(|lines|, z requires 0 <= z < |lines| => ParseLine(lines[z]))
  }

  /** `make_this_crap_a_list` after the read: `full_text` is first the list
      of lines; each entry is replaced in place by that line's list of
      pieces, and each piece in place by its stripped value. */
  method Parse(text: string) returns (grid: seq<seq<string>>)
    ensures grid == ParseText(text)
  {
    var lines := Split(text, LineSep);
    var fullText := new seq<string>[|lines|];
    for z := 0 to |lines|
      invariant forall k :: 0 <= k < z ==> fullText[k] == ParseLine(lines[k])
    {
      ghost var fields := ParseLine(lines[z]);
      fullText[z] := Split(lines[z], FieldSep);
      for g := 0 to |fullText[z]|
        invariant |fullText[z]| == |fields|
        invariant forall k :: 0 <= k < g ==> fullText[z][k] == fields[k]
        invariant forall k :: g <= k < |fields| ==> fullText[z][k] == Split(lines[z], FieldSep)[k]
        invariant forall k :: 0 <= k < z ==> fullText[k] == ParseLine(lines[k])
      {
        fullText[z] := fullText[z][g := Strip(fullText[z][g], Quote)];
      }
    }
    grid := fullText[..];
  }

  /** The fields of a line are the stripped pieces of the one way of cutting
      the line at every '|': the pieces joined with '|' give the line back,
      none holds a '|', and they come in the order they stand in the line. */
  lemma ParseLineFields(line: string)
    ensures exists pieces :: Join(pieces, FieldSep) == line
                             && |pieces| == |ParseLine(line)|
                             && (forall g :: 0 <= g < |pieces| ==> FieldSep !in pieces[g])
                             && (forall g :: 0 <= g < |pieces| ==> ParseLine(line)[g] == Strip(pieces[g], Quote))
  {
    JoinSplit(line, FieldSep);
    SplitPiecesFree(line, FieldSep);
  }

  /** Every character of a field is a character of the line it came from,
      and so of the text. */
  lemma FieldChars(text: string, z: nat, g: nat, x: char)
    requires z < |ParseText(text)| && g < |ParseText(text)[z]|
    requires x in ParseText(text)[z][g]
    ensures x in Split(text, LineSep)[z] && x in text
  {
    var line := Split(text, LineSep)[z];
    var piece := Split(line, FieldSep)[g];
    assert ParseText(text)[z][g] == Strip(piece, Quote);
    StripChars(piece, Quote);
    SplitChars(line, FieldSep, g, x);
    SplitChars(text, LineSep, z, x);
  }

  /** What the loader promises of every field it returns: it holds no line
      break and no '|', and neither begins nor ends with '"'. */
  lemma ParsedFieldsClean(text: string, z: nat, g: nat)
    requires z < |ParseText(text)| && g < |ParseText(text)[z]|
    ensures LineSep !in ParseText(text)[z][g]
    ensures FieldSep !in ParseText(text)[z][g]
    ensures var f := ParseText(text)[z][g]; f == [] || (f[0] != Quote && f[|f| - 1] != Quote)
  {
    var line := Split(text, LineSep)[z];
    var f := ParseText(text)[z][g];
    assert f == Strip(Split(line, FieldSep)[g], Quote);
    SplitPiecesFree(text, LineSep);
    forall x | x in f ensures x in line {
      FieldChars(text, z, g, x);
    }
  }

  /** The number of rows is the number of line breaks plus one: a text
      ending in '\n' has an empty last row, and the empty text has the
      single row `[""]`. */
  lemma ParseEmpty()
    ensures ParseText("") == [[""]]
  {
    assert Split("", LineSep) == [""];
    assert Split("", FieldSep) == [""];
    StripAllOf("", Quote);
    assert ParseLine("") == [""];
  }

  /** A line of three fields without '|' splits into those three. */
  lemma SplitThree(a: string, b: string, c: string)
    requires FieldSep !in a && FieldSep !in b && FieldSep !in c
    ensures Split(a + [FieldSep] + b + [FieldSep] + c, FieldSep) == [a, b, c]
  {
    var bc := b + [FieldSep] + c;
    SplitWithoutSep(c, FieldSep);
    SplitAtFirstSep(b, FieldSep, c);
    assert Split(bc, FieldSep) == [b, c];
    SplitAtFirstSep(a, FieldSep, bc);
    assert a + [FieldSep] + b + [FieldSep] + c == a + [FieldSep] + bc;
  }

  /** Example: the line `"A"|B|"C"` splits into `"A"`, `B` and `"C"`. */
  lemma SplitExample()
    ensures Split("\"A\"|B|\"C\"", FieldSep) == ["\"A\"", "B", "\"C\""]
  {
    SplitThree("\"A\"", "B", "\"C\"");
    assert "\"A\"" + [FieldSep] + "B" + [FieldSep] + "\"C\"" == "\"A\"|B|\"C\"";
  }

  /** Example: `"A"` and `"C"` lose their quotes and `B` is kept. */
  lemma StripExample()
    ensures Strip("\"A\"", Quote) == "A"
    ensures Strip("B", Quote) == "B"
    ensures Strip("\"C\"", Quote) == "C"
  {
    assert "\"A\"" == [Quote] + "A" + [Quote];
    assert "\"C\"" == [Quote] + "C" + [Quote];
    StripOnePair("A", Quote);
    StripOnePair("C", Quote);
    StripUnchanged("B", Quote);
  }

  /** A one-line text of three fields without '|' loads as the one row of
      those three fields, stripped. */
  lemma ParseThree(a: string, b: string, c: string)
    requires FieldSep !in a && FieldSep !in b && FieldSep !in c
    requires LineSep !in a && LineSep !in b && LineSep !in c
    ensures ParseText(a + [FieldSep] + b + [FieldSep] + c)
            == [[Strip(a, Quote), Strip(b, Quote), Strip(c, Quote)]]
  {
    var line := a + [FieldSep] + b + [FieldSep] + c;
    SplitThree(a, b, c);
    assert ParseLine(line) == [Strip(a, Quote), Strip(b, Quote), Strip(c, Quote)];
    SplitWithoutSep(line, LineSep);
    assert ParseText(line) == [ParseLine(line)];
  }

  /** Example: the line `"A"|B|"C"` is loaded as the one row
      `["A", "B", "C"]`. */
  lemma ParseExample()
    ensures ParseText("\"A\"|B|\"C\"") == [["A", "B", "C"]]
  {
    ParseThree("\"A\"", "B", "\"C\"");
    assert "\"A\"" + [FieldSep] + "B" + [FieldSep] + "\"C\"" == "\"A\"|B|\"C\"";
    StripExample();
  }

  /** The pipe-delimited text a grid stands for: fields joined with '|',
      rows joined with '\n'. */
  function Unparse(rows: seq<seq<string>>): string
  {
    Join(seq(|rows|, z requires 0 <= z < |rows| => Join(rows[z], FieldSep)), LineSep)
  }

  /** A line without '"' is split into fields and nothing else. */
  lemma ParseLineUnquoted(line: string)
    requires Quote !in line
    ensures ParseLine(line) == Split(line, FieldSep)
  {
    var pieces := Split(line, FieldSep);
    forall g | 0 <= g < |pieces| ensures ParseLine(line)[g] == pieces[g] {
      forall x | x in pieces[g] ensures x in line {
        SplitChars(line, FieldSep, g, x);
      }
      StripUnchanged(pieces[g], Quote);
    }
  }

  /** A text without '"' is parsed with nothing lost: writing the grid back
      in pipe-delimited form gives the text. */
  lemma ParseUnquotedRoundTrip(text: string)
    requires Quote !in text
    ensures Unparse(ParseText(text)) == text
  {
    var lines := Split(text, LineSep);
    var rows := ParseText(text);
    var joined := seq(|rows|, z requires 0 <= z < |rows| => Join(rows[z], FieldSep));
    forall z | 0 <= z < |lines| ensures joined[z] == lines[z] {
      forall x | x in lines[z] ensures x in text {
        SplitChars(text, LineSep, z, x);
      }
      ParseLineUnquoted(lines[z]);
      JoinSplit(lines[z], FieldSep);
    }
    assert joined == lines;
    JoinSplit(text, LineSep);
  }
}
