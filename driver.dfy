/** The command-line driver: the argument's base name (everything before its
    first '.') names the input `base.txt` and the output `base.csv`
    (`pipe_delimited_to_csv` and the `__main__` block). The file system is
    modelled as a map from path to contents; a missing argument or a missing
    input file ends in the one usage message, with no file written. */
module Driver {
  import opened PyText
  import Loader
  import Writer

  const Dot: char := '.'

  /** What the program reports: the name of the file it created, or the
      usage message it prints on any failure. */
  datatype Outcome = Created(name: string) | Usage

  /** `arg.split(".")[0]`: the longest prefix of `arg` without a dot, which
      ends at the first dot or at the end of `arg`. */
  function BaseName(arg: string): (base: string)
    ensures base <= arg
    ensures Dot !in base
    ensures |base| == |arg| || arg[|base|] == Dot
  {
    SplitHead(arg, Dot);
    Split(arg, Dot)[0]
  }

  /** An argument without a dot is its own base name. */
  lemma BaseNameNoDot(arg: string)
    requires Dot !in arg
    ensures BaseName(arg) == arg
  {
    SplitWithoutSep(arg, Dot);
  }

  /** Example: `x.y.txt` has base name `x`, so everything
      after the first dot is dropped, not just the last extension. */
  lemma BaseNameExample()
    ensures BaseName("x.y.txt") == "x"
  {
    var arg := "x.y.txt";
    assert arg == "x" + [Dot] + "y.txt";
    SplitAtFirstSep("x", Dot, "y.txt");
  }

  /** `filename + ".txt"`: the file read. A dot-free base name is recovered
      from it, so the argument `chorizon.txt` reads `chorizon.txt`. */
  function InputPath(base: string): (path: string)
    ensures Dot !in base ==> BaseName(path) == base
  {
    assert Dot !in base ==> BaseName(base + ".txt") == base by {
      if Dot !in base {
        assert base + ".txt" == base + [Dot] + "txt";
        SplitAtFirstSep(base, Dot, "txt");
      }
    }
    base + ".txt"
  }

  /** `filename + ".csv"`: the file written. Its base name is the same as the
      input's, and it is never the input file itself. */
  function OutputPath(base: string): (path: string)
    ensures Dot !in base ==> BaseName(path) == base
    ensures path != InputPath(base)
  {
    assert Dot !in base ==> BaseName(base + ".csv") == base by {
      if Dot !in base {
        assert base + ".csv" == base + [Dot] + "csv";
        SplitAtFirstSep(base, Dot, "csv");
      }
    }
    assert (base + ".csv")[|base| + 1] != InputPath(base)[|base| + 1];
    base + ".csv"
  }

  /** No output path is an input path, whatever the two base names: the
      program never overwrites a `.txt` file. */
  lemma OutputNeverInput(a: string, b: string)
    ensures OutputPath(a) != InputPath(b)
  {
    if |a| == |b| {
      assert OutputPath(a)[|a| + 1] != InputPath(b)[|b| + 1];
    } else {
      assert |OutputPath(a)| != |InputPath(b)|;
    }
  }

  /** The text written for the text read: load, then serialise. The loader
      always yields at least one row, so the output always ends with a line
      break. */
  function Convert(text: string): (csv: string)
    ensures |csv| > 0 && csv[|csv| - 1] == Writer.RowEnd
  {
    Writer.CsvText(Loader.ParseText(text))
  }

  /** `pipe_delimited_to_csv(filename)`: read `filename.txt`, write
      `filename.csv`. A missing input file is the failure of `open`; the
      files are then left as they were. */
  method PipeDelimitedToCsv(filename: string, files: map<string, string>)
    returns (ok: bool, written: map<string, string>)
    ensures ok <==> InputPath(filename) in files
    ensures ok ==> written == files[OutputPath(filename) := Convert(files[InputPath(filename)])]
    ensures ok ==> InputPath(filename) in written && written[InputPath(filename)] == files[InputPath(filename)]
    ensures !ok ==> written == files
  {
    if InputPath(filename) !in files {
      return false, files;
    }
    var grid := Loader.Parse(files[InputPath(filename)]);
    var text := Writer.Serialise(grid);
    ok, written := true, files[OutputPath(filename) := text];
  }

  /** The `__main__` block: `argv[1]` is the argument (a missing one is the
      `IndexError` the catch-all turns into the usage message); its base name
      is converted and the created file's name reported. */
  method Run(argv: seq<string>, files: map<string, string>)
    returns (outcome: Outcome, written: map<string, string>)
    ensures |argv| < 2 ==> outcome == Usage && written == files
    ensures |argv| >= 2 && InputPath(BaseName(argv[1])) !in files ==>
              outcome == Usage && written == files
    ensures |argv| >= 2 && InputPath(BaseName(argv[1])) in files ==>
              var base := BaseName(argv[1]);
              outcome == Created(OutputPath(base))
              && written == files[OutputPath(base) := Convert(files[InputPath(base)])]
  {
    if |argv| < 2 {
      return Usage, files;
    }
    var filename := BaseName(argv[1]);
    var ok;
    ok, written := PipeDelimitedToCsv(filename, files);
    outcome := if ok then Created(OutputPath(filename)) else Usage;
  }

  /** One output line per input line: the output holds one line break more
      than the input, since every row, the last included, ends in one. */
  lemma ConvertLineCount(text: string)
    ensures Count(Convert(text), Writer.RowEnd) == Count(text, Loader.LineSep) + 1
  {
    var rows := Loader.ParseText(text);
    forall z, g | 0 <= z < |rows| && 0 <= g < |rows[z]| ensures Writer.RowEnd !in rows[z][g] {
      Loader.ParsedFieldsClean(text, z, g);
    }
    Writer.CsvLineCount(rows);
  }

  /** When the input holds no comma, reading the output back as CSV gives
      exactly the grid the loader produced. */
  lemma ConvertRoundTrip(text: string)
    requires Writer.FieldEnd !in text
    ensures Writer.DecodeCsv(Convert(text)) == Loader.ParseText(text)
  {
    var rows := Loader.ParseText(text);
    forall z, g | 0 <= z < |rows| && 0 <= g < |rows[z]|
      ensures Writer.FieldEnd !in rows[z][g] && Writer.RowEnd !in rows[z][g]
    {
      Loader.ParsedFieldsClean(text, z, g);
      forall x | x in rows[z][g] ensures x in text {
        Loader.FieldChars(text, z, g, x);
      }
    }
    Writer.DecodeCsvText(rows);
  }

  /** The empty input file gives one line holding just a comma. */
  lemma ConvertEmpty()
    ensures Convert("") == ",\n"
  {
    Loader.ParseEmpty();
    assert Writer.RowText([""]) == ",";
  }

  /** Example, end to end: `"A"|B|"C"` becomes `A,B,C,`. */
  lemma ConvertExample()
    ensures Convert("\"A\"|B|\"C\"") == "A,B,C,\n"
  {
    Loader.ParseExample();
    Writer.CsvExample();
  }
}
