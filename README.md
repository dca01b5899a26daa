# pipe_to_comma in Dafny

A verified model of `pipe_to_comma.py`, a one-file batch converter. It
reads a pipe-delimited (`|`) text file and writes it as comma-separated
text, stripping double quotes from the ends of every field. The program
has three parts, and each is a module here:

- **Loader** (`make_this_crap_a_list`): splits the text into lines on
  `'\n'`, splits every line into fields on `'|'`, and strips every leading
  and trailing `'"'` from each field. `Loader.Parse` keeps the source's
  nested index loops. Like the source, it rewrites the list `full_text` in
  place, held here in an `array`. It is proved equal to the functional
  specification `Loader.ParseText`.
- **Writer** (`arr_csv`): builds the output text in an accumulator. Each
  field is followed by `','` and each row ends with `'\n'`, so every line
  keeps a trailing comma and nothing is escaped. `Writer.Serialise` keeps
  the nested loops and the `+=` accumulator. It is proved equal to the
  recursive specification `Writer.CsvText`.
- **Driver** (`pipe_delimited_to_csv` and the `__main__` block): the base
  name is `arg.split(".")[0]`, everything before the first dot. The input is
  `base.txt` and the output is `base.csv`. The file system is a parameter
  of type `map<string, string>` (path to contents). A missing `argv[1]` or a
  missing input file ends in the usage outcome, and no file is written.

Module `PyText` holds the Python string primitives with Python's exact
semantics:
- `str.split(sep)` keeps empty pieces, and `"".split(sep) == [""]`.
- `str.strip(c)` removes every leading and trailing `c`, not just one.
- `str.count(c)`.
- `sep.join(parts)` is the inverse that `Split` is proved against in both
  directions. The converter itself never calls `join`.

The code strips all surrounding quotes: `strip('"')` turns `""a""` into `a`.
A reading of `strip('"')` as removing only one layer of quotes would differ;
the code removes all of them, and so does the model. `PyText.StripOnePair` shows that the two
readings agree on a field wrapped in exactly one pair of quotes.

## Model

| member | source | states |
|---|---|---|
| `PyText.Split` | pipe_to_comma.py:6-8 | `str.split` with one separator: always one piece more than there are separators in the text |
| `PyText.SplitPiecesFree` | pipe_to_comma.py:8 | no piece of a split holds the separator |
| `PyText.SplitChars` | pipe_to_comma.py:8 | every character of a piece occurs in the text that was split |
| `PyText.JoinSplit` | pipe_to_comma.py:6-8 | joining the pieces with the separator gives back the text: nothing is lost or reordered |
| `PyText.SplitJoin` | pipe_to_comma.py:6-8 | the converse: separator-free pieces are recovered by splitting their join |
| `PyText.SplitWithoutSep` | pipe_to_comma.py:8 | a text without the separator splits into itself alone, e.g. a line without a pipe is a one-field row |
| `PyText.SplitAtFirstSep` | pipe_to_comma.py:8 | what precedes the first separator is the first piece, and the rest is split on its own |
| `PyText.SplitHead` | pipe_to_comma.py:33-34 | the first piece is a prefix of the text, holds no separator, and ends at the first separator or at the end of the text |
| `PyText.LStripShape` | pipe_to_comma.py:10 | left stripping leaves a suffix, removes only `c`s, and the result does not start with `c` |
| `PyText.RStripShape` | pipe_to_comma.py:10 | right stripping leaves a prefix, removes only `c`s, and the result does not end with `c` |
| `PyText.Strip` | pipe_to_comma.py:10 | `strip(c)` returns a result no longer than its input that neither starts nor ends with `c` |
| `PyText.StripTrims` | pipe_to_comma.py:10 | the stripped text is a contiguous piece `s[i..j]` of the field, with only `c`s outside it |
| `PyText.StripUnique` | pipe_to_comma.py:10 | every piece of `s` trimmed only of `c`s, with no `c` left at either end, equals `Strip(s, c)`: the contract determines the function |
| `PyText.StripAllOf` | pipe_to_comma.py:10 | a field made only of quotes becomes the empty string |
| `PyText.StripToEmpty` | pipe_to_comma.py:10 | the result is empty exactly when the field is made only of `c`s |
| `PyText.StripUnchanged` | pipe_to_comma.py:10 | a field that neither starts nor ends with `c` is left unchanged |
| `PyText.StripIdempotent` | pipe_to_comma.py:10 | stripping twice is stripping once |
| `PyText.StripOnePair` | pipe_to_comma.py:10 | a field wrapped in exactly one pair of quotes becomes its inner text |
| `PyText.StripChars` | pipe_to_comma.py:10 | every character of the stripped field occurs in the field |
| `Loader.ParseLine` | pipe_to_comma.py:8-10 | a line gives one field more than it has pipe characters, and no field holds a pipe |
| `Loader.ParseText` | pipe_to_comma.py:6-10 | the grid has one row more than the text has `'\n'` characters |
| `Loader.Parse` | pipe_to_comma.py:6-11 | the in-place nested loops over `full_text` return exactly `ParseText(text)` |
| `Loader.ParseLineFields` | pipe_to_comma.py:8-10 | the fields are the stripped pieces, in source order, of a cut of the line at every pipe whose join is the line |
| `Loader.FieldChars` | pipe_to_comma.py:6-10 | every character of a field occurs in its line and in the text |
| `Loader.ParsedFieldsClean` | pipe_to_comma.py:6-10 | no field holds `'\n'` or a pipe, and no non-empty field starts or ends with `"` |
| `Loader.ParseEmpty` | pipe_to_comma.py:6-10 | the empty text gives the single row `[""]` |
| `Loader.ParseThree` | pipe_to_comma.py:6-10 | a one-line text of three fields without pipes or line breaks loads as the single row of those three fields, stripped |
| `Loader.SplitThree` | pipe_to_comma.py:8 | a line of three pipe-free fields splits into those three |
| `Loader.SplitExample` | pipe_to_comma.py:8 | the line `"A"`, pipe, `B`, pipe, `"C"` splits on the pipe into `"A"`, `B`, `"C"` |
| `Loader.StripExample` | pipe_to_comma.py:10 | `"A"` strips to `A`, `B` stays `B`, and `"C"` strips to `C` |
| `Loader.ParseExample` | pipe_to_comma.py:6-10 | the line `"A"`, pipe, `B`, pipe, `"C"` is loaded as `[["A", "B", "C"]]` |
| `Loader.ParseLineUnquoted` | pipe_to_comma.py:8-10 | a line without `"` is just split on the pipe |
| `Loader.ParseUnquotedRoundTrip` | pipe_to_comma.py:6-10 | for a text without `"`, joining the fields with pipes and the rows with `'\n'` gives the text back |
| `Writer.RowText` | pipe_to_comma.py:17-20 | a row's text is each field followed by a comma, so a row with at least one field ends with `,`. Its length, its join form and its read-back are stated by `RowTextLength`, `RowTextIsJoin` and `DecodeCsvText` |
| `Writer.CsvText` | pipe_to_comma.py:15-21 | the text `arr_csv` writes: each row's text followed by `'\n'`, so the output of a non-empty grid ends with a line break. Its length, join form and read-back are stated by `CsvLength`, `CsvTextIsJoin` and `DecodeCsvText` |
| `Writer.RowTextAppend` | pipe_to_comma.py:17-20 | appending a field to a row appends the field and one comma to the row's text |
| `Writer.CsvTextAppend` | pipe_to_comma.py:16-21 | appending a row appends its text and one `'\n'` to the output |
| `Writer.Serialise` | pipe_to_comma.py:15-21 | the `text_to_write` accumulator loops return exactly `CsvText(arr)` |
| `Writer.RowTextIsJoin` | pipe_to_comma.py:17-20 | a row's text is its fields plus one empty field, joined with commas: the trailing comma |
| `Writer.CsvTextIsJoin` | pipe_to_comma.py:16-21 | the output is the rows' texts plus one empty piece, joined with `'\n'` |
| `Writer.RowTextFree` | pipe_to_comma.py:17-20 | a character other than `,` that no field holds does not occur in the row's text |
| `Writer.CsvLines` | pipe_to_comma.py:15-21 | if no field holds `'\n'`, the output splits on `'\n'` into the rows' texts in order, then the empty piece after the last line break |
| `Writer.CsvLineCount` | pipe_to_comma.py:15-21 | if no field holds `'\n'`, the output holds exactly one `'\n'` per row |
| `Writer.RowTextLength` | pipe_to_comma.py:17-20 | a row's text is as long as its fields plus one comma per field |
| `Writer.CsvLength` | pipe_to_comma.py:15-21 | the output length is the sum over all fields of (field length + 1), plus the number of rows |
| `Writer.DecodeCsvText` | pipe_to_comma.py:15-21 | if no field holds `,` or `'\n'`, reading the output back gives the grid. Reading back splits on `'\n'` and then on `,`, and drops the empty last piece each time |
| `Writer.CsvExample` | pipe_to_comma.py:15-21 | `[["A","B","C"]]` is written as `A,B,C,` followed by `'\n'` |
| `Driver.BaseName` | pipe_to_comma.py:33-34 | the base name is a prefix of the argument, holds no `.`, and ends at the first `.` or at the end of the argument |
| `Driver.BaseNameNoDot` | pipe_to_comma.py:33-34 | an argument without a `.` is its own base name |
| `Driver.BaseNameExample` | pipe_to_comma.py:33-34 | `x.y.txt` has base name `x`: everything after the first dot is dropped |
| `Driver.InputPath` | pipe_to_comma.py:27 | the input path `filename.txt`, whose base name is `filename` again when `filename` has no dot: the argument `chorizon.txt` reads `chorizon.txt` |
| `Driver.OutputPath` | pipe_to_comma.py:27 | the output path `filename.csv`, with the same base name as the input, and never equal to the input path |
| `Driver.OutputNeverInput` | pipe_to_comma.py:27 | no output path equals any input path, whatever the two base names: the program never overwrites a `.txt` file |
| `Driver.Convert` | pipe_to_comma.py:27 | load, then write: the output always ends with a line break. `ConvertLineCount` and `ConvertRoundTrip` state its line count and read-back |
| `Driver.PipeDelimitedToCsv` | pipe_to_comma.py:26-27 | succeeds exactly when `filename.txt` exists. It then writes `filename.csv` with the converted contents of `filename.txt` and leaves `filename.txt` unchanged. Otherwise it writes nothing |
| `Driver.Run` | pipe_to_comma.py:30-38 | a missing `argv[1]` or a missing `base.txt` gives the usage outcome and writes nothing. Otherwise it reports `base.csv` and writes that file with the converted text |
| `Driver.ConvertLineCount` | pipe_to_comma.py:27 | the output holds one `'\n'` more than the input: one output line per input line |
| `Driver.ConvertRoundTrip` | pipe_to_comma.py:27 | for an input without `,`, reading the output back as CSV gives exactly the loaded grid |
| `Driver.ConvertEmpty` | pipe_to_comma.py:27 | the empty input becomes the single line `,` |
| `Driver.ConvertExample` | pipe_to_comma.py:27 | the line `"A"`, pipe, `B`, pipe, `"C"` becomes `A,B,C,` followed by `'\n'` |

## Left out

- Opening, reading, writing and closing files (pipe_to_comma.py:3-5, 14, 22-23). They are operating-system I/O. The loader takes the text already read, and the writer returns the text to be written.
- Text decoding and newline translation on both sides of the file I/O. On read, `open(..., 'r')` uses universal newlines, so `'\r\n'` and a lone `'\r'` both arrive as `'\n'`; the model's input is the text after that translation. On write, `open(..., 'w')` turns each `'\n'` into the platform's line separator (`os.linesep`); the file map in `Driver.PipeDelimitedToCsv` and `Driver.Run` holds the text before that translation. Characters are Dafny `char`s, and no Unicode normalisation is modelled.
- The printed messages (pipe_to_comma.py:36, 38). `Driver.Outcome` records which message is printed (`Created(name)` or `Usage`), not its text.
- The process exit status. The source always exits normally.
- Driver.Run: the catch-all `except` also swallows failures to open or write the output file and any other exception. The model covers only the two failures it can name: a missing argument and a missing input file. Writing to the file map always succeeds.
- The default argument `filename="out.csv"` of `arr_csv` (pipe_to_comma.py:13). The program never uses it: the driver always passes the output name.
