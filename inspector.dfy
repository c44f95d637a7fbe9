/**
 * The file inspector (`csv_information_extraction`, csv-analyzer.py:42-88).
 *
 * The two pandas parses are not modelled: what they produce is an input.
 * `FirstPass` is the result of the `header=None` parse with a sniffed
 * delimiter and blanks kept as '', the second pass is the list of column
 * types pandas infers when the first line is taken as the header. A pass
 * that raised is absent (`None`). Column types are represented by the names
 * `str` gives them, which determine them.
 */
module Inspector {
  import opened Optional
  import opened Text

  /** What the first, header-less parse yields. */
  datatype FirstPass = FirstPass(
    delimiter: char,             // df._engine.data.dialect.delimiter
    columns: nat,                // len(df.columns)
    cells: seq<seq<string>>,     // df.values, one sequence per row
    dtypes: seq<string>)         // df.dtypes

  /** What pandas makes of one file: each pass, or None when it raised. */
  datatype TableSource = TableSource(first: Option<FirstPass>, second: Option<seq<string>>)

  /** The three keys only a successful inspection has. */
  datatype Details = Details(size: string, probablyHeader: bool, types: set<string>)

  /** The dictionary the inspector returns, one row of the final report. */
  datatype Report = Report(
    path: string,
    file: string,
    columns: nat,
    rows: nat,
    delimiter: Option<char>,
    nullChar: Option<string>,
    details: Option<Details>)

  /** The keys of the returned dictionary. */
  function Keys(r: Report): set<string> {
    {"path", "file", "columns", "rows", "delimiter", "null_char"}
    + if r.details.Some? then {"size", "probably_header", "types"} else {}
  }

  /** The null sentinels looked for, in the order they are looked for. */
  const NullChars: seq<string> := ["", "?"]

  /** How a found sentinel is reported: the empty string as "blank". */
  function Label(c: string): string {
    if c == "" then "blank" else c
  }

  /** Some cell of the table equals `c`. */
  ghost predicate Occurs(c: string, cells: seq<seq<string>>) {
    exists i :: 0 <= i < |cells| && c in cells[i]
  }

  /** `c in df.values`. */
  function InTable(c: string, cells: seq<seq<string>>): (r: bool)
    ensures r <==> Occurs(c, cells)
  {
    if |cells| == 0 then false
    else if c in cells[0] then true
    else
      assert forall i :: 1 <= i < |cells| ==> cells[i] == cells[1..][i - 1];
      InTable(c, cells[1..])
  }

  /** The labels of the sentinels of `cs` found in the table, in the order of `cs`. */
  function Found(cs: seq<string>, cells: seq<seq<string>>): seq<string> {
    if cs == [] then []
    else
      var c := cs[|cs| - 1];
      Found(cs[..|cs| - 1], cells) + if InTable(c, cells) then [Label(c)] else []
  }

  /** The `founded_null_chars` loop: "blank" if a cell is '', then "?" if a cell is '?'. */
  method FoundNullChars(cells: seq<seq<string>>) returns (found: seq<string>)
    ensures found == (if Occurs("", cells) then ["blank"] else [])
                   + (if Occurs("?", cells) then ["?"] else [])
  {
    found := [];
    for i := 0 to |NullChars|
      invariant found == Found(NullChars[..i], cells)
    {
      var c := NullChars[i];
      assert NullChars[..i + 1][..i] == NullChars[..i];
      if InTable(c, cells) {
        found := found + [Label(c)];
      }
    }
    assert NullChars[..|NullChars|] == NullChars;
    assert NullChars[..1] == [""];
  }

  /** The `null_char` field built from the labels found. */
  function NullCharField(found: seq<string>): Option<string> {
    if |found| == 0 then None else Some(Join(", ", found))
  }

  /** The `null_char` field for a table: the labels of the sentinels found, blank first, joined by ", ". */
  function NullCharReport(cells: seq<seq<string>>): Option<string> {
    NullCharField((if InTable("", cells) then ["blank"] else [])
                + (if InTable("?", cells) then ["?"] else []))
  }

  /** `list(initial_type) != list(types_without_first_row)`. */
  function ProbablyHeader(initial: seq<string>, second: seq<string>): bool {
    initial != second
  }

  /** `set(map(str, types_without_first_row))`. */
  function TypeNames(dtypes: seq<string>): (types: set<string>)
    ensures forall t :: t in types <==> t in dtypes
    ensures |types| <= |dtypes|
  {
    if dtypes == [] then {}
    else {dtypes[0]} + TypeNames(dtypes[1..])
  }

  /** What the inspector returns: the success record when both passes worked, else the degraded one. */
  function Inspection(src: TableSource, path: string, file: string, size: string): Report {
    if src.first.Some? && src.second.Some? then
      var f := src.first.value;
      Report(path, file, f.columns, |f.cells|, Some(f.delimiter), NullCharReport(f.cells),
             Some(Details(size, ProbablyHeader(f.dtypes, src.second.value), TypeNames(src.second.value))))
    else
      Report(path, file, 0, 0, None, None, None)
  }

  /** `csv_information_extraction(file, path, filename, size)` */
  method ExtractCsvInformation(src: TableSource, path: string, file: string, size: string := "0MB")
    returns (r: Report)
    ensures r == Inspection(src, path, file, size)
  {
    if src.first.None? || src.second.None? {
      return Report(path, file, 0, 0, None, None, None);
    }
    var f := src.first.value;
    var found := FoundNullChars(f.cells);
    var columns := f.columns;
    var rows := |f.cells|;
    var initialType := f.dtypes;
    var typesWithoutFirstRow := src.second.value;
    var probablyHeader := ProbablyHeader(initialType, typesWithoutFirstRow);
    var types := TypeNames(typesWithoutFirstRow);
    var nullChar := NullCharField(found);
    r := Report(path, file, columns, rows, Some(f.delimiter), nullChar,
                Some(Details(size, probablyHeader, types)));
  }

  /** The four possible `null_char` values, each exactly when its sentinels occur. */
  lemma NullCharCases(cells: seq<seq<string>>)
    ensures var r := NullCharReport(cells);
      && (r == None <==> !Occurs("", cells) && !Occurs("?", cells))
      && (r == Some("blank") <==> Occurs("", cells) && !Occurs("?", cells))
      && (r == Some("?") <==> !Occurs("", cells) && Occurs("?", cells))
      && (r == Some("blank, ?") <==> Occurs("", cells) && Occurs("?", cells))
  {
    assert Join(", ", ["blank", "?"]) == "blank" + ", " + Join(", ", ["?"]) == "blank, ?";
  }

  /** The header flag is a difference of the two type lists, in length or at some column. */
  lemma HeaderFlag(initial: seq<string>, second: seq<string>)
    ensures ProbablyHeader(initial, second)
        <==> |initial| != |second| || exists i :: 0 <= i < |initial| && initial[i] != second[i]
  {
  }

  /** A successful inspection: the counts of the header-less pass, its delimiter, the
      sentinel report, the given size, the header flag and the second pass's type names. */
  lemma SuccessRecord(src: TableSource, path: string, file: string, size: string)
    requires src.first.Some? && src.second.Some?
    ensures var r := Inspection(src, path, file, size);
      var f := src.first.value;
      && r.path == path && r.file == file
      && r.columns == f.columns && r.rows == |f.cells|
      && r.delimiter == Some(f.delimiter)
      && r.nullChar == NullCharReport(f.cells)
      && r.details.Some? && r.details.value.size == size
      && (r.details.value.probablyHeader <==> f.dtypes != src.second.value)
      && (forall t :: t in r.details.value.types <==> t in src.second.value)
      && Keys(r) == {"path", "file", "columns", "rows", "delimiter", "null_char",
                     "size", "probably_header", "types"}
  {
  }

  /** A failed inspection: path and file kept, zero counts, no delimiter nor sentinel,
      and no size, probably_header or types key. */
  lemma DegradedRecord(src: TableSource, path: string, file: string, size: string)
    requires src.first.None? || src.second.None?
    ensures var r := Inspection(src, path, file, size);
      && r.path == path && r.file == file
      && r.columns == 0 && r.rows == 0
      && r.delimiter == None && r.nullChar == None
      && Keys(r) == {"path", "file", "columns", "rows", "delimiter", "null_char"}
  {
  }
}
