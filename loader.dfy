/** `read_csv_required`: the checks made before a snapshot file is used and the
    whitespace normalisation of its key columns. Parsing the CSV text itself
    is not modelled: the file system is a map from paths to the tables the
    CSV reader yields, every cell read as a string. */
module Loader {
  import opened Text
  import opened Paths

  /** One row: column name to cell text. */
  type Record = map<string, string>

  /** A parsed CSV file: its header and its rows, in file order. */
  datatype Table = Table(columns: seq<string>, rows: seq<Record>)

  const ID: string := "ID"
  const TITLE: string := "Title"

  /** The columns every snapshot must have, in the order they are checked. */
  const REQ: seq<string> := [ID, TITLE]

  /** Every row has exactly one cell per header column (missing cells are
      read as "", never as a null marker). */
  predicate WellFormed(t: Table) {
    forall i :: 0 <= i < |t.rows| ==> t.rows[i].Keys == (set c | c in t.columns)
  }

  /** The shape of a table that passed the column check. */
  predicate Loaded(t: Table) {
    WellFormed(t) && ID in t.columns && TITLE in t.columns
  }

  /** Every file the reader can open yields a well-formed table. */
  predicate Readable(files: map<Path, Table>) {
    forall p :: p in files ==> WellFormed(files[p])
  }

  datatype LoadError =
    | UnsupportedSuffix(suffix: string)   // ValueError: only CSV files are supported
    | FileNotFound(path: Path)            // FileNotFoundError
    | MissingColumns(missing: seq<string>) // ValueError: missing columns

  datatype Result<T> = Success(value: T) | Failure(error: LoadError)

  /** `[c for c in REQ if c not in columns]`. */
  function Missing(req: seq<string>, columns: seq<string>): (r: seq<string>)
    ensures forall c :: c in r <==> c in req && c !in columns
    ensures |r| <= |req|
  {
    if req == [] then []
    else (if req[0] in columns then [] else [req[0]]) + Missing(req[1..], columns)
  }

  /** The missing-column list names ID before Title, each only when the header
      lacks it, and is empty exactly when both are present. */
  lemma MissingColumnsOrder(columns: seq<string>)
    ensures Missing(REQ, columns)
      == (if ID in columns then [] else [ID]) + (if TITLE in columns then [] else [TITLE])
    ensures Missing(REQ, columns) == [] <==> ID in columns && TITLE in columns
  {
    assert REQ[1..] == [TITLE];
    assert REQ[1..][1..] == [];
  }

  /** `df[c] = df[c].astype(str).str.strip()`: the cell of column `c` of every
      row is replaced by its stripped text. */
  function StripColumn(t: Table, c: string): (r: Table)
    requires WellFormed(t) && c in t.columns
    ensures WellFormed(r) && r.columns == t.columns && |r.rows| == |t.rows|
    ensures forall i :: 0 <= i < |t.rows| ==> r.rows[i] == t.rows[i][c := Strip(t.rows[i][c])]
  {
    Table(t.columns, seq(|t.rows|, i requires 0 <= i < |t.rows| => t.rows[i][c := Strip(t.rows[i][c])]))
  }

  /** The columns of `cols` stripped one after the other, in order. */
  function StripColumns(t: Table, cols: seq<string>): (r: Table)
    requires WellFormed(t) && forall c :: c in cols ==> c in t.columns
    ensures WellFormed(r) && r.columns == t.columns && |r.rows| == |t.rows|
    decreases |cols|
  {
    if cols == [] then t
    else StripColumn(StripColumns(t, cols[..|cols| - 1]), cols[|cols| - 1])
  }

  /** The normalisation step of `read_csv_required`. */
  function Normalize(t: Table): (r: Table)
    requires WellFormed(t) && ID in t.columns && TITLE in t.columns
    ensures WellFormed(r) && r.columns == t.columns
  {
    StripColumns(t, REQ)
  }

  /** Normalisation is the ID strip followed by the Title strip. */
  lemma NormalizeSteps(t: Table)
    requires WellFormed(t) && ID in t.columns && TITLE in t.columns
    ensures Normalize(t) == StripColumn(StripColumn(t, ID), TITLE)
  {
    var first := REQ[..1];
    assert first == [ID];
    assert first[..0] == [];
    assert StripColumns(t, first[..0]) == t;
    assert StripColumns(t, first) == StripColumn(t, ID);
    assert REQ[..|REQ| - 1] == first;
  }

  /** One row after normalisation: its ID and Title cells stripped. */
  function NormalizeRow(row: Record): Record
    requires ID in row && TITLE in row
  {
    row[ID := Strip(row[ID])][TITLE := Strip(row[TITLE])]
  }

  /** A normalised row keeps its columns, its ID and Title cells are the
      stripped originals, every other cell is unchanged, and normalising it
      again changes nothing. */
  lemma NormalizeRowMeaning(row: Record)
    requires ID in row && TITLE in row
    ensures var n := NormalizeRow(row);
      && n.Keys == row.Keys
      && n[ID] == Strip(row[ID]) && n[TITLE] == Strip(row[TITLE])
      && (forall d :: d in row && d != ID && d != TITLE ==> n[d] == row[d])
      && NormalizeRow(n) == n
  {
    var n := NormalizeRow(row);
    assert |ID| != |TITLE|;
    assert n[ID] == Strip(row[ID]) && n[TITLE] == Strip(row[TITLE]);
    StripIdempotent(row[ID]);
    StripIdempotent(row[TITLE]);
    assert n[ID := Strip(n[ID])] == n;
  }

  /** Normalisation keeps the header and the number of rows and normalises
      every row. */
  lemma NormalizeCells(t: Table)
    requires WellFormed(t) && ID in t.columns && TITLE in t.columns
    ensures var r := Normalize(t);
      && r.columns == t.columns && |r.rows| == |t.rows|
      && forall i :: 0 <= i < |t.rows| ==> r.rows[i] == NormalizeRow(t.rows[i])
  {
    NormalizeSteps(t);
    var once := StripColumn(t, ID);
    var r := StripColumn(once, TITLE);
    assert |ID| != |TITLE|;
    forall i | 0 <= i < |t.rows|
      ensures r.rows[i] == NormalizeRow(t.rows[i])
    {
      var row := t.rows[i];
      assert once.rows[i] == row[ID := Strip(row[ID])];
      assert once.rows[i][TITLE] == row[TITLE];
    }
  }

  /** Normalising an already normalised table changes nothing. */
  lemma NormalizeIdempotent(t: Table)
    requires WellFormed(t) && ID in t.columns && TITLE in t.columns
    ensures Normalize(Normalize(t)) == Normalize(t)
  {
    var r := Normalize(t);
    NormalizeCells(t);
    NormalizeCells(r);
    var rr := Normalize(r);
    forall i | 0 <= i < |r.rows|
      ensures rr.rows[i] == r.rows[i]
    {
      NormalizeRowMeaning(t.rows[i]);
    }
    assert rr.rows == r.rows;
  }

  /** `read_csv_required(path)`, as a specification: the suffix test first,
      then existence, then the required columns, then normalisation. */
  function Load(path: Path, files: map<Path, Table>): (r: Result<Table>)
    requires Readable(files)
    ensures r.Success? ==> path in files && Loaded(r.value)
  {
    var suffix := Suffix(Name(path));
    if !IsCsvSuffix(suffix) then Failure(UnsupportedSuffix(suffix))
    else if path !in files then Failure(FileNotFound(path))
    else
      var t := files[path];
      var missing := Missing(REQ, t.columns);
      if missing != [] then Failure(MissingColumns(missing))
      else Success(Normalize(t))
  }

  /** Loading succeeds exactly for an existing ".csv" file whose header has
      both required columns, and then yields that file normalised. */
  lemma LoadSucceedsIff(path: Path, files: map<Path, Table>)
    requires Readable(files)
    ensures Load(path, files).Success? <==>
      IsCsvSuffix(Suffix(Name(path))) && path in files
      && ID in files[path].columns && TITLE in files[path].columns
    ensures Load(path, files).Success? ==> Load(path, files).value == Normalize(files[path])
  {
    if path in files {
      MissingColumnsOrder(files[path].columns);
    }
  }

  /** The checks run in order: a wrong extension is reported whether or not
      the file exists, and a missing file before any column check. */
  lemma LoadErrorOrder(path: Path, files: map<Path, Table>)
    requires Readable(files)
    ensures !IsCsvSuffix(Suffix(Name(path))) ==>
      Load(path, files) == Failure(UnsupportedSuffix(Suffix(Name(path))))
    ensures IsCsvSuffix(Suffix(Name(path))) && path !in files ==>
      Load(path, files) == Failure(FileNotFound(path))
    ensures Load(path, files).Failure? && Load(path, files).error.MissingColumns? ==>
      path in files && Load(path, files).error.missing == Missing(REQ, files[path].columns)
      && Load(path, files).error.missing != []
  {
  }

  /** `read_csv_required` in the order the Python function runs it: the
      checks, then a copy of the table whose required columns are stripped
      one at a time. */
  method ReadCsvRequired(path: Path, files: map<Path, Table>) returns (r: Result<Table>)
    requires Readable(files)
    ensures r == Load(path, files)
  {
    var suffix := Suffix(Name(path));
    if !IsCsvSuffix(suffix) {
      return Failure(UnsupportedSuffix(suffix));
    }
    if path !in files {
      return Failure(FileNotFound(path));
    }
    var df := files[path];
    var missing := Missing(REQ, df.columns);
    if missing != [] {
      return Failure(MissingColumns(missing));
    }
    for k := 0 to |REQ|
      invariant df == StripColumns(files[path], REQ[..k])
    {
      assert REQ[..k + 1][..k] == REQ[..k];
      df := StripColumn(df, REQ[k]);
    }
    assert REQ[..|REQ|] == REQ;
    return Success(df);
  }
}
