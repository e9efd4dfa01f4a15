/** Reading the alumni spreadsheet (src/etl/ingest_excel.py, and the older
    copy kept in ctrlC_ctrlV.py). It normalises the headers, maps aliases to
    canonical names, converts the three date columns, and adds every
    expected column that is missing as an all-null column. The sheet is
    given as pandas reads it, with text cells. The date parser and the
    existence of the file are parameters. */
module IngestExcel {
  import opened Wrappers
  import opened Text
  import opened Calendar

  // ---------------------------------------------------------------------
  // Frames
  // ---------------------------------------------------------------------

  /** A cell: missing, text as read with `dtype=str`, or a converted date. */
  datatype Cell = Null | Text(s: string) | Day(d: Date)

  datatype Column = Column(name: string, cells: seq<Cell>)

  datatype Frame = Frame(height: nat, columns: seq<Column>)

  /** Every column has one cell per row. */
  predicate WellFormed(f: Frame) {
    forall j :: 0 <= j < |f.columns| ==> |f.columns[j].cells| == f.height
  }

  function Names(cols: seq<Column>): (names: seq<string>)
    ensures |names| == |cols|
    ensures forall j :: 0 <= j < |cols| ==> names[j] == cols[j].name
  {
    seq(|cols|, j requires 0 <= j < |cols| => cols[j].name)
  }

  predicate DistinctNames(names: seq<string>) {
    forall i, j :: 0 <= i < j < |names| ==> names[i] != names[j]
  }

  datatype IngestError = FileNotFound | DuplicateColumns

  // ---------------------------------------------------------------------
  // Headers
  // ---------------------------------------------------------------------

  function ReplaceChar(s: string, a: char, b: char): (r: string)
    ensures |r| == |s|
    ensures forall i :: 0 <= i < |s| ==> r[i] == (if s[i] == a then b else s[i])
  {
    seq(|s|, i requires 0 <= i < |s| => if s[i] == a then b else s[i])
  }

  /** `.str.lower().str.replace(" ", "_").str.replace("-", "_")`. */
  function Canonical(s: string): string {
    ReplaceChar(ReplaceChar(Lower(s), ' ', '_'), '-', '_')
  }

  /** The header normalisation: strip, then `Canonical`. */
  function NormalizeHeader(h: string): string {
    Canonical(Strip(h))
  }

  /** Replacing a character by one that is neither whitespace nor an
      upper-case letter keeps the edges and the case, and removes it. */
  lemma ReplaceCharShape(s: string, a: char, b: char)
    requires a != b && !IsSpace(b) && !IsUpper(b)
    ensures NoEdgeSpace(s) ==> NoEdgeSpace(ReplaceChar(s, a, b))
    ensures NoUpperCase(s) ==> NoUpperCase(ReplaceChar(s, a, b))
    ensures forall i :: 0 <= i < |s| ==> ReplaceChar(s, a, b)[i] != a
  {
  }

  lemma LowerShape(s: string)
    ensures NoEdgeSpace(s) ==> NoEdgeSpace(Lower(s))
    ensures NoUpperCase(Lower(s))
  {
  }

  lemma CanonicalShape(s: string)
    requires NoEdgeSpace(s)
    ensures NoEdgeSpace(Canonical(s)) && NoUpperCase(Canonical(s))
    ensures forall i :: 0 <= i < |Canonical(s)| ==> Canonical(s)[i] != ' ' && Canonical(s)[i] != '-'
  {
    var l := Lower(s);
    LowerShape(s);
    var a := ReplaceChar(l, ' ', '_');
    ReplaceCharShape(l, ' ', '_');
    ReplaceCharShape(a, '-', '_');
  }

  /** A normalised header has no edge whitespace, no upper-case letter, no
      space and no hyphen. */
  lemma NormalizeHeaderShape(h: string)
    ensures NoEdgeSpace(NormalizeHeader(h)) && NoUpperCase(NormalizeHeader(h))
    ensures forall i :: 0 <= i < |NormalizeHeader(h)| ==> NormalizeHeader(h)[i] != ' ' && NormalizeHeader(h)[i] != '-'
  {
    StripAll(h);
    CanonicalShape(Strip(h));
  }

  lemma CanonicalOfCanonical(n: string)
    requires NoUpperCase(n)
    requires forall i :: 0 <= i < |n| ==> n[i] != ' ' && n[i] != '-'
    ensures Canonical(n) == n
  {
    assert Lower(n) == n;
  }

  /** A header already in normal form is left as it is. */
  lemma NormalizeNormal(n: string)
    requires NoEdgeSpace(n) && NoUpperCase(n)
    requires forall i :: 0 <= i < |n| ==> n[i] != ' ' && n[i] != '-'
    ensures NormalizeHeader(n) == n
  {
    StripOfTrimmed(n);
    CanonicalOfCanonical(n);
  }

  /** Normalising a header twice is normalising it once. */
  lemma NormalizeHeaderIdempotent(h: string)
    ensures NormalizeHeader(NormalizeHeader(h)) == NormalizeHeader(h)
  {
    NormalizeHeaderShape(h);
    NormalizeNormal(NormalizeHeader(h));
  }

  /** `COLUMN_ALIASES`. */
  const ColumnAliases: map<string, string> := map[
    "matriculadre" := "matricula",
    "datanascimento" := "data_nascimento",
    "dataingresso" := "data_ingresso",
    "dataconclusao" := "data_formacao",
    "pai" := "nome_pai",
    "mae" := "nome_mae",
    "codigo" := "codigo_curso",
    "situacaocurso" := "situacao_curso"]

  /** `EXPECTED_COLS`, in declaration order. */
  const ExpectedCols: seq<string> := [
    "matricula", "nome", "cpf", "nome_pai", "nome_mae",
    "data_nascimento", "data_ingresso", "data_formacao",
    "curso", "codigo_curso", "nivel", "situacao_curso"]

  /** The columns converted to dates when present. */
  const DateCols: seq<string> := ["data_nascimento", "data_ingresso", "data_formacao"]

  /** `aliases.get(col, col)`. */
  function ApplyAlias(aliases: map<string, string>, h: string): string {
    if h in aliases then aliases[h] else h
  }

  /** Every alias leads to an expected column, and none leads to another
      alias, so the map is applied once and for all. */
  lemma AliasesCanonical(h: string)
    ensures h in ColumnAliases ==> ApplyAlias(ColumnAliases, h) in ExpectedCols
    ensures ApplyAlias(ColumnAliases, ApplyAlias(ColumnAliases, h)) == ApplyAlias(ColumnAliases, h)
  {
  }

  /** The header list after normalisation and the alias map. */
  function CanonicalHeaders(headers: seq<string>, aliases: map<string, string>): (r: seq<string>)
    ensures |r| == |headers|
    ensures forall j :: 0 <= j < |headers| ==> r[j] == ApplyAlias(aliases, NormalizeHeader(headers[j]))
  {
    seq(|headers|, j requires 0 <= j < |headers| => ApplyAlias(aliases, NormalizeHeader(headers[j])))
  }

  function Rename(cols: seq<Column>, names: seq<string>): (r: seq<Column>)
    requires |names| == |cols|
    ensures |r| == |cols|
    ensures forall j :: 0 <= j < |cols| ==> r[j] == Column(names[j], cols[j].cells)
  {
    seq(|cols|, j requires 0 <= j < |cols| => Column(names[j], cols[j].cells))
  }

  // ---------------------------------------------------------------------
  // Date conversion
  // ---------------------------------------------------------------------

  /** `pd.to_datetime(errors="coerce")` on one cell: text the parser rejects
      becomes missing. */
  function ToDate(c: Cell, parse: string -> Option<Date>): Cell {
    match c
    case Text(s) => (match parse(s) case Some(d) => Day(d) case None => Null)
    case _ => c
  }

  function ConvertColumn(c: Column, parse: string -> Option<Date>): (r: Column)
    ensures r.name == c.name && |r.cells| == |c.cells|
    ensures forall i :: 0 <= i < |c.cells| ==> r.cells[i] == ToDate(c.cells[i], parse)
  {
    Column(c.name, seq(|c.cells|, i requires 0 <= i < |c.cells| => ToDate(c.cells[i], parse)))
  }

  /** The columns after converting those named in `which`. */
  function ConvertNamed(cols: seq<Column>, which: seq<string>, parse: string -> Option<Date>): (r: seq<Column>)
    ensures |r| == |cols|
    ensures forall j :: 0 <= j < |cols| ==> r[j] == (if cols[j].name in which then ConvertColumn(cols[j], parse) else cols[j])
  {
    seq(|cols|, j requires 0 <= j < |cols| => if cols[j].name in which then ConvertColumn(cols[j], parse) else cols[j])
  }

  /** The position of the column called `name`, if any. */
  function IndexOf(cols: seq<Column>, name: string): (r: Option<nat>)
    ensures r.Some? ==> r.value < |cols| && cols[r.value].name == name
    ensures r.None? ==> forall j :: 0 <= j < |cols| ==> cols[j].name != name
  {
    if cols == [] then None
    else if cols[|cols| - 1].name == name then Some(|cols| - 1)
    else IndexOf(cols[..|cols| - 1], name)
  }

  /** The date-conversion loop: each date column present is replaced by its
      converted cells. */
  method ConvertDateColumns(cols: seq<Column>, parse: string -> Option<Date>) returns (r: seq<Column>)
    requires DistinctNames(Names(cols))
    ensures r == ConvertNamed(cols, DateCols, parse)
  {
    r := cols;
    for k := 0 to |DateCols|
      invariant r == ConvertNamed(cols, DateCols[..k], parse)
    {
      var name := DateCols[k];
      var j := IndexOf(r, name);
      if j.Some? {
        r := r[j.value := ConvertColumn(r[j.value], parse)];
      }
      assert forall n :: n in DateCols[..k + 1] <==> n in DateCols[..k] || n == name;
      forall i | 0 <= i < |cols| && i != (if j.Some? then j.value else |cols|)
        ensures cols[i].name != name
      {
        if j.Some? {
          assert Names(cols)[i] != Names(cols)[j.value];
        }
      }
    }
    assert DateCols[..|DateCols|] == DateCols;
  }

  // ---------------------------------------------------------------------
  // Expected columns
  // ---------------------------------------------------------------------

  function NullColumn(name: string, height: nat): (c: Column)
    ensures c.name == name && |c.cells| == height
    ensures forall i :: 0 <= i < height ==> c.cells[i] == Null
  {
    Column(name, seq(height, _ => Null))
  }

  /** The columns after the loop over `expected`: each name not yet present
      is appended as an all-null column. */
  function AddMissing(cols: seq<Column>, height: nat, expected: seq<string>): seq<Column> {
    if expected == [] then cols
    else
      var before := AddMissing(cols, height, expected[..|expected| - 1]);
      var name := expected[|expected| - 1];
      if name in Names(before) then before else before + [NullColumn(name, height)]
  }

  /** The expected-columns loop of `read_egressos_excel`. */
  method AddExpectedColumns(cols: seq<Column>, height: nat, expected: seq<string>) returns (r: seq<Column>)
    ensures r == AddMissing(cols, height, expected)
  {
    r := cols;
    for k := 0 to |expected|
      invariant r == AddMissing(cols, height, expected[..k])
    {
      assert expected[..k + 1][..k] == expected[..k];
      var name := expected[k];
      var present := false;
      for j := 0 to |r|
        invariant present <==> exists i :: 0 <= i < j && r[i].name == name
      {
        if r[j].name == name {
          present := true;
        }
      }
      assert present <==> name in Names(r);
      if !present {
        r := r + [NullColumn(name, height)];
      }
    }
    assert expected[..|expected|] == expected;
  }

  /** The columns already there are kept as they are, in front. Every
      expected name ends up a column. Each added column is all-null, is
      expected, and was missing. Nothing is duplicated. */
  lemma {:induction false} AddMissingCorrect(cols: seq<Column>, height: nat, expected: seq<string>)
    ensures |AddMissing(cols, height, expected)| >= |cols|
    ensures AddMissing(cols, height, expected)[..|cols|] == cols
    ensures forall n :: n in expected ==> n in Names(AddMissing(cols, height, expected))
    ensures forall j :: |cols| <= j < |AddMissing(cols, height, expected)| ==>
      var c := AddMissing(cols, height, expected)[j];
      c.name in expected && c.name !in Names(cols) && |c.cells| == height
      && forall i :: 0 <= i < height ==> c.cells[i] == Null
    ensures DistinctNames(Names(cols)) ==> DistinctNames(Names(AddMissing(cols, height, expected)))
  {
    if expected != [] {
      var init := expected[..|expected| - 1];
      var name := expected[|expected| - 1];
      AddMissingCorrect(cols, height, init);
      var before := AddMissing(cols, height, init);
      assert forall n :: n in expected <==> n in init || n == name;
      if name !in Names(before) {
        var after := before + [NullColumn(name, height)];
        assert after[..|cols|] == before[..|cols|];
        assert Names(after) == Names(before) + [name];
        forall j | 0 <= j < |cols|
          ensures Names(cols)[j] != name
        {
          assert Names(before)[j] == before[j].name == cols[j].name;
        }
      }
    }
  }

  // ---------------------------------------------------------------------
  // Reading
  // ---------------------------------------------------------------------

  /** The frame `read_egressos_excel` returns, given whether the file exists,
      the sheet, the date parser, the alias map and the expected columns. */
  function Ingest(fileExists: bool, sheet: Frame, parse: string -> Option<Date>,
                  aliases: map<string, string>, expected: seq<string>): Result<Frame, IngestError>
  {
    if !fileExists then Failure(FileNotFound)
    else
      var names := CanonicalHeaders(Names(sheet.columns), aliases);
      if !DistinctNames(names) then Failure(DuplicateColumns)
      else
        var renamed := Rename(sheet.columns, names);
        Success(Frame(sheet.height, AddMissing(ConvertNamed(renamed, DateCols, parse), sheet.height, expected)))
  }

  /** `read_egressos_excel` of src/etl/ingest_excel.py. */
  method ReadEgressosExcel(fileExists: bool, sheet: Frame, parse: string -> Option<Date>)
    returns (r: Result<Frame, IngestError>)
    ensures r == Ingest(fileExists, sheet, parse, ColumnAliases, ExpectedCols)
  {
    if !fileExists {
      return Failure(FileNotFound);
    }
    var names := CanonicalHeaders(Names(sheet.columns), ColumnAliases);
    if !DistinctNames(names) {
      return Failure(DuplicateColumns);
    }
    var cols := Rename(sheet.columns, names);
    assert Names(cols) == names;
    cols := ConvertDateColumns(cols, parse);
    cols := AddExpectedColumns(cols, sheet.height, ExpectedCols);
    return Success(Frame(sheet.height, cols));
  }

  /** `SnapshotExpectedCols`: the older `EXPECTED_COLS`, whose last key is
      spelt `situacaoCurso`. */
  const SnapshotExpectedCols: seq<string> := [
    "matricula", "nome", "cpf", "nome_pai", "nome_mae",
    "data_nascimento", "data_ingresso", "data_formacao",
    "curso", "codigo_curso", "nivel", "situacaoCurso"]

  /** The older `read_egressos_excel`: the same steps with no alias map. */
  method ReadEgressosExcelSnapshot(fileExists: bool, sheet: Frame, parse: string -> Option<Date>)
    returns (r: Result<Frame, IngestError>)
    ensures r == Ingest(fileExists, sheet, parse, map[], SnapshotExpectedCols)
  {
    if !fileExists {
      return Failure(FileNotFound);
    }
    var names := CanonicalHeaders(Names(sheet.columns), map[]);
    if !DistinctNames(names) {
      return Failure(DuplicateColumns);
    }
    var cols := Rename(sheet.columns, names);
    assert Names(cols) == names;
    cols := ConvertDateColumns(cols, parse);
    cols := AddExpectedColumns(cols, sheet.height, SnapshotExpectedCols);
    return Success(Frame(sheet.height, cols));
  }

  /** A missing file raises; two headers that become the same name raise;
      otherwise the rows are kept, every sheet column stays in front under
      its canonical name (converted if it is a date column), every expected
      column exists, and the added ones are all-null. */
  lemma IngestCorrect(fileExists: bool, sheet: Frame, parse: string -> Option<Date>,
                      aliases: map<string, string>, expected: seq<string>)
    ensures Ingest(fileExists, sheet, parse, aliases, expected) == Failure(FileNotFound) <==> !fileExists
    ensures Ingest(fileExists, sheet, parse, aliases, expected) == Failure(DuplicateColumns) <==>
      fileExists && !DistinctNames(CanonicalHeaders(Names(sheet.columns), aliases))
    ensures var r := Ingest(fileExists, sheet, parse, aliases, expected);
      r.Success? ==>
        && r.value.height == sheet.height
        && |r.value.columns| >= |sheet.columns|
        && (forall j :: 0 <= j < |sheet.columns| ==>
              r.value.columns[j].name == ApplyAlias(aliases, NormalizeHeader(sheet.columns[j].name))
              && r.value.columns[j].cells ==
                 (if r.value.columns[j].name in DateCols then ConvertColumn(sheet.columns[j], parse).cells
                  else sheet.columns[j].cells))
        && (forall n :: n in expected ==> n in Names(r.value.columns))
        && DistinctNames(Names(r.value.columns))
        && (forall j :: |sheet.columns| <= j < |r.value.columns| ==>
              r.value.columns[j].name in expected && |r.value.columns[j].cells| == sheet.height
              && forall i :: 0 <= i < sheet.height ==> r.value.columns[j].cells[i] == Null)
  {
    var names := CanonicalHeaders(Names(sheet.columns), aliases);
    if fileExists && DistinctNames(names) {
      var renamed := Rename(sheet.columns, names);
      assert Names(renamed) == names;
      var converted := ConvertNamed(renamed, DateCols, parse);
      assert Names(converted) == names;
      AddMissingCorrect(converted, sheet.height, expected);
      var out := AddMissing(converted, sheet.height, expected);
      forall j | 0 <= j < |sheet.columns|
        ensures out[j] == converted[j]
      {
        assert out[..|converted|][j] == converted[j];
      }
    }
  }

  /** A well-formed sheet gives a well-formed frame. */
  lemma IngestWellFormed(fileExists: bool, sheet: Frame, parse: string -> Option<Date>,
                         aliases: map<string, string>, expected: seq<string>)
    requires WellFormed(sheet)
    ensures Ingest(fileExists, sheet, parse, aliases, expected).Success? ==>
      WellFormed(Ingest(fileExists, sheet, parse, aliases, expected).value)
  {
    IngestCorrect(fileExists, sheet, parse, aliases, expected);
  }

  /** After the current reader, date columns hold only dates and nulls. */
  lemma DateColumnsConverted(fileExists: bool, sheet: Frame, parse: string -> Option<Date>, j: nat, i: nat)
    requires Ingest(fileExists, sheet, parse, ColumnAliases, ExpectedCols).Success?
    requires j < |Ingest(fileExists, sheet, parse, ColumnAliases, ExpectedCols).value.columns|
    requires Ingest(fileExists, sheet, parse, ColumnAliases, ExpectedCols).value.columns[j].name in DateCols
    requires i < |Ingest(fileExists, sheet, parse, ColumnAliases, ExpectedCols).value.columns[j].cells|
    ensures !Ingest(fileExists, sheet, parse, ColumnAliases, ExpectedCols).value.columns[j].cells[i].Text?
  {
    IngestCorrect(fileExists, sheet, parse, ColumnAliases, ExpectedCols);
  }

  /** No header becomes `situacaoCurso`: its `C` is upper-case. */
  lemma NeverSituacaoCurso(h: string)
    ensures NormalizeHeader(h) != "situacaoCurso"
  {
    NormalizeHeaderShape(h);
    var n := NormalizeHeader(h);
    if |n| == 13 {
      assert !IsUpper(n[8]);
    }
  }

  /** So the older reader always adds that column, all-null. */
  lemma SnapshotSituacaoAlwaysNull(fileExists: bool, sheet: Frame, parse: string -> Option<Date>)
    requires Ingest(fileExists, sheet, parse, map[], SnapshotExpectedCols).Success?
    ensures var f := Ingest(fileExists, sheet, parse, map[], SnapshotExpectedCols).value;
      exists j :: |sheet.columns| <= j < |f.columns| && f.columns[j].name == "situacaoCurso"
        && |f.columns[j].cells| == f.height && forall i :: 0 <= i < f.height ==> f.columns[j].cells[i] == Null
  {
    var f := Ingest(fileExists, sheet, parse, map[], SnapshotExpectedCols).value;
    IngestCorrect(fileExists, sheet, parse, map[], SnapshotExpectedCols);
    assert "situacaoCurso" == SnapshotExpectedCols[11];
    var j :| 0 <= j < |f.columns| && Names(f.columns)[j] == "situacaoCurso";
    if j < |sheet.columns| {
      NeverSituacaoCurso(sheet.columns[j].name);
      assert false;
    }
  }
}
