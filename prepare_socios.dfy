/** Preparation of the partner (sócios) reference tables
    (src/cnpj/prepare_socios.py): digit and name cleaning, the CPF fragment
    rule, the output names given to extracted zip members, and the
    relational part of `build_socios_tables` that turns the CSV rows into
    the table of (CPF fragment, name) pairs and the table of names. Reading
    the CSV files is a parameter: one outcome per file, `None` for a file
    whose read raised. */
module PrepareSocios {
  import opened Seqs
  import opened Wrappers
  import opened Text
  import opened Order
  import opened Relational
  import Clean

  // ---------------------------------------------------------------------
  // Cell cleaning
  // ---------------------------------------------------------------------

  /** `_digits_only(s)`: the digit characters of `s`, "" for a missing or
      empty value. */
  function DigitsOnly(s: Option<string>): string {
    if s.None? || s.value == "" then "" else Digits(s.value)
  }

  /** `_normalize_name(s)`: transliterate, upper-case, split on whitespace
      and join the words with single spaces; "" for a missing or empty
      value. */
  function NormalizeName(s: Option<string>, translit: string -> string): string {
    if s.None? || s.value == "" then "" else JoinSpace(Words(Upper(translit(s.value))))
  }

  /** `_cpf_fragment_from_digits(d)`: characters 3 to 8 of an 11-or-more
      character string, the last six of a 6-to-10 character string, and ""
      otherwise. */
  function CpfFragment(d: Option<string>): string {
    if d.None? || d.value == "" then ""
    else if |d.value| >= 11 then d.value[3..9]
    else if |d.value| >= 6 then d.value[|d.value| - 6..]
    else ""
  }

  // ---------------------------------------------------------------------
  // Names of the extracted zip members (`_extract_all`)
  // ---------------------------------------------------------------------

  /** A path as its list of components. */
  type Path = seq<string>

  /** A member name inside a zip, as its (at least one) path components. */
  type EntryName = s: seq<string> | |s| > 0 witness [""]

  datatype Entry = Entry(name: EntryName, isDir: bool)

  /** A zip archive: the file name without its extension, and its members. */
  datatype Zip = Zip(stem: string, entries: seq<Entry>)

  /** The base name of the `k`-th data file of a zip: the zip's stem for the
      first, `stem__k` for the others. */
  function BaseName(stem: string, k: nat): string {
    if k == 1 then stem else stem + "__" + NatToString(k)
  }

  /** Where the `k`-th data file of a zip ends up: directly in `outDir`
      (flat mode) or in the member's own directory below `outDir`, always
      renamed to the base name plus ".csv". */
  function TargetPath(outDir: Path, stem: string, e: Entry, k: nat, preserveDirs: bool): (p: Path)
    ensures |p| > 0 && p[|p| - 1] == BaseName(stem, k) + ".csv"
  {
    var file := BaseName(stem, k) + ".csv";
    if preserveDirs then outDir + e.name[..|e.name| - 1] + [file] else outDir + [file]
  }

  /** The paths recorded for the members `entries` of one zip, directories
      skipped, the counter being the number of files seen so far. */
  function EntryTargets(stem: string, entries: seq<Entry>, outDir: Path, preserveDirs: bool): seq<Path>
    decreases |entries|
  {
    if entries == [] then []
    else
      var prev := EntryTargets(stem, entries[..|entries| - 1], outDir, preserveDirs);
      var e := entries[|entries| - 1];
      if e.isDir then prev else prev + [TargetPath(outDir, stem, e, |prev| + 1, preserveDirs)]
  }

  /** The paths recorded for all zips, in order. */
  function AllTargets(zips: seq<Zip>, outDir: Path, preserveDirs: bool): seq<Path>
    decreases |zips|
  {
    if zips == [] then []
    else
      var z := zips[|zips| - 1];
      AllTargets(zips[..|zips| - 1], outDir, preserveDirs) + EntryTargets(z.stem, z.entries, outDir, preserveDirs)
  }

  /** The members that are files, in order. */
  function Files(entries: seq<Entry>): seq<Entry> {
    Filter(entries, (e: Entry) => !e.isDir)
  }

  /** The inner loop of `_extract_all`: the paths recorded for the members
      of one zip, the counter restarting at each zip. */
  method ExtractZip(z: Zip, outDir: Path, preserveDirs: bool) returns (paths: seq<Path>)
    ensures paths == EntryTargets(z.stem, z.entries, outDir, preserveDirs)
  {
    paths := [];
    var emitted := 0;
    for j := 0 to |z.entries|
      invariant paths == EntryTargets(z.stem, z.entries[..j], outDir, preserveDirs)
      invariant emitted == |paths|
    {
      var info := z.entries[j];
      ExtractStep(z, j, paths, outDir, preserveDirs);
      if info.isDir {
        continue;
      }
      emitted := emitted + 1;
      paths := paths + [TargetPath(outDir, z.stem, info, emitted, preserveDirs)];
    }
    assert z.entries[..|z.entries|] == z.entries;
  }

  /** One member more: a file adds its path, a directory nothing. */
  lemma ExtractStep(z: Zip, j: nat, paths: seq<Path>, outDir: Path, preserveDirs: bool)
    requires j < |z.entries| && paths == EntryTargets(z.stem, z.entries[..j], outDir, preserveDirs)
    ensures EntryTargets(z.stem, z.entries[..j + 1], outDir, preserveDirs)
      == paths + (if z.entries[j].isDir then [] else [TargetPath(outDir, z.stem, z.entries[j], |paths| + 1, preserveDirs)])
  {
    var prefix := z.entries[..j + 1];
    assert prefix[..j] == z.entries[..j] && prefix[j] == z.entries[j];
    EntryTargetsStep(z.stem, prefix, outDir, preserveDirs);
  }

  /** `_extract_all(zips, out_dir, preserve_dirs=...)`: the list of paths it
      returns. The copying and renaming on disk are not modelled. */
  method ExtractAll(zips: seq<Zip>, outDir: Path, preserveDirs: bool) returns (extracted: seq<Path>)
    ensures extracted == AllTargets(zips, outDir, preserveDirs)
  {
    extracted := [];
    var i := 0;
    while i < |zips|
      invariant 0 <= i <= |zips|
      invariant extracted == AllTargets(zips[..i], outDir, preserveDirs)
    {
      var paths := ExtractZip(zips[i], outDir, preserveDirs);
      assert zips[..i + 1][..i] == zips[..i];
      extracted := extracted + paths;
      i := i + 1;
    }
    assert zips[..i] == zips;
  }

  // ---------------------------------------------------------------------
  // Reading the CSV files
  // ---------------------------------------------------------------------

  type Row = seq<Option<string>>

  /** A data frame: column names and rows of nullable text cells. */
  datatype Table = Table(columns: seq<string>, rows: seq<Row>)

  /** The Receita Federal layout of the partner files, column by column. */
  const RfbColumns: seq<string> := [
    "cnpj_basico", "identificador_socio", "nome_socio", "cpf_cnpj_socio",
    "qualificacao_socio", "data_entrada_sociedade", "pais",
    "representante_legal", "nome_representante",
    "qualificacao_representante", "faixa_etaria"]

  /** A file read with at least 11 columns gets the layout's names for its
      first 11 columns; a narrower one keeps the names it was read with. */
  function ApplyLayout(t: Table): Table {
    if |t.columns| >= 11 then Table(RfbColumns + t.columns[11..], t.rows) else t
  }

  /** The frames the read loop collects: one per successful read, in order. */
  function ReadTables(outcomes: seq<Option<Table>>): seq<Table>
    decreases |outcomes|
  {
    if outcomes == [] then []
    else
      var prev := ReadTables(outcomes[..|outcomes| - 1]);
      match outcomes[|outcomes| - 1]
      case None => prev
      case Some(t) => prev + [ApplyLayout(t)]
  }

  /** The read loop of `build_socios_tables`: a failed read is skipped, a
      successful one is renamed to the layout when wide enough and kept. */
  method ReadAll(outcomes: seq<Option<Table>>) returns (dfs: seq<Table>)
    ensures dfs == ReadTables(outcomes)
  {
    dfs := [];
    var i := 0;
    while i < |outcomes|
      invariant 0 <= i <= |outcomes|
      invariant dfs == ReadTables(outcomes[..i])
    {
      assert outcomes[..i + 1][..i] == outcomes[..i];
      if outcomes[i].Some? {
        var dfp := outcomes[i].value;
        if |dfp.columns| >= 11 {
          dfp := Table(RfbColumns + dfp.columns[11..], dfp.rows);
        }
        dfs := dfs + [dfp];
      }
      i := i + 1;
    }
    assert outcomes[..i] == outcomes;
  }

  // ---------------------------------------------------------------------
  // Building the tables
  // ---------------------------------------------------------------------

  datatype SociosError =
    | NoCsv            // empty list of files
    | AllReadsFailed   // no file could be read
    | ConcatMismatch   // the frames do not have the same columns
    | DuplicateColumn  // two columns have the same lower-case name
    | UnexpectedLayout // no name, identifier or document column

  /** The two tables: (CPF fragment, name) pairs, and names. */
  datatype SociosTables = SociosTables(porCpf: seq<(string, Option<string>)>, porNome: seq<string>)

  /** All rows of all frames, one after another. */
  function AllRows(dfs: seq<Table>): seq<Row>
    decreases |dfs|
  {
    if dfs == [] then [] else dfs[0].rows + AllRows(dfs[1..])
  }

  /** `pl.concat(dfs, how="vertical_relaxed")`: the frames stacked, which
      requires them all to have the same columns. */
  function Concat(dfs: seq<Table>): (r: Result<Table, SociosError>)
    requires |dfs| > 0
    ensures r.Success? <==> forall t :: t in dfs ==> t.columns == dfs[0].columns
    ensures r.Success? ==> r.value == Table(dfs[0].columns, AllRows(dfs))
  {
    if forall t :: t in dfs ==> t.columns == dfs[0].columns then Success(Table(dfs[0].columns, AllRows(dfs)))
    else Failure(ConcatMismatch)
  }

  const NomeAliases: set<string> := {"nome_socio", "nome_socio_razao_social", "nome_do_socio", "nome"}
  const IdAliases: set<string> := {"identificador_de_socio", "identificador_socio", "identificador do socio"}
  const DocAliases: set<string> := {"cpf_cnpj_socio", "cnpj_cpf_do_socio", "documento_socio"}

  /** The position of the first column, from `from` on, whose name is one of
      `aliases`. */
  function FindColumnFrom(columns: seq<string>, aliases: set<string>, from: nat): (r: Option<nat>)
    requires from <= |columns|
    ensures r.Some? ==> (from <= r.value < |columns| && columns[r.value] in aliases
      && forall j :: from <= j < r.value ==> columns[j] !in aliases)
    ensures r.None? ==> forall j :: from <= j < |columns| ==> columns[j] !in aliases
    decreases |columns| - from
  {
    if from == |columns| then None
    else if columns[from] in aliases then Some(from)
    else FindColumnFrom(columns, aliases, from + 1)
  }

  /** `next((c for c in df.columns if c in aliases), None)`. */
  function FindColumn(columns: seq<string>, aliases: set<string>): Option<nat> {
    FindColumnFrom(columns, aliases, 0)
  }

  /** The value of column `i` in a row; a short row reads as null. */
  function Cell(row: Row, i: nat): Option<string> {
    if i < |row| then row[i] else None
  }

  /** The three selected columns of a row, before cleaning. */
  datatype Partner = Partner(nome: Option<string>, identificador: Option<string>, doc: Option<string>)

  /** A row after `with_columns`: `map_elements` leaves nulls null. */
  datatype Cleaned = Cleaned(nomeNormalizado: Option<string>, identificador: Option<string>, docDigits: Option<string>)

  function CleanPartner(p: Partner, translit: string -> string): Cleaned {
    Cleaned(
      if p.nome.None? then None else Some(NormalizeName(p.nome, translit)),
      p.identificador,
      if p.doc.None? then None else Some(DigitsOnly(p.doc)))
  }

  /** The filter that selects individuals: identifier "2" and a document of
      at least six digits. */
  predicate IsIndividual(c: Cleaned) {
    c.identificador == Some("2") && c.docDigits.Some? && |c.docDigits.value| >= 6 && c.docDigits.value != ""
  }

  /** The filter as the source writes it: at least six UTF-8 bytes. */
  predicate IsIndividualAsWritten(c: Cleaned) {
    c.identificador == Some("2") && c.docDigits.Some? && Utf8Length(c.docDigits.value) >= 6 && c.docDigits.value != ""
  }

  function FragmentPair(c: Cleaned): (string, Option<string>) {
    (CpfFragment(c.docDigits), c.nomeNormalizado)
  }

  /** `socios_por_cpf`: distinct (fragment, name) pairs of the individuals,
      sorted by fragment, then name (null names first). */
  function SociosPorCpf(rows: seq<Cleaned>): seq<(string, Option<string>)> {
    SortUnique(Map(Filter(rows, IsIndividual), FragmentPair), PairLess)
  }

  /** The present, non-empty normalised names of the rows, in order. */
  function PresentNames(rows: seq<Cleaned>): seq<string>
    decreases |rows|
  {
    if rows == [] then []
    else
      var n := rows[0].nomeNormalizado;
      (if n.Some? && n.value != "" then [n.value] else []) + PresentNames(rows[1..])
  }

  /** `socios_por_nome`: the distinct non-empty names of all rows, sorted. */
  function SociosPorNome(rows: seq<Cleaned>): seq<string> {
    SortUnique(PresentNames(rows), StrLess)
  }

  /** `build_socios_tables` on the outcomes of reading each listed file. */
  function BuildSociosTables(outcomes: seq<Option<Table>>, translit: string -> string): Result<SociosTables, SociosError> {
    if outcomes == [] then Failure(NoCsv)
    else
      var dfs := ReadTables(outcomes);
      if dfs == [] then Failure(AllReadsFailed)
      else match Concat(dfs)
        case Failure(e) => Failure(e)
        case Success(df) =>
          var columns := Map(df.columns, Lower);
          if !Distinct(columns) then Failure(DuplicateColumn)
          else
            var colNome := FindColumn(columns, NomeAliases);
            var colId := FindColumn(columns, IdAliases);
            var colDoc := FindColumn(columns, DocAliases);
            if colNome.None? || colId.None? || colDoc.None? then Failure(UnexpectedLayout)
            else
              var rows := Map(df.rows, (row: Row) =>
                CleanPartner(Partner(Cell(row, colNome.value), Cell(row, colId.value), Cell(row, colDoc.value)), translit));
              Success(SociosTables(SociosPorCpf(rows), SociosPorNome(rows)))
  }

  // ---------------------------------------------------------------------
  // Lemmas: cell cleaning
  // ---------------------------------------------------------------------

  /** `_digits_only` keeps exactly the digit characters, in order, and is
      idempotent. */
  lemma {:induction false} DigitsIsFilter(s: string)
    ensures Digits(s) == Filter(s, IsDigit)
    decreases |s|
  {
    if s != [] {
      DigitsIsFilter(s[1..]);
    }
  }

  lemma DigitsOnlyCorrect(s: Option<string>)
    ensures s.None? ==> DigitsOnly(s) == ""
    ensures s.Some? ==> DigitsOnly(s) == Filter(s.value, IsDigit)
    ensures DigitsOnly(Some(DigitsOnly(s))) == DigitsOnly(s)
  {
    if s.Some? {
      DigitsIsFilter(s.value);
      DigitsOfDigits(DigitsOnly(s));
    }
  }

  /** This module's `_normalize_name` agrees with `normalize_name` of the
      utilities module whenever transliteration behaves as `unidecode`. */
  lemma NormalizeNameAgrees(s: Option<string>, translit: string -> string)
    requires Clean.Unidecode(translit)
    ensures NormalizeName(s, translit) == Clean.NormalizeName(s, translit)
  {
    if s.Some? {
      var t := translit(s.value);
      WordsJoinIsCollapseStrip(Upper(t));
      Clean.NormalizeNameCaseInsensitive(s.value, translit);
      if s.value == "" {
        assert IsAsciiString(s.value);
        assert t == "";
      }
    }
  }

  /** A normalised partner name is upper-case words joined by single spaces,
      with no surrounding whitespace; it is empty for a missing value. */
  lemma NormalizeNameShape(s: Option<string>, translit: string -> string)
    ensures s.None? ==> NormalizeName(s, translit) == ""
    ensures Clean.Normalised(NormalizeName(s, translit))
  {
    if s.Some? && s.value != "" {
      var t := translit(s.value);
      WordsJoinIsCollapseStrip(Upper(t));
      Clean.NormalizeNameCaseInsensitive(s.value, translit);
      Clean.NormalizeNameShape(s, translit);
    }
  }

  /** A fragment is always empty or six characters long. */
  lemma CpfFragmentLength(d: Option<string>)
    ensures |CpfFragment(d)| == 0 || |CpfFragment(d)| == 6
    ensures d.Some? && |d.value| >= 6 ==> |CpfFragment(d)| == 6
  {
  }

  /** Eleven or more digits give the middle slice, six to ten the suffix,
      fewer nothing. */
  lemma CpfFragmentPosition(d: string)
    ensures |d| >= 11 ==> CpfFragment(Some(d)) == d[3..9] && d == d[..3] + CpfFragment(Some(d)) + d[9..]
    ensures 6 <= |d| < 11 ==> d == d[..|d| - 6] + CpfFragment(Some(d))
    ensures |d| < 6 ==> CpfFragment(Some(d)) == ""
  {
  }

  /** `_cpf_fragment_from_digits("12345678901") == "456789"`. */
  lemma CpfFragmentExample()
    ensures CpfFragment(Some("12345678901")) == "456789"
    ensures CpfFragment(Some("1234567")) == "234567"
    ensures CpfFragment(Some("12345")) == ""
  {
  }

  // ---------------------------------------------------------------------
  // Lemmas: member names
  // ---------------------------------------------------------------------

  /** Different counters give different base names. */
  lemma BaseNameInjective(stem: string, k: nat, k': nat)
    requires 1 <= k && 1 <= k' && k != k'
    ensures BaseName(stem, k) + ".csv" != BaseName(stem, k') + ".csv"
  {
    var a, b := BaseName(stem, k) + ".csv", BaseName(stem, k') + ".csv";
    if k == 1 || k' == 1 {
      assert |a| != |b|;
    } else if a == b {
      var n := |stem| + 2;
      assert BaseName(stem, k) == a[..|a| - 4];
      assert BaseName(stem, k') == b[..|b| - 4];
      assert NatToString(k) == BaseName(stem, k)[n..];
      assert NatToString(k') == BaseName(stem, k')[n..];
      NatToStringInjective(k, k');
      assert false;
    }
  }

  /** Each step of `EntryTargets` adds one path for a file and none for a
      directory. */
  lemma EntryTargetsStep(stem: string, entries: seq<Entry>, outDir: Path, preserveDirs: bool)
    requires entries != []
    ensures var prev := EntryTargets(stem, entries[..|entries| - 1], outDir, preserveDirs);
      var e := entries[|entries| - 1];
      EntryTargets(stem, entries, outDir, preserveDirs)
        == prev + (if e.isDir then [] else [TargetPath(outDir, stem, e, |prev| + 1, preserveDirs)])
  {
  }

  /** One path is recorded per member file. */
  lemma {:induction false} EntryTargetsCount(stem: string, entries: seq<Entry>, outDir: Path, preserveDirs: bool)
    ensures |EntryTargets(stem, entries, outDir, preserveDirs)| == |Files(entries)|
    decreases |entries|
  {
    if entries != [] {
      var init := entries[..|entries| - 1];
      var e := entries[|entries| - 1];
      EntryTargetsCount(stem, init, outDir, preserveDirs);
      FilesLast(entries);
      assert |EntryTargets(stem, entries, outDir, preserveDirs)|
        == |EntryTargets(stem, init, outDir, preserveDirs)| + (if e.isDir then 0 else 1);
    }
  }

  /** The `i`-th path (from 0) is named after the zip and counter `i + 1`. */
  predicate NamedInOrder(stem: string, ts: seq<Path>) {
    forall i :: 0 <= i < |ts| ==> |ts[i]| > 0 && ts[i][|ts[i]| - 1] == BaseName(stem, i + 1) + ".csv"
  }

  lemma NamedInOrderSnoc(stem: string, ts: seq<Path>, p: Path)
    requires NamedInOrder(stem, ts)
    requires |p| > 0 && p[|p| - 1] == BaseName(stem, |ts| + 1) + ".csv"
    ensures NamedInOrder(stem, ts + [p])
  {
    var ts' := ts + [p];
    forall i | 0 <= i < |ts'| ensures |ts'[i]| > 0 && ts'[i][|ts'[i]| - 1] == BaseName(stem, i + 1) + ".csv" {
      if i < |ts| {
        assert ts'[i] == ts[i];
      }
    }
  }

  /** The `k`-th recorded path of a zip carries the base name for `k`. */
  lemma {:induction false} EntryTargetsNames(stem: string, entries: seq<Entry>, outDir: Path, preserveDirs: bool)
    ensures NamedInOrder(stem, EntryTargets(stem, entries, outDir, preserveDirs))
    decreases |entries|
  {
    if entries != [] {
      var init := entries[..|entries| - 1];
      var e := entries[|entries| - 1];
      EntryTargetsNames(stem, init, outDir, preserveDirs);
      EntryTargetsStep(stem, entries, outDir, preserveDirs);
      var prev := EntryTargets(stem, init, outDir, preserveDirs);
      if !e.isDir {
        NamedInOrderSnoc(stem, prev, TargetPath(outDir, stem, e, |prev| + 1, preserveDirs));
      }
    }
  }

  lemma {:induction false} FilesSnoc(init: seq<Entry>, e: Entry)
    ensures Files(init + [e]) == Files(init) + (if e.isDir then [] else [e])
    decreases |init|
  {
    if init == [] {
      assert init + [e] == [e];
    } else {
      assert (init + [e])[1..] == init[1..] + [e];
      FilesSnoc(init[1..], e);
    }
  }

  lemma FilesLast(s: seq<Entry>)
    requires s != []
    ensures |Files(s)| == |Files(s[..|s| - 1])| + (if s[|s| - 1].isDir then 0 else 1)
  {
    FilesSnoc(s[..|s| - 1], s[|s| - 1]);
    assert s == s[..|s| - 1] + [s[|s| - 1]];
  }

  /** Within one zip, one path is recorded per member file, and no two
      recorded paths coincide: the first is named after the zip and the
      `k`-th after the zip and `k`. */
  lemma ZipTargetsDistinct(stem: string, entries: seq<Entry>, outDir: Path, preserveDirs: bool)
    ensures |EntryTargets(stem, entries, outDir, preserveDirs)| == |Files(entries)|
    ensures forall i, j :: 0 <= i < j < |EntryTargets(stem, entries, outDir, preserveDirs)| ==>
      EntryTargets(stem, entries, outDir, preserveDirs)[i] != EntryTargets(stem, entries, outDir, preserveDirs)[j]
  {
    EntryTargetsCount(stem, entries, outDir, preserveDirs);
    EntryTargetsNames(stem, entries, outDir, preserveDirs);
    NamedInOrderDistinct(stem, EntryTargets(stem, entries, outDir, preserveDirs));
  }

  lemma NamedInOrderDistinct(stem: string, ts: seq<Path>)
    requires NamedInOrder(stem, ts)
    ensures forall i, j :: 0 <= i < j < |ts| ==> ts[i] != ts[j]
  {
    forall i, j | 0 <= i < j < |ts| ensures ts[i] != ts[j] {
      BaseNameInjective(stem, i + 1, j + 1);
      assert ts[i][|ts[i]| - 1] != ts[j][|ts[j]| - 1];
    }
  }

  /** With flat output a zip whose files are `a.csv` and `b.csv` (after a
      directory) gives `out/Z.csv` and `out/Z__2.csv`. */
  lemma ExtractFlatExample()
    ensures AllTargets([Zip("Z", [Entry(["a.csv"], false), Entry(["d"], true), Entry(["b.csv"], false)])], ["out"], false)
      == [["out", "Z.csv"], ["out", "Z__2.csv"]]
  {
    var es := [Entry(["a.csv"], false), Entry(["d"], true), Entry(["b.csv"], false)];
    var zs := [Zip("Z", es)];
    assert zs[..0] == [];
    assert es[..2][..1] == es[..1];
    assert es[..1][..0] == [];
    assert NatToString(2) == "2";
    assert BaseName("Z", 1) + ".csv" == "Z.csv";
    assert BaseName("Z", 2) + ".csv" == "Z__2.csv";
    assert EntryTargets("Z", es[..1][..0], ["out"], false) == [];
    assert TargetPath(["out"], "Z", es[0], 1, false) == ["out", "Z.csv"];
    assert TargetPath(["out"], "Z", es[2], 2, false) == ["out", "Z__2.csv"];
    EntryTargetsStep("Z", es[..1], ["out"], false);
    assert EntryTargets("Z", es[..1], ["out"], false) == [["out", "Z.csv"]];
    EntryTargetsStep("Z", es[..2], ["out"], false);
    assert EntryTargets("Z", es[..2], ["out"], false) == [["out", "Z.csv"]];
    EntryTargetsStep("Z", es, ["out"], false);
  }

  // ---------------------------------------------------------------------
  // Lemmas: reading and building
  // ---------------------------------------------------------------------

  /** The read loop yields nothing exactly when every read failed. */
  lemma {:induction false} ReadTablesEmptyIff(outcomes: seq<Option<Table>>)
    ensures ReadTables(outcomes) == [] <==> forall i :: 0 <= i < |outcomes| ==> outcomes[i].None?
    decreases |outcomes|
  {
    if outcomes != [] {
      var init := outcomes[..|outcomes| - 1];
      ReadTablesEmptyIff(init);
      if ReadTables(outcomes) == [] {
        forall i | 0 <= i < |outcomes| ensures outcomes[i].None? {
          if i < |init| {
            assert outcomes[i] == init[i];
          }
        }
      }
    }
  }

  /** The read loop keeps one frame per successful read, and each frame of
      at least 11 columns comes out with the layout's names in front. */
  lemma {:induction false} ReadTablesLayout(outcomes: seq<Option<Table>>)
    ensures |ReadTables(outcomes)| <= |outcomes|
    ensures forall t :: t in ReadTables(outcomes) && |t.columns| >= 11 ==> t.columns[..11] == RfbColumns
    decreases |outcomes|
  {
    if outcomes != [] {
      ReadTablesLayout(outcomes[..|outcomes| - 1]);
    }
  }

  /** The errors of `build_socios_tables`, in the order it checks them. */
  lemma BuildSociosTablesErrors(outcomes: seq<Option<Table>>, translit: string -> string)
    ensures outcomes == [] ==> BuildSociosTables(outcomes, translit) == Failure(NoCsv)
    ensures outcomes != [] && (forall i :: 0 <= i < |outcomes| ==> outcomes[i].None?) ==>
      BuildSociosTables(outcomes, translit) == Failure(AllReadsFailed)
    ensures outcomes != [] && (exists i :: 0 <= i < |outcomes| && outcomes[i].Some?) ==>
      BuildSociosTables(outcomes, translit) != Failure(NoCsv) && BuildSociosTables(outcomes, translit) != Failure(AllReadsFailed)
  {
    ReadTablesEmptyIff(outcomes);
  }

  /** A frame with one of each alias, in any columns, is accepted: only a
      missing name, identifier or document column is a layout error. */
  lemma LayoutErrorIff(columns: seq<string>)
    ensures (FindColumn(columns, NomeAliases).None? || FindColumn(columns, IdAliases).None? || FindColumn(columns, DocAliases).None?)
      <==> ((forall j :: 0 <= j < |columns| ==> columns[j] !in NomeAliases)
        || (forall j :: 0 <= j < |columns| ==> columns[j] !in IdAliases)
        || (forall j :: 0 <= j < |columns| ==> columns[j] !in DocAliases))
  {
  }

  lemma {:induction false} PresentNamesMembers(rows: seq<Cleaned>)
    ensures forall n :: n in PresentNames(rows) <==> n != "" && exists c :: c in rows && c.nomeNormalizado == Some(n)
    decreases |rows|
  {
    if rows != [] {
      PresentNamesMembers(rows[1..]);
      forall c | c in rows ensures c == rows[0] || c in rows[1..] {
        var k :| 0 <= k < |rows| && rows[k] == c;
        if k > 0 { assert rows[1..][k - 1] == c; }
      }
    }
  }

  /** `socios_por_cpf` is strictly sorted by (fragment, name), so free of
      duplicates, holds exactly the pairs of the individuals' rows, and every
      fragment in it has six characters. */
  lemma SociosPorCpfCorrect(rows: seq<Cleaned>)
    ensures StrictlySorted(SociosPorCpf(rows), PairLess)
    ensures forall p :: p in SociosPorCpf(rows) <==> exists c :: c in rows && IsIndividual(c) && p == FragmentPair(c)
    ensures forall p :: p in SociosPorCpf(rows) ==> |p.0| == 6
  {
    var ind := Filter(rows, IsIndividual);
    var pairs := Map(ind, FragmentPair);
    PairLessIsOrder();
    SortUniqueCorrect(pairs, PairLess);
    forall p ensures p in pairs <==> exists c :: c in rows && IsIndividual(c) && p == FragmentPair(c) {
      if p in pairs {
        var k :| 0 <= k < |pairs| && pairs[k] == p;
        assert ind[k] in ind;
      } else {
        forall c | c in rows && IsIndividual(c) ensures p != FragmentPair(c) {
          assert c in ind;
          var k :| 0 <= k < |ind| && ind[k] == c;
          assert pairs[k] == FragmentPair(c);
        }
      }
    }
    forall p | p in pairs ensures |p.0| == 6 {
      var k :| 0 <= k < |pairs| && pairs[k] == p;
      assert ind[k] in ind;
      CpfFragmentLength(ind[k].docDigits);
    }
  }

  /** `socios_por_nome` is strictly sorted, so free of duplicates, and holds
      exactly the non-empty normalised names of all rows. */
  lemma SociosPorNomeCorrect(rows: seq<Cleaned>)
    ensures StrictlySorted(SociosPorNome(rows), StrLess)
    ensures forall n :: n in SociosPorNome(rows) <==> n != "" && exists c :: c in rows && c.nomeNormalizado == Some(n)
  {
    StrLessIsOrder();
    SortUniqueCorrect(PresentNames(rows), StrLess);
    PresentNamesMembers(rows);
  }

  /** Both tables are determined by their contents: any strictly sorted
      list holding the same pairs is `socios_por_cpf`. */
  lemma SociosPorCpfDetermined(rows: seq<Cleaned>, other: seq<(string, Option<string>)>)
    requires StrictlySorted(other, PairLess)
    requires forall p :: p in other <==> exists c :: c in rows && IsIndividual(c) && p == FragmentPair(c)
    ensures other == SociosPorCpf(rows)
  {
    SociosPorCpfCorrect(rows);
    PairLessIsOrder();
    SortedUniqueDetermined(other, SociosPorCpf(rows), PairLess);
  }

  // ---------------------------------------------------------------------
  // The byte-length filter
  // ---------------------------------------------------------------------

  /** On ASCII digit strings the filter as written and the corrected filter
      agree. */
  lemma FiltersAgreeOnAscii(c: Cleaned)
    requires c.docDigits.Some? && IsAsciiString(c.docDigits.value)
    ensures IsIndividual(c) <==> IsIndividualAsWritten(c)
  {
    Utf8LengthAscii(c.docDigits.value);
  }

  /** As written, a document of three superscript digits (a Latin-1 file can
      hold them, and `str.isdigit` accepts them) has six UTF-8 bytes, passes
      the filter and yields an empty fragment. */
  lemma AsWrittenFilterAdmitsEmptyFragment()
    ensures var c := CleanPartner(Partner(Some("X"), Some("2"), Some("²²²")), (s: string) => s);
      IsIndividualAsWritten(c) && !IsIndividual(c) && CpfFragment(c.docDigits) == ""
  {
    var d := "²²²";
    assert Digits(d[2..]) == d[2..];
    assert Digits(d[1..]) == d[1..];
    assert Digits(d) == d;
    assert Utf8Length(d) == 6;
  }
}
