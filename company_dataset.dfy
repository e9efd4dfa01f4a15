/** Assembly of the company dataset for the partners' companies
    (src/etl/build_company_dataset.py): the target base CNPJs gathered from
    the alumni table, the choice of the latest extraction directory, the
    per-table loading (restriction to the targets, one row per key for
    Empresas and Simples, establishments grouped per company with the first
    head office picked out) and the chain of left joins that yields one row
    per target. Reading the files is a parameter: the rows of each table
    in a given extraction directory. */
module CompanyDataset {
  import opened Seqs
  import opened Wrappers
  import opened Order
  import opened Relational

  type Cell = Option<string>

  // ---------------------------------------------------------------------
  // Targets (`_collect_cnpjs_from_parquet`, `_ensure_targets`)
  // ---------------------------------------------------------------------

  datatype BuildError =
    | EgressosNotFound
    | MissingCnpjColumn
    | NoTargets
    | NoExtractDir

  /** One list cell exploded: a null or empty list gives one null value. */
  function ExplodeCell(c: Option<seq<Cell>>): seq<Cell> {
    if c.None? || c.value == [] then [None] else c.value
  }

  /** The present, non-empty values, in order. */
  function NonEmptyValues(cs: seq<Cell>): (r: seq<string>)
    ensures forall x :: x in r <==> x != "" && Some(x) in cs
    decreases |cs|
  {
    if cs == [] then []
    else
      (if cs[0].Some? && cs[0].value != "" then [cs[0].value] else []) + NonEmptyValues(cs[1..])
  }

  /** `_collect_cnpjs_from_parquet` after the scan: the company codes of
      every list of the `cnpj_basico` column, without nulls and empty
      strings. The source returns them as a set; here they are listed in
      the column's order, repetitions included. */
  function CollectCnpjs(fileExists: bool, columns: set<string>, cnpjLists: seq<Option<seq<Cell>>>): Result<seq<string>, BuildError> {
    if !fileExists then Failure(EgressosNotFound)
    else if "cnpj_basico" !in columns then Failure(MissingCnpjColumn)
    else Success(NonEmptyValues(Flatten(Map(cnpjLists, ExplodeCell))))
  }

  function NonEmpty(s: string): bool {
    s != ""
  }

  /** `_ensure_targets`: the distinct non-empty codes in ascending order, or
      the error when there are none. */
  function EnsureTargets(cnpjs: seq<string>): Result<seq<string>, BuildError> {
    var targets := SortUnique(Filter(cnpjs, NonEmpty), StrLess);
    if targets == [] then Failure(NoTargets) else Success(targets)
  }

  // ---------------------------------------------------------------------
  // Latest extraction directory (`_find_latest_extract_dir`)
  // ---------------------------------------------------------------------

  /** The spec of the search: among the directory names in ascending order,
      those holding an `extracted_all` directory; the last of them. */
  function LatestExtractDir(dirs: seq<string>, hasExtract: string -> bool): Result<string, BuildError> {
    var last := LastWhere(SortUnique(dirs, StrLess), hasExtract);
    if last.None? then Failure(NoExtractDir) else Success(last.value)
  }

  /** The last element satisfying `p`. */
  function LastWhere(s: seq<string>, p: string -> bool): Option<string>
    decreases |s|
  {
    if s == [] then None
    else if p(s[|s| - 1]) then Some(s[|s| - 1])
    else LastWhere(s[..|s| - 1], p)
  }

  /** The search itself: the names in descending order, the first one whose
      `extracted_all` exists. */
  method FindLatestExtractDir(dirs: seq<string>, hasExtract: string -> bool) returns (r: Result<string, BuildError>)
    ensures r == LatestExtractDir(dirs, hasExtract)
  {
    var candidates := SortUnique(dirs, StrLess);
    var i := |candidates|;
    assert candidates[..i] == candidates;
    while i > 0
      invariant 0 <= i <= |candidates|
      invariant LastWhere(candidates[..i], hasExtract) == LastWhere(candidates, hasExtract)
    {
      assert candidates[..i][..i - 1] == candidates[..i - 1];
      i := i - 1;
      if hasExtract(candidates[i]) {
        return Success(candidates[i]);
      }
    }
    return Failure(NoExtractDir);
  }

  // ---------------------------------------------------------------------
  // Tables
  // ---------------------------------------------------------------------

  /** A row of Empresas: the base code and the other six columns. */
  datatype Empresa = Empresa(cnpjBasico: Cell, fields: seq<Cell>)

  /** A row of Simples: the base code and the other six columns. */
  datatype Simples = Simples(cnpjBasico: Cell, fields: seq<Cell>)

  /** A row of Estabelecimentos: the columns the code reads by name, and
      the others. */
  datatype Estab = Estab(
    cnpjBasico: Cell, cnpjOrdem: Cell, cnpjDv: Cell, identificadorMatrizFilial: Cell,
    situacaoCadastral: Cell, dataInicioAtividade: Cell, uf: Cell,
    cnaeFiscalPrincipal: Cell, cnaeFiscalSecundaria: Cell, others: seq<Cell>)

  /** `_estab_struct`: the establishment with its full `cnpj`. */
  datatype EstabStruct = EstabStruct(estab: Estab, cnpj: Cell)

  /** The rows read from one extraction directory. */
  datatype Extract = Extract(empresas: seq<Empresa>, estabelecimentos: seq<Estab>, simples: seq<Simples>)

  function EmpresaKey(e: Empresa): Cell {
    e.cnpjBasico
  }

  function SimplesKey(s: Simples): Cell {
    s.cnpjBasico
  }

  function EstabKey(e: Estab): Cell {
    e.cnpjBasico
  }

  function StructKey(s: EstabStruct): Cell {
    s.estab.cnpjBasico
  }

  /** The inner join of a table with the targets: its rows whose code is a
      target. */
  function Restrict<T(!new)>(rows: seq<T>, key: T -> Cell, targets: seq<string>): seq<T> {
    Filter(rows, (r: T) => key(r).Some? && key(r).value in targets)
  }

  /** `_load_empresas`: the target rows, one per code. */
  function LoadEmpresas(rows: seq<Empresa>, targets: seq<string>): seq<Empresa> {
    DedupBy(Restrict(rows, EmpresaKey, targets), EmpresaKey)
  }

  /** `_load_simples`: the target rows, one per code. */
  function LoadSimples(rows: seq<Simples>, targets: seq<string>): seq<Simples> {
    DedupBy(Restrict(rows, SimplesKey, targets), SimplesKey)
  }

  /** The full CNPJ: base, order and check digits concatenated; null when
      any of them is null. */
  function EstabCnpj(e: Estab): (c: Cell)
    ensures c.Some? <==> e.cnpjBasico.Some? && e.cnpjOrdem.Some? && e.cnpjDv.Some?
  {
    if e.cnpjBasico.Some? && e.cnpjOrdem.Some? && e.cnpjDv.Some?
    then Some(e.cnpjBasico.value + e.cnpjOrdem.value + e.cnpjDv.value)
    else None
  }

  function ToStruct(e: Estab): EstabStruct {
    EstabStruct(e, EstabCnpj(e))
  }

  predicate IsMatriz(s: EstabStruct) {
    s.estab.identificadorMatrizFilial == Some("1")
  }

  /** The establishment structs of the target companies. */
  function EstabStructs(rows: seq<Estab>, targets: seq<string>): seq<EstabStruct> {
    Map(Restrict(rows, EstabKey, targets), ToStruct)
  }

  /** `_load_estabelecimentos`: the structs grouped per code, and the first
      head office per code; both empty when no establishment is a target. */
  function LoadEstabelecimentos(rows: seq<Estab>, targets: seq<string>): (seq<(Cell, seq<EstabStruct>)>, seq<EstabStruct>) {
    var structs := EstabStructs(rows, targets);
    if structs == [] then ([], [])
    else (GroupBy(structs, StructKey), DedupBy(Filter(structs, IsMatriz), StructKey))
  }

  // ---------------------------------------------------------------------
  // The join chain (`build_company_dataset`)
  // ---------------------------------------------------------------------

  /** A row of the result: the target code, then what each join brought
      (`None` for no match or a join not made). */
  datatype CompanyRow = CompanyRow(
    cnpjBasico: string, empresa: Option<Empresa>, simples: Option<Simples>,
    estabelecimentos: Option<seq<EstabStruct>>, matriz: Option<EstabStruct>)

  function Blank(t: string): CompanyRow {
    CompanyRow(t, None, None, None, None)
  }

  function RowKey(r: CompanyRow): Cell {
    Some(r.cnpjBasico)
  }

  function GroupKey(g: (Cell, seq<EstabStruct>)): Cell {
    g.0
  }

  function WithEmpresa(j: (CompanyRow, Option<Empresa>)): CompanyRow {
    j.0.(empresa := j.1)
  }

  function WithSimples(j: (CompanyRow, Option<Simples>)): CompanyRow {
    j.0.(simples := j.1)
  }

  function WithEstabs(j: (CompanyRow, Option<(Cell, seq<EstabStruct>)>)): CompanyRow {
    j.0.(estabelecimentos := EstabsOf(j.1))
  }

  function EstabsOf(g: Option<(Cell, seq<EstabStruct>)>): Option<seq<EstabStruct>> {
    if g.Some? then Some(g.value.1) else None
  }

  function WithMatriz(j: (CompanyRow, Option<EstabStruct>)): CompanyRow {
    j.0.(matriz := j.1)
  }

  /** The conditional left joins, each made only when its table is not
      empty. */
  function JoinChain(targets: seq<string>, empresas: seq<Empresa>, simples: seq<Simples>,
                     aggregated: seq<(Cell, seq<EstabStruct>)>, matriz: seq<EstabStruct>): seq<CompanyRow>
  {
    JoinMatriz(JoinEstabs(JoinSimples(JoinEmpresas(Map(targets, Blank), empresas), simples), aggregated), matriz)
  }

  function JoinEmpresas(rows: seq<CompanyRow>, empresas: seq<Empresa>): seq<CompanyRow> {
    if empresas == [] then rows else Map(LeftJoin(rows, empresas, RowKey, EmpresaKey), WithEmpresa)
  }

  function JoinSimples(rows: seq<CompanyRow>, simples: seq<Simples>): seq<CompanyRow> {
    if simples == [] then rows else Map(LeftJoin(rows, simples, RowKey, SimplesKey), WithSimples)
  }

  function JoinEstabs(rows: seq<CompanyRow>, aggregated: seq<(Cell, seq<EstabStruct>)>): seq<CompanyRow> {
    if aggregated == [] then rows else Map(LeftJoin(rows, aggregated, RowKey, GroupKey), WithEstabs)
  }

  function JoinMatriz(rows: seq<CompanyRow>, matriz: seq<EstabStruct>): seq<CompanyRow> {
    if matriz == [] then rows else Map(LeftJoin(rows, matriz, RowKey, StructKey), WithMatriz)
  }

  /** The exported head-office columns `situacao_cadastral`,
      `data_inicio_atividade`, `uf`, `cnae_fiscal_principal` and
      `cnae_fiscal_secundaria`: copied from the head office, null without
      one. */
  function MatrizExport(m: Option<EstabStruct>): seq<Cell> {
    if m.None? then [None, None, None, None, None]
    else
      var e := m.value.estab;
      [e.situacaoCadastral, e.dataInicioAtividade, e.uf, e.cnaeFiscalPrincipal, e.cnaeFiscalSecundaria]
  }

  /** An output row with its exported head-office columns. */
  datatype OutputRow = OutputRow(company: CompanyRow, exported: seq<Cell>)

  function Export(r: CompanyRow): OutputRow {
    OutputRow(r, MatrizExport(r.matriz))
  }

  /** The dataset for the given targets and the rows read from the chosen
      extraction directory. */
  function AssembleDataset(targets: seq<string>, files: Extract): seq<OutputRow> {
    var agg_mat := LoadEstabelecimentos(files.estabelecimentos, targets);
    var rows := JoinChain(targets, LoadEmpresas(files.empresas, targets), LoadSimples(files.simples, targets),
                          agg_mat.0, agg_mat.1);
    Map(rows, Export)
  }

  /** `build_company_dataset` up to the write: collect the targets, pick the
      extraction directory, load and join. */
  function BuildCompanyDataset(fileExists: bool, columns: set<string>, cnpjLists: seq<Option<seq<Cell>>>,
                               dirs: seq<string>, hasExtract: string -> bool, read: string -> Extract): Result<seq<OutputRow>, BuildError>
  {
    match CollectCnpjs(fileExists, columns, cnpjLists)
    case Failure(e) => Failure(e)
    case Success(cnpjs) =>
      match EnsureTargets(cnpjs)
      case Failure(e) => Failure(e)
      case Success(targets) =>
        match LatestExtractDir(dirs, hasExtract)
        case Failure(e) => Failure(e)
        case Success(dir) => Success(AssembleDataset(targets, read(dir)))
  }

  // ---------------------------------------------------------------------
  // Lemmas: targets and directory
  // ---------------------------------------------------------------------

  /** The collected codes are exactly the non-empty strings found in some
      list of the column. */
  lemma CollectCnpjsMembers(fileExists: bool, columns: set<string>, cnpjLists: seq<Option<seq<Cell>>>)
    ensures CollectCnpjs(fileExists, columns, cnpjLists).Failure? <==> !fileExists || "cnpj_basico" !in columns
    ensures CollectCnpjs(fileExists, columns, cnpjLists).Success? ==>
      forall x :: x in CollectCnpjs(fileExists, columns, cnpjLists).value <==>
        (x != "" && exists c :: c in cnpjLists && c.Some? && Some(x) in c.value)
  {
    if fileExists && "cnpj_basico" in columns {
      var ss := Map(cnpjLists, ExplodeCell);
      FlattenMembers(ss);
      forall x | x != ""
        ensures Some(x) in Flatten(ss) <==> exists c :: c in cnpjLists && c.Some? && Some(x) in c.value
      {
        if Some(x) in Flatten(ss) {
          var s :| s in ss && Some(x) in s;
          var k :| 0 <= k < |ss| && ss[k] == s;
          assert cnpjLists[k] in cnpjLists;
        }
        if exists c :: c in cnpjLists && c.Some? && Some(x) in c.value {
          var c :| c in cnpjLists && c.Some? && Some(x) in c.value;
          var k :| 0 <= k < |cnpjLists| && cnpjLists[k] == c;
          assert ss[k] in ss;
        }
      }
    }
  }

  /** The targets are strictly ascending (so distinct), hold exactly the
      non-empty input codes, and are missing only when there is none. */
  lemma EnsureTargetsCorrect(cnpjs: seq<string>)
    ensures EnsureTargets(cnpjs).Failure? <==> forall x :: x in cnpjs ==> x == ""
    ensures EnsureTargets(cnpjs).Success? ==>
      StrictlySorted(EnsureTargets(cnpjs).value, StrLess)
      && forall x :: x in EnsureTargets(cnpjs).value <==> x in cnpjs && x != ""
  {
    StrLessIsOrder();
    SortUniqueCorrect(Filter(cnpjs, NonEmpty), StrLess);
    var t := SortUnique(Filter(cnpjs, NonEmpty), StrLess);
    if t != [] {
      assert t[0] in t;
    }
  }

  /** The targets depend only on the set of codes, not on the order in which
      they are listed or on repetitions. */
  lemma EnsureTargetsOrderIndependent(a: seq<string>, b: seq<string>)
    requires forall x :: x in a <==> x in b
    ensures EnsureTargets(a) == EnsureTargets(b)
  {
    StrLessIsOrder();
    SortUniqueCorrect(Filter(a, NonEmpty), StrLess);
    SortUniqueCorrect(Filter(b, NonEmpty), StrLess);
    SortedUniqueDetermined(SortUnique(Filter(a, NonEmpty), StrLess), SortUnique(Filter(b, NonEmpty), StrLess), StrLess);
  }

  /** The spec of the directory search picks the greatest name among those
      with an extraction, and fails only when none has one. */
  lemma LatestExtractDirCorrect(dirs: seq<string>, hasExtract: string -> bool)
    ensures LatestExtractDir(dirs, hasExtract).Failure? <==> forall d :: d in dirs ==> !hasExtract(d)
    ensures LatestExtractDir(dirs, hasExtract).Success? ==>
      var r := LatestExtractDir(dirs, hasExtract).value;
      r in dirs && hasExtract(r) && forall d :: d in dirs && hasExtract(d) ==> d == r || StrLess(d, r)
  {
    var sorted := SortUnique(dirs, StrLess);
    StrLessIsOrder();
    SortUniqueCorrect(dirs, StrLess);
    LastWhereCorrect(sorted, hasExtract);
    LastWhereGreatest(sorted, hasExtract, StrLess);
  }

  /** In a strictly sorted list the last element satisfying `p` is the
      greatest such element. */
  lemma LastWhereGreatest(sorted: seq<string>, p: string -> bool, less: (string, string) -> bool)
    requires StrictlySorted(sorted, less)
    ensures LastWhere(sorted, p).Some? ==>
      forall d :: d in sorted && p(d) ==> d == LastWhere(sorted, p).value || less(d, LastWhere(sorted, p).value)
  {
    var last := LastWhere(sorted, p);
    if last.Some? {
      LastWhereCorrect(sorted, p);
      var i :| 0 <= i < |sorted| && sorted[i] == last.value && p(sorted[i])
        && forall k :: i < k < |sorted| ==> !p(sorted[k]);
      forall d | d in sorted && p(d) ensures d == last.value || less(d, last.value) {
        var k :| 0 <= k < |sorted| && sorted[k] == d;
        if k < i {
          assert less(sorted[k], sorted[i]);
        }
      }
    }
  }

  /** `LastWhere` finds the element at the greatest position satisfying
      `p`, and nothing only when no element does. */
  lemma {:induction false} LastWhereCorrect(s: seq<string>, p: string -> bool)
    ensures LastWhere(s, p).None? <==> forall k :: 0 <= k < |s| ==> !p(s[k])
    ensures LastWhere(s, p).Some? ==> exists i :: (0 <= i < |s| && s[i] == LastWhere(s, p).value && p(s[i])
      && forall k :: i < k < |s| ==> !p(s[k]))
    decreases |s|
  {
    if s != [] && !p(s[|s| - 1]) {
      var init := s[..|s| - 1];
      LastWhereCorrect(init, p);
      if LastWhere(init, p).Some? {
        var i :| 0 <= i < |init| && init[i] == LastWhere(init, p).value && p(init[i])
          && forall k :: i < k < |init| ==> !p(init[k]);
        assert s[i] == init[i];
        forall k | i < k < |s| ensures !p(s[k]) {
          if k < |s| - 1 { assert s[k] == init[k]; }
        }
      } else {
        forall k | 0 <= k < |s| ensures !p(s[k]) {
          if k < |s| - 1 { assert s[k] == init[k]; }
        }
      }
    }
  }

  // ---------------------------------------------------------------------
  // Lemmas: loading and joining
  // ---------------------------------------------------------------------

  /** A left join with a table unique on its key keeps the rows and fills
      each with the matching row, if any. */
  lemma JoinStep<R(!new)>(rows: seq<CompanyRow>, right: seq<R>, rk: R -> Cell, fill: ((CompanyRow, Option<R>)) -> CompanyRow)
    requires UniqueKeys(right, rk)
    ensures |Map(LeftJoin(rows, right, RowKey, rk), fill)| == |rows|
    ensures forall i :: 0 <= i < |rows| ==>
      Map(LeftJoin(rows, right, RowKey, rk), fill)[i] == fill((rows[i], FirstMatch(RowKey(rows[i]), right, rk)))
  {
    LeftJoinUniqueRight(rows, right, RowKey, rk);
  }

  /** Every table the chain joins is unique on its key: Empresas and Simples
      are de-duplicated, the establishments grouped, the head offices kept
      one per code. */
  lemma LoadsAreUnique(targets: seq<string>, files: Extract)
    ensures UniqueKeys(LoadEmpresas(files.empresas, targets), EmpresaKey)
    ensures UniqueKeys(LoadSimples(files.simples, targets), SimplesKey)
    ensures UniqueKeys(LoadEstabelecimentos(files.estabelecimentos, targets).0, GroupKey)
    ensures UniqueKeys(LoadEstabelecimentos(files.estabelecimentos, targets).1, StructKey)
  {
    DedupByCorrect(Restrict(files.empresas, EmpresaKey, targets), EmpresaKey);
    DedupByCorrect(Restrict(files.simples, SimplesKey, targets), SimplesKey);
    var structs := EstabStructs(files.estabelecimentos, targets);
    if structs != [] {
      GroupByCorrect(structs, StructKey);
      DedupByCorrect(Filter(structs, IsMatriz), StructKey);
    }
  }

  /** The chain gives exactly one row per target, in order, each filled
      with the matching row of every joined table (nothing for a table not
      joined). */
  lemma JoinChainCorrect(targets: seq<string>, empresas: seq<Empresa>, simples: seq<Simples>,
                         aggregated: seq<(Cell, seq<EstabStruct>)>, matriz: seq<EstabStruct>)
    requires UniqueKeys(empresas, EmpresaKey) && UniqueKeys(simples, SimplesKey)
    requires UniqueKeys(aggregated, GroupKey) && UniqueKeys(matriz, StructKey)
    ensures |JoinChain(targets, empresas, simples, aggregated, matriz)| == |targets|
    ensures forall i :: 0 <= i < |targets| ==>
      var t := Some(targets[i]);
      JoinChain(targets, empresas, simples, aggregated, matriz)[i] == CompanyRow(targets[i],
        FirstMatch(t, empresas, EmpresaKey), FirstMatch(t, simples, SimplesKey),
        EstabsOf(FirstMatch(t, aggregated, GroupKey)), FirstMatch(t, matriz, StructKey))
  {
    var r0 := Map(targets, Blank);
    var r1 := JoinEmpresas(r0, empresas);
    var r2 := JoinSimples(r1, simples);
    var r3 := JoinEstabs(r2, aggregated);
    EmpresasStep(r0, empresas);
    SimplesStep(r1, simples);
    EstabsStep(r2, aggregated);
    MatrizStep(r3, matriz);
  }

  lemma EmpresasStep(rows: seq<CompanyRow>, empresas: seq<Empresa>)
    requires UniqueKeys(empresas, EmpresaKey)
    requires forall r :: r in rows ==> r.empresa.None?
    ensures |JoinEmpresas(rows, empresas)| == |rows|
    ensures forall i :: 0 <= i < |rows| ==>
      JoinEmpresas(rows, empresas)[i] == rows[i].(empresa := FirstMatch(RowKey(rows[i]), empresas, EmpresaKey))
  {
    if empresas == [] {
      forall i | 0 <= i < |rows| ensures rows[i].empresa.None? {
        assert rows[i] in rows;
      }
    }
    if empresas != [] {
      JoinStep(rows, empresas, EmpresaKey, WithEmpresa);
    }
  }

  lemma SimplesStep(rows: seq<CompanyRow>, simples: seq<Simples>)
    requires UniqueKeys(simples, SimplesKey)
    requires forall r :: r in rows ==> r.simples.None?
    ensures |JoinSimples(rows, simples)| == |rows|
    ensures forall i :: 0 <= i < |rows| ==>
      JoinSimples(rows, simples)[i] == rows[i].(simples := FirstMatch(RowKey(rows[i]), simples, SimplesKey))
  {
    if simples == [] {
      forall i | 0 <= i < |rows| ensures rows[i].simples.None? {
        assert rows[i] in rows;
      }
    }
    if simples != [] {
      JoinStep(rows, simples, SimplesKey, WithSimples);
    }
  }

  lemma EstabsStep(rows: seq<CompanyRow>, aggregated: seq<(Cell, seq<EstabStruct>)>)
    requires UniqueKeys(aggregated, GroupKey)
    requires forall r :: r in rows ==> r.estabelecimentos.None?
    ensures |JoinEstabs(rows, aggregated)| == |rows|
    ensures forall i :: 0 <= i < |rows| ==>
      JoinEstabs(rows, aggregated)[i] == rows[i].(estabelecimentos := EstabsOf(FirstMatch(RowKey(rows[i]), aggregated, GroupKey)))
  {
    if aggregated == [] {
      forall i | 0 <= i < |rows| ensures rows[i].estabelecimentos.None? {
        assert rows[i] in rows;
      }
    }
    if aggregated != [] {
      JoinStep(rows, aggregated, GroupKey, WithEstabs);
    }
  }

  lemma MatrizStep(rows: seq<CompanyRow>, matriz: seq<EstabStruct>)
    requires UniqueKeys(matriz, StructKey)
    requires forall r :: r in rows ==> r.matriz.None?
    ensures |JoinMatriz(rows, matriz)| == |rows|
    ensures forall i :: 0 <= i < |rows| ==>
      JoinMatriz(rows, matriz)[i] == rows[i].(matriz := FirstMatch(RowKey(rows[i]), matriz, StructKey))
  {
    if matriz == [] {
      forall i | 0 <= i < |rows| ensures rows[i].matriz.None? {
        assert rows[i] in rows;
      }
    }
    if matriz != [] {
      JoinStep(rows, matriz, StructKey, WithMatriz);
    }
  }

  /** The establishments joined for a code are all the target
      establishments with that code, in order, or nothing when there are
      none. */
  lemma EstabsOfTarget(structs: seq<EstabStruct>, t: string)
    ensures var rows := RowsWithKey(structs, StructKey, Some(t));
      EstabsOf(FirstMatch(Some(t), if structs == [] then [] else GroupBy(structs, StructKey), GroupKey))
      == (if rows == [] then None else Some(rows))
  {
    if structs != [] {
      var gs := GroupBy(structs, StructKey);
      var fm := FirstMatch(Some(t), gs, GroupKey);
      GroupByCorrect(structs, StructKey);
      GroupByGroups(structs, StructKey, Some(t));
      if fm.Some? {
        assert fm.value in gs;
      }
    }
  }

  /** The head office joined for a code is the first head-office
      establishment of that code, or nothing when it has none. */
  lemma MatrizOfTarget(structs: seq<EstabStruct>, t: string)
    ensures var heads := Filter(structs, IsMatriz);
      var m := FirstMatch(Some(t), if structs == [] then [] else DedupBy(heads, StructKey), StructKey);
      && (m.None? <==> forall s :: s in heads ==> StructKey(s) != Some(t))
      && (m.Some? ==> exists i :: (0 <= i < |heads| && heads[i] == m.value && StructKey(m.value) == Some(t)
            && forall j :: 0 <= j < i ==> StructKey(heads[j]) != Some(t)))
  {
    var heads := Filter(structs, IsMatriz);
    DedupByCorrect(heads, StructKey);
    DedupByFirst(heads, StructKey);
  }

  /** After de-duplication, the row joined for a target code comes from
      the input with that code, and nothing is joined only when the input
      has no row with it. */
  lemma DedupMatch<T(!new)>(raw: seq<T>, key: T -> Cell, targets: seq<string>, t: string)
    requires t in targets
    ensures var m := FirstMatch(Some(t), DedupBy(Restrict(raw, key, targets), key), key);
      && (m.None? <==> forall r :: r in raw ==> key(r) != Some(t))
      && (m.Some? ==> m.value in raw && key(m.value) == Some(t))
  {
    var restricted := Restrict(raw, key, targets);
    DedupByCorrect(restricted, key);
    var m := FirstMatch(Some(t), DedupBy(restricted, key), key);
  }

  /** The row of the dataset for the `i`-th target, as the join chain
      builds it from the loaded tables. */
  lemma AssembledRowShape(targets: seq<string>, files: Extract, i: nat)
    requires i < |targets|
    ensures |AssembleDataset(targets, files)| == |targets|
    ensures var t := Some(targets[i]);
      var agg_mat := LoadEstabelecimentos(files.estabelecimentos, targets);
      AssembleDataset(targets, files)[i] == Export(CompanyRow(targets[i],
        FirstMatch(t, LoadEmpresas(files.empresas, targets), EmpresaKey),
        FirstMatch(t, LoadSimples(files.simples, targets), SimplesKey),
        EstabsOf(FirstMatch(t, agg_mat.0, GroupKey)), FirstMatch(t, agg_mat.1, StructKey)))
  {
    var agg_mat := LoadEstabelecimentos(files.estabelecimentos, targets);
    LoadsAreUnique(targets, files);
    JoinChainCorrect(targets, LoadEmpresas(files.empresas, targets), LoadSimples(files.simples, targets), agg_mat.0, agg_mat.1);
  }

  /** Every row of the dataset carries its target code and the company
      and Simples rows of that code, with nothing joined only when there is
      none. */
  lemma AssembledCompany(targets: seq<string>, files: Extract, i: nat)
    requires i < |targets|
    ensures |AssembleDataset(targets, files)| == |targets|
    ensures var out := AssembleDataset(targets, files)[i].company;
      var t := targets[i];
      && out.cnpjBasico == t
      && (out.empresa.None? <==> forall e :: e in files.empresas ==> e.cnpjBasico != Some(t))
      && (out.empresa.Some? ==> out.empresa.value in files.empresas && out.empresa.value.cnpjBasico == Some(t))
      && (out.simples.None? <==> forall e :: e in files.simples ==> e.cnpjBasico != Some(t))
      && (out.simples.Some? ==> out.simples.value in files.simples && out.simples.value.cnpjBasico == Some(t))
  {
    AssembledRowShape(targets, files, i);
    DedupMatch(files.empresas, EmpresaKey, targets, targets[i]);
    DedupMatch(files.simples, SimplesKey, targets, targets[i]);
  }

  /** Every row of the dataset holds all target establishments of its
      code, in order (nothing when there are none), and the first
      head-office establishment of that code, if any. */
  lemma AssembledEstabs(targets: seq<string>, files: Extract, i: nat)
    requires i < |targets|
    ensures |AssembleDataset(targets, files)| == |targets|
    ensures var out := AssembleDataset(targets, files)[i].company;
      var t := targets[i];
      var structs := EstabStructs(files.estabelecimentos, targets);
      var estabs := RowsWithKey(structs, StructKey, Some(t));
      var heads := Filter(structs, IsMatriz);
      && out.estabelecimentos == (if estabs == [] then None else Some(estabs))
      && (out.matriz.None? <==> forall s :: s in heads ==> StructKey(s) != Some(t))
      && (out.matriz.Some? ==> exists k :: (0 <= k < |heads| && heads[k] == out.matriz.value
            && StructKey(heads[k]) == Some(t) && forall j :: 0 <= j < k ==> StructKey(heads[j]) != Some(t)))
  {
    AssembledRowShape(targets, files, i);
    var structs := EstabStructs(files.estabelecimentos, targets);
    EstabsOfTarget(structs, targets[i]);
    MatrizOfTarget(structs, targets[i]);
  }

  /** The exported columns are the head office's `situacao_cadastral`,
      `data_inicio_atividade`, `uf`, `cnae_fiscal_principal` and
      `cnae_fiscal_secundaria`, or all null without a head office. */
  lemma AssembledExport(targets: seq<string>, files: Extract, i: nat)
    requires i < |targets|
    ensures |AssembleDataset(targets, files)| == |targets|
    ensures var out := AssembleDataset(targets, files)[i];
      && |out.exported| == 5
      && (out.company.matriz.None? ==> forall c :: c in out.exported ==> c.None?)
      && (out.company.matriz.Some? ==>
            var e := out.company.matriz.value.estab;
            out.exported == [e.situacaoCadastral, e.dataInicioAtividade, e.uf, e.cnaeFiscalPrincipal, e.cnaeFiscalSecundaria])
  {
    AssembledRowShape(targets, files, i);
  }

  /** The full CNPJ is the base code, then the order, then the check
      digits. */
  lemma EstabCnpjParts(e: Estab)
    requires e.cnpjBasico.Some? && e.cnpjOrdem.Some? && e.cnpjDv.Some?
    ensures var c := EstabCnpj(e).value;
      |c| == |e.cnpjBasico.value| + |e.cnpjOrdem.value| + |e.cnpjDv.value|
      && c[..|e.cnpjBasico.value|] == e.cnpjBasico.value
      && c[|e.cnpjBasico.value|..|e.cnpjBasico.value| + |e.cnpjOrdem.value|] == e.cnpjOrdem.value
      && c[|e.cnpjBasico.value| + |e.cnpjOrdem.value|..] == e.cnpjDv.value
  {
  }

  /** Some list of the column holds a non-empty code. */
  ghost predicate HasCode(cnpjLists: seq<Option<seq<Cell>>>) {
    exists c, x :: c in cnpjLists && c.Some? && Some(x) in c.value && x != ""
  }

  /** The errors of `build_company_dataset`, in the order it meets them: no
      alumni file, no `cnpj_basico` column, no code at all, no extraction
      directory. */
  lemma BuildCompanyDatasetErrors(fileExists: bool, columns: set<string>, cnpjLists: seq<Option<seq<Cell>>>,
                                  dirs: seq<string>, hasExtract: string -> bool, read: string -> Extract)
    ensures var r := BuildCompanyDataset(fileExists, columns, cnpjLists, dirs, hasExtract, read);
      && (r == Failure(EgressosNotFound) <==> !fileExists)
      && (r == Failure(MissingCnpjColumn) <==> fileExists && "cnpj_basico" !in columns)
      && (r == Failure(NoTargets) <==> fileExists && "cnpj_basico" in columns && !HasCode(cnpjLists))
      && (r == Failure(NoExtractDir) <==>
            fileExists && "cnpj_basico" in columns && HasCode(cnpjLists) && forall d :: d in dirs ==> !hasExtract(d))
  {
    CollectCnpjsMembers(fileExists, columns, cnpjLists);
    LatestExtractDirCorrect(dirs, hasExtract);
    var collected := CollectCnpjs(fileExists, columns, cnpjLists);
    if collected.Success? {
      EnsureTargetsCorrect(collected.value);
      if HasCode(cnpjLists) {
        var c, x :| c in cnpjLists && c.Some? && Some(x) in c.value && x != "";
        assert x in collected.value;
      }
    }
  }
}
