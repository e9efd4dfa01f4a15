/** Partner flags of the alumni rows (src/etl/enrich_cnpj.py, and its older
    copy in ctrlC_ctrlV.py): which reference table is loaded, the CPF flag
    from a left join on the cleaned CPF, the approximate-name flag from a
    bounded scan of the reference names, and their disjunction. Whether a
    file exists is a parameter; the file contents are given as tables. The
    name similarity score (rapidfuzz's `token_set_ratio`) is a parameter. */
module EnrichCnpj {
  import opened Seqs
  import opened Wrappers
  import opened Text
  import opened Relational

  // ---------------------------------------------------------------------
  // Loaders (`_load_socios_by_cpf`, `_load_socios_by_nome`)
  // ---------------------------------------------------------------------

  /** The configured directories the loaders look in. */
  datatype Dir = SilverDir | CnpjBaseDir | CnpjBaseParentSilver

  datatype Location = Location(dir: Dir, file: string)

  /** Candidate files for the CPF table, in the order they are tried. */
  const CpfCandidates: seq<Location> := [
    Location(SilverDir, "socios.parquet"),
    Location(CnpjBaseDir, "socios.parquet"),
    Location(CnpjBaseParentSilver, "socios.parquet")]

  /** Candidate files for the name table, in the order they are tried. */
  const NomeCandidates: seq<Location> := [
    Location(SilverDir, "socios_nomes.parquet"),
    Location(SilverDir, "socios_nomes.csv"),
    Location(CnpjBaseDir, "socios_nomes.parquet"),
    Location(CnpjBaseDir, "socios_nomes.csv"),
    Location(CnpjBaseParentSilver, "socios_nomes.parquet"),
    Location(CnpjBaseParentSilver, "socios_nomes.csv")]

  /** The candidate lists of the older copy of the loaders. */
  const SnapshotCpfCandidates: seq<Location> := [
    Location(CnpjBaseParentSilver, "socios.parquet"),
    Location(CnpjBaseDir, "socios.parquet")]

  const SnapshotNomeCandidates: seq<Location> := [
    Location(CnpjBaseParentSilver, "socios_nomes.parquet"),
    Location(CnpjBaseDir, "socios_nomes.parquet"),
    Location(CnpjBaseDir, "socios_nomes.csv")]

  /** The first candidate that exists, if any. */
  function FirstExisting(candidates: seq<Location>, present: Location -> bool): Option<Location>
    decreases |candidates|
  {
    if candidates == [] then None
    else if present(candidates[0]) then Some(candidates[0])
    else FirstExisting(candidates[1..], present)
  }

  /** The loaders' loop: try the candidates in order and stop at the first
      existing file. */
  method FindSource(candidates: seq<Location>, present: Location -> bool) returns (found: Option<Location>)
    ensures found == FirstExisting(candidates, present)
  {
    var i := 0;
    while i < |candidates|
      invariant 0 <= i <= |candidates|
      invariant FirstExisting(candidates[i..], present) == FirstExisting(candidates, present)
    {
      assert candidates[i..][1..] == candidates[i + 1..];
      if present(candidates[i]) {
        return Some(candidates[i]);
      }
      i := i + 1;
    }
    return None;
  }

  // ---------------------------------------------------------------------
  // Approximate name flag (`approx_flag`)
  // ---------------------------------------------------------------------

  /** Only this many reference names are examined. */
  const NameScanLimit: nat := 5000

  /** The score at or above which two names are taken to match. */
  const NameScoreThreshold: int := 92

  /** The similarity score of a name against a reference cell (the cell may
      be null). */
  type Score = (string, Option<string>) -> int

  /** A name matches when it is not empty and one of the first
      `NameScanLimit` reference names scores at least the threshold. */
  predicate ApproxMatch(nome: string, names: seq<Option<string>>, score: Score) {
    nome != [] && exists i :: 0 <= i < |names| && i < NameScanLimit && score(nome, names[i]) >= NameScoreThreshold
  }

  /** `approx_flag(nome)`: scan the first names, stopping at the first
      match. */
  method ApproxFlag(nome: string, names: seq<Option<string>>, score: Score) returns (found: bool)
    ensures found == ApproxMatch(nome, names, score)
  {
    if nome == [] {
      return false;
    }
    var top := if |names| <= NameScanLimit then names else names[..NameScanLimit];
    for i := 0 to |top|
      invariant forall j :: 0 <= j < i ==> score(nome, top[j]) < NameScoreThreshold
    {
      if score(nome, top[i]) >= NameScoreThreshold {
        assert names[i] == top[i];
        return true;
      }
    }
    assert forall j :: 0 <= j < |names| && j < NameScanLimit ==> names[j] == top[j];
    return false;
  }

  // ---------------------------------------------------------------------
  // Flags (`mark_founders`)
  // ---------------------------------------------------------------------

  /** The columns of an alumni row that the flags read: the raw `cpf`, the
      cleaned `cpf_limpo` and the normalised name `nome_norm`. */
  datatype Egresso = Egresso(cpf: Option<string>, cpfLimpo: Option<string>, nomeNorm: Option<string>)

  /** A loaded reference table: its column names and the cells of its `cpf`
      and `nome` columns (meaningful only when the column is present). */
  datatype RefTable = RefTable(columns: set<string>, cpf: seq<Option<string>>, nome: seq<Option<string>>)

  /** An output row: the input row with `eh_socio_por_cpf`,
      `eh_socio_por_nome` and `eh_socio_fundador`; the last two are null
      where the name is null. `cpfColumn` says whether the frame still has
      its raw `cpf` column (when it does not, `row.cpf` is `None`). */
  datatype Marked = Marked(row: Egresso, cpfColumn: bool, porCpf: bool, porNome: Option<bool>, fundador: Option<bool>)

  function CpfKey(r: Egresso): Option<string> {
    r.cpfLimpo
  }

  function CpfValue(c: Option<string>): Option<string> {
    c
  }

  /** `df.drop("cpf")`: the row without its raw CPF. */
  function DropCpf(r: Egresso): Egresso {
    r.(cpf := None)
  }

  /** The CPF flag of a joined row: whether a reference CPF matched; the
      raw `cpf` column is then dropped. */
  function CpfMatched(j: (Egresso, Option<Option<string>>)): (Egresso, bool) {
    (DropCpf(j.0), j.1.Some?)
  }

  function NoCpfTable(r: Egresso): (Egresso, bool) {
    (r, false)
  }

  predicate HasColumn(t: Option<RefTable>, column: string) {
    t.Some? && column in t.value.columns
  }

  /** The first step: left join on `cpf_limpo` with the distinct reference
      CPFs, flag the rows that found one and drop the raw `cpf` column; all
      false, and the column kept, without a table with a `cpf` column. */
  function CpfStep(rows: seq<Egresso>, sociosCpf: Option<RefTable>): seq<(Egresso, bool)> {
    if HasColumn(sociosCpf, "cpf") then
      Map(LeftJoin(rows, DedupBy(sociosCpf.value.cpf, CpfValue), CpfKey, CpfValue), CpfMatched)
    else Map(rows, NoCpfTable)
  }

  function UpperCell(c: Option<string>): Option<string> {
    if c.None? then None else Some(Upper(c.value))
  }

  /** The name flag of a row: false without a table with a `nome` column,
      null for a null name, otherwise the scan over the upper-cased
      reference names. */
  function NomeFlag(nome: Option<string>, sociosNome: Option<RefTable>, score: Score): Option<bool> {
    if !HasColumn(sociosNome, "nome") then Some(false)
    else if nome.None? then None
    else Some(ApproxMatch(nome.value, Map(sociosNome.value.nome, UpperCell), score))
  }

  /** Polars' `|` on a boolean and a nullable boolean (Kleene logic). */
  function Or(a: bool, b: Option<bool>): Option<bool> {
    if a then Some(true) else b
  }

  function Finish(m: (Egresso, bool), cpfColumn: bool, sociosNome: Option<RefTable>, score: Score): Marked {
    var porNome := NomeFlag(m.0.nomeNorm, sociosNome, score);
    Marked(m.0, cpfColumn, m.1, porNome, Or(m.1, porNome))
  }

  /** `mark_founders(df)` with the loaded tables (`None` when no candidate
      file exists). */
  function MarkFounders(rows: seq<Egresso>, sociosCpf: Option<RefTable>, sociosNome: Option<RefTable>, score: Score): seq<Marked> {
    var byCpf := CpfStep(rows, sociosCpf);
    var cpfColumn := !HasColumn(sociosCpf, "cpf");
    seq(|byCpf|, i requires 0 <= i < |byCpf| => Finish(byCpf[i], cpfColumn, sociosNome, score))
  }

  /** The CPF flag as the code computes it: after the join, `cpf` names the
      alumni frame's own raw `cpf` column (the right-hand key is merged into
      `cpf_limpo`), so the flag is whether the raw CPF is present. The
      column is dropped after the flag is computed. */
  function CpfMatchedAsWritten(j: (Egresso, Option<Option<string>>)): (Egresso, bool) {
    (DropCpf(j.0), j.0.cpf.Some?)
  }

  function CpfStepAsWritten(rows: seq<Egresso>, sociosCpf: Option<RefTable>): seq<(Egresso, bool)> {
    if HasColumn(sociosCpf, "cpf") then
      Map(LeftJoin(rows, DedupBy(sociosCpf.value.cpf, CpfValue), CpfKey, CpfValue), CpfMatchedAsWritten)
    else Map(rows, NoCpfTable)
  }

  // ---------------------------------------------------------------------
  // Lemmas
  // ---------------------------------------------------------------------

  /** The loaders return the earliest existing candidate, and nothing only
      when no candidate exists. */
  lemma {:induction false} FirstExistingCorrect(candidates: seq<Location>, present: Location -> bool)
    ensures FirstExisting(candidates, present).None? <==> forall i :: 0 <= i < |candidates| ==> !present(candidates[i])
    ensures FirstExisting(candidates, present).Some? ==> exists i :: (0 <= i < |candidates|
      && candidates[i] == FirstExisting(candidates, present).value && present(candidates[i])
      && forall j :: 0 <= j < i ==> !present(candidates[j]))
    decreases |candidates|
  {
    if candidates != [] && !present(candidates[0]) {
      var tail := candidates[1..];
      FirstExistingCorrect(tail, present);
      if FirstExisting(tail, present).Some? {
        var i :| 0 <= i < |tail| && tail[i] == FirstExisting(tail, present).value && present(tail[i])
          && forall j :: 0 <= j < i ==> !present(tail[j]);
        assert candidates[i + 1] == tail[i];
        forall j | 0 <= j < i + 1 ensures !present(candidates[j]) {
          if j > 0 { assert candidates[j] == tail[j - 1]; }
        }
      } else {
        forall i | 0 <= i < |candidates| ensures !present(candidates[i]) {
          if i > 0 { assert candidates[i] == tail[i - 1]; }
        }
      }
    }
  }

  /** The name scan never looks past the first `NameScanLimit` names:
      appending names to a list that already reaches the limit changes
      nothing. */
  lemma ApproxMatchIgnoresTail(nome: string, names: seq<Option<string>>, more: seq<Option<string>>, score: Score)
    requires |names| >= NameScanLimit
    ensures ApproxMatch(nome, names + more, score) == ApproxMatch(nome, names, score)
  {
    if ApproxMatch(nome, names + more, score) {
      var i :| 0 <= i < |names + more| && i < NameScanLimit && score(nome, (names + more)[i]) >= NameScoreThreshold;
      assert (names + more)[i] == names[i];
    }
    if ApproxMatch(nome, names, score) {
      var i :| 0 <= i < |names| && i < NameScanLimit && score(nome, names[i]) >= NameScoreThreshold;
      assert (names + more)[i] == names[i];
    }
  }

  /** An empty name never matches, whatever the reference names. */
  lemma ApproxMatchEmptyName(names: seq<Option<string>>, score: Score)
    ensures !ApproxMatch([], names, score)
  {
  }

  /** The CPF step keeps the rows, in order, without their raw CPF when a
      table with a `cpf` column was loaded, and flags a row exactly when
      that table holds the row's cleaned CPF (a null cleaned CPF never
      matches). */
  lemma CpfStepCorrect(rows: seq<Egresso>, sociosCpf: Option<RefTable>)
    ensures |CpfStep(rows, sociosCpf)| == |rows|
    ensures forall i :: 0 <= i < |rows| ==>
      (CpfStep(rows, sociosCpf)[i].0 == (if HasColumn(sociosCpf, "cpf") then rows[i].(cpf := None) else rows[i])
      && (CpfStep(rows, sociosCpf)[i].1 <==>
          (HasColumn(sociosCpf, "cpf") && rows[i].cpfLimpo.Some? && rows[i].cpfLimpo in sociosCpf.value.cpf)))
  {
    if HasColumn(sociosCpf, "cpf") {
      var values := sociosCpf.value.cpf;
      var right := DedupBy(values, CpfValue);
      UniqueKeysOfDedup(values, CpfValue);
      DedupByCorrect(values, CpfValue);
      LeftJoinUniqueRight(rows, right, CpfKey, CpfValue);
      forall i | 0 <= i < |rows|
        ensures CpfStep(rows, sociosCpf)[i].1 <==> (rows[i].cpfLimpo.Some? && rows[i].cpfLimpo in values)
      {
        var k := rows[i].cpfLimpo;
        if k.Some? && k in values {
          var r :| r in right && CpfValue(r) == CpfValue(k);
          assert KeyMatch(k, CpfValue(r));
        }
      }
    }
  }

  /** The three flags of every row: the row is kept, losing its raw `cpf`
      column exactly when a table with a `cpf` column was loaded, the CPF
      flag is the membership above, the name flag is false without a name table, null
      for a null name and the scan otherwise, and the founder flag is their
      Kleene disjunction. */
  lemma MarkFoundersCorrect(rows: seq<Egresso>, sociosCpf: Option<RefTable>, sociosNome: Option<RefTable>, score: Score)
    ensures |MarkFounders(rows, sociosCpf, sociosNome, score)| == |rows|
    ensures forall i :: 0 <= i < |rows| ==>
      var m := MarkFounders(rows, sociosCpf, sociosNome, score)[i];
      (m.cpfColumn <==> !HasColumn(sociosCpf, "cpf"))
      && m.row == (if m.cpfColumn then rows[i] else rows[i].(cpf := None))
    ensures forall i :: 0 <= i < |rows| ==>
      (MarkFounders(rows, sociosCpf, sociosNome, score)[i].porCpf <==>
       (HasColumn(sociosCpf, "cpf") && rows[i].cpfLimpo.Some? && rows[i].cpfLimpo in sociosCpf.value.cpf))
    ensures forall i :: 0 <= i < |rows| ==>
      (MarkFounders(rows, sociosCpf, sociosNome, score)[i].porNome == Some(true) <==>
       (HasColumn(sociosNome, "nome") && rows[i].nomeNorm.Some?
        && ApproxMatch(rows[i].nomeNorm.value, Map(sociosNome.value.nome, UpperCell), score)))
    ensures forall i :: 0 <= i < |rows| ==>
      (MarkFounders(rows, sociosCpf, sociosNome, score)[i].porNome.None? <==>
       (HasColumn(sociosNome, "nome") && rows[i].nomeNorm.None?))
    ensures forall i :: 0 <= i < |rows| ==>
      var m := MarkFounders(rows, sociosCpf, sociosNome, score)[i];
      (m.fundador == Some(true) <==> m.porCpf || m.porNome == Some(true))
      && (m.fundador == Some(false) <==> !m.porCpf && m.porNome == Some(false))
  {
    CpfStepCorrect(rows, sociosCpf);
  }

  /** Without a table that has a `cpf` column (no file, or the prepared
      table whose columns are `cpf_fragment` and `nome`) no row is flagged
      by CPF, and without a name table no row is flagged by name. */
  lemma MissingTablesGiveFalse(rows: seq<Egresso>, sociosCpf: Option<RefTable>, sociosNome: Option<RefTable>, score: Score)
    requires !HasColumn(sociosCpf, "cpf") && !HasColumn(sociosNome, "nome")
    ensures forall m :: m in MarkFounders(rows, sociosCpf, sociosNome, score) ==>
      !m.porCpf && m.porNome == Some(false) && m.fundador == Some(false)
  {
    MarkFoundersCorrect(rows, sociosCpf, sociosNome, score);
  }

  /** The table written by the partner preparation has the columns
      `cpf_fragment` and `nome` only, so it never flags a row by CPF. */
  lemma PreparedTableNeverFlagsByCpf(rows: seq<Egresso>, fragments: seq<Option<string>>, names: seq<Option<string>>,
                                     sociosNome: Option<RefTable>, score: Score)
    ensures forall m :: m in MarkFounders(rows, Some(RefTable({"cpf_fragment", "nome"}, fragments, names)), sociosNome, score) ==>
      !m.porCpf && m.fundador == m.porNome
  {
    MarkFoundersCorrect(rows, Some(RefTable({"cpf_fragment", "nome"}, fragments, names)), sociosNome, score);
  }

  /** As written, the CPF flag of every row with a table loaded is whether
      its raw CPF is present, whatever the table holds; that CPF is then
      dropped. */
  lemma CpfStepAsWrittenIgnoresTable(rows: seq<Egresso>, sociosCpf: Option<RefTable>)
    requires HasColumn(sociosCpf, "cpf")
    ensures |CpfStepAsWritten(rows, sociosCpf)| == |rows|
    ensures forall i :: 0 <= i < |rows| ==> CpfStepAsWritten(rows, sociosCpf)[i] == (rows[i].(cpf := None), rows[i].cpf.Some?)
  {
    var right := DedupBy(sociosCpf.value.cpf, CpfValue);
    UniqueKeysOfDedup(sociosCpf.value.cpf, CpfValue);
    LeftJoinUniqueRight(rows, right, CpfKey, CpfValue);
  }

  /** An alumnus whose CPF is invalid (cleaned to "") and absent from the
      reference table is flagged as a partner by the code as written, and
      not by the membership test. */
  lemma CpfFlagAsWrittenMismatch()
    ensures var rows := [Egresso(Some("111.111.111-11"), Some(""), Some("ANA"))];
      var t := Some(RefTable({"cpf"}, [Some("52998224725")], []));
      CpfStepAsWritten(rows, t)[0].1 && !CpfStep(rows, t)[0].1
  {
    var rows := [Egresso(Some("111.111.111-11"), Some(""), Some("ANA"))];
    var t := Some(RefTable({"cpf"}, [Some("52998224725")], []));
    CpfStepAsWrittenIgnoresTable(rows, t);
    CpfStepCorrect(rows, t);
    assert Some("") != Some("52998224725");
  }
}
