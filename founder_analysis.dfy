/** Founder inference (src/etl/founder_analysis.py): a partner is taken to
    be a founder of a company when the date they joined it is within
    `max_gap_days` days of the company's start of activity. Each person's
    parallel lists of companies and association dates are exploded into one
    row per relation, joined with the companies' start dates, filtered by
    the window, grouped per person and joined back with empty defaults.
    Reading and writing the Parquet files are not modelled: the frames are
    parameters, and so is whether each file exists. */
module FounderAnalysis {
  import opened Seqs
  import opened Wrappers
  import opened Text
  import opened Calendar
  import opened Relational

  const MaxFounderGapDays: int := 7

  // ---------------------------------------------------------------------
  // Dates (`_parse_date`)
  // ---------------------------------------------------------------------

  predicate AllAsciiDigits(s: string) {
    forall i :: 0 <= i < |s| ==> IsAsciiDigit(s[i])
  }

  /** Rust's `char::is_whitespace`: what chrono skips before a number. */
  predicate IsWhitespace(c: char) {
    ('\t' <= c <= '\r') || c == ' ' || c == '\U{85}' || c == '\U{a0}' || c == '\U{1680}'
    || ('\U{2000}' <= c <= '\U{200a}') || c == '\U{2028}' || c == '\U{2029}'
    || c == '\U{202f}' || c == '\U{205f}' || c == '\U{3000}'
  }

  /** `str::trim_start`: `s` without its leading whitespace. */
  function TrimStart(s: string): (r: string)
    ensures |r| <= |s|
    ensures r == [] || !IsWhitespace(r[0])
  {
    if s != [] && IsWhitespace(s[0]) then TrimStart(s[1..]) else s
  }

  /** The number of leading ASCII digits of `s`, counting at most `width`. */
  function DigitRun(s: string, width: nat): (k: nat)
    ensures k <= width && k <= |s| && AllAsciiDigits(s[..k])
    ensures k < width && k < |s| ==> !IsAsciiDigit(s[k])
  {
    if width == 0 || s == [] || !IsAsciiDigit(s[0]) then 0
    else
      var k := 1 + DigitRun(s[1..], width - 1);
      assert s[..k] == [s[0]] + s[1..][..k - 1];
      k
  }

  /** chrono's `scan::number(s, 1, width)`: one to `width` ASCII digits, as
      many as there are; their value and the text after them. */
  function ScanNumber(s: string, width: nat): (r: Option<(nat, string)>)
    ensures r.Some? <==> width > 0 && s != [] && IsAsciiDigit(s[0])
    ensures r.Some? ==> |r.value.1| < |s|
  {
    var k := DigitRun(s, width);
    if k == 0 then None else Some((DecimalValue(s[..k]), s[k..]))
  }

  /** An item of a `strptime` format: a numeric field read with at most
      `width` digits (`signed` for `%Y`, which also takes a sign), or a
      literal character. */
  datatype FormatItem = Field(width: nat, signed: bool) | Literal(c: char)

  /** One numeric field as chrono reads it: leading whitespace is skipped;
      after an explicit sign any number of digits is read, and otherwise one
      to `width` of them. */
  function ScanField(s: string, width: nat, signed: bool): (r: Option<(int, string)>)
    ensures r.Some? ==> |r.value.1| < |s|
  {
    var t := TrimStart(s);
    if signed && t != [] && (t[0] == '-' || t[0] == '+') then
      match ScanNumber(t[1..], |t|)
      case None => None
      case Some(v) =>
        var n: int := if t[0] == '-' then 0 - v.0 else v.0;
        Some((n, v.1))
    else
      match ScanNumber(t, width)
      case None => None
      case Some(v) => Some((v.0 as int, v.1))
  }

  /** chrono's parse loop: each item in turn, and then nothing may be left
      over; the values of the numeric fields, in order. */
  function ScanItems(items: seq<FormatItem>, s: string): (r: Option<seq<int>>)
    ensures r.Some? ==> |r.value| <= |items|
    decreases |items|
  {
    if items == [] then (if s == [] then Some([]) else None)
    else match items[0]
      case Literal(c) => if s != [] && s[0] == c then ScanItems(items[1..], s[1..]) else None
      case Field(w, signed) =>
        match ScanField(s, w, signed)
        case None => None
        case Some(v) =>
          match ScanItems(items[1..], v.1)
          case None => None
          case Some(vs) => Some([v.0] + vs)
  }

  /** The years a chrono `NaiveDate` can hold. */
  const MinYear: int := -262144
  const MaxYear: int := 262143

  /** `NaiveDate::parse_from_str(s, format)` for a format of year, month and
      day fields: the date they give, when it exists and is in range. */
  function Strptime(format: seq<FormatItem>, s: string): (r: Option<Date>)
    ensures r.Some? ==> Valid(r.value) && MinYear <= r.value.year <= MaxYear
  {
    match ScanItems(format, s)
    case None => None
    case Some(v) =>
      if |v| == 3 && MinYear <= v[0] <= MaxYear && Valid(Date(v[0], v[1], v[2]))
      then Some(Date(v[0], v[1], v[2]))
      else None
  }

  const IsoFormat: seq<FormatItem> := [Field(4, true), Literal('-'), Field(2, false), Literal('-'), Field(2, false)]
  const CompactFormat: seq<FormatItem> := [Field(4, true), Field(2, false), Field(2, false)]

  /** `strptime(pl.Date, "%Y-%m-%d", strict=False)`. Polars' fixed-width
      fast path accepts only zero-padded text, which chrono reads the same
      way, and hands everything else to chrono, so chrono decides. */
  function ParseIso(s: string): (r: Option<Date>)
    ensures r.Some? ==> Valid(r.value)
  {
    Strptime(IsoFormat, s)
  }

  /** `strptime(pl.Date, "%Y%m%d", strict=False)`. */
  function ParseCompact(s: string): (r: Option<Date>)
    ensures r.Some? ==> Valid(r.value)
  {
    Strptime(CompactFormat, s)
  }

  /** `_parse_date`: the ISO form first, the compact form when that gives
      null; null for a null cell. */
  function ParseDate(s: Option<string>): (r: Option<Date>)
    ensures r.Some? ==> Valid(r.value)
  {
    if s.None? then None
    else match ParseIso(s.value)
      case Some(d) => Some(d)
      case None => ParseCompact(s.value)
  }

  function Pow10(w: nat): nat {
    if w == 0 then 1 else 10 * Pow10(w - 1)
  }

  /** `n` written with `w` digits, zero-padded on the left. */
  function Pad(n: nat, w: nat): (r: string)
    ensures |r| == w && AllAsciiDigits(r)
  {
    if w == 0 then [] else Pad(n / 10, w - 1) + [DigitChar(n % 10)]
  }

  // ---------------------------------------------------------------------
  // Frames
  // ---------------------------------------------------------------------

  type TextList = Option<seq<Option<string>>>

  /** The columns of an alumni row that the analysis reads. */
  datatype Person = Person(idPessoa: Option<string>, socio: Option<bool>, cnpjBasico: TextList, dataAssociacao: TextList)

  /** A company row: its base CNPJ and its start-of-activity text. */
  datatype Empresa = Empresa(cnpjBasico: Option<string>, dataInicioAtividade: Option<string>)

  /** One exploded relation of a person. */
  datatype LongRow = LongRow(idPessoa: Option<string>, socio: Option<bool>, cnpjBasico: Option<string>, dataAssociacao: Option<string>)

  /** An element of `fundador_relacoes`. */
  datatype Relation = Relation(cnpjBasico: Option<string>, dataAssociacao: Option<Date>, dataInicioAtividade: Option<Date>, diferencaDias: Option<int>)

  /** A row of `founders`: one per person key. */
  datatype Founder = Founder(idPessoa: Option<string>, relacoes: seq<Relation>, cnpjFundador: seq<string>, socioFundador: bool)

  /** An output row: the input row with the three added columns. */
  datatype Labelled = Labelled(person: Person, fundadorRelacoes: seq<Relation>, cnpjFundador: seq<string>, socioFundador: bool)

  datatype FounderError =
    | NegativeGap
    | EgressosNotFound
    | EmpresasNotFound
    | MissingColumns(missing: set<string>)
    | ExplodeLengthMismatch
    | JoinKeyDtype
    | SeriesTruthValue

  const RequiredColumns: set<string> := {"id_pessoa", "socio", "cnpj_basico", "data_associacao"}

  /** Length of a list cell; a null list explodes like an empty one. */
  function ListLen(l: TextList): nat {
    if l.None? then 0 else |l.value|
  }

  function At(l: TextList, k: nat): Option<string> {
    if l.Some? && k < |l.value| then l.value[k] else None
  }

  /** Exploding both list columns requires equal lengths in every row. */
  predicate ExplodeOk(p: Person) {
    ListLen(p.cnpjBasico) == ListLen(p.dataAssociacao)
  }

  /** `explode(["cnpj_basico", "data_associacao"])` of one row: one row per
      element, or a single all-null row for empty lists. */
  function ExplodeRow(p: Person): seq<LongRow> {
    var n := ListLen(p.cnpjBasico);
    if n == 0 then [LongRow(p.idPessoa, p.socio, None, None)]
    else seq(n, k requires 0 <= k < n => LongRow(p.idPessoa, p.socio, At(p.cnpjBasico, k), At(p.dataAssociacao, k)))
  }

  function Long(egressos: seq<Person>): seq<LongRow> {
    Flatten(Map(egressos, ExplodeRow))
  }

  /** The filter on the exploded rows: a partner, with a company and an
      association date, neither empty. */
  predicate IsCandidate(l: LongRow) {
    l.socio == Some(true) && l.cnpjBasico.Some? && l.cnpjBasico.value != ""
    && l.dataAssociacao.Some? && l.dataAssociacao.value != ""
  }

  /** `socios_long`. */
  function Candidates(egressos: seq<Person>): seq<LongRow> {
    Filter(Long(egressos), IsCandidate)
  }

  type Joined = (LongRow, Option<Empresa>)

  function RelationCnpj(l: LongRow): Option<string> {
    l.cnpjBasico
  }

  function EmpresaCnpj(e: Empresa): Option<string> {
    e.cnpjBasico
  }

  /** `socios_long.join(empresas, on="cnpj_basico", how="left")`. */
  function JoinedRows(egressos: seq<Person>, empresas: seq<Empresa>): seq<Joined> {
    LeftJoin(Candidates(egressos), empresas, RelationCnpj, EmpresaCnpj)
  }

  function AssociationDate(j: Joined): (r: Option<Date>)
    ensures r.Some? ==> Valid(r.value)
  {
    ParseDate(j.0.dataAssociacao)
  }

  function StartDate(j: Joined): (r: Option<Date>)
    ensures r.Some? ==> Valid(r.value)
  {
    if j.1.Some? then ParseDate(j.1.value.dataInicioAtividade) else None
  }

  function Abs(x: int): nat {
    if x < 0 then -x else x
  }

  /** `diferenca_dias`: the absolute number of days between the two dates,
      null when either is null. */
  function Gap(j: Joined): Option<int> {
    var a, b := AssociationDate(j), StartDate(j);
    if a.Some? && b.Some? then Some(Abs(DayNumber(a.value) - DayNumber(b.value))) else None
  }

  /** `founder_condition`. */
  predicate IsFounding(j: Joined, maxGap: int) {
    Gap(j).Some? && Gap(j).value <= maxGap && StartDate(j).Some? && AssociationDate(j).Some?
  }

  function ToRelation(j: Joined): Relation {
    Relation(j.0.cnpjBasico, AssociationDate(j), StartDate(j), Gap(j))
  }

  /** The founding relations, in the order of the join. */
  function FounderPairs(egressos: seq<Person>, empresas: seq<Empresa>, maxGap: int): seq<Joined> {
    Filter(JoinedRows(egressos, empresas), (j: Joined) => IsFounding(j, maxGap))
  }

  function PersonOf(j: Joined): Option<string> {
    j.0.idPessoa
  }

  /** `_cnpjs_from_relacoes`: the present, non-empty company codes. */
  function CnpjsFromRelacoes(rels: seq<Relation>): seq<string>
    decreases |rels|
  {
    if rels == [] then []
    else
      var c := rels[0].cnpjBasico;
      (if c.Some? && c.value != "" then [c.value] else []) + CnpjsFromRelacoes(rels[1..])
  }

  function MakeFounder(g: (Option<string>, seq<Joined>)): Founder {
    var rels := Map(g.1, ToRelation);
    Founder(g.0, rels, CnpjsFromRelacoes(rels), |rels| > 0)
  }

  /** `founders`: one row per person key (null included) with its founding
      relations in order, their companies and the flag. */
  function Founders(egressos: seq<Person>, empresas: seq<Empresa>, maxGap: int): seq<Founder> {
    Map(GroupBy(FounderPairs(egressos, empresas, maxGap), PersonOf), MakeFounder)
  }

  function FounderKey(f: Founder): Option<string> {
    f.idPessoa
  }

  function PersonKey(p: Person): Option<string> {
    p.idPessoa
  }

  /** The null replacements after the final left join. */
  function Fill(m: (Person, Option<Founder>)): Labelled {
    match m.1
    case None => Labelled(m.0, [], [], false)
    case Some(f) => Labelled(m.0, f.relacoes, f.cnpjFundador, f.socioFundador)
  }

  function Defaults(p: Person): Labelled {
    Labelled(p, [], [], false)
  }

  /** `label_socios_fundadores(egressos, empresas, max_gap_days=maxGap)`:
      the rows written back, or the error raised. `columns` are the column
      names of the alumni frame. */
  function LabelSociosFundadores(
    maxGap: int, egressosExists: bool, empresasExists: bool,
    columns: set<string>, egressos: seq<Person>, empresas: seq<Empresa>): Result<seq<Labelled>, FounderError>
  {
    if maxGap < 0 then Failure(NegativeGap)
    else if !egressosExists then Failure(EgressosNotFound)
    else if !empresasExists then Failure(EmpresasNotFound)
    else if RequiredColumns - columns != {} then Failure(MissingColumns(RequiredColumns - columns))
    else if exists i :: 0 <= i < |egressos| && !ExplodeOk(egressos[i]) then Failure(ExplodeLengthMismatch)
    else if Candidates(egressos) == [] then Success(Map(egressos, Defaults))
    else
      var founders := Founders(egressos, empresas, maxGap);
      if founders == [] then Success(Map(egressos, Defaults))
      else Success(Map(LeftJoin(egressos, founders, PersonKey, FounderKey), Fill))
  }

  /** `label_socios_fundadores` as written. Two places raise where the
      intended call succeeds:
      - an empty company frame is replaced by `pl.DataFrame` of two empty
        lists, whose columns are not strings (Float32 in Polars 0.19, Null
        in 0.20), so the left join on `cnpj_basico` raises ("datatypes of
        join keys don't match") once there is a candidate row to join;
      - Polars hands a list cell to `map_elements` as a Series, and
        `_cnpjs_from_relacoes` tests it with `not relacoes`, which raises
        TypeError ("the truth value of a Series is ambiguous"), so the call
        fails as soon as the `founders` frame has a row.
      Otherwise it does what `LabelSociosFundadores` does. */
  function LabelSociosFundadoresAsWritten(
    maxGap: int, egressosExists: bool, empresasExists: bool,
    columns: set<string>, egressos: seq<Person>, empresas: seq<Empresa>): (r: Result<seq<Labelled>, FounderError>)
    ensures r.Failure? && (r.error == SeriesTruthValue || r.error == JoinKeyDtype) ==>
      LabelSociosFundadores(maxGap, egressosExists, empresasExists, columns, egressos, empresas).Success?
      && Candidates(egressos) != []
  {
    var intended := LabelSociosFundadores(maxGap, egressosExists, empresasExists, columns, egressos, empresas);
    if intended.Success? && Candidates(egressos) != [] && empresas == []
    then Failure(JoinKeyDtype)
    else if intended.Success? && Candidates(egressos) != [] && Founders(egressos, empresas, maxGap) != []
    then Failure(SeriesTruthValue)
    else intended
  }

  /** The founding relations of the person key `id`: those of every row
      carrying that key, pooled, and none for a null key. */
  function RelationsOf(id: Option<string>, egressos: seq<Person>, empresas: seq<Empresa>, maxGap: int): seq<Relation> {
    if id.None? then [] else Map(RowsWithKey(FounderPairs(egressos, empresas, maxGap), PersonOf, id), ToRelation)
  }

  // ---------------------------------------------------------------------
  // Lemmas: dates
  // ---------------------------------------------------------------------

  lemma DecimalValueSnoc(s: string, c: char)
    requires AllAsciiDigits(s) && IsAsciiDigit(c)
    ensures AllAsciiDigits(s + [c]) && DecimalValue(s + [c]) == DecimalValue(s) * 10 + DigitValue(c)
  {
    assert (s + [c])[..|s|] == s;
  }

  /** Reading back a padded number gives the number when it fits. */
  lemma {:induction false} PadValue(n: nat, w: nat)
    requires n < Pow10(w)
    ensures DecimalValue(Pad(n, w)) == n
    decreases w
  {
    if w > 0 {
      PadValue(n / 10, w - 1);
      DecimalValueSnoc(Pad(n / 10, w - 1), DigitChar(n % 10));
    }
  }

  lemma Pow10Bound(w: nat)
    requires w <= 4
    ensures Pow10(w) <= 10000
  {
    assert Pow10(0) == 1 && Pow10(1) == 10 && Pow10(2) == 100 && Pow10(3) == 1000 && Pow10(4) == 10000;
  }

  /** Digits followed by a non-digit, or filling the whole width, are read
      as one run. */
  lemma {:induction false} DigitRunOfPrefix(p: string, rest: string, width: nat)
    requires AllAsciiDigits(p) && |p| <= width
    requires |p| == width || rest == [] || !IsAsciiDigit(rest[0])
    ensures DigitRun(p + rest, width) == |p|
    decreases |p|
  {
    if p != [] {
      assert (p + rest)[0] == p[0];
      assert (p + rest)[1..] == p[1..] + rest;
      DigitRunOfPrefix(p[1..], rest, width - 1);
    }
  }

  /** A zero-padded number of one to `width` digits is read back whole,
      whatever follows it, as long as that does not extend the run. */
  lemma ScanPadded(n: nat, w: nat, width: nat, signed: bool, rest: string)
    requires 1 <= w <= width && n < Pow10(w)
    requires w == width || rest == [] || !IsAsciiDigit(rest[0])
    ensures ScanField(Pad(n, w) + rest, width, signed) == Some((n as int, rest))
  {
    var p := Pad(n, w);
    var s := p + rest;
    assert s[0] == p[0];
    assert TrimStart(s) == s;
    DigitRunOfPrefix(p, rest, width);
    assert s[..w] == p && s[w..] == rest;
    PadValue(n, w);
  }

  lemma ScanEnd()
    ensures ScanItems([], []) == Some([])
  {
  }

  /** A literal item consumes its character. */
  lemma ScanLiteralStep(c: char, items: seq<FormatItem>, s: string)
    requires s != [] && s[0] == c
    ensures ScanItems([Literal(c)] + items, s) == ScanItems(items, s[1..])
  {
    assert ([Literal(c)] + items)[1..] == items;
  }

  /** A numeric item reads its field and the scan goes on after it. */
  lemma ScanFieldStep(w: nat, signed: bool, items: seq<FormatItem>, s: string, n: int, rest: string)
    requires ScanField(s, w, signed) == Some((n, rest))
    ensures ScanItems([Field(w, signed)] + items, s) ==
      (if ScanItems(items, rest).Some? then Some([n] + ScanItems(items, rest).value) else None)
  {
    assert ([Field(w, signed)] + items)[1..] == items;
  }

  /** The same step, for a format given whole. */
  lemma ScanFieldAt(items: seq<FormatItem>, s: string, n: int, rest: string)
    requires items != [] && items[0].Field?
    requires ScanField(s, items[0].width, items[0].signed) == Some((n, rest))
    ensures ScanItems(items, s) ==
      (if ScanItems(items[1..], rest).Some? then Some([n] + ScanItems(items[1..], rest).value) else None)
  {
  }

  /** The scan of a format starting with a number skips leading whitespace. */
  lemma {:induction false} TrimStartSkips(w: string, s: string)
    requires forall i :: 0 <= i < |w| ==> IsWhitespace(w[i])
    ensures TrimStart(w + s) == TrimStart(s)
    decreases |w|
  {
    if w != [] {
      assert (w + s)[0] == w[0];
      assert (w + s)[1..] == w[1..] + s;
      TrimStartSkips(w[1..], s);
    } else {
      assert w + s == s;
    }
  }

  /** The last ISO item reads the day; any text left after it makes the
      scan fail. */
  lemma LastField(dd: string, day: int, tail: string)
    requires ScanField(dd, 2, false) == Some((day, tail))
    ensures ScanItems([Field(2, false)], dd) == (if tail == [] then Some([day]) else None)
  {
    ScanFieldStep(2, false, [], dd, day, tail);
    assert [Field(2, false)] == [Field(2, false)] + [];
    assert [day] + [] == [day];
  }

  /** The ISO items read a year, a dash, a month and a dash, and then the
      day item. */
  lemma IsoScan(y: string, m: string, dd: string, year: int, month: int)
    requires ScanField(m + ("-" + dd), 2, false) == Some((month, "-" + dd))
    requires ScanField(y + ("-" + (m + ("-" + dd))), 4, true) == Some((year, "-" + (m + ("-" + dd))))
    ensures var last := ScanItems([Field(2, false)], dd);
      ScanItems(IsoFormat, y + ("-" + (m + ("-" + dd)))) == (if last.Some? then Some([year, month] + last.value) else None)
  {
    var rest := [Literal('-'), Field(2, false), Literal('-'), Field(2, false)];
    var last := ScanItems([Field(2, false)], dd);
    IsoAfterYear(m, dd, month);
    ScanFieldStep(4, true, rest, y + ("-" + (m + ("-" + dd))), year, "-" + (m + ("-" + dd)));
    assert IsoFormat == [Field(4, true)] + rest;
    if last.Some? {
      assert [year] + ([month] + last.value) == [year, month] + last.value;
    }
  }

  /** The items after the year: a dash, then the month, dash and day. */
  lemma IsoAfterYear(m: string, dd: string, month: int)
    requires ScanField(m + ("-" + dd), 2, false) == Some((month, "-" + dd))
    ensures var last := ScanItems([Field(2, false)], dd);
      ScanItems([Literal('-'), Field(2, false), Literal('-'), Field(2, false)], "-" + (m + ("-" + dd)))
        == (if last.Some? then Some([month] + last.value) else None)
  {
    var day', dash := Field(2, false), Literal('-');
    IsoTailScan(m, dd, month);
    ScanLiteralStep('-', [day', dash, day'], "-" + (m + ("-" + dd)));
    assert ("-" + (m + ("-" + dd)))[1..] == m + ("-" + dd);
    assert [dash, day', dash, day'] == [dash] + [day', dash, day'];
  }

  lemma DashesNest(y: string, m: string, dd: string)
    ensures y + "-" + m + "-" + dd == y + ("-" + (m + ("-" + dd)))
  {
  }

  /** The month, dash and day items of the ISO form. */
  lemma IsoTailScan(m: string, dd: string, month: int)
    requires ScanField(m + ("-" + dd), 2, false) == Some((month, "-" + dd))
    ensures var last := ScanItems([Field(2, false)], dd);
      ScanItems([Field(2, false), Literal('-'), Field(2, false)], m + ("-" + dd))
        == (if last.Some? then Some([month] + last.value) else None)
  {
    var day', dash := Field(2, false), Literal('-');
    var last := ScanItems([day'], dd);
    ScanLiteralStep('-', [day'], "-" + dd);
    assert ("-" + dd)[1..] == dd;
    assert [dash, day'] == [dash] + [day'];
    var r2 := ScanItems([dash, day'], "-" + dd);
    assert r2 == last;
    ScanFieldStep(2, false, [dash, day'], m + ("-" + dd), month, "-" + dd);
    assert [day', dash, day'] == [day'] + [dash, day'];
  }

  /** The ISO items on a padded year, month and day followed by `tail`:
      the three values when nothing follows, and a failure otherwise. */
  lemma IsoFieldsScan(year: nat, month: nat, day: nat, wy: nat, wm: nat, wd: nat, tail: string)
    requires 1 <= wy <= 4 && year < Pow10(wy)
    requires 1 <= wm <= 2 && month < Pow10(wm)
    requires 1 <= wd <= 2 && day < Pow10(wd)
    requires wd == 2 || tail == [] || !IsAsciiDigit(tail[0])
    ensures ScanItems(IsoFormat, Pad(year, wy) + "-" + Pad(month, wm) + "-" + (Pad(day, wd) + tail))
      == (if tail == [] then Some([year as int, month as int, day as int]) else None)
  {
    var y, m, dd := Pad(year, wy), Pad(month, wm), Pad(day, wd) + tail;
    var v: seq<int> := [year, month, day];
    assert [year as int, month as int] + [day as int] == v;
    IsoDay(day, wd, tail);
    IsoMonth(month, wm, dd);
    IsoYear(year, wy, m, dd);
    IsoScan(y, m, dd, year, month);
    DashesNest(y, m, dd);
  }

  lemma IsoDay(day: nat, wd: nat, tail: string)
    requires 1 <= wd <= 2 && day < Pow10(wd)
    requires wd == 2 || tail == [] || !IsAsciiDigit(tail[0])
    ensures ScanItems([Field(2, false)], Pad(day, wd) + tail) == (if tail == [] then Some([day as int]) else None)
  {
    ScanPadded(day, wd, 2, false, tail);
    LastField(Pad(day, wd) + tail, day, tail);
  }

  lemma IsoMonth(month: nat, wm: nat, dd: string)
    requires 1 <= wm <= 2 && month < Pow10(wm)
    ensures ScanField(Pad(month, wm) + ("-" + dd), 2, false) == Some((month as int, "-" + dd))
  {
    assert ("-" + dd)[0] == '-';
    ScanPadded(month, wm, 2, false, "-" + dd);
  }

  lemma IsoYear(year: nat, wy: nat, m: string, dd: string)
    requires 1 <= wy <= 4 && year < Pow10(wy)
    ensures ScanField(Pad(year, wy) + ("-" + (m + ("-" + dd))), 4, true) == Some((year as int, "-" + (m + ("-" + dd))))
  {
    assert ("-" + (m + ("-" + dd)))[0] == '-';
    ScanPadded(year, wy, 4, true, "-" + (m + ("-" + dd)));
  }

  /** `%Y-%m-%d` reads a year of one to four digits and a month and a day
      of one or two, zero-padded or not. */
  lemma ParseIsoWidths(d: Date, wy: nat, wm: nat, wd: nat)
    requires Valid(d) && 0 <= d.year
    requires 1 <= wy <= 4 && d.year < Pow10(wy)
    requires 1 <= wm <= 2 && d.month < Pow10(wm)
    requires 1 <= wd <= 2 && d.day < Pow10(wd)
    ensures ParseDate(Some(Pad(d.year, wy) + "-" + Pad(d.month, wm) + "-" + Pad(d.day, wd))) == Some(d)
  {
    var text := Pad(d.year, wy) + "-" + Pad(d.month, wm) + "-" + Pad(d.day, wd);
    IsoFieldsScan(d.year, d.month, d.day, wy, wm, wd, []);
    assert Pad(d.day, wd) + [] == Pad(d.day, wd);
    Pow10Bound(wy);
    StrptimeOfScan(IsoFormat, text, d);
  }

  /** Three scanned values that form a date in range are that date. */
  lemma StrptimeOfScan(format: seq<FormatItem>, s: string, d: Date)
    requires ScanItems(format, s) == Some([d.year, d.month, d.day])
    requires Valid(d) && MinYear <= d.year <= MaxYear
    ensures Strptime(format, s) == Some(d)
  {
  }

  /** Text that starts with a year and then a dash fails the compact items:
      the month field cannot start with a dash. */
  lemma CompactRejectsDash(year: nat, wy: nat, rest: string)
    requires 1 <= wy <= 4 && year < Pow10(wy)
    requires rest != [] && rest[0] == '-'
    ensures ScanItems(CompactFormat, Pad(year, wy) + rest) == None
  {
    ScanPadded(year, wy, 4, true, rest);
    CompactNeedsDigit(Pad(year, wy) + rest, year, rest);
  }

  /** The compact items read three fields with nothing between them. */
  lemma CompactScan(y: string, m: string, dd: string, year: int, month: int, day: int)
    requires ScanField(dd, 2, false) == Some((day, []))
    requires ScanField(m + dd, 2, false) == Some((month, dd))
    requires ScanField(y + (m + dd), 4, true) == Some((year, m + dd))
    ensures ScanItems(CompactFormat, y + (m + dd)) == Some([year, month, day])
  {
    var f := Field(2, false);
    ScanEnd();
    ScanFieldStep(2, false, [], dd, day, []);
    assert [f] == [f] + [] && [day] + [] == [day];
    ScanFieldStep(2, false, [f], m + dd, month, dd);
    assert [f, f] == [f] + [f] && [month] + [day] == [month, day];
    ScanFieldStep(4, true, [f, f], y + (m + dd), year, m + dd);
    assert [year] + [month, day] == [year, month, day];
    assert CompactFormat == [Field(4, true)] + [f, f];
  }

  /** A field meets a character that is neither whitespace, a digit nor,
      for a signed field, a sign: it reads nothing. */
  lemma FieldNeedsDigit(s: string, w: nat, signed: bool)
    requires s != [] && !IsWhitespace(s[0]) && !IsAsciiDigit(s[0])
    requires !signed || (s[0] != '-' && s[0] != '+')
    ensures ScanField(s, w, signed) == None
  {
    assert TrimStart(s) == s;
  }

  lemma ScanFieldFails(w: nat, signed: bool, items: seq<FormatItem>, s: string)
    requires ScanField(s, w, signed) == None
    ensures ScanItems([Field(w, signed)] + items, s) == None
  {
    assert ([Field(w, signed)] + items)[1..] == items;
  }

  /** The ISO items fail when the year is not followed by a dash. */
  lemma IsoNeedsDash(s: string, year: int, rest: string)
    requires ScanField(s, 4, true) == Some((year, rest)) && (rest == [] || rest[0] != '-')
    ensures ScanItems(IsoFormat, s) == None
  {
    var tail := IsoFormat[1..];
    assert IsoFormat == [Field(4, true)] + tail;
    assert tail == [Literal('-')] + tail[1..];
    ScanFieldStep(4, true, tail, s, year, rest);
  }

  /** The compact items fail when the year is followed by a character no
      field can start with. */
  lemma CompactNeedsDigit(s: string, year: int, rest: string)
    requires ScanField(s, 4, true) == Some((year, rest))
    requires rest != [] && !IsWhitespace(rest[0]) && !IsAsciiDigit(rest[0])
    ensures ScanItems(CompactFormat, s) == None
  {
    var f := Field(2, false);
    FieldNeedsDigit(rest, 2, false);
    ScanFieldFails(2, false, [f], rest);
    assert [f, f] == [f] + [f];
    ScanFieldStep(4, true, [f, f], s, year, rest);
    assert CompactFormat == [Field(4, true)] + [f, f];
  }

  /** `%Y%m%d` reads four year digits and two month digits (each field is
      greedy) and then a day of one or two digits; the ISO form fails on
      such text, so `_parse_date` falls through to this one. */
  lemma ParseCompactWidths(d: Date, wd: nat)
    requires Valid(d) && 0 <= d.year < 10000
    requires 1 <= wd <= 2 && d.day < Pow10(wd)
    ensures ParseIso(Pad(d.year, 4) + Pad(d.month, 2) + Pad(d.day, wd)) == None
    ensures ParseDate(Some(Pad(d.year, 4) + Pad(d.month, 2) + Pad(d.day, wd))) == Some(d)
  {
    var y, m, dd := Pad(d.year, 4), Pad(d.month, 2), Pad(d.day, wd);
    ScanPadded(d.day, wd, 2, false, []);
    assert dd + [] == dd;
    ScanPadded(d.month, 2, 2, false, dd);
    ScanPadded(d.year, 4, 4, true, m + dd);
    assert (m + dd)[0] == m[0];
    IsoNeedsDash(y + (m + dd), d.year, m + dd);
    CompactScan(y, m, dd, d.year, d.month, d.day);
    Assoc(y, m, dd);
  }

  /** Leading whitespace changes no parse: chrono skips it before the year. */
  lemma ParseDateLeadingWhitespace(w: string, s: string)
    requires forall i :: 0 <= i < |w| ==> IsWhitespace(w[i])
    ensures ParseDate(Some(w + s)) == ParseDate(Some(s))
  {
    TrimStartSkips(w, s);
    assert ScanField(w + s, 4, true) == ScanField(s, 4, true);
    YearFirstSkips(IsoFormat, w + s, s);
    YearFirstSkips(CompactFormat, w + s, s);
  }

  /** Two texts the year field reads alike are scanned alike by a format
      that starts with the year. */
  lemma YearFirstSkips(format: seq<FormatItem>, s: string, t: string)
    requires format != [] && format[0] == Field(4, true)
    requires ScanField(s, 4, true) == ScanField(t, 4, true)
    ensures ScanItems(format, s) == ScanItems(format, t)
  {
  }

  /** The widths chrono accepts: "2020-1-5" is 2020-01-05, "2020105" is
      2020-10-05, and " 2020-01-05" is 2020-01-05 as well. */
  lemma ParseDateLenientExamples()
    ensures ParseDate(Some("2020-1-5")) == Some(Date(2020, 1, 5))
    ensures ParseDate(Some("2020105")) == Some(Date(2020, 10, 5))
    ensures ParseDate(Some(" 2020-01-05")) == Some(Date(2020, 1, 5))
  {
    LenientTexts();
    ParseIsoWidths(Date(2020, 1, 5), 4, 1, 1);
    ParseCompactWidths(Date(2020, 10, 5), 1);
    ParseIsoWidths(Date(2020, 1, 5), 4, 2, 2);
    ParseDateLeadingWhitespace(" ", "2020-01-05");
  }

  lemma LenientTexts()
    ensures "2020-1-5" == Pad(2020, 4) + "-" + Pad(1, 1) + "-" + Pad(5, 1)
    ensures "2020105" == Pad(2020, 4) + Pad(10, 2) + Pad(5, 1)
    ensures "2020-01-05" == Pad(2020, 4) + "-" + Pad(1, 2) + "-" + Pad(5, 2)
    ensures " 2020-01-05" == " " + "2020-01-05"
  {
    PadExamples();
  }

  /** Text that is neither form parses to null: another separator, a day
      the month does not have, text left over after the day, and a null
      cell. */
  lemma ParseDateRejects()
    ensures ParseDate(Some("01/02/2020")) == None
    ensures ParseDate(Some("2020-02-30")) == None
    ensures ParseDate(Some("2020-01-05x")) == None
    ensures ParseDate(None) == None
  {
    SlashRejected();
    February30Rejected();
    TrailingRejected();
  }

  lemma SlashRejected()
    ensures ParseDate(Some("01/02/2020")) == None
  {
    var s := "01/02/2020";
    PadExamples();
    assert s == Pad(1, 2) + "/02/2020";
    ScanPadded(1, 2, 4, true, "/02/2020");
    IsoNeedsDash(s, 1, "/02/2020");
    CompactNeedsDigit(s, 1, "/02/2020");
  }

  lemma February30Rejected()
    ensures ParseDate(Some("2020-02-30")) == None
  {
    Feb30Text();
    IsoFieldsScan(2020, 2, 30, 4, 2, 2, []);
    assert !Valid(Date(2020, 2, 30));
    CompactRejectsDash(2020, 4, "-02-30");
  }

  lemma Feb30Text()
    ensures "2020-02-30" == Pad(2020, 4) + "-" + Pad(2, 2) + "-" + (Pad(30, 2) + [])
    ensures "2020-02-30" == Pad(2020, 4) + "-02-30"
  {
    PadExamples();
  }

  lemma TrailingRejected()
    ensures ParseDate(Some("2020-01-05x")) == None
  {
    TrailingText();
    IsoFieldsScan(2020, 1, 5, 4, 2, 2, "x");
    CompactRejectsDash(2020, 4, "-01-05x");
  }

  lemma TrailingText()
    ensures "2020-01-05x" == Pad(2020, 4) + "-" + Pad(1, 2) + "-" + (Pad(5, 2) + "x")
    ensures "2020-01-05x" == Pad(2020, 4) + "-01-05x"
  {
    PadExamples();
  }

  // ---------------------------------------------------------------------
  // Lemmas: the window
  // ---------------------------------------------------------------------

  /** The window is inclusive: with the default of 7 days, a company
      started on 2020-01-01 has its partner of 2020-01-08 as a founder, and
      not its partner of 2020-01-09. */
  lemma WindowInclusiveExample()
    ensures var e := Empresa(Some("123"), Some("2020-01-01"));
      IsFounding((LongRow(Some("p"), Some(true), Some("123"), Some("2020-01-08")), Some(e)), MaxFounderGapDays)
      && Gap((LongRow(Some("p"), Some(true), Some("123"), Some("2020-01-08")), Some(e))) == Some(7)
      && !IsFounding((LongRow(Some("p"), Some(true), Some("123"), Some("20200109")), Some(e)), MaxFounderGapDays)
  {
    WindowDates();
    WindowGaps("2020-01-01", "2020-01-08", "20200109");
  }

  /** The day counts behind the window example. */
  lemma WindowGaps(start: string, inside: string, outside: string)
    requires ParseDate(Some(start)) == Some(Date(2020, 1, 1))
    requires ParseDate(Some(inside)) == Some(Date(2020, 1, 8))
    requires ParseDate(Some(outside)) == Some(Date(2020, 1, 9))
    ensures var e := Empresa(Some("123"), Some(start));
      IsFounding((LongRow(Some("p"), Some(true), Some("123"), Some(inside)), Some(e)), MaxFounderGapDays)
      && Gap((LongRow(Some("p"), Some(true), Some("123"), Some(inside)), Some(e))) == Some(7)
      && !IsFounding((LongRow(Some("p"), Some(true), Some("123"), Some(outside)), Some(e)), MaxFounderGapDays)
  {
    var e := Empresa(Some("123"), Some(start));
    var j1 := (LongRow(Some("p"), Some(true), Some("123"), Some(inside)), Some(e));
    var j2 := (LongRow(Some("p"), Some(true), Some("123"), Some(outside)), Some(e));
    WindowDayCounts();
    FoundingNeedsDates(j1, MaxFounderGapDays);
    FoundingNeedsDates(j2, MaxFounderGapDays);
  }

  lemma WindowDayCounts()
    ensures DayNumber(Date(2020, 1, 8)) - DayNumber(Date(2020, 1, 1)) == 7
    ensures DayNumber(Date(2020, 1, 9)) - DayNumber(Date(2020, 1, 1)) == 8
  {
  }

  lemma WindowDates()
    ensures ParseDate(Some("2020-01-01")) == Some(Date(2020, 1, 1))
    ensures ParseDate(Some("2020-01-08")) == Some(Date(2020, 1, 8))
    ensures ParseDate(Some("20200109")) == Some(Date(2020, 1, 9))
  {
    WindowTexts();
    ParseIsoWidths(Date(2020, 1, 1), 4, 2, 2);
    ParseIsoWidths(Date(2020, 1, 8), 4, 2, 2);
    ParseCompactWidths(Date(2020, 1, 9), 2);
  }

  lemma WindowTexts()
    ensures "2020-01-01" == Pad(2020, 4) + "-" + Pad(1, 2) + "-" + Pad(1, 2)
    ensures "2020-01-08" == Pad(2020, 4) + "-" + Pad(1, 2) + "-" + Pad(8, 2)
    ensures "20200109" == Pad(2020, 4) + Pad(1, 2) + Pad(9, 2)
  {
    PadExamples();
  }

  lemma PadExamples()
    ensures Pad(2020, 4) == "2020" && Pad(1, 2) == "01" && Pad(8, 2) == "08" && Pad(9, 2) == "09"
    ensures Pad(1, 1) == "1" && Pad(5, 1) == "5" && Pad(5, 2) == "05" && Pad(10, 2) == "10"
    ensures Pad(2, 2) == "02" && Pad(30, 2) == "30"
  {
    assert Pad(2, 1) == "2" && Pad(20, 2) == "20" && Pad(202, 3) == "202";
    assert Pad(0, 1) == "0" && Pad(3, 1) == "3";
  }

  /** A founding relation has both dates and a gap within the window, and a
      relation missing either date never is one. */
  lemma FoundingNeedsDates(j: Joined, maxGap: int)
    ensures IsFounding(j, maxGap) <==>
      (AssociationDate(j).Some? && StartDate(j).Some?
       && Abs(DayNumber(AssociationDate(j).value) - DayNumber(StartDate(j).value)) <= maxGap)
  {
  }

  /** The gap is symmetric in the two dates: a partner who joined a week
      before the company started counts like one who joined a week after. */
  lemma GapSymmetric(a: Date, b: Date)
    requires Valid(a) && Valid(b)
    ensures Abs(DayNumber(a) - DayNumber(b)) == Abs(DayNumber(b) - DayNumber(a))
  {
  }

  // ---------------------------------------------------------------------
  // Lemmas: the frame
  // ---------------------------------------------------------------------

  /** The errors, in the order they are checked. */
  lemma LabelErrors(maxGap: int, egressosExists: bool, empresasExists: bool,
                    columns: set<string>, egressos: seq<Person>, empresas: seq<Empresa>)
    ensures var r := LabelSociosFundadores(maxGap, egressosExists, empresasExists, columns, egressos, empresas);
      && (maxGap < 0 <==> r == Failure(NegativeGap))
      && (maxGap >= 0 && egressosExists && empresasExists && !(RequiredColumns <= columns) ==>
            r == Failure(MissingColumns(RequiredColumns - columns)))
      && (r.Success? <==> (maxGap >= 0 && egressosExists && empresasExists && RequiredColumns <= columns
            && forall i :: 0 <= i < |egressos| ==> ExplodeOk(egressos[i])))
  {
    DifferenceEmpty(RequiredColumns, columns);
  }

  lemma DifferenceEmpty<T>(a: set<T>, b: set<T>)
    ensures a - b == {} <==> a <= b
  {
    if !(a <= b) {
      var x :| x in a && x !in b;
      assert x in a - b;
    }
  }

  lemma FoundersMembers(egressos: seq<Person>, empresas: seq<Empresa>, maxGap: int)
    ensures forall i :: 0 <= i < |Founders(egressos, empresas, maxGap)| ==>
      Founders(egressos, empresas, maxGap)[i] == MakeFounder(GroupBy(FounderPairs(egressos, empresas, maxGap), PersonOf)[i])
  {
  }

  /** The founders have distinct keys, so the final join keeps one row per
      alumni row. */
  lemma FoundersUnique(egressos: seq<Person>, empresas: seq<Empresa>, maxGap: int)
    ensures UniqueKeys(Founders(egressos, empresas, maxGap), FounderKey)
  {
    var fp := FounderPairs(egressos, empresas, maxGap);
    GroupByCorrect(fp, PersonOf);
    FoundersMembers(egressos, empresas, maxGap);
  }

  /** The founder row matched for a person key carries that key's pooled
      relations; no match means the key has none. */
  lemma MatchedFounder(id: Option<string>, egressos: seq<Person>, empresas: seq<Empresa>, maxGap: int)
    ensures var m := FirstMatch(id, Founders(egressos, empresas, maxGap), FounderKey);
      && (m.Some? ==> m.value.relacoes == RelationsOf(id, egressos, empresas, maxGap))
      && (m.None? ==> RelationsOf(id, egressos, empresas, maxGap) == [])
  {
    var fp := FounderPairs(egressos, empresas, maxGap);
    var gs := GroupBy(fp, PersonOf);
    var fs := Founders(egressos, empresas, maxGap);
    var m := FirstMatch(id, fs, FounderKey);
    GroupByGroups(fp, PersonOf, id);
    FoundersMembers(egressos, empresas, maxGap);
    if m.Some? {
      var k :| 0 <= k < |fs| && fs[k] == m.value;
      assert gs[k] in gs;
    } else if id.Some? {
      forall g | g in gs ensures g.0 != id {
        var k :| 0 <= k < |gs| && gs[k] == g;
        assert fs[k] in fs;
      }
    }
  }

  /** With no candidate relation there is no founding pair. */
  lemma NoCandidatesNoPairs(egressos: seq<Person>, empresas: seq<Empresa>, maxGap: int)
    requires Candidates(egressos) == []
    ensures FounderPairs(egressos, empresas, maxGap) == []
  {
  }

  /** With no founder row there is no founding pair. */
  lemma NoFoundersNoPairs(egressos: seq<Person>, empresas: seq<Empresa>, maxGap: int)
    requires Founders(egressos, empresas, maxGap) == []
    ensures FounderPairs(egressos, empresas, maxGap) == []
  {
    var fp := FounderPairs(egressos, empresas, maxGap);
    if fp != [] {
      assert fp[0] in fp;
      GroupByCorrect(fp, PersonOf);
      assert false;
    }
  }

  /** The output keeps every alumni row, in order, and gives it the pooled
      founding relations of its person key, the companies of those
      relations, and a flag that is set exactly when there is one. */
  lemma LabelCorrect(maxGap: int, egressosExists: bool, empresasExists: bool,
                     columns: set<string>, egressos: seq<Person>, empresas: seq<Empresa>)
    requires LabelSociosFundadores(maxGap, egressosExists, empresasExists, columns, egressos, empresas).Success?
    ensures var r := LabelSociosFundadores(maxGap, egressosExists, empresasExists, columns, egressos, empresas).value;
      && |r| == |egressos|
      && forall i :: 0 <= i < |r| ==>
        && r[i].person == egressos[i]
        && r[i].fundadorRelacoes == RelationsOf(egressos[i].idPessoa, egressos, empresas, maxGap)
        && r[i].cnpjFundador == CnpjsFromRelacoes(r[i].fundadorRelacoes)
        && (r[i].socioFundador <==> r[i].fundadorRelacoes != [])
  {
    var r := LabelSociosFundadores(maxGap, egressosExists, empresasExists, columns, egressos, empresas).value;
    var fs := Founders(egressos, empresas, maxGap);
    if Candidates(egressos) == [] || fs == [] {
      if Candidates(egressos) == [] {
        NoCandidatesNoPairs(egressos, empresas, maxGap);
      } else {
        NoFoundersNoPairs(egressos, empresas, maxGap);
      }
      forall i | 0 <= i < |r| ensures r[i].fundadorRelacoes == RelationsOf(egressos[i].idPessoa, egressos, empresas, maxGap) {
        assert RowsWithKey([], PersonOf, egressos[i].idPessoa) == [];
      }
    } else {
      FoundersUnique(egressos, empresas, maxGap);
      LeftJoinUniqueRight(egressos, fs, PersonKey, FounderKey);
      forall i | 0 <= i < |r|
        ensures r[i].person == egressos[i]
        ensures r[i].fundadorRelacoes == RelationsOf(egressos[i].idPessoa, egressos, empresas, maxGap)
        ensures r[i].cnpjFundador == CnpjsFromRelacoes(r[i].fundadorRelacoes)
        ensures r[i].socioFundador <==> r[i].fundadorRelacoes != []
      {
        JoinedRow(egressos, empresas, maxGap, i);
      }
    }
  }

  /** With no company rows there is no founding pair: the intended call then
      leaves every row with the empty defaults, as the warning for an empty
      company frame says ("flags will not be changed"). */
  lemma EmptyEmpresasKeepsFlags(maxGap: int, egressosExists: bool, empresasExists: bool,
                                columns: set<string>, egressos: seq<Person>)
    requires LabelSociosFundadores(maxGap, egressosExists, empresasExists, columns, egressos, []).Success?
    ensures FounderPairs(egressos, [], maxGap) == []
    ensures LabelSociosFundadores(maxGap, egressosExists, empresasExists, columns, egressos, []).value == Map(egressos, Defaults)
  {
    var fp := FounderPairs(egressos, [], maxGap);
    if fp != [] {
      assert fp[0] in fp;
      FounderPairMember(egressos, [], maxGap, fp[0]);
      assert false;
    }
    assert KeysOf(fp, PersonOf) == [];
  }

  /** As written, the call fails exactly when the intended call succeeds and
      either has candidate rows but no company rows (the join raises) or finds
      a founding relation (the map raises); otherwise the two agree. */
  lemma AsWrittenFailsOnFounders(maxGap: int, egressosExists: bool, empresasExists: bool,
                                 columns: set<string>, egressos: seq<Person>, empresas: seq<Empresa>)
    ensures var i := LabelSociosFundadores(maxGap, egressosExists, empresasExists, columns, egressos, empresas);
      var w := LabelSociosFundadoresAsWritten(maxGap, egressosExists, empresasExists, columns, egressos, empresas);
      && (i.Success? && empresas == [] && Candidates(egressos) != [] ==> w == Failure(JoinKeyDtype))
      && (i.Success? && FounderPairs(egressos, empresas, maxGap) != [] ==> w == Failure(SeriesTruthValue))
      && (i.Failure? ==> w == i)
      && (FounderPairs(egressos, empresas, maxGap) == [] && (empresas != [] || Candidates(egressos) == []) ==> w == i)
  {
    var fp := FounderPairs(egressos, empresas, maxGap);
    if Candidates(egressos) == [] {
      NoCandidatesNoPairs(egressos, empresas, maxGap);
    }
    if Founders(egressos, empresas, maxGap) == [] {
      NoFoundersNoPairs(egressos, empresas, maxGap);
    }
    if fp == [] {
      assert KeysOf(fp, PersonOf) == [];
    }
    if empresas == [] && fp != [] {
      assert fp[0] in fp;
      FounderPairMember(egressos, empresas, maxGap, fp[0]);
      assert false;
    }
  }

  /** An alumnus with a candidate relation and an empty company file: the
      intended call leaves the row with the defaults, while the code as
      written raises at the join. */
  lemma AsWrittenRaisesOnEmptyEmpresas()
    ensures var p := Person(Some("p"), Some(true), Some([Some("123")]), Some([Some("2020-01-08")]));
      && LabelSociosFundadores(MaxFounderGapDays, true, true, RequiredColumns, [p], []) == Success([Defaults(p)])
      && LabelSociosFundadoresAsWritten(MaxFounderGapDays, true, true, RequiredColumns, [p], []) == Failure(JoinKeyDtype)
  {
    var p := Person(Some("p"), Some(true), Some([Some("123")]), Some([Some("2020-01-08")]));
    var l := LongRow(Some("p"), Some(true), Some("123"), Some("2020-01-08"));
    assert ExplodeRow(p) == [l];
    CandidatesMembers([p]);
    assert l in Candidates([p]);
    LabelErrors(MaxFounderGapDays, true, true, RequiredColumns, [p], []);
    EmptyEmpresasKeepsFlags(MaxFounderGapDays, true, true, RequiredColumns, [p]);
    assert Map([p], Defaults) == [Defaults(p)];
  }

  /** The window example as a whole call: the intended result marks the
      partner of 2020-01-08 as a founder of company "123", while the code as
      written raises. */
  lemma AsWrittenRaisesOnWindowExample()
    ensures var p := Person(Some("p"), Some(true), Some([Some("123")]), Some([Some("2020-01-08")]));
      var e := Empresa(Some("123"), Some("2020-01-01"));
      var i := LabelSociosFundadores(MaxFounderGapDays, true, true, RequiredColumns, [p], [e]);
      && i.Success? && |i.value| == 1
      && i.value[0].socioFundador && "123" in i.value[0].cnpjFundador
      && LabelSociosFundadoresAsWritten(MaxFounderGapDays, true, true, RequiredColumns, [p], [e]) == Failure(SeriesTruthValue)
  {
    var p := Person(Some("p"), Some(true), Some([Some("123")]), Some([Some("2020-01-08")]));
    var e := Empresa(Some("123"), Some("2020-01-01"));
    var l := LongRow(Some("p"), Some(true), Some("123"), Some("2020-01-08"));
    var j: Joined := (l, Some(e));
    assert ExplodeRow(p) == [l];
    WindowInclusiveExample();
    assert FoundedBy(p, l, e, MaxFounderGapDays);
    LabelErrors(MaxFounderGapDays, true, true, RequiredColumns, [p], [e]);
    var i := LabelSociosFundadores(MaxFounderGapDays, true, true, RequiredColumns, [p], [e]);
    assert i.Success?;
    RelationsOfComplete([p], [e], MaxFounderGapDays, p, l, e);
    LabelCorrect(MaxFounderGapDays, true, true, RequiredColumns, [p], [e]);
    var rels := i.value[0].fundadorRelacoes;
    assert ToRelation(j) in rels;
    var k :| 0 <= k < |rels| && rels[k] == ToRelation(j);
    forall r | r in rels ensures r.cnpjBasico.Some? && r.cnpjBasico.value != "" {
      RelationsAreFounding(p.idPessoa, [p], [e], MaxFounderGapDays, r);
    }
    CnpjFundadorComplete(rels);
    assert i.value[0].cnpjFundador[k] == "123";
    RelationsOfSound(p.idPessoa, [p], [e], MaxFounderGapDays, rels[k]);
    assert FounderPairs([p], [e], MaxFounderGapDays) != [] by {
      assert RelationsOf(p.idPessoa, [p], [e], MaxFounderGapDays) != [];
    }
    AsWrittenFailsOnFounders(MaxFounderGapDays, true, true, RequiredColumns, [p], [e]);
  }

  /** Row `i` of the join with the founders, once filled, carries the pooled
      relations of its person key. */
  lemma JoinedRow(egressos: seq<Person>, empresas: seq<Empresa>, maxGap: int, i: nat)
    requires i < |egressos|
    ensures |LeftJoin(egressos, Founders(egressos, empresas, maxGap), PersonKey, FounderKey)| == |egressos|
    ensures var r := Fill(LeftJoin(egressos, Founders(egressos, empresas, maxGap), PersonKey, FounderKey)[i]);
      && r.person == egressos[i]
      && r.fundadorRelacoes == RelationsOf(egressos[i].idPessoa, egressos, empresas, maxGap)
      && r.cnpjFundador == CnpjsFromRelacoes(r.fundadorRelacoes)
      && (r.socioFundador <==> r.fundadorRelacoes != [])
  {
    var fs := Founders(egressos, empresas, maxGap);
    FoundersUnique(egressos, empresas, maxGap);
    LeftJoinUniqueRight(egressos, fs, PersonKey, FounderKey);
    var m := FirstMatch(egressos[i].idPessoa, fs, FounderKey);
    MatchedFounder(egressos[i].idPessoa, egressos, empresas, maxGap);
    if m.Some? {
      var k :| 0 <= k < |fs| && fs[k] == m.value;
      FoundersMembers(egressos, empresas, maxGap);
    }
  }

  /** Rows that share a person key pool their relations and get the same
      columns, whatever row each relation came from. */
  lemma PooledByPerson(maxGap: int, egressosExists: bool, empresasExists: bool,
                       columns: set<string>, egressos: seq<Person>, empresas: seq<Empresa>, i: nat, j: nat)
    requires LabelSociosFundadores(maxGap, egressosExists, empresasExists, columns, egressos, empresas).Success?
    requires i < |egressos| && j < |egressos| && egressos[i].idPessoa == egressos[j].idPessoa
    requires i < |LabelSociosFundadores(maxGap, egressosExists, empresasExists, columns, egressos, empresas).value|
    requires j < |LabelSociosFundadores(maxGap, egressosExists, empresasExists, columns, egressos, empresas).value|
    ensures var r := LabelSociosFundadores(maxGap, egressosExists, empresasExists, columns, egressos, empresas).value;
      r[i].fundadorRelacoes == r[j].fundadorRelacoes && r[i].socioFundador == r[j].socioFundador
  {
    LabelCorrect(maxGap, egressosExists, empresasExists, columns, egressos, empresas);
  }

  /** The exploded rows are exactly the rows of the per-person explosions. */
  lemma LongMembers(egressos: seq<Person>)
    ensures forall l :: l in Long(egressos) <==> exists p :: p in egressos && l in ExplodeRow(p)
  {
    var ss := Map(egressos, ExplodeRow);
    FlattenMembers(ss);
    forall l ensures l in Long(egressos) <==> exists p :: p in egressos && l in ExplodeRow(p) {
      if l in Long(egressos) {
        var s :| s in ss && l in s;
        var k :| 0 <= k < |ss| && ss[k] == s;
        assert egressos[k] in egressos;
      } else {
        forall p | p in egressos ensures l !in ExplodeRow(p) {
          var k :| 0 <= k < |egressos| && egressos[k] == p;
          assert ss[k] in ss;
        }
      }
    }
  }

  /** The candidates are the exploded rows that pass the filter. */
  lemma CandidatesMembers(egressos: seq<Person>)
    ensures forall l :: l in Candidates(egressos) <==> IsCandidate(l) && exists p :: p in egressos && l in ExplodeRow(p)
  {
    LongMembers(egressos);
  }

  /** A candidate and a company are paired by the join exactly when the
      company has the candidate's (present) code. */
  lemma JoinedPair(egressos: seq<Person>, empresas: seq<Empresa>, l: LongRow, e: Empresa)
    ensures (l, Some(e)) in JoinedRows(egressos, empresas) <==>
      (l in Candidates(egressos) && e in empresas && KeyMatch(l.cnpjBasico, e.cnpjBasico))
  {
    LeftJoinPair(Candidates(egressos), empresas, RelationCnpj, EmpresaCnpj, l, e);
  }

  /** A founding pair is a candidate relation of some alumni row joined with
      a company of the same code, within the window; an unmatched candidate
      never founds. */
  lemma FounderPairMember(egressos: seq<Person>, empresas: seq<Empresa>, maxGap: int, j: Joined)
    ensures j in FounderPairs(egressos, empresas, maxGap) <==>
      (j.1.Some? && j.0 in Candidates(egressos) && j.1.value in empresas
       && KeyMatch(j.0.cnpjBasico, j.1.value.cnpjBasico) && IsFounding(j, maxGap))
  {
    if j.1.Some? {
      assert j == (j.0, Some(j.1.value));
      JoinedPair(egressos, empresas, j.0, j.1.value);
    }
  }

  /** The witnesses of a founding relation: an exploded row `l` of the alumni
      row `p` that passes the filter, and a company `e` of the same code whose
      start of activity is within the window of the association date. */
  predicate FoundedBy(p: Person, l: LongRow, e: Empresa, maxGap: int) {
    l in ExplodeRow(p) && IsCandidate(l) && KeyMatch(l.cnpjBasico, e.cnpjBasico) && IsFounding((l, Some(e)), maxGap)
  }

  /** Every relation reported for a (necessarily non-null) key comes from
      an alumni row with that key and a company, as `FoundedBy` says. */
  lemma RelationsOfSound(id: Option<string>, egressos: seq<Person>, empresas: seq<Empresa>, maxGap: int, rel: Relation)
    requires rel in RelationsOf(id, egressos, empresas, maxGap)
    ensures id.Some?
    ensures exists p, l, e :: (p in egressos && p.idPessoa == id && e in empresas
      && FoundedBy(p, l, e, maxGap) && rel == ToRelation((l, Some(e))))
  {
    var rows := RowsWithKey(FounderPairs(egressos, empresas, maxGap), PersonOf, id);
    var rels := Map(rows, ToRelation);
    var k :| 0 <= k < |rels| && rels[k] == rel;
    var j := rows[k];
    assert j in rows;
    FounderPairMember(egressos, empresas, maxGap, j);
    var l, e := j.0, j.1.value;
    assert j == (l, Some(e));
    CandidatesMembers(egressos);
    var p :| p in egressos && l in ExplodeRow(p);
    ExplodeKeepsKey(p, l);
    assert p in egressos && p.idPessoa == id && e in empresas && FoundedBy(p, l, e, maxGap) && rel == ToRelation((l, Some(e)));
  }

  /** Conversely, every founding relation of an alumni row with a non-null
      key is reported for that key. */
  lemma RelationsOfComplete(egressos: seq<Person>, empresas: seq<Empresa>, maxGap: int, p: Person, l: LongRow, e: Empresa)
    requires p in egressos && p.idPessoa.Some? && e in empresas && FoundedBy(p, l, e, maxGap)
    ensures ToRelation((l, Some(e))) in RelationsOf(p.idPessoa, egressos, empresas, maxGap)
  {
    CandidatesMembers(egressos);
    assert l in Candidates(egressos);
    var j: Joined := (l, Some(e));
    FounderPairMember(egressos, empresas, maxGap, j);
    ExplodeKeepsKey(p, l);
    var fp := FounderPairs(egressos, empresas, maxGap);
    assert j in fp;
    assert PersonOf(j) == p.idPessoa;
    var rows := RowsWithKey(fp, PersonOf, p.idPessoa);
    assert j in rows;
    var k :| 0 <= k < |rows| && rows[k] == j;
    assert Map(rows, ToRelation)[k] == ToRelation(j);
  }

  /** Every exploded row carries its person's key. */
  lemma ExplodeKeepsKey(p: Person, l: LongRow)
    requires l in ExplodeRow(p)
    ensures l.idPessoa == p.idPessoa && l.socio == p.socio
  {
  }

  /** `cnpj_fundador` lists the company of every founding relation, in
      order: their codes are present and non-empty. */
  lemma {:induction false} CnpjFundadorComplete(rels: seq<Relation>)
    requires forall r :: r in rels ==> r.cnpjBasico.Some? && r.cnpjBasico.value != ""
    ensures |CnpjsFromRelacoes(rels)| == |rels|
    ensures forall k :: 0 <= k < |rels| ==> CnpjsFromRelacoes(rels)[k] == rels[k].cnpjBasico.value
    decreases |rels|
  {
    if rels != [] {
      assert rels[0] in rels;
      forall r | r in rels[1..] ensures r.cnpjBasico.Some? && r.cnpjBasico.value != "" {
        var k :| 0 <= k < |rels[1..]| && rels[1..][k] == r;
        assert rels[k + 1] == r;
      }
      CnpjFundadorComplete(rels[1..]);
    }
  }

  /** Every relation reported for a person has both dates, a gap within the
      window and a non-empty company code. */
  lemma RelationsAreFounding(id: Option<string>, egressos: seq<Person>, empresas: seq<Empresa>, maxGap: int, rel: Relation)
    requires rel in RelationsOf(id, egressos, empresas, maxGap)
    ensures rel.dataAssociacao.Some? && rel.dataInicioAtividade.Some?
    ensures rel.diferencaDias.Some? && 0 <= rel.diferencaDias.value <= maxGap
    ensures rel.cnpjBasico.Some? && rel.cnpjBasico.value != ""
  {
    RelationsOfSound(id, egressos, empresas, maxGap, rel);
    var q, l, e :| q in egressos && q.idPessoa == id && e in empresas
      && FoundedBy(q, l, e, maxGap) && rel == ToRelation((l, Some(e)));
  }
}
