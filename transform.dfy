/** The base transform of the alumni table (src/etl/transform.py). It builds
    normalised names, the cleaned CPF and the pseudonymous id, age and age
    bracket, and the last course. The CPF check-digit validator, the
    transliteration of names, the MAC and today's date are parameters. */
module Transform {
  import opened Wrappers
  import opened Text
  import opened Calendar
  import opened Security
  import opened Clean

  // ---------------------------------------------------------------------
  // CPF
  // ---------------------------------------------------------------------

  /** `_clean_cpf`: the digits of the value if there are exactly eleven and
      the validator accepts them, else the empty string. */
  function CleanCpf(s: Option<string>, validCpf: string -> bool): string {
    if s.None? then ""
    else
      var d := Digits(s.value);
      if |d| == 11 && validCpf(d) then d else ""
  }

  /** The cleaned CPF is empty or eleven digits the validator accepts. It is
      not empty exactly when the value has eleven digits that pass. Cleaning
      it again changes nothing. */
  lemma CleanCpfCorrect(s: Option<string>, validCpf: string -> bool)
    ensures CleanCpf(s, validCpf) == "" || (|CleanCpf(s, validCpf)| == 11 && validCpf(CleanCpf(s, validCpf)))
    ensures forall i :: 0 <= i < |CleanCpf(s, validCpf)| ==> IsDigit(CleanCpf(s, validCpf)[i])
    ensures CleanCpf(s, validCpf) != "" <==> s.Some? && |Digits(s.value)| == 11 && validCpf(Digits(s.value))
    ensures CleanCpf(s, validCpf) != "" ==> CleanCpf(s, validCpf) == Digits(s.value)
    ensures CleanCpf(Some(CleanCpf(s, validCpf)), validCpf) == CleanCpf(s, validCpf)
  {
    var r := CleanCpf(s, validCpf);
    DigitsOfDigits(r);
  }

  // ---------------------------------------------------------------------
  // Age
  // ---------------------------------------------------------------------

  /** Integer division truncating toward zero, as relativedelta's month
      normalisation does. */
  function TruncDiv12(m: int): int {
    if m >= 0 then m / 12 else -((-m) / 12)
  }

  /** The months component of `relativedelta(today, birth)`. It starts from
      the calendar-month difference and steps one month back (or forward,
      when `birth` is later) while the shifted birth date overshoots
      `today`. */
  function MonthsBetween(today: Date, birth: Date): int
    requires Valid(today) && Valid(birth)
  {
    var m0 := MonthIndex(today) - MonthIndex(birth);
    var anniversary := AddMonths(birth, m0);
    if !Before(today, birth) then
      (if today.day < anniversary.day then m0 - 1 else m0)
    else
      (if today.day > anniversary.day then m0 + 1 else m0)
  }

  /** `relativedelta(today, birth).years`. */
  function Age(today: Date, birth: Date): int
    requires Valid(today) && Valid(birth)
  {
    TruncDiv12(MonthsBetween(today, birth))
  }

  /** `_calc_idade`, with today's date as a parameter. */
  function CalcIdade(today: Date, nasc: Option<Date>): (r: Option<int>)
    requires Valid(today) && (nasc.Some? ==> Valid(nasc.value))
    ensures r.None? <==> nasc.None?
  {
    if nasc.None? then None else Some(Age(today, nasc.value))
  }

  /** For a birth date not after today, the months component counts the
      whole months lived: shifting the birth date by that many months stays
      within today, one more overshoots. */
  lemma MonthsBetweenCorrect(today: Date, birth: Date)
    requires Valid(today) && Valid(birth) && !Before(today, birth)
    ensures MonthsBetween(today, birth) >= 0
    ensures !Before(today, AddMonths(birth, MonthsBetween(today, birth)))
    ensures Before(today, AddMonths(birth, MonthsBetween(today, birth) + 1))
  {
    var m0 := MonthIndex(today) - MonthIndex(birth);
    var a := AddMonths(birth, m0);
    if today.day < a.day {
      assert a.day <= birth.day;
      assert m0 >= 1;
      var b := AddMonths(birth, m0 - 1);
      assert MonthIndex(b) < MonthIndex(today);
    }
  }

  /** The age is the number of birthdays already reached: the birth date
      shifted by that many years is not after today, and shifted by one year
      more it is. */
  lemma AgeCountsBirthdays(today: Date, birth: Date)
    requires Valid(today) && Valid(birth) && !Before(today, birth)
    ensures Age(today, birth) >= 0
    ensures !Before(today, AddMonths(birth, 12 * Age(today, birth)))
    ensures Before(today, AddMonths(birth, 12 * Age(today, birth) + 12))
  {
    MonthsBetweenCorrect(today, birth);
    var m := MonthsBetween(today, birth);
    var y := Age(today, birth);
    assert 12 * y <= m < 12 * y + 12;
    if 12 * y < m {
      AddMonthsMonotone(birth, 12 * y, m);
    }
    if m + 1 < 12 * y + 12 {
      AddMonthsMonotone(birth, m + 1, 12 * y + 12);
    }
  }

  /** A birth date after today gives an age of zero or less. */
  lemma FutureBirthNotPositive(today: Date, birth: Date)
    requires Valid(today) && Valid(birth) && Before(today, birth)
    ensures Age(today, birth) <= 0
  {
  }

  // ---------------------------------------------------------------------
  // Age bracket
  // ---------------------------------------------------------------------

  const AgeBins: seq<int> := [0, 18, 25, 35, 45, 55, 65, 200]
  const AgeLabels: seq<string> := ["<18", "18-24", "25-34", "35-44", "45-54", "55-64", "65+"]
  const Unknown: string := "IGNORADO"

  /** The bracket of an age by its thresholds, or `None` when it is below 0
      or at least 200. */
  function Bracket(age: int): (r: Option<nat>)
    ensures r.Some? ==> r.value < |AgeLabels|
  {
    if age < 0 || age >= 200 then None
    else if age < 18 then Some(0)
    else if age < 25 then Some(1)
    else if age < 35 then Some(2)
    else if age < 45 then Some(3)
    else if age < 55 then Some(4)
    else if age < 65 then Some(5)
    else Some(6)
  }

  /** The label `_faixa_etaria` gives. */
  function FaixaOf(idade: Option<int>): string {
    if idade.None? then Unknown
    else
      match Bracket(idade.value)
      case None => Unknown
      case Some(i) => AgeLabels[i]
  }

  /** `_faixa_etaria`: the first half-open bin `[bins[i], bins[i+1])` that
      holds the age gives the label. */
  method FaixaEtaria(idade: Option<int>) returns (faixa: string)
    ensures faixa == FaixaOf(idade)
  {
    if idade.None? {
      return Unknown;
    }
    var age := idade.value;
    var bins := AgeBins;
    var labels := AgeLabels;
    for i := 0 to |labels|
      invariant forall j :: 0 <= j < i ==> !(bins[j] <= age < bins[j + 1])
    {
      if bins[i] <= age < bins[i + 1] {
        return labels[i];
      }
    }
    assert age < 0 || age >= 200 by {
      assert !(bins[0] <= age < bins[1]) && !(bins[1] <= age < bins[2]) && !(bins[2] <= age < bins[3]);
      assert !(bins[3] <= age < bins[4]) && !(bins[4] <= age < bins[5]) && !(bins[5] <= age < bins[6]);
      assert !(bins[6] <= age < bins[7]);
    }
    return Unknown;
  }

  /** An age gets label `i` exactly when it lies in the half-open bin `i`,
      and no label exactly when it is below 0 or at least 200. */
  lemma BracketCorrect(age: int, i: nat)
    ensures Bracket(age) == Some(i) <==> i < |AgeLabels| && AgeBins[i] <= age < AgeBins[i + 1]
    ensures Bracket(age).None? <==> age < 0 || age >= 200
  {
  }

  lemma FaixaExamples()
    ensures FaixaOf(Some(17)) == "<18"
    ensures FaixaOf(Some(18)) == "18-24"
    ensures FaixaOf(Some(65)) == "65+" && FaixaOf(Some(199)) == "65+"
    ensures FaixaOf(Some(200)) == Unknown && FaixaOf(Some(-1)) == Unknown
    ensures FaixaOf(None) == Unknown
  {
  }

  /** Every label is one of the seven bracket labels or `IGNORADO`. */
  lemma FaixaRange(idade: Option<int>)
    ensures FaixaOf(idade) in AgeLabels || FaixaOf(idade) == Unknown
  {
  }

  // ---------------------------------------------------------------------
  // The transform
  // ---------------------------------------------------------------------

  /** The columns `basic_transform` reads. `curso` is `None` in every row of
      a table without that column. */
  datatype EgressoIn = EgressoIn(
    nome: Option<string>, nomePai: Option<string>, nomeMae: Option<string>,
    cpf: Option<string>, dataNascimento: Option<Date>, curso: Option<string>)

  /** A row with the columns `basic_transform` adds. */
  datatype EgressoOut = EgressoOut(
    row: EgressoIn,
    nomeNorm: Option<string>, nomePaiNorm: Option<string>, nomeMaeNorm: Option<string>,
    cpfLimpo: Option<string>, idPessoa: Option<string>,
    idade: Option<int>, faixaEtaria: string, ultimoCurso: string)

  /** `map_elements(normalize_name)`: a null cell stays null. */
  function NormCell(c: Option<string>, translit: string -> string): Option<string> {
    if c.None? then None else Some(NormalizeName(c, translit))
  }

  function CpfCell(c: Option<string>, validCpf: string -> bool): Option<string> {
    if c.None? then None else Some(CleanCpf(c, validCpf))
  }

  function IdCell(c: Option<string>, salt: string, mac: (string, string) -> HexDigest): Option<string> {
    if c.None? then None else Some(HashIdentifier(c, salt, mac))
  }

  /** `map_elements(_faixa_etaria)` as written: the null age of a row without
      birth date is skipped, so the bracket is null. */
  function FaixaCellAsWritten(idade: Option<int>): Option<string> {
    if idade.None? then None else Some(FaixaOf(idade))
  }

  /** The bracket as `_faixa_etaria` intends it: `IGNORADO` for an unknown
      age too. */
  function FaixaCell(idade: Option<int>): string {
    FaixaOf(idade)
  }

  function TransformRow(r: EgressoIn, hasCurso: bool, today: Date, translit: string -> string,
                        validCpf: string -> bool, salt: string, mac: (string, string) -> HexDigest): EgressoOut
    requires Valid(today) && (r.dataNascimento.Some? ==> Valid(r.dataNascimento.value))
  {
    var cpfLimpo := CpfCell(r.cpf, validCpf);
    var idade := CalcIdade(today, r.dataNascimento);
    EgressoOut(
      r,
      NormCell(r.nome, translit), NormCell(r.nomePai, translit), NormCell(r.nomeMae, translit),
      cpfLimpo, IdCell(cpfLimpo, salt, mac),
      idade, FaixaCell(idade),
      if hasCurso then r.curso.GetOr("") else "")
  }

  /** Birth dates, when present, are real calendar dates. */
  predicate ValidDates(rows: seq<EgressoIn>) {
    forall i :: 0 <= i < |rows| ==> (rows[i].dataNascimento.Some? ==> Valid(rows[i].dataNascimento.value))
  }

  /** `basic_transform`, row by row. */
  function BasicTransform(rows: seq<EgressoIn>, hasCurso: bool, today: Date, translit: string -> string,
                          validCpf: string -> bool, salt: string, mac: (string, string) -> HexDigest): (out: seq<EgressoOut>)
    requires Valid(today) && ValidDates(rows)
    ensures |out| == |rows|
  {
    seq(|rows|, i requires 0 <= i < |rows| => TransformRow(rows[i], hasCurso, today, translit, validCpf, salt, mac))
  }

  /** Each derived column is null exactly when its source is. An invalid CPF
      gives the empty id, a valid one the keyed digest of its digits. The
      bracket of a row without birth date is `IGNORADO`. `ultimo_curso` is
      `curso` with nulls as "", or "" without a `curso` column. */
  lemma TransformRowCorrect(r: EgressoIn, hasCurso: bool, today: Date, translit: string -> string,
                            validCpf: string -> bool, salt: string, mac: (string, string) -> HexDigest)
    requires Valid(today) && (r.dataNascimento.Some? ==> Valid(r.dataNascimento.value))
    ensures var o := TransformRow(r, hasCurso, today, translit, validCpf, salt, mac);
      && o.row == r
      && (o.nomeNorm.None? <==> r.nome.None?)
      && (o.cpfLimpo.None? <==> r.cpf.None?)
      && (o.idPessoa.None? <==> r.cpf.None?)
      && (o.idPessoa == Some("") <==> o.cpfLimpo == Some(""))
      && (o.cpfLimpo.Some? && o.cpfLimpo.value != "" ==> o.idPessoa == Some(mac(salt, o.cpfLimpo.value)))
      && (o.idade.None? <==> r.dataNascimento.None?)
      && (r.dataNascimento.None? ==> o.faixaEtaria == Unknown)
      && o.ultimoCurso == (if hasCurso && r.curso.Some? then r.curso.value else "")
  {
    IdOfCpf(r.cpf, validCpf, salt, mac);
  }

  /** The cleaned CPF cell and the id cell built from it. */
  lemma IdOfCpf(c: Option<string>, validCpf: string -> bool, salt: string, mac: (string, string) -> HexDigest)
    ensures CpfCell(c, validCpf).None? <==> c.None?
    ensures IdCell(CpfCell(c, validCpf), salt, mac).None? <==> c.None?
    ensures IdCell(CpfCell(c, validCpf), salt, mac) == Some("") <==> CpfCell(c, validCpf) == Some("")
    ensures CpfCell(c, validCpf).Some? && CpfCell(c, validCpf).value != "" ==>
      IdCell(CpfCell(c, validCpf), salt, mac) == Some(mac(salt, CpfCell(c, validCpf).value))
  {
    CleanCpfCorrect(c, validCpf);
    var cpf := CpfCell(c, validCpf);
    if cpf.Some? {
      HashEmptyIff(cpf, salt, mac);
      if cpf.value != "" {
        var d := cpf.value;
        assert !AllSpace(d) by {
          assert IsDigit(d[0]);
        }
        HashIsKeyedDigest(d, salt, mac);
        NoSpaceStrip(d);
      }
    }
  }

  /** Rows are neither added nor removed nor reordered, and each row gets the
      columns of `TransformRow`. */
  lemma BasicTransformKeepsRows(rows: seq<EgressoIn>, hasCurso: bool, today: Date, translit: string -> string,
                                validCpf: string -> bool, salt: string, mac: (string, string) -> HexDigest)
    requires Valid(today) && ValidDates(rows)
    ensures |BasicTransform(rows, hasCurso, today, translit, validCpf, salt, mac)| == |rows|
    ensures forall i :: 0 <= i < |rows| ==> BasicTransform(rows, hasCurso, today, translit, validCpf, salt, mac)[i].row == rows[i]
  {
  }

  /** A string of digits has no edge whitespace to strip. */
  lemma NoSpaceStrip(d: string)
    requires forall i :: 0 <= i < |d| ==> IsDigit(d[i])
    ensures Strip(d) == d
  {
    StripOfTrimmed(d);
  }

  /** As written, a row without birth date gets a null bracket instead of
      `IGNORADO`, which only the intended version gives. */
  lemma FaixaAsWrittenMissesUnknown()
    ensures FaixaCellAsWritten(CalcIdade(Date(2025, 1, 1), None)) == None
    ensures FaixaCell(CalcIdade(Date(2025, 1, 1), None)) == Unknown
  {
  }

  /** The two versions agree whenever the birth date is known. */
  lemma FaixaAgreesWhenKnown(idade: Option<int>)
    requires idade.Some?
    ensures FaixaCellAsWritten(idade) == Some(FaixaCell(idade))
  {
  }
}
