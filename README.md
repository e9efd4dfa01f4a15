# IPE2 alumni–CNPJ linkage, modelled in Dafny

IPE2 is an ETL pipeline in Python. It reads a spreadsheet of a university's
alumni, cleans and pseudonymises it, and links the alumni to the partner
(sócio) records of the Brazilian company register, the CNPJ open data of the
Receita Federal. It then flags partners and founders and assembles a dataset of
the companies involved.

This project models the logic of that pipeline. Each source file gets one
Dafny module:

| module | source file |
|---|---|
| `Security` | src/utils/security.py |
| `Clean` | src/utils/clean.py |
| `IngestExcel` | src/etl/ingest_excel.py |
| `Transform` | src/etl/transform.py |
| `EnrichCnpj` | src/etl/enrich_cnpj.py |
| `FounderAnalysis` | src/etl/founder_analysis.py |
| `CompanyDataset` | src/etl/build_company_dataset.py |
| `DownloadCnpj` | src/cnpj/download_cnpj.py |
| `PrepareSocios` | src/cnpj/prepare_socios.py |

The older copies of these functions in ctrlC_ctrlV.py share the modules with
their current versions. Where the copy differs, the difference is a parameter
or a second member. For example, `IngestExcel.ReadEgressosExcelSnapshot` is the
reader without an alias map, and `EnrichCnpj.SnapshotCpfCandidates` holds the
snapshot's loader paths.

Helper modules:
- `Wrappers`: `Option` for nullable cells and `Result` for raised exceptions.
- `Seqs`: facts about slicing and concatenation.
- `Text`: Python's `strip`, `split`, `upper`, `lower`, `isdigit`, `re.sub(r"\s+", " ", …)` and UTF-8 byte length on `seq<char>`. `isspace` follows Python on every character; `isdigit` (ASCII digits and `¹²³`) and `lower` (the capitals `A`..`Z` and `À`..`Þ` except `×`) follow Python on the Latin-1 range; `upper` maps ASCII letters only.
- `Order`: code-point order on strings, nulls-first order, and `sorted(set(…))`.
- `Relational`: Polars' filter, explode, left join, `unique` and `group_by`.
- `Calendar`: the proleptic Gregorian calendar, day numbers and `relativedelta` month arithmetic.

A data frame is a sequence of row records. A nullable cell is an `Option`, and
an exception is the `Failure` side of a `Result`.

Libraries and the outside world are parameters:
- HMAC-SHA256 is a function to 64-character lower-case hex strings.
- `unidecode` is a transliteration function.
- rapidfuzz's `token_set_ratio` is a score function.
- The `validate_docbr` CPF check is a predicate.
- `pd.to_datetime` is a date parser.
- `date.today()` is a date argument.
- Whether a file or directory exists, what a listing or a read returns, and the
  size of a downloaded file are all arguments.

Where the source loops and appends, the model does the same:
- splitting and cleaning prefixes, building the natural sort key, and the download loop in `DownloadCnpj`;
- the zip-extraction naming loops and the CSV read loop in `PrepareSocios`;
- the date-conversion and expected-column loops in `IngestExcel`;
- the bracket search in `Transform.FaixaEtaria`;
- the loader search and the name scan in `EnrichCnpj`;
- the directory search in `CompanyDataset.FindLatestExtractDir`.

Each such loop is a method. It is proved equal to a specification function, and
lemmas state what that function guarantees. Frame expressions are functions.

## Model

| member | source | states |
|---|---|---|
| `Security.HashEmptyIff` | src/utils/security.py:21-26 | the identifier is "" exactly for a missing value or one made only of whitespace; otherwise it is 64 lower-case hex characters |
| `Security.HashStripInvariant` | src/utils/security.py:23-26 | two values that strip to the same text get the same identifier |
| `Security.HashOfStripped` | ctrlC_ctrlV.py:49-54 | a value and its stripped form get the same identifier (the snapshot copy behaves identically) |
| `Security.HashIsKeyedDigest` | src/utils/security.py:26 | a non-blank value's identifier is the keyed MAC of its stripped text under the salt, so it depends on nothing else |
| `Security.HashPaddedExample` | src/utils/security.py:23 | `" 123 "` and `"123"` get the same identifier |
| `Clean.NormalizeNameShape` | src/utils/clean.py:19-21 | a normalised name has no edge whitespace, only single plain spaces, and no lower-case letter; it is ASCII when transliteration yields ASCII |
| `Clean.NormalizeNameEmptyIff` | src/utils/clean.py:17-19 | the result is "" exactly for a missing name or one whose transliteration is all whitespace |
| `Clean.NormalizeNameIdempotent` | src/utils/clean.py:19-21 | normalising a normalised name changes nothing, given a transliteration that is the identity on ASCII |
| `Clean.NormalizeNameCaseInsensitive` | ctrlC_ctrlV.py:63-68 | the result equals upper-case, then strip, then collapse, so names differing only in case or whitespace normalise alike |
| `Text.CollapseCollapses` | src/utils/clean.py:20 | after `re.sub(r"\s+", " ", s)` every whitespace character is a plain space followed by a non-space character |
| `Text.StripEmptyIff` | src/utils/security.py:24-25 | `s.strip()` is empty exactly when `s` is all whitespace |
| `Text.StripIdempotent` | src/utils/security.py:23 | stripping twice is stripping once |
| `Text.WordsJoinIsCollapseStrip` | src/cnpj/prepare_socios.py:51 | `" ".join(s.split())` equals collapsing the whitespace of `s.strip()` |
| `Text.Utf8LengthAscii` | src/cnpj/prepare_socios.py:192 | the UTF-8 byte length of an ASCII string is its character count |
| `Text.LowerChar` | src/cnpj/download_cnpj.py:112 | `lower()` changes a Latin-1 character exactly when it is a capital, and leaves no capital behind |
| `Text.DecimalValueOfNatToString` | src/cnpj/download_cnpj.py:111 | `int(str(n)) == n` |
| `IngestExcel.NormalizeHeaderShape` | src/etl/ingest_excel.py:58-63 | a normalised header has no edge whitespace, no upper-case letter, no space and no hyphen |
| `IngestExcel.NormalizeNormal` | src/etl/ingest_excel.py:59-62 | a header already in that form is left unchanged |
| `IngestExcel.NormalizeHeaderIdempotent` | src/etl/ingest_excel.py:58-63 | normalising a header twice is normalising it once |
| `IngestExcel.ReplaceCharShape` | src/etl/ingest_excel.py:61-62 | replacing a character removes every occurrence of it and keeps the edges and the case |
| `IngestExcel.AliasesCanonical` | src/etl/ingest_excel.py:35-44 | every alias leads to an expected column and never to another alias, so one application of the map is final |
| `IngestExcel.CanonicalHeaders` | src/etl/ingest_excel.py:64 | header `j` becomes the alias of its normalised form, or that form when it has no alias |
| `IngestExcel.IndexOf` | src/etl/ingest_excel.py:68 | the found position holds the column of that name; no position means no column has it |
| `IngestExcel.ConvertNamed` | src/etl/ingest_excel.py:67-69 | exactly the columns named in the list are converted, cell by cell; the rest are unchanged |
| `IngestExcel.ConvertDateColumns` | src/etl/ingest_excel.py:66-69 | the conversion loop yields the columns of `ConvertNamed` for the three date columns |
| `IngestExcel.AddExpectedColumns` | src/etl/ingest_excel.py:74-77 | the loop yields `AddMissing` of the expected names |
| `IngestExcel.AddMissingCorrect` | src/etl/ingest_excel.py:75-77 | existing columns stay in front unchanged; every expected name becomes a column; each added column is all-null, expected and was missing; no name is duplicated |
| `IngestExcel.ReadEgressosExcel` | src/etl/ingest_excel.py:47-79 | the reader returns `Ingest` with the alias map and the expected columns |
| `IngestExcel.IngestCorrect` | src/etl/ingest_excel.py:52-77 | a missing file raises; headers that collide raise; otherwise the rows are kept, sheet columns stay in front under their canonical names (dates converted), and every expected column exists, the added ones all-null |
| `IngestExcel.IngestWellFormed` | src/etl/ingest_excel.py:72-77 | a well-formed sheet gives a frame whose columns all have one cell per row |
| `IngestExcel.DateColumnsConverted` | src/etl/ingest_excel.py:69 | after reading, a date column holds only dates and nulls |
| `IngestExcel.ReadEgressosExcelSnapshot` | ctrlC_ctrlV.py:96-127 | the snapshot reader returns `Ingest` with no alias map and the snapshot's expected columns |
| `IngestExcel.NeverSituacaoCurso` | ctrlC_ctrlV.py:107-112 | no normalised header equals `situacaoCurso` |
| `IngestExcel.SnapshotSituacaoAlwaysNull` | ctrlC_ctrlV.py:123-125 | so the snapshot reader always adds `situacaoCurso` as an all-null column |
| `Transform.CleanCpfCorrect` | src/etl/transform.py:27-33 | the result is "" or eleven validated digits; it is non-empty exactly when the value's digits are eleven and pass, and is then those digits; cleaning twice changes nothing |
| `Transform.CalcIdade` | src/etl/transform.py:36-43 | the age is missing exactly when the birth date is |
| `Transform.MonthsBetweenCorrect` | src/etl/transform.py:41 | for a birth not after today, the months component is the largest shift of the birth date that stays within today |
| `Transform.AgeCountsBirthdays` | src/etl/transform.py:41 | the age is the number of birthdays reached: shifted by that many years the birth date is not after today, one more year and it is |
| `Transform.FutureBirthNotPositive` | ctrlC_ctrlV.py:155-162 | a birth date after today gives an age of zero or less |
| `Transform.Bracket` | src/etl/transform.py:49-50 | a bracket found is an index into the seven labels |
| `Transform.FaixaEtaria` | src/etl/transform.py:46-54 | the indexed search loop returns `FaixaOf` of the age |
| `Transform.BracketCorrect` | src/etl/transform.py:51-54 | an age gets label `i` exactly when `bins[i] <= age < bins[i+1]`, and no label exactly when it is below 0 or at least 200 |
| `Transform.FaixaExamples` | src/etl/transform.py:47-54 | 17 gives "<18", 18 gives "18-24", 65 and 199 give "65+", and 200, -1 and a missing age give "IGNORADO" |
| `Transform.FaixaRange` | ctrlC_ctrlV.py:165-173 | every result is one of the seven labels or "IGNORADO" |
| `Transform.BasicTransform` | src/etl/transform.py:57-95 | the output has one row per input row |
| `Transform.BasicTransformKeepsRows` | src/etl/transform.py:61-95 | rows are neither added, removed nor reordered, and row `i` is the transform of input row `i` |
| `Transform.TransformRowCorrect` | src/etl/transform.py:64-93 | each derived column is null exactly when its source is; an invalid CPF gives the empty id and a valid one the keyed digest of its digits; `ultimo_curso` is `curso` with nulls as "", or "" without a `curso` column |
| `Transform.IdOfCpf` | src/etl/transform.py:71-76 | `id_pessoa` is null exactly for a null CPF, "" exactly when the cleaned CPF is "", and otherwise the MAC of the cleaned CPF |
| `Transform.FaixaAsWrittenMissesUnknown` | src/etl/transform.py:83-87 | as written, a row without birth date gets a null bracket, where the intended version gives "IGNORADO" |
| `Transform.FaixaAgreesWhenKnown` | src/etl/transform.py:85-87 | the as-written and intended brackets agree whenever the age is known |
| `EnrichCnpj.FindSource` | src/etl/enrich_cnpj.py:30-39 | the loader loop returns `FirstExisting` of the candidates |
| `EnrichCnpj.FirstExistingCorrect` | src/etl/enrich_cnpj.py:43-55 | the earliest existing candidate is returned, and nothing only when none exists |
| `EnrichCnpj.ApproxFlag` | src/etl/enrich_cnpj.py:82-91 | the scan with early exit returns `ApproxMatch`: a non-empty name and one of the first 5000 names scoring at least 92 |
| `EnrichCnpj.ApproxMatchIgnoresTail` | src/etl/enrich_cnpj.py:87-88 | names past the first 5000 never change the flag |
| `EnrichCnpj.ApproxMatchEmptyName` | ctrlC_ctrlV.py:280-281 | an empty name never matches |
| `EnrichCnpj.CpfStepCorrect` | src/etl/enrich_cnpj.py:65-74 | the intended CPF step keeps the rows in order, without the raw `cpf` when a table with a `cpf` column is loaded, and flags a row exactly when a table with a `cpf` column holds its cleaned CPF |
| `EnrichCnpj.MarkFoundersCorrect` | src/etl/enrich_cnpj.py:59-96 | rows are kept, and lose their raw `cpf` column exactly when a table with a `cpf` column is loaded; the CPF flag is that membership; the name flag is false without a name table, null for a null name, and the scan otherwise; the founder flag is their Kleene OR |
| `EnrichCnpj.MissingTablesGiveFalse` | ctrlC_ctrlV.py:262-291 | without a CPF table or a name table, the corresponding flag is false in every row |
| `EnrichCnpj.PreparedTableNeverFlagsByCpf` | src/etl/enrich_cnpj.py:66 | the prepared partner table (columns `cpf_fragment`, `nome`) has no `cpf` column, so it never flags by CPF |
| `EnrichCnpj.CpfStepAsWrittenIgnoresTable` | src/etl/enrich_cnpj.py:70-72 | as written, with a table loaded, the CPF flag is whether the alumnus' raw CPF is present, whatever the table holds, and that CPF is then dropped |
| `EnrichCnpj.CpfFlagAsWrittenMismatch` | src/etl/enrich_cnpj.py:70-72 | an alumnus with an invalid CPF absent from the table is flagged as written and not by the membership test |
| `FounderAnalysis.ScanNumber` | src/etl/founder_analysis.py:18-19 | a numeric field of a date format reads something exactly when the text starts with an ASCII digit, and consumes it |
| `FounderAnalysis.Strptime` | src/etl/founder_analysis.py:18-19 | a parse with a year, month and day format is a real calendar date within chrono's year range |
| `FounderAnalysis.ParseIso` | src/etl/founder_analysis.py:18 | a parsed `%Y-%m-%d` date is a real calendar date |
| `FounderAnalysis.ParseCompact` | src/etl/founder_analysis.py:19 | a parsed `%Y%m%d` date is a real calendar date |
| `FounderAnalysis.ParseDate` | src/etl/founder_analysis.py:15-20 | the ISO parse, else the compact parse, is a real date or null |
| `FounderAnalysis.ParseIsoWidths` | src/etl/founder_analysis.py:18 | a date written with a year of one to four digits and a month and day of one or two, zero-padded or not, between dashes parses back to itself |
| `FounderAnalysis.ParseCompactWidths` | src/etl/founder_analysis.py:17-20 | a date written as four year digits, two month digits and a one- or two-digit day fails the ISO form and parses back to itself through the compact form |
| `FounderAnalysis.ParseDateLeadingWhitespace` | src/etl/founder_analysis.py:17-20 | leading whitespace never changes the parse |
| `FounderAnalysis.ParseDateLenientExamples` | src/etl/founder_analysis.py:17-20 | "2020-1-5" is 2020-01-05, "2020105" is 2020-10-05 and " 2020-01-05" is 2020-01-05 |
| `FounderAnalysis.ParseDateRejects` | src/etl/founder_analysis.py:17-20 | "01/02/2020", the non-date "2020-02-30", text left over after the day and a null cell parse to null |
| `FounderAnalysis.WindowInclusiveExample` | src/etl/founder_analysis.py:12 | with the default 7 days a partner who joined 7 days after the company started is a founder, and one who joined 8 days after is not |
| `FounderAnalysis.FoundingNeedsDates` | src/etl/founder_analysis.py:105-110 | a relation is founding exactly when both dates parse and their gap is at most the window |
| `FounderAnalysis.GapSymmetric` | src/etl/founder_analysis.py:101-102 | the gap is the same whichever date comes first |
| `FounderAnalysis.LabelErrors` | src/etl/founder_analysis.py:30-49 | a negative window raises first; missing required columns raise with exactly the missing names; success means no error condition holds and every row's lists explode |
| `FounderAnalysis.LongMembers` | src/etl/founder_analysis.py:63 | the exploded rows are exactly those of the per-row explosions |
| `FounderAnalysis.ExplodeKeepsKey` | src/etl/founder_analysis.py:62-63 | an exploded row keeps its person's key and partner flag |
| `FounderAnalysis.CandidatesMembers` | src/etl/founder_analysis.py:61-71 | the candidates are exactly the exploded rows that are partners with a non-empty company and association date |
| `FounderAnalysis.JoinedPair` | src/etl/founder_analysis.py:98 | a candidate and a company are joined exactly when the company has the candidate's present code |
| `FounderAnalysis.FounderPairMember` | src/etl/founder_analysis.py:98-124 | a founding pair is a candidate joined with a company of its code within the window; an unmatched candidate never founds |
| `FounderAnalysis.NoCandidatesNoPairs` | src/etl/founder_analysis.py:73-92 | with no candidate there is no founding pair, so the early return agrees with the general case |
| `FounderAnalysis.NoFoundersNoPairs` | src/etl/founder_analysis.py:138-147 | with no founder row there is no founding pair, so the second early return agrees too |
| `FounderAnalysis.FoundersUnique` | src/etl/founder_analysis.py:123-126 | the founders have distinct person keys |
| `FounderAnalysis.MatchedFounder` | src/etl/founder_analysis.py:161 | the founder row matched for a key carries that key's pooled relations; no match means the key has none |
| `FounderAnalysis.JoinedRow` | src/etl/founder_analysis.py:161-175 | the join keeps one row per alumni row, and row `i`, once filled, carries the pooled relations of its key |
| `FounderAnalysis.LabelSociosFundadoresAsWritten` | src/etl/founder_analysis.py:52-157 | as written, the join-key dtype error and the `TypeError` happen only where the intended call succeeds with at least one candidate row |
| `FounderAnalysis.AsWrittenFailsOnFounders` | src/etl/founder_analysis.py:52-157 | as written, the call raises at the join when the intended call succeeds with candidate rows and an empty company file, raises `TypeError` when it succeeds with a founding relation, and otherwise agrees with it |
| `FounderAnalysis.EmptyEmpresasKeepsFlags` | src/etl/founder_analysis.py:52-54 | with an empty company file there is no founding pair, and the intended call gives every row empty lists and `False`, as the warning at line 53 says |
| `FounderAnalysis.AsWrittenRaisesOnEmptyEmpresas` | src/etl/founder_analysis.py:52-98 | a partner row with a company and a date, against an empty company file: the intended result is the defaults, while the call as written raises at the join |
| `FounderAnalysis.AsWrittenRaisesOnWindowExample` | src/etl/founder_analysis.py:149-157 | a partner who joined company "123" 7 days after its start is a founder in the intended result, while the call as written raises |
| `FounderAnalysis.LabelCorrect` | src/etl/founder_analysis.py:149-175 | every alumni row is kept in order with its key's relations (never null), their companies, and a flag set exactly when there is a relation |
| `FounderAnalysis.PooledByPerson` | src/etl/founder_analysis.py:125-136 | rows sharing a person key get the same relations, companies and flag |
| `FounderAnalysis.RelationsOfSound` | src/etl/founder_analysis.py:123-136 | every reported relation belongs to a non-null key and comes from an alumni row with that key, one of its exploded candidates, and a company of that code within the window |
| `FounderAnalysis.RelationsOfComplete` | src/etl/founder_analysis.py:124-126 | every founding relation of an alumni row with a non-null key is reported for that key |
| `FounderAnalysis.RelationsAreFounding` | src/etl/founder_analysis.py:105-110 | every reported relation has both dates, a gap within the window and a non-empty company code |
| `FounderAnalysis.CnpjFundadorComplete` | src/etl/founder_analysis.py:149-157 | `cnpj_fundador` lists the company code of every relation, in order |
| `CompanyDataset.NonEmptyValues` | src/etl/build_company_dataset.py:203-204 | exactly the present, non-empty values are kept |
| `CompanyDataset.CollectCnpjsMembers` | src/etl/build_company_dataset.py:192-208 | a missing file or a missing `cnpj_basico` column raises; otherwise the codes are exactly the non-empty strings of the column's lists |
| `CompanyDataset.EnsureTargetsCorrect` | src/etl/build_company_dataset.py:85-89 | the targets are strictly ascending and exactly the non-empty codes; it raises exactly when there is none |
| `CompanyDataset.EnsureTargetsOrderIndependent` | src/etl/build_company_dataset.py:86 | the targets depend only on the set of codes |
| `CompanyDataset.FindLatestExtractDir` | src/etl/build_company_dataset.py:92-103 | the descending search returns `LatestExtractDir`: the last name in ascending order that has an extraction |
| `CompanyDataset.LatestExtractDirCorrect` | src/etl/build_company_dataset.py:93-103 | the chosen directory is the greatest name with an extraction; it raises exactly when none has one |
| `CompanyDataset.LastWhereGreatest` | src/etl/build_company_dataset.py:98-100 | in a strictly sorted list the last element satisfying `p` is above every other such element |
| `CompanyDataset.LastWhereCorrect` | src/etl/build_company_dataset.py:98-102 | the element found is at the greatest position satisfying `p`; nothing is found exactly when none does |
| `CompanyDataset.EstabCnpj` | src/etl/build_company_dataset.py:170 | the full CNPJ is present exactly when its three parts are |
| `CompanyDataset.EstabCnpjParts` | src/etl/build_company_dataset.py:169-170 | the full CNPJ is the base, then the order, then the check digits |
| `CompanyDataset.LoadsAreUnique` | src/etl/build_company_dataset.py:144-187 | Empresas and Simples are unique per code after de-duplication; the establishment groups and head offices are one per code |
| `CompanyDataset.DedupMatch` | src/etl/build_company_dataset.py:148 | the row joined for a target comes from the input with that code, and none is joined only when the input has no such row |
| `CompanyDataset.EstabsOfTarget` | src/etl/build_company_dataset.py:178-181 | the establishments joined for a code are all target establishments of that code, in order |
| `CompanyDataset.MatrizOfTarget` | src/etl/build_company_dataset.py:183-187 | the head office joined for a code is its first establishment flagged "1", or none |
| `CompanyDataset.JoinStep` | src/etl/build_company_dataset.py:243 | a left join with a key-unique table keeps the rows and fills each with its match |
| `CompanyDataset.EmpresasStep` | src/etl/build_company_dataset.py:242-243 | the Empresas join fills each row with its company, if any, and nothing else |
| `CompanyDataset.SimplesStep` | src/etl/build_company_dataset.py:244-245 | the Simples join fills each row with its Simples row, if any, and nothing else |
| `CompanyDataset.EstabsStep` | src/etl/build_company_dataset.py:246-247 | the establishments join fills each row with its group, if any, and nothing else |
| `CompanyDataset.MatrizStep` | src/etl/build_company_dataset.py:248-249 | the head-office join fills each row with its head office, if any, and nothing else |
| `CompanyDataset.JoinChainCorrect` | src/etl/build_company_dataset.py:241-249 | the conditional joins give exactly one row per target, in order, filled from every joined table |
| `CompanyDataset.AssembledRowShape` | src/etl/build_company_dataset.py:241-265 | row `i` of the dataset is the target `i` with the loaded rows of its code |
| `CompanyDataset.AssembledCompany` | src/etl/build_company_dataset.py:231-245 | every row carries its target code and the company and Simples rows of that code, null only when there is none |
| `CompanyDataset.AssembledEstabs` | src/etl/build_company_dataset.py:234-249 | every row holds all target establishments of its code, in order, and the first head office of the code |
| `CompanyDataset.AssembledExport` | src/etl/build_company_dataset.py:251-263 | the five exported columns are copied from the head office, or all null without one |
| `CompanyDataset.BuildCompanyDatasetErrors` | src/etl/build_company_dataset.py:222-228 | the errors come in order: no alumni file, no `cnpj_basico` column, no code, no extraction directory |
| `DownloadCnpj.SplitAll` | src/cnpj/download_cnpj.py:133-139 | the item loop yields the pieces of every non-empty item, in order |
| `DownloadCnpj.CleanParts` | src/cnpj/download_cnpj.py:141-152 | the cleaning loop yields `Cleaned`: the stripped lower-cased tokens, or none as soon as one asks for every file or when none is left |
| `DownloadCnpj.NormalizePrefixes` | src/cnpj/download_cnpj.py:117-152 | the method returns `Normalize` of its argument |
| `DownloadCnpj.NormalizeShape` | src/cnpj/download_cnpj.py:129-152 | a non-null result is a non-empty list of non-empty, stripped, lower-case, separator-free tokens, none asking for every file |
| `DownloadCnpj.NormalizeAll` | src/cnpj/download_cnpj.py:126-149 | `None`, or any piece equal to all, todos or `*` after strip and lower, gives `None` |
| `DownloadCnpj.NormalizeIdempotent` | src/cnpj/download_cnpj.py:190-191 | normalising the normalised prefixes again changes nothing |
| `DownloadCnpj.Runs` | src/cnpj/download_cnpj.py:105 | the runs are non-empty, uniform, alternate between digits and non-digits, and start with the name's first character |
| `DownloadCnpj.RunsPartition` | src/cnpj/download_cnpj.py:105-109 | the runs concatenate back to the name |
| `DownloadCnpj.KeyOfSplit` | src/cnpj/download_cnpj.py:105-113 | skipping the empty pieces of `re.split(r"(\d+)", name)` leaves one key piece per run |
| `DownloadCnpj.NaturalKeyOf` | src/cnpj/download_cnpj.py:104-114 | the key-building loop raises `ValueError` exactly when a run of the name is superscript digits only, and otherwise returns `NaturalKey` of the name |
| `DownloadCnpj.SplitRaises` | src/cnpj/download_cnpj.py:105-111 | a piece of `re.split(r"(\d+)", name)` makes `int()` raise exactly when a run of the name does |
| `DownloadCnpj.PieceOfPart` | src/cnpj/download_cnpj.py:110-113 | on a piece that does not raise, `isdigit()` picks the number exactly when the piece is ASCII digits |
| `DownloadCnpj.SuperscriptKeyRaises` | src/cnpj/download_cnpj.py:105-111 | a name starting with `²` followed by digits makes the key raise: `\d` does not match `²`, `isdigit()` accepts it and `int()` does not |
| `DownloadCnpj.NaturalKeyShape` | src/cnpj/download_cnpj.py:106-114 | the key drops no character, alternates numbers and lower-cased words, and starts with a number exactly when the name starts with a digit |
| `DownloadCnpj.NaturalLessIsOrder` | src/cnpj/download_cnpj.py:163 | the key order is irreflexive and transitive |
| `DownloadCnpj.ComparableIff` | src/cnpj/download_cnpj.py:163 | comparing two keys raises `TypeError` exactly when one name starts with a digit and the other does not; otherwise Python's `<` is the key order |
| `DownloadCnpj.NumberedOrder` | src/cnpj/download_cnpj.py:110-111 | names differing only in their number are ordered by the number's value, in the key order and by Python's `<` |
| `DownloadCnpj.NaturalOrderExample` | src/cnpj/download_cnpj.py:104-114 | "Socios2.zip" precedes "Socios10.zip" naturally, though it follows it in code-point order |
| `DownloadCnpj.SortedFiles` | src/cnpj/download_cnpj.py:163 | sorting the distinct names by key keeps every name once, in key order |
| `DownloadCnpj.ListFilesCorrect` | src/cnpj/download_cnpj.py:155-172 | the listing raises `ValueError` exactly when a linked name's key raises, and otherwise `TypeError` exactly on incomparable names; on success it holds each linked name matching a prefix once, in key order |
| `DownloadCnpj.SingleLinkRaises` | src/cnpj/download_cnpj.py:163 | a single link whose key raises makes the listing raise `ValueError` |
| `DownloadCnpj.ListFilesValueErrorExample` | src/cnpj/download_cnpj.py:163 | the listing of the one link "²1.zip" raises `ValueError` |
| `DownloadCnpj.ListFilesNormalized` | src/cnpj/download_cnpj.py:165-167 | listing with prefixes normalised by `download_many` gives the same result as with the raw ones |
| `DownloadCnpj.Truncate` | src/cnpj/download_cnpj.py:192-193 | a missing or negative `max_files` keeps every name; otherwise the first `max_files` are kept |
| `DownloadCnpj.FetchAll` | src/cnpj/download_cnpj.py:203-210 | the download loop fetches `Pending`: the names without a non-empty destination, in order |
| `DownloadCnpj.DownloadMany` | src/cnpj/download_cnpj.py:177-211 | it fails exactly when the listing does; otherwise it fetches the pending names of the truncated listing |
| `DownloadCnpj.PendingCorrect` | src/cnpj/download_cnpj.py:206-208 | a name is fetched exactly when it is listed and its destination is missing or empty |
| `DownloadCnpj.DownloadBound` | src/cnpj/download_cnpj.py:192-208 | with `max_files = n >= 0` at most `n` names are fetched; none fetched is already present; without a limit every pending name is fetched |
| `PrepareSocios.DigitsIsFilter` | src/cnpj/prepare_socios.py:45 | the digit extraction is the filter on `isdigit` |
| `PrepareSocios.DigitsOnlyCorrect` | src/cnpj/prepare_socios.py:42-45 | "" for a missing value, otherwise exactly the digit characters in order; it is idempotent |
| `PrepareSocios.NormalizeNameAgrees` | src/cnpj/prepare_socios.py:48-51 | `_normalize_name` agrees with `normalize_name` of the utilities module |
| `PrepareSocios.NormalizeNameShape` | src/cnpj/prepare_socios.py:49-51 | "" for a missing value; otherwise upper-case words joined by single spaces, no edge whitespace |
| `PrepareSocios.CpfFragmentLength` | src/cnpj/prepare_socios.py:54-62 | a fragment is always 0 or 6 characters, and 6 from six characters on |
| `PrepareSocios.CpfFragmentPosition` | src/cnpj/prepare_socios.py:58-62 | eleven or more digits give characters 3 to 8, six to ten give the last six, fewer give "" |
| `PrepareSocios.CpfFragmentExample` | src/cnpj/prepare_socios.py:59-61 | "12345678901" gives "456789", "1234567" gives "234567", "12345" gives "" |
| `PrepareSocios.TargetPath` | src/cnpj/prepare_socios.py:89-106 | the recorded path ends in the base name plus ".csv" |
| `PrepareSocios.BaseNameInjective` | src/cnpj/prepare_socios.py:105 | different counters give different file names |
| `PrepareSocios.ExtractZip` | src/cnpj/prepare_socios.py:81-117 | the member loop records `EntryTargets` of the zip |
| `PrepareSocios.ExtractAll` | src/cnpj/prepare_socios.py:70-120 | the zip loop returns `AllTargets` of all zips, the counter restarting at each zip |
| `PrepareSocios.EntryTargetsCount` | src/cnpj/prepare_socios.py:101-104 | one path is recorded per member file; directories are skipped |
| `PrepareSocios.EntryTargetsNames` | src/cnpj/prepare_socios.py:104-106 | the `k`-th path recorded for a zip carries the base name for `k` |
| `PrepareSocios.ZipTargetsDistinct` | src/cnpj/prepare_socios.py:101-106 | within one zip no two recorded paths coincide |
| `PrepareSocios.ExtractFlatExample` | src/cnpj/prepare_socios.py:99-117 | flat extraction of a zip `Z` holding `a.csv`, a directory and `b.csv` gives `out/Z.csv` and `out/Z__2.csv` |
| `PrepareSocios.ReadAll` | src/cnpj/prepare_socios.py:132-161 | the read loop returns `ReadTables` of the read outcomes |
| `PrepareSocios.ReadTablesEmptyIff` | src/cnpj/prepare_socios.py:163-164 | nothing is collected exactly when every read failed |
| `PrepareSocios.ReadTablesLayout` | src/cnpj/prepare_socios.py:144-159 | at most one frame per read, and a frame of at least 11 columns carries the layout's names in front |
| `PrepareSocios.Concat` | src/cnpj/prepare_socios.py:166 | stacking succeeds exactly when all frames have the same columns, and then holds all rows in order |
| `PrepareSocios.FindColumnFrom` | src/cnpj/prepare_socios.py:170-172 | the found column is the first alias from that position on; none found means no alias there |
| `PrepareSocios.BuildSociosTablesErrors` | src/cnpj/prepare_socios.py:129-176 | no CSV, all reads failing, and a missing name, identifier or document column raise, in that order |
| `PrepareSocios.LayoutErrorIff` | src/cnpj/prepare_socios.py:174-176 | the layout error occurs exactly when one of the three alias sets has no column |
| `PrepareSocios.PresentNamesMembers` | src/cnpj/prepare_socios.py:212-213 | the present names are exactly the non-empty normalised names of the rows |
| `PrepareSocios.SociosPorCpfCorrect` | src/cnpj/prepare_socios.py:190-209 | `socios_por_cpf` is strictly sorted by (fragment, name) and holds exactly the pairs of the individuals; every fragment has six characters |
| `PrepareSocios.SociosPorCpfDetermined` | src/cnpj/prepare_socios.py:207-208 | any strictly sorted list with the same pairs is `socios_por_cpf` |
| `PrepareSocios.SociosPorNomeCorrect` | src/cnpj/prepare_socios.py:211-216 | `socios_por_nome` is strictly sorted and holds exactly the non-empty normalised names of all rows |
| `PrepareSocios.FiltersAgreeOnAscii` | src/cnpj/prepare_socios.py:191-193 | on ASCII digit strings the filter as written and the corrected filter agree |
| `PrepareSocios.AsWrittenFilterAdmitsEmptyFragment` | src/cnpj/prepare_socios.py:192-200 | as written, the document "²²²" passes the byte-length filter and yields an empty fragment |
| `Order.StrLessIsOrder` | src/etl/build_company_dataset.py:86 | code-point order on strings is a strict total order |
| `Order.PairLessIsOrder` | src/cnpj/prepare_socios.py:208 | the two-column order is a strict total order |
| `Order.OptStrLessIsOrder` | src/cnpj/prepare_socios.py:215 | nulls-first order on nullable strings is a strict total order |
| `Order.SortUniqueCorrect` | src/etl/build_company_dataset.py:85-86 | `sorted(set(s))` is strictly ascending and holds exactly the values of `s` |
| `Order.SortByCorrect` | src/cnpj/download_cnpj.py:163 | a sort by key orders the keys, keeps every element as often as it occurs, and so keeps distinct elements distinct |
| `Relational.Filter` | src/etl/founder_analysis.py:64-70 | a filter keeps exactly the rows satisfying the predicate |
| `Relational.FirstMatch` | src/etl/enrich_cnpj.py:70 | a match found has an equal present key; none found means no row has one |
| `Relational.LeftJoinUniqueRight` | src/etl/founder_analysis.py:161 | a left join with a key-unique table keeps the left rows one for one, each with its only match or nothing |
| `Relational.LeftJoinMembers` | src/etl/founder_analysis.py:98 | every left-join row is a left row with a matching right row, or one with no match at all, and every left row appears |
| `Relational.DedupByCorrect` | src/etl/build_company_dataset.py:155 | `unique` keeps one row per key, only input rows, and a row for every input key |
| `Relational.DedupByFirst` | src/etl/enrich_cnpj.py:70 | the row kept for a key is the input's first row with that key |
| `Relational.GroupByCorrect` | src/etl/founder_analysis.py:125-126 | groups have distinct keys, are non-empty, and hold exactly the input rows with their key |
| `Relational.GroupByGroups` | src/etl/build_company_dataset.py:179-180 | each group is the rows with its key in order, and a key without a group has no rows |
| `Relational.FlattenMembers` | src/etl/build_company_dataset.py:202 | flattening keeps exactly the elements of the inner lists |
| `Calendar.AddMonths` | src/etl/transform.py:41 | moving `k` months lands a valid date `k` months later on the same day, clamped to the month's last day |
| `Calendar.AddMonthsMonotone` | src/etl/transform.py:41 | moving further in months never goes back in time |
| `Calendar.DayNumberNext` | src/etl/founder_analysis.py:101-102 | consecutive days have consecutive day numbers, so their difference counts days |
| `Calendar.DayNumberMonotone` | src/etl/founder_analysis.py:101 | an earlier date has a smaller day number |
| `Calendar.YearLength` | src/etl/founder_analysis.py:102 | a leap year has 366 days and another year 365 |

## Left out

- HTTP access to the register's index (`_get_text`, `_stream_download`, `_pick_working_index`, `list_months`, `_month_url`, src/cnpj/download_cnpj.py:32-101): network I/O with retries and sleeps. The linked `.zip` names are a parameter of `ListFiles`, and the `href` regular expression that finds them is not modelled.
- Zip extraction and file copying in `_extract_all`: only the recorded paths are modelled. The zip-slip check (src/cnpj/prepare_socios.py:108-112) and the removal of an existing destination are file-system effects.
- All CSV, Parquet and Excel reads and writes: a read is a parameter returning rows or a failure. This covers `_read_filtered_csv`, `_collect_extract_paths`, `pl.read_parquet`, `write_parquet` and `pd.read_excel`. `_read_filtered_csv`'s inner join with the targets is modelled, as `CompanyDataset.Restrict`.
- `_ensure_socios_data` (src/etl/enrich_cnpj.py:98-117): a subprocess call that runs the download and preparation scripts.
- `run_prepare_socios` and the `main` functions, src/etl/export_powerbi.py, src/etl/pipeline.py, src/etl/scheduler.py and src/utils/settings.py: orchestration, command-line parsing, scheduling and configuration.
- The snapshot's `basic_transform` (ctrlC_ctrlV.py:176-214) is not modelled. Its `with_columns` at ctrlC_ctrlV.py:203-206 reads `pl.col("idade")` in the same call that creates `idade`, and Polars evaluates every expression of one `with_columns` against the input frame. `idade` is not among the snapshot's expected columns (ctrlC_ctrlV.py:79-92), so that call raises `ColumnNotFoundError`, or reads a stale `idade` if the sheet already has one. The current `basic_transform` is modelled.
- HMAC-SHA256, `unidecode`, rapidfuzz's `token_set_ratio` and the `validate_docbr` CPF check are parameters. Only the properties the code relies on are assumed of them: a 64-character lower-case hex digest, ASCII output that is the identity on ASCII input, an integer score, and a boolean.
- Case mapping and digit classes follow Python on the Latin-1 range only. `lower()` maps `A`..`Z` and `À`..`Þ` (except `×`); `upper()` maps ASCII letters only, because the names reach it after transliteration to ASCII; `isdigit()` accepts ASCII digits and `¹²³`; `\d` matches ASCII digits, the only decimal digits of Latin-1. Characters beyond Latin-1 (fullwidth digits such as `１`, the other Unicode decimal digits that `\d` and `isdigit()` accept, capitals such as `Ā` or `Ω`) are not modelled.
- UpperCell: the reference names at src/etl/enrich_cnpj.py:80 are upper-cased without transliteration, and Polars' `to_uppercase` also maps non-ASCII letters (`é` to `É`, `ß` to `SS`). The model upper-cases their ASCII letters only; the names reach nothing but the score parameter.
- CleanCpfCorrect: a CPF cell is taken to be Latin-1 text. `isdigit()` at src/etl/transform.py:28 also keeps digits beyond Latin-1, such as the fullwidth digits of "１２３４５６７８９０９", which `CleanCpf` drops.
- NormalizeShape: "lower-case" means no capital of the Latin-1 range. `.lower()` at src/cnpj/download_cnpj.py:146 also lowers capitals beyond it, which the model keeps.
- KeyOfSplit: the file names are taken to be Latin-1 text. Python's `\d` also matches the decimal digits beyond Latin-1 (Arabic-Indic, fullwidth and others), which the model treats as word characters.
- NaturalKeyShape: "starts with a number" and the lower-cased words are stated for Latin-1 names; a name starting with a decimal digit beyond Latin-1 is not covered.
- ComparableIff: the `TypeError` condition is stated for Latin-1 names; a name starting with a decimal digit beyond Latin-1 is not covered.
- ListFilesCorrect: the `ValueError` and `TypeError` conditions are stated for Latin-1 names. Beyond Latin-1, `int()` reads every Unicode decimal digit and raises on the other characters that `isdigit()` accepts, and the model does not say which names those are.
- `pd.to_datetime(errors="coerce", dayfirst=...)` is a parser parameter. The cast of `data_nascimento` to a date is taken as given: the rows carry a date or null, and the time of day is dropped.
- `date.today()` is an argument of `CalcIdade`.
- Transform.MonthsBetween: the `relativedelta` normalisation is modelled for dates only, without the hour, minute and microsecond fields that `date` arguments never carry.
- `pl.from_pandas` is modelled as keeping the columns. Duplicate column names after renaming are reported as the `DuplicateColumns` failure, which is what a frame with repeated names raises.
- The order of `set` iteration and of `unique(maintain_order=False)` is not modelled, nor which of several rows with the same key `unique("cnpj_basico")` keeps (`keep="any"`, src/etl/build_company_dataset.py:148 and :155); `DedupBy` keeps the first, and `CompanyDataset.AssembledCompany` holds whichever row is kept. Where the source sorts afterwards, the result is fully determined (`PrepareSocios.SociosPorCpfDetermined`). `_collect_cnpjs_from_parquet` returns a set; the model lists the codes with repetitions, and `CompanyDataset.EnsureTargetsOrderIndependent` shows that only their set matters.
- The polars `group_by` in `label_socios_fundadores` returns the groups in no fixed order. The model takes them in order of first appearance, which the final left join makes irrelevant (`FounderAnalysis.JoinedRow`).
- JoinedRow: states the intended `label_socios_fundadores`, in which `_cnpjs_from_relacoes` receives the list of relations. As written, every founder row makes the call raise (see Findings), so this row and its companies describe the intended output.
- PooledByPerson: states the intended result; as written the call raises whenever a founder exists (see Findings), and then no output exists to pool.
- CnpjFundadorComplete: states the intended `cnpj_fundador`; as written `_cnpjs_from_relacoes` raises on the Series it receives (see Findings).
- LabelCorrect: states the intended result; `FounderAnalysis.AsWrittenFailsOnFounders` says exactly where the code as written differs: the join-key dtype error on an empty company file with candidate rows, and the `TypeError` on founders.
- LabelErrors: lists the intended error conditions; the join-key dtype error (empty company file with candidate rows) and the `TypeError` of the code as written are `FounderAnalysis.LabelSociosFundadoresAsWritten`.
- NormalizePrefixes: only `str` items of an iterable argument are modelled (`PrefixArg.Many` holds strings), matching the declared type `Iterable[str]`; a non-string item, which src/cnpj/download_cnpj.py:138-139 turns into `str(item)` without splitting it, is not.
- The Polars version is taken to be 0.19 or 0.20, the versions that have every method the code calls: `map_elements`, `group_by`, `list.len` and `dt.days` (src/etl/founder_analysis.py:102; renamed `dt.total_days` and removed in 1.0). On a later version every call past the first early return raises `AttributeError`.
- ParseDate: the model reads dates as chrono does. Polars' fixed-width fast path gives the same result on the zero-padded text it accepts. Leading whitespace is the Unicode `White_Space` set that Rust's `char::is_whitespace` uses.
- Logging, the lazy evaluation of `scan_csv`/`LazyFrame`, and the download size shown in MiB carry no semantics.

## Findings

| source | as written | input that shows it | evidently intended | confidence | as-written member | corrected member |
|---|---|---|---|---|---|---|
| src/etl/enrich_cnpj.py:70-72 | After the left join on `cpf_limpo`/`cpf`, Polars keeps the left key, so `pl.col("cpf")` is the alumni frame's own raw `cpf` column. The CPF flag is then "raw CPF present". | an alumnus with cpf "111.111.111-11" (invalid, cleaned to "") and a reference table that does not hold "" | flag a row exactly when the reference table holds its cleaned CPF | medium, not executed | `EnrichCnpj.CpfFlagAsWrittenMismatch` | `EnrichCnpj.CpfStepCorrect` |
| src/cnpj/prepare_socios.py:192 | The individuals' filter measures the document in UTF-8 bytes (`len_bytes() >= 6`), while the fragment rule measures it in characters. | document "²²²" (three superscript digits that `isdigit` accepts in a Latin-1 file): 6 bytes, 3 characters, empty fragment | at least six digit characters, so every fragment has six characters | medium, not executed | `PrepareSocios.AsWrittenFilterAdmitsEmptyFragment` | `PrepareSocios.SociosPorCpfCorrect` |
| src/etl/founder_analysis.py:149-157 | On a `List(Struct)` column, `map_elements` hands each cell to `_cnpjs_from_relacoes` as a `pl.Series`. `if not relacoes` then raises `TypeError` (the truth value of a Series is ambiguous) on every founder row. | the partner of company "123" who joined on "2020-01-08", the company started on "2020-01-01", the default window of 7 days | `cnpj_fundador` lists the company codes of the founder's relations | medium, not executed | `FounderAnalysis.AsWrittenRaisesOnWindowExample` | `FounderAnalysis.LabelCorrect` |
| src/etl/founder_analysis.py:52-98 | An empty company frame is replaced by `pl.DataFrame` of two empty lists, whose columns are not strings (Float32 in Polars 0.19, Null in 0.20). The left join on `cnpj_basico` at line 98 then raises because the key dtypes differ. | an alumnus with `socio` true, `cnpj_basico` ["123"] and `data_associacao` ["2020-01-08"], and an empty company file | flags left unchanged (empty lists and `False`), as the warning at line 53 says | medium, not executed | `FounderAnalysis.AsWrittenRaisesOnEmptyEmpresas` | `FounderAnalysis.EmptyEmpresasKeepsFlags` |
| src/etl/transform.py:83-87 | `map_elements(_faixa_etaria)` skips null cells, so a row without a birth date gets a null bracket. `_faixa_etaria(None)` never runs. | a row whose `data_nascimento` is null | "IGNORADO" for an unknown age, as `_faixa_etaria` says | high, not executed | `Transform.FaixaAsWrittenMissesUnknown` | `Transform.TransformRowCorrect` |
