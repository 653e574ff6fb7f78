# SQL sources and SQL validators of sous_chef, in Dafny

sous_chef maps feature definitions onto a feature store. Its SQL layer
reads a feature's SELECT query to work out the features it produces. This
project models that layer in two parts.

- **The SQL sources** (`src/sous_chef/sql_sources.py`).
  - The base `SQLSource` has a line-oriented format check
    (`_validate_format`). It finds the lines from the SELECT line up to
    the first FROM line.
  - `_extract_select` joins those lines.
  - `_split_columns` is a character scanner. It keeps a parenthesis count
    and a CASE flag.
  - `_parse_column` reads the name of a column, `_infer_type` guesses its
    type, and `_requires_alias` decides whether it needs an alias.
  - `infer_schema` and `validate_query` chain the steps above.
  - The Snowflake, Teradata and Spark-on-EMR sources add their overrides
    and their type maps.
  - Also modelled: the provider registry with its configuration check, and
    the per-comma alias checker `SQLValidator`.
- **The stand-alone validator** (`src/sous_chef/validators.py`).
  - `SQLValidator.validate_sql` answers yes or no in four passes:
    - a line joiner that keeps newlines inside parentheses and cuts `--`
      comments;
    - a FROM locator that skips a FROM inside `EXTRACT(...)`;
    - a comma splitter that cuts only at parenthesis count zero;
    - a rule for each column.
  - Also modelled: `validate_config`, the cleaner column splitter
    `_split_columns`, and `ConfigValidator.validate`.

Every scanning loop of the source is a Dafny `method` with that loop. Each
method is proved equal to a reference function, and lemmas state what the
reference functions mean. The code has no objects that change state (all
its methods are class methods or work on their arguments), so there are no
classes. Configuration dictionaries are `map<string, string>`, and the
`ValueError`s the source raises are the `Err` case of a `Result`.

The modules, in dependency order, are:

| module | contents |
|---|---|
| `Text` (text.dfy) | The Python `str` built-ins the code calls (`strip`, `upper`, `split`, `splitlines`, `index`, `in`, `startswith`, `isalnum`) |
| `Splitting` (splitting.dfy) | `Pieces`, the reference definition of a scan that cuts at a separator at parenthesis count zero |
| `SqlSource` (sql_source.dfy) | `_validate_format`, `_extract_select`, `_clean_sql`, `_find_main_select`, `_split_columns` |
| `Schema` (schema.dfy) | `_parse_column`, `_infer_type`, `_requires_alias`, `infer_schema`, `validate_query` |
| `Dialects` (dialects.dfy) | The three dialect sources |
| `SourceRegistry` (registry.dfy) | `SQLSourceRegistry` |
| `SourceValidator` (sql_validator.dfy) | `SQLValidator` of sql_sources.py |
| `Validators` (validators.dfy) | validators.py |

Where the tests of the repository expect something other than what the code
does, the model follows the code. One example: `_validate_format` breaks a
query written on one line at every comma. So `SELECT a, b FROM t` has no
line of its own that starts with FROM, and the base source rejects it with
"Query must contain FROM clause". `Schema.OneLineSchema` and
`Schema.OneLineInvalid` show the simplest case of this: a one-line query
without commas is always rejected.

## Model

| member | source | states |
|---|---|---|
| SqlSource.FromLine | src/sous_chef/sql_sources.py:40-45 | The FROM line is the first line that starts with FROM and not with SELECT; every earlier line is a SELECT line or not a FROM line |
| SqlSource.SelectLineBefore | src/sous_chef/sql_sources.py:40-42 | The SELECT line is the last line before the FROM line that starts with SELECT, or -1 when there is none |
| SqlSource.FormatLines | src/sous_chef/sql_sources.py:8-52 | A successful format check returns a non-empty window; its first line starts with SELECT, no later line starts with SELECT or FROM, and every line is non-blank and stripped |
| SqlSource.Window | src/sous_chef/sql_sources.py:36-52 | The same guarantees for the second half of the check, on the cleaned lines |
| SqlSource.SelectWindow | src/sous_chef/sql_sources.py:40-52 | The lines from the SELECT line up to the FROM line hold no other SELECT or FROM line |
| SqlSource.WindowAt | src/sous_chef/sql_sources.py:40-52 | Given a FROM line and a SELECT line before it, the window is exactly the lines between them |
| SqlSource.ValidateFormat | src/sous_chef/sql_sources.py:8-52 | The loops of `_validate_format` compute FormatLines: the forbidden-character error, the comma split of a one-line query, the CTE error, the empty-query error, and the SELECT and FROM errors |
| SqlSource.LocateWindow | src/sous_chef/sql_sources.py:36-52 | The enumerate loop with its break computes Window |
| SqlSource.SelectText | src/sous_chef/sql_sources.py:69-77 | The extracted SELECT text is stripped |
| SqlSource.ExtractSelect | src/sous_chef/sql_sources.py:69-77 | The loop of `_extract_select` computes SelectText: a leading SELECT is dropped from each line, and the lines are joined by spaces |
| SqlSource.CutComment | src/sous_chef/sql_sources.py:84-85 | A line without "--" is kept whole; a line with one is cut right before its first "--"; the result is a prefix of the line and holds no "--" |
| SqlSource.CleanSql | src/sous_chef/sql_sources.py:79-87 | The loop of `_clean_sql` computes CleanSqlText |
| SqlSource.CleanSqlNoComment | src/sous_chef/sql_sources.py:79-87 | The cleaned SQL never contains "--" |
| SqlSource.CleanSqlText | src/sous_chef/sql_sources.py:79-87 | What `_clean_sql` returns; CleanSql is proved to compute it and CleanSqlNoComment shows that no "--" remains |
| SqlSource.FindMainSelect | src/sous_chef/sql_sources.py:148-153 | `_find_main_select`: the CTE error for a query starting with WITH, otherwise the stripped query; FindMainSelectCte and FindMainSelectSchema tie it to `infer_schema` |
| SqlSource.SplitSingleLine | src/sous_chef/sql_sources.py:18-21 | A query with a newline or without a comma is kept as it is; the comma split keeps the first character of a query that does not start with a comma |
| SqlSource.FormatLinesStrip | src/sous_chef/sql_sources.py:8-12 | The format check strips the query first, so stripping it beforehand changes nothing |
| SqlSource.StripKeepsInvalidChar | src/sous_chef/sql_sources.py:14-16 | Stripping neither adds nor removes a forbidden character |
| SqlSource.CaseTriggeredMeans | src/sous_chef/sql_sources.py:113-114 | Reading a piece turns the CASE flag on exactly when some character other than a parenthesis is read after text that contains CASE |
| SqlSource.FirstTriggeredFirst | src/sous_chef/sql_sources.py:105-117 | FirstTriggered is the first piece that turns the flag on |
| SqlSource.CaseSplit | src/sous_chef/sql_sources.py:98-122 | Every column of the scan is non-empty and stripped |
| SqlSource.Columns | src/sous_chef/sql_sources.py:89-124 | Every column `_split_columns` returns is non-empty and stripped |
| SqlSource.SplitColumns | src/sous_chef/sql_sources.py:89-124 | The scanner computes Columns: it cuts at commas at count zero before the CASE flag goes on, and from the piece where it goes on the rest of the text is one column; its columns are non-empty and stripped |
| SqlSource.ScanColumns | src/sous_chef/sql_sources.py:98-122 | When the text is used up, the scanner's state gives the columns of Columns |
| SqlSource.FirstTriggeredAt | src/sous_chef/sql_sources.py:105-116 | When the pieces read so far never turned the flag on and the next piece does, that piece is where the flag first goes on |
| SqlSource.StripKeptStripped | src/sous_chef/sql_sources.py:124 | The final clean-up `[c.strip() for c in columns if c]` changes nothing in columns that are already non-empty and stripped |
| SqlSource.NoCaseNotTriggered | src/sous_chef/sql_sources.py:113-114 | A piece that holds no CASE in any case of letters never turns the CASE flag on |
| SqlSource.FirstTriggeredNone | src/sous_chef/sql_sources.py:105-117 | When no piece turns the flag on, the flag stays off to the end of the text |
| SqlSource.CaseSplitWithoutCase | src/sous_chef/sql_sources.py:98-122 | Without CASE the scan is the plain comma split: the stripped non-blank pieces at count zero, none holding a comma at count zero |
| SqlSource.ColumnsWithoutCase | src/sous_chef/sql_sources.py:89-124 | Without CASE, `_split_columns` returns the stripped non-blank pieces of the normalised text cut at commas at count zero, in text order, and no column holds such a comma |
| Splitting.PiecesJoin | src/sous_chef/validators.py:80-95 | Joining the pieces with the separator gives back the text: the splitter loses and reorders nothing |
| Splitting.PiecesNoTopSep | src/sous_chef/validators.py:87-90 | No piece holds a separator at count zero |
| Splitting.PiecesSepAtZero | src/sous_chef/validators.py:87-90 | Every cut is made where the count of the text before it is zero |
| Splitting.PiecesSingle | src/sous_chef/validators.py:80-95 | A text with no separator at count zero is one piece, whatever it holds inside parentheses |
| Splitting.PiecesAtTopSep | src/sous_chef/validators.py:80-95 | Cutting at a separator at count zero is cutting before it and after it: the order of the pieces is the order of the text |
| Schema.ParseUpperCase | src/sous_chef/sql_sources.py:126-146 | Every name and every expression `_parse_column` returns is upper-case |
| Schema.ParseColumn | src/sous_chef/sql_sources.py:126-146 | `_parse_column`; ParseUpperCase, ParseAs, ParseAlias, ParseQualified, ParseDotted, ParseBare and ParseNoName state what each branch returns |
| Schema.ParseAlias | src/sous_chef/sql_sources.py:131-135 | `e AS a` parses to name a and expression e, both upper-cased, when e holds no earlier ` AS ` |
| Schema.ParseAs | src/sous_chef/sql_sources.py:131-135 | A column with ` AS ` in any case is cut at the first ` AS ` of its upper-cased text, and both halves are stripped |
| Schema.FirstAs | src/sous_chef/sql_sources.py:132 | The first ` AS ` of `e AS a` is the one right after e when e holds none |
| Schema.ParseQualified | src/sous_chef/sql_sources.py:138-140 | `t.x` with none of `(`, CASE, `+`, `-`, `*`, `/` is named by x, stripped and upper-cased; its expression is the whole column upper-cased |
| Schema.ParseDotted | src/sous_chef/sql_sources.py:138-140 | A dotted column with none of those blockers is named by its last dot segment |
| Schema.ParseBare | src/sous_chef/sql_sources.py:143-144 | A column with none of the name blockers is its own name, upper-cased |
| Schema.ParseNoName | src/sous_chef/sql_sources.py:137-146 | A column without ` AS ` has no name exactly when it holds an alias blocker, or has no `.` and holds OVER |
| Schema.TurnoverHasNoName | src/sous_chef/sql_sources.py:143-146 | `turnover` gets no name, since it contains OVER |
| Schema.InferType | src/sous_chef/sql_sources.py:212-219 | `_infer_type`; InferTypePrecedence, InferTypeUpper and InferTypeMonotone state which markers give which type |
| Schema.InferTypePrecedence | src/sous_chef/sql_sources.py:212-219 | An integer marker gives INT64 and wins over a float marker; a float marker never gives STRING; STRING exactly when neither kind of marker occurs |
| Schema.InferTypeUpper | src/sous_chef/sql_sources.py:212-219 | The type does not depend on the case of the expression |
| Schema.InferTypeMonotone | src/sous_chef/sql_sources.py:212-219 | Text added around an expression never lowers its type in the order STRING < FLOAT < INT64 |
| Schema.RequiresAlias | src/sous_chef/sql_sources.py:195-210 | `_requires_alias`; TypedNeedsAlias, UnaliasedHasNoName and ConcatKeepsName relate it to `_infer_type` and `_parse_column` |
| Schema.TypedNeedsAlias | src/sous_chef/sql_sources.py:195-219 | An expression typed INT64 or FLOAT is one that `_requires_alias` flags |
| Schema.UnaliasedHasNoName | src/sous_chef/sql_sources.py:195-210 | An unaliased column that needs an alias gets no name from `_parse_column`, unless only `\|\|` made it need one |
| Schema.ConcatKeepsName | src/sous_chef/sql_sources.py:200-208 | A column whose only alias marker is `\|\|` needs an alias, yet is named after itself |
| Schema.Entries | src/sous_chef/sql_sources.py:177-185 | A schema has at most as many entries as there are parsed columns |
| Schema.ParseAll | src/sous_chef/sql_sources.py:178-179 | One parse for each column |
| Schema.EntriesMembers | src/sous_chef/sql_sources.py:177-185 | A column is in the schema exactly when some parsed column has a non-empty name and the column pairs that name with the inferred type of its expression |
| Schema.SchemaLines | src/sous_chef/sql_sources.py:158-173 | The four checks of `infer_schema`, then `_validate_format`; SchemaPrechecks states its errors |
| Schema.SchemaOf | src/sous_chef/sql_sources.py:155-186 | What `infer_schema` returns; InferSchema computes it, and SchemaPrechecks, SchemaAccepted and SchemaNamed state what it gives |
| Schema.SchemaPrechecks | src/sous_chef/sql_sources.py:158-170 | `infer_schema` raises the CTE error, the SELECT error, the FROM error and the invalid-statement error in exactly these four cases, in this order |
| Schema.SchemaAccepted | src/sous_chef/sql_sources.py:155-186 | A schema comes back only for a SELECT query with a FROM and no forbidden character whose format check passes; it is the entries of the split columns of the extracted text |
| Schema.FindMainSelectCte | src/sous_chef/sql_sources.py:148-173 | `_find_main_select` raises exactly when `infer_schema` raises its CTE error: the comma split keeps a leading SELECT, so the second WITH test never fires |
| Schema.FindMainSelectSchema | src/sous_chef/sql_sources.py:148-186 | `infer_schema` of what `_find_main_select` returns is `infer_schema` of the query itself |
| Schema.SchemaLinesStrip | src/sous_chef/sql_sources.py:158-173 | The checks of `infer_schema` do not depend on the whitespace around the query |
| Schema.InferSchema | src/sous_chef/sql_sources.py:155-193 | The method computes SchemaOf: the four checks, then the format check, the extraction, the split and the loop over the columns |
| Schema.BuildSchema | src/sous_chef/sql_sources.py:177-186 | The loop over the columns keeps the entries of the named columns in column order |
| Schema.EntriesConcat | src/sous_chef/sql_sources.py:177-185 | The schema of two runs of columns is the schema of the first followed by that of the second |
| Schema.SchemaNamed | src/sous_chef/sql_sources.py:177-186 | Every entry of a returned schema has a non-empty, upper-case name |
| Schema.OneLineUnformatted | src/sous_chef/sql_sources.py:18-50 | `_validate_format` fails on every query written on one line without commas |
| Schema.OneLineSchema | src/sous_chef/sql_sources.py:155-186 | `infer_schema` rejects every such query |
| Schema.ValidateQuery | src/sous_chef/sql_sources.py:54-67 | The method answers QueryIsValid: no `*`, no WITH, a passing format check, and a non-empty SELECT text with columns; every error is caught and answered with false |
| Schema.QueryIsValid | src/sous_chef/sql_sources.py:54-67 | What `validate_query` answers; ValidateQuery computes it and OneLineInvalid shows the one-line case |
| Schema.OneLineInvalid | src/sous_chef/sql_sources.py:54-67 | `validate_query` rejects every query written on one line without commas |
| Dialects.DropSystemColumns | src/sous_chef/sql_sources.py:239 | The Snowflake filter never adds columns |
| Dialects.DropSystemColumnsMembers | src/sous_chef/sql_sources.py:239 | A column survives exactly when it was in the schema and its name does not start with `SYS_` |
| Dialects.DropSystemColumnsConcat | src/sous_chef/sql_sources.py:239 | The filter keeps the order of the columns it keeps |
| Dialects.DropSystemColumnsIdempotent | src/sous_chef/sql_sources.py:239 | Filtering twice is filtering once |
| Dialects.DialectSchema | src/sous_chef/sql_sources.py:236-302 | Every dialect passes the base errors on unchanged; Teradata and Spark return the base schema as it is |
| Dialects.SnowflakeSchema | src/sous_chef/sql_sources.py:236-239 | A Snowflake schema holds exactly the base columns that are not system columns |
| Dialects.MapSnowflakeType | src/sous_chef/sql_sources.py:224-234 | Snowflake never maps to INT64, and maps to FLOAT exactly for NUMBER or FLOAT in any case |
| Dialects.MapSparkType | src/sous_chef/sql_sources.py:304-313 | Spark maps to INT64 exactly for INTEGER and to FLOAT exactly for DOUBLE, in any case |
| Dialects.MapTeradataType | src/sous_chef/sql_sources.py:273-285 | `_map_teradata_type`: the upper-cased text before the first `(` looked up, STRING when unlisted; TeradataPrecision and TeradataTypeMeaning state what it gives |
| Dialects.TeradataPrecision | src/sous_chef/sql_sources.py:284-285 | A `(...)` suffix never changes the Teradata type |
| Dialects.TeradataTypeMeaning | src/sous_chef/sql_sources.py:273-285 | Teradata maps to INT64 exactly for INTEGER, and to FLOAT exactly for DECIMAL, NUMBER or FLOAT |
| Dialects.TeradataFloatWithPrecision | src/sous_chef/sql_sources.py:273-285 | `DECIMAL(10,2)` and the like map to FLOAT |
| Dialects.TeradataValid | src/sous_chef/sql_sources.py:244-263 | Teradata's `validate_query`; TeradataSelectedText, TeradataCaseInsensitive and TeradataRejectsStar state when it accepts |
| Dialects.TeradataCaseInsensitive | src/sous_chef/sql_sources.py:244-263 | Teradata's `validate_query` ignores case |
| Dialects.TeradataSelectedText | src/sous_chef/sql_sources.py:244-263 | Teradata accepts exactly a query that starts with SELECT and holds FROM, where the text between the leading SELECT and the first FROM, stripped, is neither blank nor `*` |
| Dialects.TeradataRejectsStar | src/sous_chef/sql_sources.py:256-258 | `SELECT * FROM t` is refused whatever the table |
| SourceRegistry.SourceClass | src/sous_chef/sql_sources.py:325-327 | A provider found under a name has that name as its key |
| SourceRegistry.SourceClassRoundTrip | src/sous_chef/sql_sources.py:318-327 | Every provider is found under its own key |
| SourceRegistry.SourceClassKnown | src/sous_chef/sql_sources.py:318-327 | A name is known exactly when it is the key of some provider |
| SourceRegistry.MissingFields | src/sous_chef/sql_sources.py:355-357 | At most one error for each required field |
| SourceRegistry.ValidateConfig | src/sous_chef/sql_sources.py:330-359 | The method computes RegistryErrors: unknown provider, CTE, neither query nor table, then missing fields |
| SourceRegistry.RegistryErrors | src/sous_chef/sql_sources.py:330-359 | What `validate_config` returns; RegistryShortCircuits, RegistryAtMostOne, RegistryAccepts and MissingFieldsMembers state its errors |
| SourceRegistry.ReportMissing | src/sous_chef/sql_sources.py:355-357 | The loop over the required fields reports them in order |
| SourceRegistry.MissingFieldsMembers | src/sous_chef/sql_sources.py:355-357 | A missing-field error is reported exactly for each required field that is absent |
| SourceRegistry.RegistryShortCircuits | src/sous_chef/sql_sources.py:334-353 | Each of the three early checks stops with exactly its own single error |
| SourceRegistry.RegistryAtMostOne | src/sous_chef/sql_sources.py:330-359 | At most one error is ever reported |
| SourceRegistry.RegistryAccepts | src/sous_chef/sql_sources.py:330-359 | A configuration is accepted exactly when the provider is known, the query is not a CTE, a query or a table is given, and a timestamp field is given |
| SourceRegistry.RegistryMissingTimestamp | src/sous_chef/sql_sources.py:346-357 | A plain query without a timestamp field gets exactly the one missing-field error |
| SourceValidator.AliasErrors | src/sous_chef/sql_sources.py:380-384 | At most one error for each comma piece |
| SourceValidator.ValidateSql | src/sous_chef/sql_sources.py:365-388 | The method computes SqlErrors: the prefix error, the invalid-SELECT error when `index` finds no SELECT or no FROM, then the alias errors |
| SourceValidator.SqlErrors | src/sous_chef/sql_sources.py:365-388 | What `validate_sql` returns; SqlAccepts and SqlErrorsUpper state when it is empty |
| SourceValidator.CheckSelect | src/sous_chef/sql_sources.py:370-388 | The checks after the strip and upper-case: the prefix error, the `index` failure, then the alias errors |
| SourceValidator.CheckAliases | src/sous_chef/sql_sources.py:380-384 | The loop over the comma pieces reports the unaliased aggregates in order |
| SourceValidator.AliasErrorsMembers | src/sous_chef/sql_sources.py:380-384 | A column is reported exactly when it is an unaliased aggregate and some piece strips to it |
| SourceValidator.AliasErrorsOnly | src/sous_chef/sql_sources.py:380-384 | The piece loop reports only missing-alias errors |
| SourceValidator.NoAliasErrors | src/sous_chef/sql_sources.py:380-384 | The piece loop reports nothing exactly when no piece is an unaliased aggregate |
| SourceValidator.SqlAccepts | src/sous_chef/sql_sources.py:365-388 | A query passes exactly when it starts with SELECT or WITH, holds SELECT and FROM, and no piece is an unaliased aggregate |
| SourceValidator.SqlErrorsUpper | src/sous_chef/sql_sources.py:368 | Upper-casing the query first changes nothing |
| SourceValidator.MissingRequiredFields | src/sous_chef/sql_sources.py:395-398 | At most one error for each required field |
| SourceValidator.ValidateConfig | src/sous_chef/sql_sources.py:391-404 | The method computes ConfigErrors: the missing fields in order, then the query's own errors |
| SourceValidator.ConfigErrors | src/sous_chef/sql_sources.py:391-404 | What `validate_config` returns; ConfigAccepts and MissingRequiredMembers state its errors |
| SourceValidator.MissingRequiredMembers | src/sous_chef/sql_sources.py:395-398 | A field is reported missing exactly when it is required and absent |
| SourceValidator.NoneMissing | src/sous_chef/sql_sources.py:395-398 | No field is reported missing exactly when all three are present |
| SourceValidator.ConfigAccepts | src/sous_chef/sql_sources.py:391-404 | A configuration passes exactly when all three fields are present and its query passes |
| Validators.Clean | src/sous_chef/validators.py:20-46 | The line joiner computes CleanQuery: a newline at count zero closes a line; each line is cut at its comment, stripped and added after a space when non-blank; the last line is checked for blankness before its cut |
| Validators.CleanQuery | src/sous_chef/validators.py:20-46 | What the line joiner produces; CleanNoComment, CleanSkipsEmptyLine and CleanSingleLine state what it keeps |
| Validators.CleanNoComment | src/sous_chef/validators.py:25-46 | The cleaned query never contains "--" |
| Validators.CleanSkipsEmptyLine | src/sous_chef/validators.py:31-36 | A blank or comment-only line between two newlines at count zero contributes nothing |
| Validators.CleanOfSkip | src/sous_chef/validators.py:31-36 | A closed line that cleans to nothing can be dropped from the lines |
| Validators.SpaceJoinSkip | src/sous_chef/validators.py:34-35 | A blank cleaned line adds nothing, wherever it stands |
| Validators.CleanSingleLine | src/sous_chef/validators.py:40-46 | A query with no newline at count zero is one line, cut at its comment and stripped |
| Validators.FirstFrom | src/sous_chef/validators.py:53-66 | `from_pos` is a FROM outside an open EXTRACT, or -1 when there is none; no FROM before it qualifies |
| Validators.LocateFrom | src/sous_chef/validators.py:53-66 | The while loop with its break computes FirstFrom from position zero |
| Validators.InExtract | src/sous_chef/validators.py:59-65 | The `in_extract` flag at a position; InExtractMeaning states when it is set |
| Validators.InExtractMeaning | src/sous_chef/validators.py:59-65 | The `in_extract` flag is set exactly when some EXTRACT before the position has not been closed by a `)` |
| Validators.ExtractHidesFrom | src/sous_chef/validators.py:59-63 | A FROM after an EXTRACT with no `)` in between is never taken |
| Validators.NoExtractFindsFirst | src/sous_chef/validators.py:53-66 | With no EXTRACT anywhere, the locator finds the first FROM |
| Validators.SplitSelect | src/sous_chef/validators.py:77-95 | The splitter of `validate_sql` computes the non-empty pieces at commas met at count zero, stripped |
| Validators.SplitColumns | src/sous_chef/validators.py:141-162 | `_split_columns` computes the non-blank pieces at commas met at count zero, stripped, in order |
| Validators.SplitColumnsPieces | src/sous_chef/validators.py:141-162 | No returned column holds a comma at count zero; parentheses and the commas inside them stay |
| Text.NonBlankFrom | src/sous_chef/validators.py:141-162 | Every returned column is one piece of the text, stripped |
| Validators.SplitColumnsSingle | src/sous_chef/validators.py:141-162 | A list with no comma at count zero comes back whole, stripped |
| Validators.SplitColumnsConcat | src/sous_chef/validators.py:147-156 | The columns before a comma at count zero come before those after it |
| Validators.SplittersAgree | src/sous_chef/validators.py:159-162 | The two splitters agree once the final filter drops the empty columns |
| Validators.DropEmptyStripKept | src/sous_chef/validators.py:159-162 | Dropping the empty strings after stripping leaves the non-blank pieces |
| Validators.CheckColumns | src/sous_chef/validators.py:98-124 | The column loop answers true exactly when no column breaks the rule |
| Validators.CheckColumn | src/sous_chef/validators.py:99-122 | One column breaks the rule exactly when Rejects says so: the skips first, then the alias test |
| Validators.QualifiedAccepted | src/sous_chef/validators.py:111-113 | A name qualified once is accepted whatever its second part holds, so `T.COUNT(X)` passes |
| Validators.CallNeedsAlias | src/sous_chef/validators.py:115-122 | An unaliased call with no `.` is rejected |
| Validators.OperatorNeedsAlias | src/sous_chef/validators.py:115-122 | Unaliased arithmetic is rejected unless the column is qualified once |
| Validators.RejectsNormalized | src/sous_chef/validators.py:99 | The rule does not depend on the case of the column |
| Validators.RejectsStrip | src/sous_chef/validators.py:99 | The rule does not depend on the whitespace around the column |
| Validators.Rejects | src/sous_chef/validators.py:98-122 | The rule for one column; CheckColumn computes it, and QualifiedAccepted, CallNeedsAlias, OperatorNeedsAlias, RejectsNormalized and RejectsStrip state it |
| Validators.ValidateSql | src/sous_chef/validators.py:16-128 | The method computes ValidSql: the cleaned query starts with SELECT, a FROM is found, the select list is non-empty, and every column passes the rule |
| Validators.ValidSql | src/sous_chef/validators.py:16-128 | What `validate_sql` answers; ValidateSql computes it |
| Validators.ValidClean | src/sous_chef/validators.py:49-124 | The verdict on the cleaned query; ValidCleanMeaning and ValidSkipsExtractFrom state it |
| Validators.ValidCleanMeaning | src/sous_chef/validators.py:49-124 | Past the SELECT check and the FROM locator, the query passes exactly when the select list is non-empty and every piece of it at count zero passes the rule |
| Validators.StripKeptAccepted | src/sous_chef/validators.py:88-101 | Skipping the empty pieces and stripping the others changes no verdict |
| Validators.ValidSkipsExtractFrom | src/sous_chef/validators.py:58-72 | A FROM inside an unclosed EXTRACT never ends the select list |
| Validators.RequiredKeysMeaning | src/sous_chef/validators.py:134-135 | The key check needs all three of query, timestamp_field and database |
| Validators.ValidConfig | src/sous_chef/validators.py:130-138 | What `validate_config` answers; ValidConfigMeaning states it |
| Validators.ValidConfigMeaning | src/sous_chef/validators.py:130-138 | `validate_config` passes exactly when query, timestamp_field and database are all present and the query passes `validate_sql` |
| Validators.Validate | src/sous_chef/validators.py:168-180 | A value that is not a dictionary gives exactly the one error "Configuration must be a dictionary"; a dictionary never does |

## Left out

- Printing: the `print` calls in the `except` branches of `infer_schema`,
  the Teradata `infer_schema` and `validate_sql` (validators.py) are output
  only and are not modelled.
- Catch-alls that cannot be reached for string input: the
  `except Exception` of the base `infer_schema` (which returns `[]`) and
  that of validators.py `validate_sql` (which returns False). The steps
  they guard raise only `ValueError` on strings, or nothing at all.
- Text: `upper()` and `isalnum()` are modelled on ASCII letters and digits
  only. Python's Unicode case mapping can change the length of a string,
  and the model does not follow that.
- Configuration values are modelled as strings only; dictionaries are
  `map<string, string>`.
  - A value of another type (a `query` that is not a string) would make the
    source raise in `.strip()` or in the scan. That case is not modelled.
- Validators.Validate: models `ConfigValidator.validate` only down to the
  non-dictionary guard and the `TypeError` that `errors.extend` raises on
  the bool that `validate_sql` returns. The outcome for a dictionary with a
  query is `RaisesTypeError`.
- Dialects: the Teradata `_infer_type` override is identical to the base
  one, so the model uses the base `InferType` for every dialect.
- Dialects: the Teradata `infer_schema` re-raise wrapper is the identity on
  results and errors (only its print is lost).
- Validators.Clean: the source cuts the comment of a line that was closed
  by a newline inside parentheses at its first `--` anywhere. The text
  after that `--`, including later physical lines of the same logical
  line, is dropped too. The model keeps this behaviour as written.
- `ValidationErrorCode`, `AGGREGATE_FUNCTIONS` and `WINDOW_FUNCTIONS` in
  validators.py are never read by the code, so they are not modelled.
- src/sous_chef/registry.py (dynamic import and class cache),
  src/sous_chef/sous_chef.py (YAML loading, the file system and the feature
  store library) and src/sous_chef/errors.py (a data class) are not part of
  this model.
