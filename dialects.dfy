/**
 * The three SQL dialects of sql_sources.py: Snowflake, Teradata and Spark SQL
 * on EMR.  Each keeps the base schema inference (Snowflake filters out the
 * system columns afterwards), each maps its native type names to the three
 * normalised types with STRING as the fallback, and Teradata replaces the
 * base `validate_query` with a check of its own.
 */
module Dialects {
  import opened Text
  import opened SqlSource
  import opened Schema

  /** The providers the registry knows. */
  datatype Provider = Snowflake | Teradata | SparkSqlEmr

  // ---------------------------------------------------------------------
  // infer_schema per dialect

  /** Snowflake's system columns are the ones whose name starts with `SYS_`. */
  predicate IsSystemColumn(c: Column) {
    StartsWith(c.name, "SYS_")
  }

  /** `[s for s in schema if not s['name'].startswith('SYS_')]`. */
  function DropSystemColumns(schema: seq<Column>): (kept: seq<Column>)
    ensures |kept| <= |schema|
  {
    if schema == [] then []
    else
      var last := schema[|schema| - 1];
      DropSystemColumns(schema[..|schema| - 1]) + (if IsSystemColumn(last) then [] else [last])
  }

  /** A column survives the filter exactly when it was in the schema and is not a system column. */
  lemma {:induction false} DropSystemColumnsMembers(schema: seq<Column>, c: Column)
    ensures c in DropSystemColumns(schema) <==> c in schema && !IsSystemColumn(c)
    decreases |schema|
  {
    if schema != [] {
      var init := schema[..|schema| - 1];
      DropSystemColumnsMembers(init, c);
      assert schema == init + [schema[|schema| - 1]];
    }
  }

  /** The filter works run by run, so it keeps the order of the columns it keeps. */
  lemma {:induction false} DropSystemColumnsConcat(a: seq<Column>, b: seq<Column>)
    ensures DropSystemColumns(a + b) == DropSystemColumns(a) + DropSystemColumns(b)
    decreases |b|
  {
    if b == [] {
      assert a + b == a;
    } else {
      var b' := b[..|b| - 1];
      assert (a + b)[..|a + b| - 1] == a + b';
      assert (a + b)[|a + b| - 1] == b[|b| - 1];
      DropSystemColumnsConcat(a, b');
    }
  }

  /** Filtering twice is filtering once. */
  lemma {:induction false} DropSystemColumnsIdempotent(schema: seq<Column>)
    ensures DropSystemColumns(DropSystemColumns(schema)) == DropSystemColumns(schema)
    decreases |schema|
  {
    if schema != [] {
      var init := schema[..|schema| - 1];
      var last := schema[|schema| - 1];
      DropSystemColumnsIdempotent(init);
      var tail := if IsSystemColumn(last) then [] else [last];
      DropSystemColumnsConcat(DropSystemColumns(init), tail);
      if !IsSystemColumn(last) {
        assert DropSystemColumns([last]) == DropSystemColumns([]) + [last];
      }
    }
  }

  /**
   * `infer_schema` of each dialect: Teradata re-raises the base errors
   * unchanged and Spark returns the base schema as it is.
   */
  function DialectSchema(p: Provider, query: string): (r: Result<seq<Column>>)
    ensures SchemaOf(query).Err? ==> r == SchemaOf(query)
    ensures p != Snowflake ==> r == SchemaOf(query)
  {
    match SchemaOf(query)
    case Err(e) => Err(e)
    case Ok(schema) => Ok(if p == Snowflake then DropSystemColumns(schema) else schema)
  }

  /** No Snowflake schema holds a system column, and every column it holds is one the base inferred. */
  lemma SnowflakeSchema(query: string)
    requires DialectSchema(Snowflake, query).Ok?
    ensures forall c :: c in DialectSchema(Snowflake, query).value <==>
      c in SchemaOf(query).value && !IsSystemColumn(c)
  {
    forall c {
      DropSystemColumnsMembers(SchemaOf(query).value, c);
    }
  }

  // ---------------------------------------------------------------------
  // Native type maps

  const SnowflakeTypes: map<string, DType> := map[
    "NUMBER" := FLOAT, "FLOAT" := FLOAT,
    "VARCHAR" := STRING, "ARRAY" := STRING, "OBJECT" := STRING, "VARIANT" := STRING
  ]

  const TeradataTypes: map<string, DType> := map[
    "INTEGER" := INT64,
    "DECIMAL" := FLOAT, "NUMBER" := FLOAT, "FLOAT" := FLOAT,
    "VARCHAR" := STRING, "DATE" := STRING, "TIMESTAMP" := STRING
  ]

  const SparkTypes: map<string, DType> := map[
    "INTEGER" := INT64, "DOUBLE" := FLOAT,
    "STRING" := STRING, "ARRAY" := STRING, "STRUCT" := STRING
  ]

  /** `type_map.get(key, 'STRING')`. */
  function Lookup(m: map<string, DType>, key: string): DType {
    if key in m then m[key] else STRING
  }

  /**
   * `_map_snowflake_type`: looked up upper-cased.  Snowflake never maps to
   * INT64; it maps to FLOAT exactly for NUMBER and FLOAT in any case.
   */
  function MapSnowflakeType(t: string): (r: DType)
    ensures r != INT64
    ensures r == FLOAT <==> Upper(t) == "NUMBER" || Upper(t) == "FLOAT"
  {
    Lookup(SnowflakeTypes, Upper(t))
  }

  /** `_map_teradata_type`: the upper-cased text before the first '(' is looked up. */
  function MapTeradataType(t: string): DType {
    Lookup(TeradataTypes, Upper(SplitChar(t, '(')[0]))
  }

  /**
   * `_map_spark_type`: looked up upper-cased.  Spark maps to INT64 only for
   * INTEGER and to FLOAT only for DOUBLE, in any case.
   */
  function MapSparkType(t: string): (r: DType)
    ensures r == INT64 <==> Upper(t) == "INTEGER"
    ensures r == FLOAT <==> Upper(t) == "DOUBLE"
  {
    Lookup(SparkTypes, Upper(t))
  }

  /** The Teradata map reads only the base name: a '(' suffix never changes the type. */
  lemma TeradataPrecision(base: string, suffix: string)
    requires '(' !in base
    ensures MapTeradataType(base + "(" + suffix) == MapTeradataType(base)
  {
    SplitCharFirst(base, '(', suffix);
    SplitCharNone(base, '(');
  }

  /** Teradata maps to INT64 only for INTEGER and to FLOAT for DECIMAL, NUMBER and FLOAT. */
  lemma TeradataTypeMeaning(base: string)
    requires '(' !in base
    ensures MapTeradataType(base) == INT64 <==> Upper(base) == "INTEGER"
    ensures MapTeradataType(base) == FLOAT <==>
      Upper(base) == "DECIMAL" || Upper(base) == "NUMBER" || Upper(base) == "FLOAT"
  {
    SplitCharNone(base, '(');
  }

  /**
   * A DECIMAL, NUMBER or FLOAT with a precision suffix is a FLOAT, so
   * `DECIMAL(10,2)` (base `DECIMAL`, suffix `10,2)`) maps to FLOAT.
   */
  lemma TeradataFloatWithPrecision(base: string, suffix: string)
    requires '(' !in base
    requires Upper(base) == "DECIMAL" || Upper(base) == "NUMBER" || Upper(base) == "FLOAT"
    ensures MapTeradataType(base + "(" + suffix) == FLOAT
  {
    TeradataPrecision(base, suffix);
    TeradataTypeMeaning(base);
  }

  // ---------------------------------------------------------------------
  // Teradata's validate_query

  /**
   * Teradata's `validate_query`: the stripped, upper-cased query starts with
   * SELECT, holds FROM, and the text between the SELECT and the first FROM
   * is neither blank nor `*`.
   */
  predicate TeradataValid(query: string) {
    var q := Upper(Strip(query));
    StartsWith(q, "SELECT") && Contains(q, "FROM")
    && var selected := Strip(Slice(q, IndexOf(q, "SELECT") + 6, IndexOf(q, "FROM")));
    selected != [] && selected != "*"
  }

  /** Teradata's check ignores case: upper-casing the query never changes the verdict. */
  lemma TeradataCaseInsensitive(query: string)
    ensures TeradataValid(Upper(query)) == TeradataValid(query)
  {
    StripUpper(query);
    UpperIsUpperCase(Strip(query));
  }

  /**
   * `q.index('SELECT')` is always 0 here and the first FROM never starts
   * inside the leading SELECT, so the selected text is exactly what stands
   * between the leading SELECT and the first FROM.
   */
  lemma TeradataSelectedText(query: string)
    ensures var q := Upper(Strip(query));
      TeradataValid(query) <==>
        StartsWith(q, "SELECT") && Contains(q, "FROM")
        && 6 <= IndexOf(q, "FROM")
        && Strip(q[6..IndexOf(q, "FROM")]) != []
        && Strip(q[6..IndexOf(q, "FROM")]) != "*"
  {
    var q := Upper(Strip(query));
    if StartsWith(q, "SELECT") && Contains(q, "FROM") {
      assert OccursAt(q, "SELECT", 0);
      NotInPrefix(q, "SELECT", "FROM");
    }
  }

  lemma StarPrefixUpper()
    ensures IsUpperCase("SELECT * FROM ")
  {
    var p := "SELECT * FROM ";
    forall i | 0 <= i < |p| ensures !('a' <= p[i] <= 'z') {
    }
    NoLowerIsUpperCase(p);
  }

  lemma StarWindow(q: string, x: string)
    requires q == "SELECT * FROM " + x
    ensures IndexOf(q, "FROM") == 9 && q[6..9] == " * "
  {
    var p := "SELECT * ";
    assert q[..9] == p;
    assert 'F' !in p;
    NotInPrefix(q, p, "FROM");
    assert q[9..13] == "FROM";
    assert OccursAt(q, "FROM", 9);
  }

  lemma StripStar()
    ensures Strip(" * ") == "*"
  {
    var a, b, c := " * ", "* ", "*";
    assert a[0] == ' ' && a[1..] == b;
    assert b[0] == '*' && !IsSpace(b[0]);
    assert LStrip(a) == LStrip(b) == b;
    assert b[|b| - 1] == ' ' && b[..|b| - 1] == c;
    assert c[|c| - 1] == '*' && !IsSpace(c[|c| - 1]);
    assert RStrip(b) == RStrip(c) == c;
  }

  /** `SELECT * FROM t` is refused whatever the table. */
  lemma TeradataRejectsStar(t: string)
    requires t != [] && !IsSpace(t[|t| - 1])
    ensures !TeradataValid("SELECT * FROM " + t)
  {
    var s := "SELECT * FROM " + t;
    assert s[0] == 'S' && s[|s| - 1] == t[|t| - 1];
    StrippedFixed(s);
    StarPrefixUpper();
    UpperConcat("SELECT * FROM ", t);
    var q := Upper(s);
    assert q == "SELECT * FROM " + Upper(t);
    StarWindow(q, Upper(t));
    StripStar();
    TeradataSelectedText(s);
  }
}
