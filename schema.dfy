/**
 * The column-level half of the base SQL source in sql_sources.py: reading a
 * name and an expression out of one column (`_parse_column`), guessing its
 * type (`_infer_type`), deciding whether it needs an alias
 * (`_requires_alias`), and `infer_schema` and `validate_query`, which chain
 * the line and column scanners of SqlSource with these.
 */
module Schema {
  import opened Optional
  import opened Text
  import opened SqlSource

  /** `any(w in s for w in words)`. */
  predicate ContainsAny(s: string, words: seq<string>) {
    exists k | 0 <= k < |words| :: Contains(s, words[k])
  }

  lemma ContainsAnyAt(s: string, words: seq<string>, k: nat)
    requires k < |words| && Contains(s, words[k])
    ensures ContainsAny(s, words)
  {
  }

  // ---------------------------------------------------------------------
  // _parse_column

  /** What keeps a dotted column from being read as `table.column`. */
  const AliasBlockers: seq<string> := ["(", "CASE", "+", "-", "*", "/"]

  /** What keeps a column from being its own name. */
  const NameBlockers: seq<string> := ["(", "CASE", ".", "+", "-", "*", "/", "OVER"]

  /** A parsed column: its name, if it has one, and its upper-cased expression. */
  datatype Parsed = Parsed(name: Option<string>, expr: string)

  /** `s.split('.')[-1]`. */
  function LastSegment(s: string): string {
    var parts := SplitChar(s, '.');
    parts[|parts| - 1]
  }

  /**
   * `_parse_column`: an explicit ` AS ` alias first, then a `table.column`
   * name, then a bare name; anything else has no name.
   */
  function ParseColumn(col: string): Parsed {
    var c := Strip(col);
    var u := Upper(c);
    if Contains(u, " AS ") then
      var (e, a) := SplitOnce(u, " AS ");
      Parsed(Some(Strip(a)), Strip(e))
    else if '.' in c && !ContainsAny(u, AliasBlockers) then
      Parsed(Some(Upper(Strip(LastSegment(c)))), u)
    else if !ContainsAny(u, NameBlockers) then
      Parsed(Some(u), u)
    else
      Parsed(None, u)
  }

  /** Every name and every expression the parser returns is upper-case. */
  lemma ParseUpperCase(col: string)
    ensures var p := ParseColumn(col);
      IsUpperCase(p.expr) && (p.name.Some? ==> IsUpperCase(p.name.value))
  {
    var c := Strip(col);
    var u := Upper(c);
    var p := ParseColumn(col);
    UpperIsUpperCase(c);
    if Contains(u, " AS ") {
      var (e, a) := SplitOnce(u, " AS ");
      var k := |e|;
      assert e == u[..k] && a == u[k + 4..];
      UpperCaseSlice(u, k + 4, |u|);
      UpperCaseSlice(u, 0, k);
      StripUpperCase(a);
      StripUpperCase(e);
      assert p == Parsed(Some(Strip(a)), Strip(e));
    } else {
      assert p.expr == u;
      if '.' in c && !ContainsAny(u, AliasBlockers) {
        UpperIsUpperCase(Strip(LastSegment(c)));
        assert p.name == Some(Upper(Strip(LastSegment(c))));
      } else {
        assert p.name.Some? ==> p.name.value == u;
      }
    }
  }

  /**
   * `e AS a` is split at the ` AS `: the name is the alias and the
   * expression is what precedes it, both upper-cased, as long as no earlier
   * ` AS ` hides in e.
   */
  lemma ParseAlias(e: string, a: string)
    requires e != [] && a != [] && IsStripped(e) && IsStripped(a)
    requires !Contains(Upper(e + " "), " AS ")
    ensures ParseColumn(e + " AS " + a) == Parsed(Some(Upper(a)), Upper(e))
  {
    var col := e + " AS " + a;
    assert col[0] == e[0] && col[|col| - 1] == a[|a| - 1];
    var ue, ua := Upper(e), Upper(a);
    UpperConcat(e + " AS ", a);
    UpperConcat(e, " AS ");
    UpperConcat(e, " ");
    assert Upper(" AS ") == " AS ";
    assert Upper(" ") == " ";
    var u := Upper(col);
    assert u == ue + " AS " + ua;
    UpperCharSpace(e[|e| - 1]);
    FirstAs(ue, ua);
    var (x, y) := SplitOnce(u, " AS ");
    assert x == u[..|ue|] == ue;
    assert y == u[|ue| + 4..] == ua;
    UpperCharSpace(e[0]);
    UpperCharSpace(a[0]);
    UpperCharSpace(a[|a| - 1]);
    StrippedFixed(ue);
    StrippedFixed(ua);
    ParseAs(col);
  }

  /** A column with ` AS ` is cut at its first ` AS `, both halves stripped. */
  lemma ParseAs(c: string)
    requires IsStripped(c) && Contains(Upper(c), " AS ")
    ensures var (e, a) := SplitOnce(Upper(c), " AS ");
      ParseColumn(c) == Parsed(Some(Strip(a)), Strip(e))
  {
    StrippedFixed(c);
  }

  /** The first ` AS ` in `e AS a` is the one after e when e ends in a non-blank and holds none. */
  lemma FirstAs(e: string, a: string)
    requires e != [] && e[|e| - 1] != ' ' && !Contains(e + " ", " AS ")
    ensures IndexOf(e + " AS " + a, " AS ") == |e|
  {
    var u := e + " AS " + a;
    var n := |e|;
    assert OccursAt(u, " AS ", n) by {
      assert u[n..n + 4] == " AS ";
    }
    forall j | 0 <= j < n ensures !OccursAt(u, " AS ", j) {
      if j + 4 <= n + 1 {
        assert u[j..j + 4] == (e + " ")[j..j + 4];
        assert !OccursAt(e + " ", " AS ", j);
      } else if j == n - 2 {
        assert u[j..j + 4][2] == u[n] == ' ';
      } else {
        assert u[j..j + 4][0] == u[n - 1] == e[n - 1];
      }
    }
  }

  /**
   * `table.column` with none of the alias blockers is named by its last
   * segment, stripped and upper-cased; the expression is the whole column.
   */
  lemma ParseQualified(t: string, x: string)
    requires '.' !in x && IsStripped(t + "." + x)
    requires !Contains(Upper(t + "." + x), " AS ") && !ContainsAny(Upper(t + "." + x), AliasBlockers)
    ensures ParseColumn(t + "." + x) == Parsed(Some(Upper(Strip(x))), Upper(t + "." + x))
  {
    var c := t + "." + x;
    assert c[|t|] == '.';
    SplitCharLast(t, '.', x);
    assert LastSegment(c) == x;
    ParseDotted(c);
  }

  /** A dotted column with no alias blocker is named by its last segment. */
  lemma ParseDotted(c: string)
    requires IsStripped(c) && '.' in c
    requires !Contains(Upper(c), " AS ") && !ContainsAny(Upper(c), AliasBlockers)
    ensures ParseColumn(c) == Parsed(Some(Upper(Strip(LastSegment(c)))), Upper(c))
  {
    StrippedFixed(c);
  }

  /** A column with none of the name blockers is its own name. */
  lemma ParseBare(c: string)
    requires IsStripped(c)
    requires !Contains(Upper(c), " AS ") && !ContainsAny(Upper(c), NameBlockers)
    ensures ParseColumn(c) == Parsed(Some(Upper(c)), Upper(c))
  {
    StrippedFixed(c);
    DotUpper(c);
    if '.' in c {
      ContainsAnyAt(Upper(c), NameBlockers, 2);
    }
  }

  /**
   * A column without ` AS ` has no name exactly when it holds an alias
   * blocker, or it has no '.' and holds "OVER".
   */
  lemma ParseNoName(c: string)
    requires IsStripped(c) && !Contains(Upper(c), " AS ")
    ensures ParseColumn(c).name.None? <==>
      ContainsAny(Upper(c), AliasBlockers) || ('.' !in c && Contains(Upper(c), "OVER"))
  {
    StrippedFixed(c);
    DotUpper(c);
    NameBlockersSplit(Upper(c));
  }

  /** The name blockers are the alias blockers plus "." and "OVER". */
  lemma NameBlockersSplit(u: string)
    ensures ContainsAny(u, NameBlockers) <==>
      ContainsAny(u, AliasBlockers) || Contains(u, ".") || Contains(u, "OVER")
  {
    if ContainsAny(u, NameBlockers) {
      var k :| 0 <= k < |NameBlockers| && Contains(u, NameBlockers[k]);
      if k < 2 {
        ContainsAnyAt(u, AliasBlockers, k);
      } else if 2 < k < 7 {
        ContainsAnyAt(u, AliasBlockers, k - 1);
      }
    }
    if ContainsAny(u, AliasBlockers) {
      var k :| 0 <= k < |AliasBlockers| && Contains(u, AliasBlockers[k]);
      ContainsAnyAt(u, NameBlockers, if k < 2 then k else k + 1);
    }
    if Contains(u, ".") {
      ContainsAnyAt(u, NameBlockers, 2);
    }
    if Contains(u, "OVER") {
      ContainsAnyAt(u, NameBlockers, 7);
    }
  }

  /** Upper-casing neither adds nor removes a '.'. */
  lemma DotUpper(c: string)
    ensures '.' in c <==> Contains(Upper(c), ".")
  {
    var u := Upper(c);
    if '.' in c {
      var i :| 0 <= i < |c| && c[i] == '.';
      assert OccursAt(u, ".", i) by {
        assert u[i..i + 1] == ".";
      }
    }
    if Contains(u, ".") {
      var i :| 0 <= i <= |u| - 1 && OccursAt(u, ".", i);
      assert u[i..i + 1][0] == u[i] == '.';
      assert c[i] == '.';
    }
  }

  /** A plain word that happens to contain "OVER" is not a name: `turnover` is dropped. */
  lemma TurnoverHasNoName()
    ensures ParseColumn("turnover").name.None?
  {
    var c := "turnover";
    assert Upper(c) == "TURNOVER";
    assert !Contains("TURNOVER", " AS ") by {
      forall k | 0 <= k <= 4 ensures !OccursAt("TURNOVER", " AS ", k) {
        assert "TURNOVER"[k] != ' ';
      }
    }
    assert OccursAt("TURNOVER", "OVER", 4);
    assert '.' !in c;
    ParseNoName(c);
  }

  // ---------------------------------------------------------------------
  // _infer_type and _requires_alias

  const IntMarkers: seq<string> := ["COUNT(", "ROW_NUMBER(", "RANK("]
  const FloatMarkers: seq<string> := ["SUM(", "AVG(", "MIN(", "MAX("]

  /** `_infer_type`: counting and ranking give INT64, other aggregates FLOAT, everything else STRING. */
  function InferType(expr: string): DType {
    var u := Upper(expr);
    if ContainsAny(u, IntMarkers) then INT64
    else if ContainsAny(u, FloatMarkers) then FLOAT
    else STRING
  }

  /** The order of the three types: STRING below FLOAT below INT64. */
  function Rank(t: DType): nat {
    match t
    case STRING => 0
    case FLOAT => 1
    case INT64 => 2
  }

  /** An integer marker wins over a float marker. */
  lemma InferTypePrecedence(expr: string)
    ensures ContainsAny(Upper(expr), IntMarkers) ==> InferType(expr) == INT64
    ensures ContainsAny(Upper(expr), FloatMarkers) ==> InferType(expr) != STRING
    ensures InferType(expr) == STRING <==>
      !ContainsAny(Upper(expr), IntMarkers) && !ContainsAny(Upper(expr), FloatMarkers)
  {
  }

  /** The type does not depend on the case of the expression. */
  lemma InferTypeUpper(expr: string)
    ensures InferType(Upper(expr)) == InferType(expr)
  {
    UpperIsUpperCase(expr);
  }

  lemma ContainsAnyExtend(a: string, s: string, b: string, words: seq<string>)
    requires ContainsAny(Upper(s), words)
    ensures ContainsAny(Upper(a + s + b), words)
  {
    var k :| 0 <= k < |words| && Contains(Upper(s), words[k]);
    UpperConcat(a + s, b);
    UpperConcat(a, s);
    ContainsExtend(Upper(a), Upper(s), Upper(b), words[k]);
    ContainsAnyAt(Upper(a + s + b), words, k);
  }

  /** Wrapping an expression in more text never lowers its type. */
  lemma InferTypeMonotone(a: string, expr: string, b: string)
    ensures Rank(InferType(a + expr + b)) >= Rank(InferType(expr))
  {
    var u := Upper(expr);
    if ContainsAny(u, IntMarkers) {
      ContainsAnyExtend(a, expr, b, IntMarkers);
    } else if ContainsAny(u, FloatMarkers) {
      ContainsAnyExtend(a, expr, b, FloatMarkers);
    }
  }

  /** What `_requires_alias` looks for. */
  const AliasMarkers: seq<string> := [
    "COUNT(", "SUM(", "AVG(", "MAX(", "MIN(",
    "RANK(", "ROW_NUMBER(",
    "CASE",
    "+", "-", "*", "/",
    "CONCAT(", "||",
    "COALESCE(", "NVL(",
    "CAST(", "CONVERT("
  ]

  /** `_requires_alias`. */
  predicate RequiresAlias(expr: string) {
    ContainsAny(Upper(expr), AliasMarkers)
  }

  /** An expression that is typed INT64 or FLOAT is one that needs an alias. */
  lemma TypedNeedsAlias(expr: string)
    ensures InferType(expr) != STRING ==> RequiresAlias(expr)
  {
    var u := Upper(expr);
    if ContainsAny(u, IntMarkers) {
      var k :| 0 <= k < |IntMarkers| && Contains(u, IntMarkers[k]);
      ContainsAnyAt(u, AliasMarkers, if k == 0 then 0 else if k == 1 then 6 else 5);
    } else if ContainsAny(u, FloatMarkers) {
      var k :| 0 <= k < |FloatMarkers| && Contains(u, FloatMarkers[k]);
      ContainsAnyAt(u, AliasMarkers, if k == 0 then 1 else if k == 1 then 2 else if k == 2 then 4 else 3);
    }
  }

  /**
   * An unaliased column that needs an alias gets no name from the parser,
   * unless what made it need one is `||`: every other marker holds an alias
   * blocker.
   */
  lemma UnaliasedHasNoName(c: string)
    requires IsStripped(c) && !Contains(Upper(c), " AS ") && !Contains(Upper(c), "||")
    requires RequiresAlias(c)
    ensures ParseColumn(c).name.None?
  {
    var u := Upper(c);
    var k :| 0 <= k < |AliasMarkers| && Contains(u, AliasMarkers[k]);
    var m := AliasMarkers[k];
    if 8 <= k < 12 {
      ContainsAnyAt(u, AliasBlockers, k - 6);
    } else if k == 7 {
      ContainsAnyAt(u, AliasBlockers, 1);
    } else {
      assert k != 13;
      assert OccursAt(m, "(", |m| - 1);
      ContainsTrans(u, m, "(");
      ContainsAnyAt(u, AliasBlockers, 0);
    }
    ParseNoName(c);
  }

  /**
   * `||` makes a column need an alias, yet a column whose only such marker
   * is `||` is named after itself: `a||b` comes out as `A||B`.
   */
  lemma ConcatKeepsName(c: string)
    requires IsStripped(c) && Contains(Upper(c), "||")
    requires !Contains(Upper(c), " AS ") && !ContainsAny(Upper(c), NameBlockers)
    ensures RequiresAlias(c) && ParseColumn(c) == Parsed(Some(Upper(c)), Upper(c))
  {
    ContainsAnyAt(Upper(c), AliasMarkers, 13);
    ParseBare(c);
  }

  // ---------------------------------------------------------------------
  // infer_schema

  /** The schema entry of one parsed column: none when the name is missing or empty (`if name:`). */
  function Entry(p: Parsed): (e: seq<Column>)
    ensures |e| <= 1
    ensures e != [] <==> p.name.Some? && p.name.value != []
    ensures e != [] ==> e[0].name == p.name.value && e[0].dtype == InferType(p.expr)
  {
    if p.name.Some? && p.name.value != [] then [Column(p.name.value, InferType(p.expr))] else []
  }

  /** The entries of the parsed columns, in column order. */
  function Entries(ps: seq<Parsed>): (schema: seq<Column>)
    ensures |schema| <= |ps|
  {
    if ps == [] then []
    else Entries(ps[..|ps| - 1]) + Entry(ps[|ps| - 1])
  }

  function ParseAll(cols: seq<string>): (ps: seq<Parsed>)
    ensures |ps| == |cols|
  {
    seq(|cols|, i requires 0 <= i < |cols| => ParseColumn(cols[i]))
  }

  /**
   * The lines `infer_schema` works on: its own checks first (a CTE, no
   * leading SELECT, no FROM anywhere, a forbidden character), then
   * `_validate_format`.
   */
  function SchemaLines(query: string): Result<seq<string>> {
    var q := Upper(Strip(query));
    if StartsWith(q, "WITH") then Err(CteNotSupported)
    else if !StartsWith(q, "SELECT") then Err(MustStartWithSelect)
    else if !Contains(Upper(query), "FROM") then Err(MissingFromClause)
    else if HasInvalidChar(query) then Err(InvalidStatement)
    else FormatLines(query)
  }

  /** What `infer_schema` returns: the entries of the columns of the SELECT window, or the error raised. */
  function SchemaOf(query: string): Result<seq<Column>> {
    match SchemaLines(query)
    case Err(e) => Err(e)
    case Ok(lines) => Ok(Entries(ParseAll(Columns(SelectText(lines)))))
  }

  /** The four checks `infer_schema` makes before `_validate_format`, each with its own error. */
  lemma SchemaPrechecks(query: string)
    ensures StartsWith(Upper(Strip(query)), "WITH") ==> SchemaOf(query) == Err(CteNotSupported)
    ensures !StartsWith(Upper(Strip(query)), "WITH") && !StartsWith(Upper(Strip(query)), "SELECT") ==>
      SchemaOf(query) == Err(MustStartWithSelect)
    ensures StartsWith(Upper(Strip(query)), "SELECT") && !Contains(Upper(query), "FROM") ==>
      SchemaOf(query) == Err(MissingFromClause)
    ensures StartsWith(Upper(Strip(query)), "SELECT") && Contains(Upper(query), "FROM") && HasInvalidChar(query) ==>
      SchemaOf(query) == Err(InvalidStatement)
  {
    var q := Upper(Strip(query));
    if StartsWith(q, "SELECT") {
      assert q[0] == "SELECT"[0] != "WITH"[0];
    }
  }

  /** A schema comes back only for a SELECT query with a FROM, no forbidden character and a well-formed window. */
  lemma SchemaAccepted(query: string)
    requires SchemaOf(query).Ok?
    ensures StartsWith(Upper(Strip(query)), "SELECT") && Contains(Upper(query), "FROM") && !HasInvalidChar(query)
    ensures FormatLines(query).Ok?
      && SchemaOf(query).value == Entries(ParseAll(Columns(SelectText(FormatLines(query).value))))
  {
  }

  /**
   * `_find_main_select` and `infer_schema` agree on CTEs: the first raises
   * exactly when the second raises its CTE error: the second WITH test, in
   * `_validate_format`, never fires on a query that passed the SELECT test.
   */
  lemma FindMainSelectCte(query: string)
    ensures FindMainSelect(query).Err? <==> SchemaOf(query) == Err(CteNotSupported)
  {
    SchemaPrechecks(query);
    if StartsWith(Upper(Strip(query)), "SELECT") {
      SelectIsNoCte(query);
    }
  }

  /** Running `infer_schema` on what `_find_main_select` returns answers as on the query itself. */
  lemma FindMainSelectSchema(query: string)
    ensures FindMainSelect(query).Ok? ==> SchemaOf(FindMainSelect(query).value) == SchemaOf(query)
  {
    SchemaLinesStrip(query);
  }

  /** The checks of `infer_schema` do not depend on whitespace around the query. */
  lemma SchemaLinesStrip(query: string)
    ensures SchemaLines(Strip(query)) == SchemaLines(query)
  {
    StripIdempotent(query);
    ContainsUpperStrip(query, "FROM");
    StripKeepsInvalidChar(query);
    FormatLinesStrip(query);
    SchemaLinesAgree(Strip(query), query);
  }

  /** SchemaLines reads a query only through these four facts about it. */
  lemma SchemaLinesAgree(q1: string, q2: string)
    requires Upper(Strip(q1)) == Upper(Strip(q2))
    requires Contains(Upper(q1), "FROM") == Contains(Upper(q2), "FROM")
    requires HasInvalidChar(q1) == HasInvalidChar(q2)
    requires FormatLines(q1) == FormatLines(q2)
    ensures SchemaLines(q1) == SchemaLines(q2)
  {
  }

  /** A parsed column yields schema entry c: it has a non-empty name, and c pairs it with the inferred type. */
  predicate Yields(p: Parsed, c: Column) {
    p.name.Some? && p.name.value != [] && c == Column(p.name.value, InferType(p.expr))
  }

  /** The schema holds exactly the entries of the named columns. */
  lemma {:induction false} EntriesMembers(ps: seq<Parsed>, c: Column)
    ensures c in Entries(ps) <==> exists i | 0 <= i < |ps| :: Yields(ps[i], c)
  {
    if ps != [] {
      var init, last := ps[..|ps| - 1], ps[|ps| - 1];
      EntriesMembers(init, c);
      assert Entries(ps) == Entries(init) + Entry(last);
      assert c in Entry(last) <==> Yields(last, c);
      if exists i | 0 <= i < |ps| :: Yields(ps[i], c) {
        var i :| 0 <= i < |ps| && Yields(ps[i], c);
        if i < |init| {
          assert init[i] == ps[i];
        }
      }
      if exists i | 0 <= i < |init| :: Yields(init[i], c) {
        var i :| 0 <= i < |init| && Yields(init[i], c);
        assert ps[i] == init[i];
      }
      if Yields(last, c) {
        assert Yields(ps[|ps| - 1], c);
      }
    }
  }

  method InferSchema(query: string) returns (r: Result<seq<Column>>)
    ensures r == SchemaOf(query)
  {
    var q := Upper(Strip(query));
    if StartsWith(q, "WITH") {
      return Err(CteNotSupported);
    }
    if !StartsWith(q, "SELECT") {
      return Err(MustStartWithSelect);
    }
    if !Contains(Upper(query), "FROM") {
      return Err(MissingFromClause);
    }
    if ';' in query || '`' in query || '|' in query {
      return Err(InvalidStatement);
    }
    var lines := ValidateFormat(query);
    if lines.Err? {
      return Err(lines.error);
    }
    var selectPart := ExtractSelect(lines.value);
    var columns := SplitColumns(selectPart);
    var schema := BuildSchema(columns);
    return Ok(schema);
  }

  /** The loop of `infer_schema` over the columns. */
  method BuildSchema(columns: seq<string>) returns (schema: seq<Column>)
    ensures schema == Entries(ParseAll(columns))
  {
    ghost var ps := ParseAll(columns);
    schema := [];
    for i := 0 to |columns|
      invariant schema == Entries(ps[..i])
    {
      EntriesStep(ps, i);
      var p := ParseColumn(columns[i]);
      assert p == ps[i];
      if p.name.Some? && p.name.value != [] {
        assert Entry(p) == [Column(p.name.value, InferType(p.expr))];
        schema := schema + [Column(p.name.value, InferType(p.expr))];
      } else {
        assert Entry(p) == [];
      }
    }
    assert ps[..|ps|] == ps;
  }

  lemma EntriesStep(ps: seq<Parsed>, i: nat)
    requires i < |ps|
    ensures Entries(ps[..i + 1]) == Entries(ps[..i]) + Entry(ps[i])
  {
    assert ps[..i + 1][..i] == ps[..i];
  }

  /** The schema of two runs of columns is the schema of the first followed by that of the second. */
  lemma {:induction false} EntriesConcat(a: seq<Parsed>, b: seq<Parsed>)
    ensures Entries(a + b) == Entries(a) + Entries(b)
    decreases |b|
  {
    if b == [] {
      assert a + b == a;
    } else {
      var b' := b[..|b| - 1];
      assert (a + b)[..|a + b| - 1] == a + b';
      assert (a + b)[|a + b| - 1] == b[|b| - 1];
      EntriesConcat(a, b');
      calc {
        Entries(a + b);
        Entries(a + b') + Entry(b[|b| - 1]);
        Entries(a) + Entries(b') + Entry(b[|b| - 1]);
        Entries(a) + (Entries(b') + Entry(b[|b| - 1]));
        Entries(a) + Entries(b);
      }
    }
  }

  /** Every name the parser gives is upper-case. */
  predicate NamesUpper(ps: seq<Parsed>) {
    forall k :: 0 <= k < |ps| && ps[k].name.Some? ==> IsUpperCase(ps[k].name.value)
  }

  lemma ParseAllUpper(cols: seq<string>)
    ensures NamesUpper(ParseAll(cols))
  {
    forall k | 0 <= k < |cols| {
      ParseUpperCase(cols[k]);
    }
  }

  /** Every schema entry has a non-empty, upper-case name. */
  lemma {:induction false} EntriesNamed(ps: seq<Parsed>)
    requires NamesUpper(ps)
    ensures forall k :: 0 <= k < |Entries(ps)| ==>
      Entries(ps)[k].name != [] && IsUpperCase(Entries(ps)[k].name)
    decreases |ps|
  {
    if ps != [] {
      var init := ps[..|ps| - 1];
      assert NamesUpper(init) by {
        forall k | 0 <= k < |init| && init[k].name.Some? ensures IsUpperCase(init[k].name.value) {
          assert init[k] == ps[k];
        }
      }
      EntriesNamed(init);
    }
  }

  /** The schema `infer_schema` returns names every column with a non-empty upper-case name. */
  lemma SchemaNamed(query: string)
    requires SchemaOf(query).Ok?
    ensures forall k :: 0 <= k < |SchemaOf(query).value| ==>
      SchemaOf(query).value[k].name != [] && IsUpperCase(SchemaOf(query).value[k].name)
  {
    var cols := SchemaColumns(query);
    ParseAllUpper(cols);
    EntriesNamed(ParseAll(cols));
  }

  /** The columns whose entries make up a schema that `infer_schema` returns. */
  lemma SchemaColumns(query: string) returns (cols: seq<string>)
    requires SchemaOf(query).Ok?
    ensures SchemaOf(query).value == Entries(ParseAll(cols))
  {
    cols := Columns(SelectText(SchemaLines(query).value));
  }

  // ---------------------------------------------------------------------
  // A single line without commas never has a FROM line of its own

  /** No line break and no comma anywhere in the query. */
  predicate OneLineNoComma(query: string) {
    ',' !in query && forall j :: 0 <= j < |query| ==> !IsLineBreak(query[j])
  }

  /**
   * A query written on one line without commas is never accepted: its only
   * line starts with SELECT, so there is no line that starts with FROM.
   */
  lemma OneLineFormat(query: string)
    requires OneLineNoComma(query)
    requires StartsWith(Upper(Strip(query)), "SELECT") && !HasInvalidChar(query)
    ensures FormatLines(query) == Err(MissingFromClause)
  {
    var q := Strip(query);
    StripOneLine(query);
    assert IsLineBreak('\n');
    assert SplitSingleLine(q) == q;
    assert !StartsWith(Upper(q), "WITH") by {
      assert Upper(q)[0] == 'S';
    }
    OneLineWindow(q);
  }

  /** Stripping keeps a query on one line, without commas and without forbidden characters. */
  lemma StripOneLine(query: string)
    requires OneLineNoComma(query)
    ensures OneLineNoComma(Strip(query))
    ensures !HasInvalidChar(query) ==> !HasInvalidChar(Strip(query))
  {
    var q := Strip(query);
    StripKeeps(query, ',');
    forall j | 0 <= j < |q| ensures !IsLineBreak(q[j]) {
      StripAt(query, j);
    }
    if !HasInvalidChar(query) {
      StripKeeps(query, ';');
      StripKeeps(query, '`');
      StripKeeps(query, '|');
    }
  }

  /** The only line of a stripped one-line SELECT query is its SELECT line, and no FROM line follows. */
  lemma OneLineWindow(q: string)
    requires IsStripped(q) && OneLineNoComma(q) && IsSelectLine(q)
    ensures Window(NonBlank(SplitLines(q))) == Err(MissingFromClause)
  {
    SplitLinesNone(q);
    StrippedFixed(q);
    NonBlankSingle(q);
    assert NonBlank(SplitLines(q)) == [q];
    assert FromLine([q]) == 1;
    assert SelectLineBefore([q], 1) == 0;
  }

  /** Whatever its first word, a stripped one-line query has no SELECT-to-FROM window. */
  lemma OneLineNoWindow(q: string)
    requires IsStripped(q) && OneLineNoComma(q)
    ensures Window(NonBlank(SplitLines(q))).Err?
  {
    if q != [] {
      SplitLinesNone(q);
      StrippedFixed(q);
      NonBlankSingle(q);
      assert NonBlank(SplitLines(q)) == [q];
      if IsSelectLine(q) {
        assert FromLine([q]) == 1;
      } else {
        assert SelectLineBefore([q], FromLine([q])) == -1;
      }
    }
  }

  /** `_validate_format` fails on every query written on one line without commas. */
  lemma OneLineUnformatted(query: string)
    requires OneLineNoComma(query)
    ensures FormatLines(query).Err?
  {
    var q := Strip(query);
    if !HasInvalidChar(q) {
      StripOneLine(query);
      assert IsLineBreak('\n');
      assert SplitSingleLine(q) == q;
      if !StartsWith(Upper(q), "WITH") {
        OneLineNoWindow(q);
      }
    }
  }

  /** Hence `infer_schema` rejects every such query. */
  lemma OneLineSchema(query: string)
    requires OneLineNoComma(query)
    ensures SchemaOf(query).Err?
  {
    var q := Upper(Strip(query));
    if StartsWith(q, "SELECT") && !HasInvalidChar(query) {
      OneLineFormat(query);
    }
    assert SchemaLines(query).Err?;
  }

  // ---------------------------------------------------------------------
  // validate_query

  /**
   * What `validate_query` answers: no '*' and no WITH anywhere, the format
   * check passes, and the SELECT text and its columns are both non-empty.
   * Every error on the way is caught and answered with false.
   */
  predicate QueryIsValid(query: string) {
    '*' !in query && !Contains(Upper(query), "WITH")
    && FormatLines(query).Ok?
    && SelectText(FormatLines(query).value) != []
    && Columns(SelectText(FormatLines(query).value)) != []
  }

  method ValidateQuery(query: string) returns (ok: bool)
    ensures ok == QueryIsValid(query)
  {
    if '*' in query {
      return false;
    }
    if Contains(Upper(query), "WITH") {
      return false;
    }
    var lines := ValidateFormat(query);
    if lines.Err? {
      return false;
    }
    var selectPart := ExtractSelect(lines.value);
    if selectPart == [] {
      return false;
    }
    var columns := SplitColumns(selectPart);
    return columns != [];
  }

  /** `validate_query` rejects every query written on one line without commas. */
  lemma OneLineInvalid(query: string)
    requires OneLineNoComma(query)
    ensures !QueryIsValid(query)
  {
    OneLineUnformatted(query);
  }
}
