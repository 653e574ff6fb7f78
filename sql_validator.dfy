/**
 * The `SQLValidator` of sql_sources.py: a per-comma alias check on the text
 * between SELECT and FROM, and a configuration check that adds the missing
 * required fields in front of it.
 */
module SourceValidator {
  import opened Text
  import opened Schema

  type Config = map<string, string>

  /** The messages `validate_sql` and `validate_config` collect. */
  datatype SqlCheckError =
    | MustStartWithSelectOrWith
    | InvalidSelect
    | MissingAlias(column: string)
    | MissingRequired(field: string)
  {
    function Message(): string {
      match this
      case MustStartWithSelectOrWith => "Query must start with SELECT or WITH"
      case InvalidSelect => "Invalid SELECT statement"
      case MissingAlias(c) => "Missing alias for aggregate function: " + c
      case MissingRequired(f) => "Missing required field: " + f
    }
  }

  /** The aggregates that must be aliased. */
  const AggregateMarkers: seq<string> := ["COUNT(", "SUM(", "AVG(", "MAX(", "MIN("]

  /** An aggregate with no ` AS ` in its column. */
  predicate LacksAlias(col: string) {
    ContainsAny(col, AggregateMarkers) && !Contains(col, " AS ")
  }

  /** One error per comma-separated piece that, stripped, is an unaliased aggregate, in order. */
  function AliasErrors(pieces: seq<string>): (errors: seq<SqlCheckError>)
    ensures |errors| <= |pieces|
  {
    if pieces == [] then []
    else
      var col := Strip(pieces[|pieces| - 1]);
      AliasErrors(pieces[..|pieces| - 1]) + (if LacksAlias(col) then [MissingAlias(col)] else [])
  }

  /** `query[query.index('SELECT') + 6:query.index('FROM')].strip()`. */
  function SelectPart(q: string): string
    requires Contains(q, "SELECT") && Contains(q, "FROM")
  {
    Strip(Slice(q, IndexOf(q, "SELECT") + 6, IndexOf(q, "FROM")))
  }

  /**
   * The checks `validate_sql` runs on the stripped, upper-cased query q; a
   * missing SELECT or FROM raises inside `index`, caught as one error.
   */
  function CheckSelect(q: string): seq<SqlCheckError> {
    if !(StartsWith(q, "SELECT") || StartsWith(q, "WITH")) then [MustStartWithSelectOrWith]
    else if !Contains(q, "SELECT") || !Contains(q, "FROM") then [InvalidSelect]
    else AliasErrors(SplitChar(SelectPart(q), ','))
  }

  /** What `validate_sql` returns. */
  function SqlErrors(query: string): seq<SqlCheckError> {
    CheckSelect(Upper(Strip(query)))
  }

  method ValidateSql(query: string) returns (errors: seq<SqlCheckError>)
    ensures errors == SqlErrors(query)
  {
    errors := [];
    var q := Upper(Strip(query));
    if !(StartsWith(q, "SELECT") || StartsWith(q, "WITH")) {
      errors := errors + [MustStartWithSelectOrWith];
      return;
    }
    if !Contains(q, "SELECT") || !Contains(q, "FROM") {
      errors := errors + [InvalidSelect];
      return;
    }
    var pieces := SplitChar(SelectPart(q), ',');
    errors := CheckAliases(pieces);
  }

  /** The loop over the comma-separated pieces. */
  method CheckAliases(pieces: seq<string>) returns (errors: seq<SqlCheckError>)
    ensures errors == AliasErrors(pieces)
  {
    errors := [];
    for i := 0 to |pieces|
      invariant errors == AliasErrors(pieces[..i])
    {
      assert pieces[..i + 1][..i] == pieces[..i];
      var col := Strip(pieces[i]);
      if LacksAlias(col) {
        errors := errors + [MissingAlias(col)];
      }
    }
    assert pieces[..|pieces|] == pieces;
  }

  /** The fields `validate_config` requires, in the order it reports them. */
  const RequiredFields: seq<string> := ["query", "timestamp_field", "database"]

  function MissingRequiredFields(fields: seq<string>, config: Config): (errors: seq<SqlCheckError>)
    ensures |errors| <= |fields|
  {
    if fields == [] then []
    else
      var f := fields[|fields| - 1];
      MissingRequiredFields(fields[..|fields| - 1], config) + (if f in config then [] else [MissingRequired(f)])
  }

  /** What `validate_config` returns: the missing fields, then the query's own errors. */
  function ConfigErrors(config: Config): seq<SqlCheckError> {
    MissingRequiredFields(RequiredFields, config)
    + (if "query" in config then SqlErrors(config["query"]) else [])
  }

  method ValidateConfig(config: Config) returns (errors: seq<SqlCheckError>)
    ensures errors == ConfigErrors(config)
  {
    errors := [];
    var required := RequiredFields;
    for i := 0 to |required|
      invariant errors == MissingRequiredFields(required[..i], config)
    {
      assert required[..i + 1][..i] == required[..i];
      if required[i] !in config {
        errors := errors + [MissingRequired(required[i])];
      }
    }
    assert required[..|required|] == required;
    if "query" in config {
      var sqlErrors := ValidateSql(config["query"]);
      errors := errors + sqlErrors;
    }
  }

  // ---------------------------------------------------------------------
  // What the errors mean

  /** A column is reported exactly when it is an unaliased aggregate and some piece strips to it. */
  lemma {:induction false} AliasErrorsMembers(pieces: seq<string>, c: string)
    ensures MissingAlias(c) in AliasErrors(pieces) <==>
      LacksAlias(c) && exists i | 0 <= i < |pieces| :: Strip(pieces[i]) == c
    decreases |pieces|
  {
    if pieces != [] {
      var init := pieces[..|pieces| - 1];
      AliasErrorsMembers(init, c);
      AliasErrorsLast(pieces, c);
      SnocAssoc([], pieces);
      SomeMapsToLast(pieces, init, pieces[|pieces| - 1], Strip, c);
    }
  }

  /** The last piece adds its own error, if any, after those of the others. */
  lemma AliasErrorsLast(pieces: seq<string>, c: string)
    requires pieces != []
    ensures MissingAlias(c) in AliasErrors(pieces) <==>
      MissingAlias(c) in AliasErrors(pieces[..|pieces| - 1]) || (LacksAlias(c) && Strip(pieces[|pieces| - 1]) == c)
  {
  }

  /** Some member of init + [last] maps to c exactly when one of init does or last does. */
  lemma SomeMapsToLast<T, U>(xs: seq<T>, init: seq<T>, last: T, f: T -> U, c: U)
    requires xs == init + [last]
    ensures (exists i | 0 <= i < |xs| :: f(xs[i]) == c) <==>
      (exists i | 0 <= i < |init| :: f(init[i]) == c) || f(last) == c
  {
    if exists i | 0 <= i < |xs| :: f(xs[i]) == c {
      var i :| 0 <= i < |xs| && f(xs[i]) == c;
      if i < |init| {
        assert f(init[i]) == c;
      } else {
        assert xs[i] == last;
      }
    }
    if f(last) == c {
      assert f(xs[|init|]) == c;
    }
    if exists i | 0 <= i < |init| :: f(init[i]) == c {
      var i :| 0 <= i < |init| && f(init[i]) == c;
      assert f(xs[i]) == c;
    }
  }

  /** Only missing-alias errors come out of the piece loop. */
  lemma {:induction false} AliasErrorsOnly(pieces: seq<string>, e: SqlCheckError)
    requires e in AliasErrors(pieces)
    ensures e.MissingAlias?
    decreases |pieces|
  {
    var init := pieces[..|pieces| - 1];
    if e in AliasErrors(init) {
      AliasErrorsOnly(init, e);
    }
  }

  /** A query with a SELECT and a FROM passes exactly when no piece is an unaliased aggregate. */
  lemma SqlAccepts(q: string)
    ensures CheckSelect(q) == [] <==>
      (StartsWith(q, "SELECT") || StartsWith(q, "WITH")) && Contains(q, "SELECT") && Contains(q, "FROM")
      && AllAliased(SplitChar(SelectPart(q), ','))
  {
    if (StartsWith(q, "SELECT") || StartsWith(q, "WITH")) && Contains(q, "SELECT") && Contains(q, "FROM") {
      var ps := SplitChar(SelectPart(q), ',');
      assert CheckSelect(q) == AliasErrors(ps);
      NoAliasErrors(ps);
    }
  }

  /** No piece, stripped, is an unaliased aggregate. */
  predicate AllAliased(ps: seq<string>) {
    forall i | 0 <= i < |ps| :: !LacksAlias(Strip(ps[i]))
  }

  /** The piece loop reports nothing exactly when no piece is an unaliased aggregate. */
  lemma NoAliasErrors(ps: seq<string>)
    ensures AliasErrors(ps) == [] <==> AllAliased(ps)
  {
    var errors := AliasErrors(ps);
    if errors != [] {
      AliasErrorsOnly(ps, errors[0]);
      AliasErrorsMembers(ps, errors[0].column);
    }
    forall i | 0 <= i < |ps| && LacksAlias(Strip(ps[i])) ensures errors != [] {
      AliasErrorsMembers(ps, Strip(ps[i]));
    }
  }

  /** Upper-casing the query first changes nothing: the check reads only the upper-cased text. */
  lemma SqlErrorsUpper(query: string)
    ensures SqlErrors(Upper(query)) == SqlErrors(query)
  {
    StripUpper(query);
    UpperIsUpperCase(Strip(query));
  }

  /** A field is reported missing exactly when it is required and absent. */
  lemma {:induction false} MissingRequiredMembers(fields: seq<string>, config: Config, f: string)
    ensures MissingRequired(f) in MissingRequiredFields(fields, config) <==> f in fields && f !in config
    decreases |fields|
  {
    if fields != [] {
      var init := fields[..|fields| - 1];
      MissingRequiredMembers(init, config, f);
      assert fields == init + [fields[|fields| - 1]];
    }
  }

  /** A configuration passes exactly when all three fields are present and its query passes. */
  lemma ConfigAccepts(config: Config)
    ensures ConfigErrors(config) == [] <==>
      "query" in config && "timestamp_field" in config && "database" in config
      && SqlErrors(config["query"]) == []
  {
    var missing := MissingRequiredFields(RequiredFields, config);
    var rest := if "query" in config then SqlErrors(config["query"]) else [];
    assert ConfigErrors(config) == missing + rest;
    assert |missing + rest| == |missing| + |rest|;
    NoneMissing(config);
  }

  /** No field is reported missing exactly when all three are present. */
  lemma NoneMissing(config: Config)
    ensures MissingRequiredFields(RequiredFields, config) == [] <==>
      "query" in config && "timestamp_field" in config && "database" in config
  {
    var missing := MissingRequiredFields(RequiredFields, config);
    forall f | f in RequiredFields && f !in config ensures missing != [] {
      MissingRequiredMembers(RequiredFields, config, f);
    }
    if missing != [] {
      MissingRequiredOnly(RequiredFields, config, missing[0]);
      MissingRequiredMembers(RequiredFields, config, missing[0].field);
    }
  }

  lemma {:induction false} MissingRequiredOnly(fields: seq<string>, config: Config, e: SqlCheckError)
    requires e in MissingRequiredFields(fields, config)
    ensures e.MissingRequired?
    decreases |fields|
  {
    var init := fields[..|fields| - 1];
    if e in MissingRequiredFields(init, config) {
      MissingRequiredOnly(init, config, e);
    }
  }
}
