/**
 * `SQLSourceRegistry` of sql_sources.py: the table from provider names to the
 * three dialects, and the check of a source configuration against it.  A
 * configuration is a dictionary from field names to string values.
 */
module SourceRegistry {
  import opened Optional
  import opened Text
  import opened Dialects

  type Config = map<string, string>

  /** The registry's key for each provider. */
  function ProviderName(p: Provider): string {
    match p
    case Snowflake => "snowflake"
    case Teradata => "teradata"
    case SparkSqlEmr => "spark_sql_emr"
  }

  /** `get_source_class`: a dictionary lookup on the exact name, None for any other name. */
  function SourceClass(provider: string): (r: Option<Provider>)
    ensures r.Some? ==> ProviderName(r.value) == provider
  {
    if provider == "snowflake" then Some(Snowflake)
    else if provider == "teradata" then Some(Teradata)
    else if provider == "spark_sql_emr" then Some(SparkSqlEmr)
    else None
  }

  /** Every provider is found under its own key. */
  lemma SourceClassRoundTrip(p: Provider)
    ensures SourceClass(ProviderName(p)) == Some(p)
  {
  }

  /** A name is known exactly when it is the key of some provider. */
  lemma SourceClassKnown(provider: string)
    ensures SourceClass(provider).Some? <==> exists p: Provider :: ProviderName(p) == provider
  {
    if exists p: Provider :: ProviderName(p) == provider {
      var p: Provider :| ProviderName(p) == provider;
      SourceClassRoundTrip(p);
    }
  }

  /** The errors `validate_config` reports. */
  datatype ConfigError =
    | UnsupportedProvider(provider: string)
    | CteNotSupported
    | NoQueryOrTable
    | MissingField(field: string)
  {
    function Message(): string {
      match this
      case UnsupportedProvider(p) => "Unsupported SQL provider: " + p
      case CteNotSupported => "CTEs (WITH clauses) are not supported"
      case NoQueryOrTable => "Either 'query' or 'table' must be specified"
      case MissingField(f) => "Missing required field: " + f
    }
  }

  /** A configured query counts as a CTE when its stripped, upper-cased text starts with WITH. */
  predicate HasCte(config: Config) {
    "query" in config && StartsWith(Upper(Strip(config["query"])), "WITH")
  }

  /** The fields required once a query or a table is given. */
  function RequiredFields(config: Config): seq<string> {
    if "query" in config then ["query", "timestamp_field"] else ["table", "timestamp_field"]
  }

  /** One MissingField error per field of `fields` absent from the configuration, in order. */
  function MissingFields(fields: seq<string>, config: Config): (errors: seq<ConfigError>)
    ensures |errors| <= |fields|
  {
    if fields == [] then []
    else
      var f := fields[|fields| - 1];
      MissingFields(fields[..|fields| - 1], config) + (if f in config then [] else [MissingField(f)])
  }

  /** What `validate_config` returns. */
  function RegistryErrors(provider: string, config: Config): seq<ConfigError> {
    if SourceClass(provider).None? then [UnsupportedProvider(provider)]
    else if HasCte(config) then [CteNotSupported]
    else if "query" !in config && "table" !in config then [NoQueryOrTable]
    else MissingFields(RequiredFields(config), config)
  }

  /** `validate_config`: the checks in order, stopping at the first three. */
  method ValidateConfig(provider: string, config: Config) returns (errors: seq<ConfigError>)
    ensures errors == RegistryErrors(provider, config)
  {
    errors := [];
    if SourceClass(provider).None? {
      errors := errors + [UnsupportedProvider(provider)];
      return;
    }
    if "query" in config {
      var query := Upper(Strip(config["query"]));
      if StartsWith(query, "WITH") {
        errors := errors + [CteNotSupported];
        return;
      }
    }
    var required: seq<string>;
    if "query" in config {
      required := ["query", "timestamp_field"];
    } else if "table" in config {
      required := ["table", "timestamp_field"];
    } else {
      errors := errors + [NoQueryOrTable];
      return;
    }
    errors := ReportMissing(required, config);
  }

  /** The loop over the required fields. */
  method ReportMissing(required: seq<string>, config: Config) returns (errors: seq<ConfigError>)
    ensures errors == MissingFields(required, config)
  {
    errors := [];
    for i := 0 to |required|
      invariant errors == MissingFields(required[..i], config)
    {
      assert required[..i + 1][..i] == required[..i];
      if required[i] !in config {
        errors := errors + [MissingField(required[i])];
      }
    }
    assert required[..|required|] == required;
  }

  // ---------------------------------------------------------------------
  // What the errors mean

  /** A missing-field error is reported exactly for each listed field that is absent. */
  lemma {:induction false} MissingFieldsMembers(fields: seq<string>, config: Config, e: ConfigError)
    ensures e in MissingFields(fields, config) <==> e.MissingField? && e.field in fields && e.field !in config
    decreases |fields|
  {
    if fields != [] {
      var init := fields[..|fields| - 1];
      MissingFieldsMembers(init, config, e);
      assert fields == init + [fields[|fields| - 1]];
    }
  }

  /**
   * At most one error is ever reported: the three early checks give one
   * each, and the field that made the query or table branch is present.
   */
  lemma RegistryAtMostOne(provider: string, config: Config)
    ensures |RegistryErrors(provider, config)| <= 1
  {
    if SourceClass(provider).Some? && !HasCte(config) && ("query" in config || "table" in config) {
      var req := RequiredFields(config);
      assert req[..1][..0] == [] && req[..2][..1] == req[..1] && req[..2] == req;
      assert MissingFields(req[..1], config) == [];
    }
  }

  /** The configuration is accepted exactly when every check passes. */
  lemma RegistryAccepts(provider: string, config: Config)
    ensures RegistryErrors(provider, config) == [] <==>
      SourceClass(provider).Some? && !HasCte(config)
      && ("query" in config || "table" in config) && "timestamp_field" in config
  {
    if SourceClass(provider).Some? && !HasCte(config) && ("query" in config || "table" in config) {
      var errors := RegistryErrors(provider, config);
      MissingFieldsMembers(RequiredFields(config), config, MissingField("timestamp_field"));
      if errors != [] {
        MissingFieldsMembers(RequiredFields(config), config, errors[0]);
      }
    }
  }

  /** The three early checks stop with exactly their own error. */
  lemma RegistryShortCircuits(provider: string, config: Config)
    ensures SourceClass(provider).None? ==> RegistryErrors(provider, config) == [UnsupportedProvider(provider)]
    ensures SourceClass(provider).Some? && HasCte(config) ==> RegistryErrors(provider, config) == [CteNotSupported]
    ensures SourceClass(provider).Some? && !HasCte(config) && "query" !in config && "table" !in config ==>
      RegistryErrors(provider, config) == [NoQueryOrTable]
  {
  }

  /** A known provider with a plain query and no timestamp field gets exactly the one missing-field error. */
  lemma RegistryMissingTimestamp(provider: string, config: Config)
    requires SourceClass(provider).Some? && "query" in config && !HasCte(config)
    requires "timestamp_field" !in config
    ensures RegistryErrors(provider, config) == [MissingField("timestamp_field")]
  {
    var req := RequiredFields(config);
    assert req[..1][..0] == [] && req[..2][..1] == req[..1] && req[..2] == req;
    assert MissingFields(req[..1], config) == [];
  }
}
