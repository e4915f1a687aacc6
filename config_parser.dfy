/** The configuration validator: the six required parameters must all be
    present, then each is checked in a fixed order (three non-empty
    strings, two booleans, one string, and the test repository path when
    test mode is on), and on success the string parameters are stored
    stripped. The first failing check decides the error; nothing is
    changed when a check fails. */
module ConfigParsing {
  import opened Wrappers
  import opened Text

  /** A value of the configuration file as the validator sees it. */
  datatype Value =
    | Str(s: string)
    | Bool(b: bool)
    | Other          // a number, a list, a mapping or null

  type Config = map<string, Value>

  datatype ConfigError =
    | MissingParams(params: seq<string>)
    | NotNonEmptyString(param: string)
    | NotBoolean(param: string)
    | NotString(param: string)
    | RepositoryNotFound(path: string)

  datatype Validation = Valid(config: Config) | Invalid(error: ConfigError)

  const PackageName: string := "package_name"
  const RepositoryUrl: string := "repository_url"
  const TestMode: string := "test_mode"
  const PackageVersion: string := "package_version"
  const AsciiTreeMode: string := "ascii_tree_mode"
  const FilterSubstring: string := "filter_substring"
  const TestRepositoryPath: string := "test_repository_path"

  /** `REQUIRED_PARAMS`, in the order the validator reports them. */
  const RequiredParams: seq<string> :=
    [PackageName, RepositoryUrl, TestMode, PackageVersion, AsciiTreeMode, FilterSubstring]

  // ---------------------------------------------------------------------
  // The validator as a function of the configuration

  /** The parameters of `params` that `config` lacks, in the order of
      `params`. */
  function Missing(config: Config, params: seq<string>): seq<string>
    decreases |params|
  {
    if params == [] then []
    else
      var last := params[|params| - 1];
      Missing(config, params[..|params| - 1]) + (if last !in config then [last] else [])
  }

  /** A string that is not empty once stripped. */
  predicate NonEmptyString(v: Value) {
    v.Str? && Strip(v.s) != []
  }

  /** The test repository check: the path defaults to the empty string,
      must be a string, and a non-empty path must be one that exists. */
  function PathCheck(config: Config, existing: set<string>): Option<ConfigError> {
    var path := if TestRepositoryPath in config then config[TestRepositoryPath] else Str("");
    if !path.Str? then Some(NotString(TestRepositoryPath))
    else if path.s != [] && path.s !in existing then Some(RepositoryNotFound(path.s))
    else None
  }

  /** The stored configuration after a successful check: the three
      required strings stripped, the filter stripped when it is not empty
      and the empty string otherwise. */
  function Normalised(config: Config): Config
    requires forall p :: p in RequiredParams ==> p in config
    requires config[PackageName].Str? && config[RepositoryUrl].Str?
    requires config[PackageVersion].Str? && config[FilterSubstring].Str?
  {
    var filter := config[FilterSubstring].s;
    config[PackageName := Str(Strip(config[PackageName].s))]
          [RepositoryUrl := Str(Strip(config[RepositoryUrl].s))]
          [PackageVersion := Str(Strip(config[PackageVersion].s))]
          [FilterSubstring := Str(if filter != [] then Strip(filter) else "")]
  }

  /** `_validate_config` on `config`, with `existing` the paths that exist. */
  function Validate(config: Config, existing: set<string>): Validation {
    var missing := Missing(config, RequiredParams);
    if missing != [] then Invalid(MissingParams(missing))
    else
      assert forall p :: p in RequiredParams ==> p in config by { MissingEmpty(config, RequiredParams); }
      if !NonEmptyString(config[PackageName]) then Invalid(NotNonEmptyString(PackageName))
      else if !NonEmptyString(config[RepositoryUrl]) then Invalid(NotNonEmptyString(RepositoryUrl))
      else if !config[TestMode].Bool? then Invalid(NotBoolean(TestMode))
      else if config[TestMode].b && PathCheck(config, existing).Some? then Invalid(PathCheck(config, existing).value)
      else if !NonEmptyString(config[PackageVersion]) then Invalid(NotNonEmptyString(PackageVersion))
      else if !config[AsciiTreeMode].Bool? then Invalid(NotBoolean(AsciiTreeMode))
      else if !config[FilterSubstring].Str? then Invalid(NotString(FilterSubstring))
      else Valid(Normalised(config))
  }

  // ---------------------------------------------------------------------
  // What the validator promises

  /** Nothing is missing exactly when every parameter is present. */
  lemma {:induction false} MissingEmpty(config: Config, params: seq<string>)
    ensures Missing(config, params) == [] <==> forall p :: p in params ==> p in config
    decreases |params|
  {
    if params != [] {
      var init := params[..|params| - 1];
      MissingEmpty(config, init);
      assert params == init + [params[|params| - 1]];
    }
  }

  /** The positions in `params` of the missing parameters. */
  ghost function MissingPositions(config: Config, params: seq<string>): seq<nat>
    decreases |params|
  {
    if params == [] then []
    else
      var n := |params| - 1;
      MissingPositions(config, params[..n]) + (if params[n] !in config then [n] else [])
  }

  /** The missing parameters are listed in the order of `params`, each
      one that is absent and nothing else: they are `params` at strictly
      increasing positions, and every absent position is among them. */
  lemma {:induction false} MissingInOrder(config: Config, params: seq<string>)
    ensures var r, pos := Missing(config, params), MissingPositions(config, params);
      && |pos| == |r|
      && (forall k :: 0 <= k < |r| ==> pos[k] < |params| && params[pos[k]] == r[k] && params[pos[k]] !in config)
      && (forall a, b :: 0 <= a < b < |pos| ==> pos[a] < pos[b])
      && (forall i :: 0 <= i < |params| && params[i] !in config ==> i in pos)
    decreases |params|
  {
    if params != [] {
      var n := |params| - 1;
      var init := params[..n];
      MissingInOrder(config, init);
      var r0, pos0 := Missing(config, init), MissingPositions(config, init);
      var r, pos := Missing(config, params), MissingPositions(config, params);
      forall k | 0 <= k < |r|
        ensures pos[k] < |params| && params[pos[k]] == r[k] && params[pos[k]] !in config
      {
        if k < |r0| {
          assert pos[k] == pos0[k] && r[k] == r0[k] && params[pos0[k]] == init[pos0[k]];
        }
      }
      forall a, b | 0 <= a < b < |pos| ensures pos[a] < pos[b] {
        if b < |pos0| {
          assert pos[a] == pos0[a] && pos[b] == pos0[b];
        } else {
          assert pos[a] == pos0[a];
        }
      }
      forall i | 0 <= i < |params| && params[i] !in config ensures i in pos {
        if i < n {
          assert init[i] == params[i];
          assert i in pos0;
        }
      }
    }
  }

  /** For parameters without repeats, the missing ones are the absent
      ones, each once, and none when all are present. */
  lemma MissingExactly(config: Config, params: seq<string>)
    requires forall a, b :: 0 <= a < b < |params| ==> params[a] != params[b]
    ensures var r := Missing(config, params);
      && (r == [] <==> forall p :: p in params ==> p in config)
      && (forall p :: p in r <==> p in params && p !in config)
      && (forall a, b :: 0 <= a < b < |r| ==> r[a] != r[b])
  {
    MissingEmpty(config, params);
    MissingInOrder(config, params);
    var r, pos := Missing(config, params), MissingPositions(config, params);
    forall p | p in params && p !in config ensures p in r {
      var i :| 0 <= i < |params| && params[i] == p;
      assert i in pos;
      var k :| 0 <= k < |pos| && pos[k] == i;
    }
    forall a, b | 0 <= a < b < |r| ensures r[a] != r[b] {
      assert pos[a] < pos[b];
    }
  }

  /** The missing parameters `_validate_config` reports before any other
      check: the absent required parameters, each once. */
  lemma MissingRequired(config: Config, existing: set<string>)
    ensures var r := Missing(config, RequiredParams);
      && (forall p :: p in r <==> p in RequiredParams && p !in config)
      && (forall a, b :: 0 <= a < b < |r| ==> r[a] != r[b])
      && (r != [] <==> Validate(config, existing).Invalid? && Validate(config, existing).error == MissingParams(r))
  {
    MissingExactly(config, RequiredParams);
  }

  /** What normalising changes: the four string parameters, and nothing
      else. */
  lemma NormalisedShape(config: Config)
    requires forall p :: p in RequiredParams ==> p in config
    requires config[PackageName].Str? && config[RepositoryUrl].Str?
    requires config[PackageVersion].Str? && config[FilterSubstring].Str?
    ensures var c := Normalised(config);
      && c.Keys == config.Keys
      && c[PackageName] == Str(Strip(config[PackageName].s))
      && c[RepositoryUrl] == Str(Strip(config[RepositoryUrl].s))
      && c[PackageVersion] == Str(Strip(config[PackageVersion].s))
      && c[FilterSubstring] == Str(Strip(config[FilterSubstring].s))
      && (forall k :: k in config && k !in {PackageName, RepositoryUrl, PackageVersion, FilterSubstring} ==> c[k] == config[k])
  {
    assert Strip("") == "";
  }

  /** On success every required parameter is present with the type its
      check demands, the strings are stored stripped, and every other
      entry, the test repository path included, is left as it was. */
  lemma ValidShape(config: Config, existing: set<string>)
    requires Validate(config, existing).Valid?
    ensures forall p :: p in RequiredParams ==> p in config
    ensures NonEmptyString(config[PackageName]) && NonEmptyString(config[RepositoryUrl])
    ensures NonEmptyString(config[PackageVersion]) && config[FilterSubstring].Str?
    ensures config[TestMode].Bool? && config[AsciiTreeMode].Bool?
    ensures config[TestMode].b ==> PathCheck(config, existing).None?
    ensures var c := Validate(config, existing).config;
      && c.Keys == config.Keys
      && c[PackageName] == Str(Strip(config[PackageName].s))
      && c[RepositoryUrl] == Str(Strip(config[RepositoryUrl].s))
      && c[PackageVersion] == Str(Strip(config[PackageVersion].s))
      && c[FilterSubstring] == Str(Strip(config[FilterSubstring].s))
      && (forall k :: k in config && k !in {PackageName, RepositoryUrl, PackageVersion, FilterSubstring} ==> c[k] == config[k])
  {
    MissingEmpty(config, RequiredParams);
    assert Validate(config, existing) == Valid(Normalised(config));
    NormalisedShape(config);
  }

  /** Both succeed, or both fail with the same error. */
  predicate SameOutcome(x: Validation, y: Validation) {
    x.Valid? == y.Valid? && (x.Invalid? ==> x == y)
  }

  /** The test repository path is looked at only in test mode: otherwise
      neither its value nor which paths exist changes the outcome. */
  lemma PathOnlyInTestMode(config: Config, existing: set<string>, existing': set<string>, v: Value)
    requires TestMode in config && config[TestMode] == Bool(false)
    ensures Validate(config, existing) == Validate(config, existing')
    ensures SameOutcome(Validate(config[TestRepositoryPath := v], existing), Validate(config, existing'))
  {
    var c' := config[TestRepositoryPath := v];
    assert Missing(c', RequiredParams) == Missing(config, RequiredParams) by {
      MissingSameKeys(config, c', RequiredParams);
    }
    MissingEmpty(config, RequiredParams);
  }

  /** Two configurations with the same required keys miss the same ones. */
  lemma {:induction false} MissingSameKeys(c: Config, c': Config, params: seq<string>)
    requires forall p :: p in params ==> (p in c <==> p in c')
    ensures Missing(c, params) == Missing(c', params)
    decreases |params|
  {
    if params != [] {
      MissingSameKeys(c, c', params[..|params| - 1]);
    }
  }

  /** In test mode, once the earlier checks pass, the path decides: a
      missing path passes, a value that is not a string fails, and a
      non-empty path that does not exist fails with that path. */
  lemma PathInTestMode(config: Config, existing: set<string>)
    requires forall p :: p in RequiredParams ==> p in config
    requires NonEmptyString(config[PackageName]) && NonEmptyString(config[RepositoryUrl])
    requires config[TestMode] == Bool(true)
    ensures TestRepositoryPath in config && !config[TestRepositoryPath].Str? ==>
      Validate(config, existing) == Invalid(NotString(TestRepositoryPath))
    ensures (TestRepositoryPath in config && config[TestRepositoryPath].Str? &&
             config[TestRepositoryPath].s != [] && config[TestRepositoryPath].s !in existing) ==>
      Validate(config, existing) == Invalid(RepositoryNotFound(config[TestRepositoryPath].s))
    ensures (TestRepositoryPath !in config || config[TestRepositoryPath] == Str("") ||
             (config[TestRepositoryPath].Str? && config[TestRepositoryPath].s in existing)) ==>
      SameOutcome(Validate(config, existing), Validate(config[TestMode := Bool(false)], existing))
  {
    MissingEmpty(config, RequiredParams);
    var c' := config[TestMode := Bool(false)];
    MissingSameKeys(config, c', RequiredParams);
  }

  /** Normalising twice is normalising once. */
  lemma NormalisedIdempotent(config: Config)
    requires forall p :: p in RequiredParams ==> p in config
    requires config[PackageName].Str? && config[RepositoryUrl].Str?
    requires config[PackageVersion].Str? && config[FilterSubstring].Str?
    ensures Normalised(Normalised(config)) == Normalised(config)
  {
    var c := Normalised(config);
    NormalisedShape(config);
    StripIdempotent(config[PackageName].s);
    StripIdempotent(config[RepositoryUrl].s);
    StripIdempotent(config[PackageVersion].s);
    StripIdempotent(config[FilterSubstring].s);
    NormalisedShape(c);
    assert Normalised(c).Keys == c.Keys;
  }

  /** Validation is idempotent: a validated configuration validates again,
      to itself, for the same existing paths. */
  lemma ValidateIdempotent(config: Config, existing: set<string>)
    requires Validate(config, existing).Valid?
    ensures Validate(Validate(config, existing).config, existing) == Validate(config, existing)
  {
    var c := Validate(config, existing).config;
    ValidShape(config, existing);
    assert Missing(c, RequiredParams) == [] by {
      MissingEmpty(c, RequiredParams);
    }
    StripIdempotent(config[PackageName].s);
    StripIdempotent(config[RepositoryUrl].s);
    StripIdempotent(config[PackageVersion].s);
    assert c[TestMode] == config[TestMode] && c[AsciiTreeMode] == config[AsciiTreeMode];
    assert PathCheck(c, existing) == PathCheck(config, existing);
    assert c == Normalised(config);
    NormalisedIdempotent(config);
  }

  // ---------------------------------------------------------------------
  // The parser object

  class ConfigParser {
    var configPath: string
    var config: Config

    /** A parser for `configPath` (by default `config.yaml`), with an
        empty configuration. */
    constructor(configPath: string)
      ensures this.configPath == configPath && config == map[]
    {
      this.configPath := configPath;
      config := map[];
    }

    /** `_validate_config()`: the missing parameters collected in order,
        then the checks one by one, the first failure returned and the
        configuration left as it was; on success the string parameters
        are overwritten by their stripped values. */
    method ValidateConfig(existing: set<string>) returns (err: Option<ConfigError>)
      modifies this
      ensures configPath == old(configPath)
      ensures Validate(old(config), existing) ==
        (if err.None? then Valid(config) else Invalid(err.value))
      ensures err.Some? ==> config == old(config)
    {
      var missing: seq<string> := [];
      for idx := 0 to |RequiredParams|
        invariant missing == Missing(config, RequiredParams[..idx])
      {
        var param := RequiredParams[idx];
        assert RequiredParams[..idx + 1][..idx] == RequiredParams[..idx];
        if param !in config {
          missing := missing + [param];
        }
      }
      assert RequiredParams[..|RequiredParams|] == RequiredParams;
      if missing != [] {
        return Some(MissingParams(missing));
      }
      MissingEmpty(config, RequiredParams);

      var packageName := config[PackageName];
      if !packageName.Str? || Strip(packageName.s) == [] {
        return Some(NotNonEmptyString(PackageName));
      }
      var repositoryUrl := config[RepositoryUrl];
      if !repositoryUrl.Str? || Strip(repositoryUrl.s) == [] {
        return Some(NotNonEmptyString(RepositoryUrl));
      }
      var testMode := config[TestMode];
      if !testMode.Bool? {
        return Some(NotBoolean(TestMode));
      }
      if testMode.b {
        var path := if TestRepositoryPath in config then config[TestRepositoryPath] else Str("");
        if !path.Str? {
          return Some(NotString(TestRepositoryPath));
        }
        if path.s != [] && path.s !in existing {
          return Some(RepositoryNotFound(path.s));
        }
      }
      var packageVersion := config[PackageVersion];
      if !packageVersion.Str? || Strip(packageVersion.s) == [] {
        return Some(NotNonEmptyString(PackageVersion));
      }
      var asciiTreeMode := config[AsciiTreeMode];
      if !asciiTreeMode.Bool? {
        return Some(NotBoolean(AsciiTreeMode));
      }
      var filterSubstring := config[FilterSubstring];
      if !filterSubstring.Str? {
        return Some(NotString(FilterSubstring));
      }

      config := config[PackageName := Str(Strip(packageName.s))];
      config := config[RepositoryUrl := Str(Strip(repositoryUrl.s))];
      config := config[PackageVersion := Str(Strip(packageVersion.s))];
      config := config[FilterSubstring := Str(if filterSubstring.s != [] then Strip(filterSubstring.s) else "")];
      return None;
    }

    /** `get_config()`: a copy of the stored configuration, equal to it
        and separate from it (a map is a value). */
    method GetConfig() returns (r: Config)
      ensures r == config
    {
      r := config;
    }
  }
}
