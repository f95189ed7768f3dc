/** The static side of `RsaCryptoUtil`: a fixed table from environment name to
    key pair, loaded once from the environment configuration, and the lookups
    `createForEnvironment`, `getAvailableEnvironments` and
    `isEnvironmentConfigured` over it. Resolution is all or nothing: an unknown
    name fails first, a missing key second, and only then is an instance built. */
module EnvironmentRegistry {
  import opened Base

  /** The value a name maps to in the configuration object. `Falsy` is a value
      JavaScript treats as false (undefined, null); a missing or empty key text
      is the empty string. */
  datatype ConfigValue = Falsy | KeyPair(privateKey: string, publicKey: string)

  /** The configuration object: its own property names in `Object.keys` order,
      and what each maps to. */
  datatype RawConfig = RawConfig(names: seq<string>, table: map<string, ConfigValue>)

  /** `Object.keys` lists each own property once, and only those. */
  predicate ConfigInvariant(c: RawConfig)
  {
    NoDuplicates(c.names) && c.table.Keys == set n | n in c.names
  }

  type Config = c: RawConfig | ConfigInvariant(c) witness RawConfig([], map[])

  /** An instance of the class: the two key texts and the environment name the
      constructor stores, never reassigned afterwards. */
  datatype RsaCryptoUtil = RsaCryptoUtil(privateKey: string, publicKey: string, environment: string)

  /** Both key texts are present: what every instance built by the factory has. */
  predicate HasKeys(u: RsaCryptoUtil)
  {
    u.privateKey != "" && u.publicKey != ""
  }

  datatype RegistryError =
    | UnknownEnvironment(environment: string, available: seq<string>)
    | KeysNotConfigured(environment: string)

  /** `parts.join(sep)`: the parts in order with `sep` between neighbours. */
  function Join(parts: seq<string>, sep: string): (r: string)
    ensures |parts| == 0 ==> r == ""
    ensures |parts| == 1 ==> r == parts[0]
    ensures |parts| > 1 ==> |r| >= |parts[0]| + |sep| && r[..|parts[0]| + |sep|] == parts[0] + sep
    ensures |parts| > 0 ==> |r| >= |parts[|parts| - 1]| && r[|r| - |parts[|parts| - 1]|..] == parts[|parts| - 1]
    decreases |parts|
  {
    if |parts| == 0 then ""
    else if |parts| == 1 then parts[0]
    else parts[0] + sep + Join(parts[1..], sep)
  }

  /** Where each piece of a four-piece concatenation sits. */
  lemma Pieces(a: string, b: string, c: string, d: string)
    ensures var s := a + b + c + d;
      && |s| == |a| + |b| + |c| + |d|
      && s[..|a|] == a && s[|a|..|a| + |b|] == b
      && s[|a| + |b|..|a| + |b| + |c|] == c && s[|a| + |b| + |c|..] == d
  {
  }

  /** The text of the error thrown: a fixed prefix, then the requested name; for
      an unknown name, followed by the list of names. */
  function Message(e: RegistryError): (s: string)
    ensures e.UnknownEnvironment? ==>
              var n := |e.environment|;
              && |s| == 34 + n + |Join(e.available, ", ")|
              && s[..21] == "Unknown environment: "
              && s[21..21 + n] == e.environment
              && s[21 + n..34 + n] == ". Available: "
              && s[34 + n..] == Join(e.available, ", ")
    ensures e.KeysNotConfigured? ==>
              && |s| == 37 + |e.environment|
              && s[..37] == "Keys not configured for environment: "
              && s[37..] == e.environment
  {
    match e
    case UnknownEnvironment(env, available) =>
      var list := Join(available, ", ");
      Pieces("Unknown environment: ", env, ". Available: ", list);
      "Unknown environment: " + env + ". Available: " + list
    case KeysNotConfigured(env) =>
      Pieces("Keys not configured for environment: ", env, "", "");
      "Keys not configured for environment: " + env
  }

  /** `RsaCryptoUtil.getAvailableEnvironments()`: every name of the table, whether
      or not its keys are configured, each once. */
  function GetAvailableEnvironments(config: Config): (r: seq<string>)
    ensures NoDuplicates(r)
    ensures forall e :: e in r <==> e in config.table
  {
    config.names
  }

  /** `RsaCryptoUtil.createForEnvironment(environment)`. */
  function CreateForEnvironment(config: Config, environment: string): (r: Result<RsaCryptoUtil, RegistryError>)
    // an unlisted name is reported as unknown, with the list of names attached
    ensures environment !in GetAvailableEnvironments(config) ==>
              r == Err(UnknownEnvironment(environment, GetAvailableEnvironments(config)))
    // a missing key is only reported for a listed name
    ensures r.Err? && r.error.KeysNotConfigured? ==> environment in GetAvailableEnvironments(config)
    // an instance holds exactly the entry's two keys, both present, and the name
    ensures r.Ok? ==> && HasKeys(r.value)
                      && r.value.environment == environment
                      && environment in config.table
                      && config.table[environment] == KeyPair(r.value.privateKey, r.value.publicKey)
    ensures r.Err? ==> r.error.environment == environment
    // a listed name whose value is falsy is also unknown
    ensures environment in config.table && config.table[environment].Falsy? ==>
              r == Err(UnknownEnvironment(environment, config.names))
    // a listed entry with both keys present always resolves
    ensures (&& environment in config.table && config.table[environment].KeyPair?
             && config.table[environment].privateKey != "" && config.table[environment].publicKey != "") ==> r.Ok?
  {
    if environment !in config.table || config.table[environment].Falsy? then
      Err(UnknownEnvironment(environment, config.names))
    else
      var entry := config.table[environment];
      if entry.privateKey == "" || entry.publicKey == "" then Err(KeysNotConfigured(environment))
      else Ok(RsaCryptoUtil(entry.privateKey, entry.publicKey, environment))
  }

  /** `RsaCryptoUtil.isEnvironmentConfigured(environment)`, which returns
      `config && config.privateKey && config.publicKey`: the public key text when
      that is truthy (Some), a falsy value otherwise (None). The lookup goes
      through the prototype chain like the factory's; no Object.prototype member
      has a `privateKey`, so an inherited name is not configured. */
  function IsEnvironmentConfigured(config: Config, environment: string): (r: Option<string>)
    ensures r.Some? ==> r.value != ""
  {
    match PropertyLookup(config, environment)
    case Undefined => None
    case Inherited => None
    case Own(Falsy) => None
    case Own(KeyPair(privateKey, publicKey)) =>
      if privateKey == "" || publicKey == "" then None else Some(publicKey)
  }

  /** The readiness query agrees with the factory in both directions, and an
      unknown name is simply not configured rather than an error. */
  lemma ConfiguredIffCreates(config: Config, environment: string)
    ensures IsEnvironmentConfigured(config, environment).Some? <==> CreateForEnvironment(config, environment).Ok?
    ensures IsEnvironmentConfigured(config, environment).Some? ==>
              IsEnvironmentConfigured(config, environment).value == CreateForEnvironment(config, environment).value.publicKey
    // the same holds for the factory as written
    ensures IsEnvironmentConfigured(config, environment).Some? <==> CreateForEnvironmentAsWritten(config, environment).Ok?
    ensures IsEnvironmentConfigured(config, environment).Some? ==>
              IsEnvironmentConfigured(config, environment).value == CreateForEnvironmentAsWritten(config, environment).value.publicKey
  {
    AsWrittenSucceedsAsCorrected(config, environment);
  }

  /** Every environment that can be resolved is listed. */
  lemma ConfiguredAreListed(config: Config, environment: string)
    requires IsEnvironmentConfigured(config, environment).Some?
    ensures environment in GetAvailableEnvironments(config)
  {
  }

  /** A listed name whose entry lacks a key fails with the key error, never the
      unknown-name error, and never yields an instance with a missing key. */
  lemma PartialKeyPairRejected(config: Config, environment: string, privateKey: string, publicKey: string)
    requires environment in config.table && config.table[environment] == KeyPair(privateKey, publicKey)
    requires privateKey == "" || publicKey == ""
    ensures CreateForEnvironment(config, environment) == Err(KeysNotConfigured(environment))
  {
  }

  // ---- As written: lookup through the prototype chain ----

  /** The members every plain JavaScript object inherits from Object.prototype;
      all of them are truthy. */
  const ObjectPrototypeMembers: set<string> := {
    "constructor", "hasOwnProperty", "isPrototypeOf", "propertyIsEnumerable",
    "toString", "toLocaleString", "valueOf", "__proto__",
    "__defineGetter__", "__defineSetter__", "__lookupGetter__", "__lookupSetter__"
  }

  /** What `environmentConfig[name]` evaluates to on a plain object. */
  datatype Property = Own(value: ConfigValue) | Inherited | Undefined

  function PropertyLookup(config: Config, name: string): (r: Property)
    ensures r.Inherited? <==> name !in config.table && name in ObjectPrototypeMembers
  {
    if name in config.table then Own(config.table[name])
    else if name in ObjectPrototypeMembers then Inherited
    else Undefined
  }

  /** createForEnvironment exactly as written: `!config` is false for an inherited
      member, whose `privateKey` is then undefined. */
  function CreateForEnvironmentAsWritten(config: Config, environment: string): (r: Result<RsaCryptoUtil, RegistryError>)
    ensures r.Ok? ==> HasKeys(r.value)
  {
    match PropertyLookup(config, environment)
    case Undefined => Err(UnknownEnvironment(environment, config.names))
    case Own(Falsy) => Err(UnknownEnvironment(environment, config.names))
    case Inherited => Err(KeysNotConfigured(environment))
    case Own(KeyPair(privateKey, publicKey)) =>
      if privateKey == "" || publicKey == "" then Err(KeysNotConfigured(environment))
      else Ok(RsaCryptoUtil(privateKey, publicKey, environment))
  }

  /** As written, a name such as "toString" that is not an environment is
      reported as an environment without keys instead of an unknown one. */
  lemma PrototypeNameMisreported(config: Config)
    requires "toString" !in config.table
    ensures CreateForEnvironmentAsWritten(config, "toString") == Err(KeysNotConfigured("toString"))
    ensures CreateForEnvironment(config, "toString") == Err(UnknownEnvironment("toString", GetAvailableEnvironments(config)))
  {
    assert "toString" in ObjectPrototypeMembers;
  }

  /** The code as written and the own-property lookup differ only on inherited
      member names that are not environments. */
  lemma AsWrittenAgreesOffPrototype(config: Config, environment: string)
    ensures CreateForEnvironmentAsWritten(config, environment) == CreateForEnvironment(config, environment)
        <==> !(environment !in config.table && environment in ObjectPrototypeMembers)
  {
  }

  /** The two factories build the same instances: they differ only in which
      error they report, so every fact about an instance from the corrected
      factory holds for one from the code as written. */
  lemma AsWrittenSucceedsAsCorrected(config: Config, environment: string)
    ensures CreateForEnvironmentAsWritten(config, environment).Ok? <==> CreateForEnvironment(config, environment).Ok?
    ensures CreateForEnvironmentAsWritten(config, environment).Ok? ==>
              CreateForEnvironmentAsWritten(config, environment) == CreateForEnvironment(config, environment)
  {
  }
}
