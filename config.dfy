/**
 * The configuration record of package `config`: its three string fields,
 * their default values, the environment-variable name derived from each
 * field's identifier, and the environment overlay that rewrites the fields
 * in place.
 */
module Config {
  import opened Results
  import opened GoStrings
  import CamelCase

  /** The fields of the record, each of Go kind string. */
  datatype Field = Name | BaseURL | Driver

  /** The fields in declaration order, the order in which reflection visits them. */
  const Fields: seq<Field> := [Name, BaseURL, Driver]

  /** The Go identifier of each field. */
  function Identifier(f: Field): string {
    match f
    case Name => "Name"
    case BaseURL => "BaseURL"
    case Driver => "Driver"
  }

  /** The value held by a configuration record. */
  datatype Settings = Settings(name: string, baseURL: string, driver: string) {

    function Get(f: Field): string {
      match f
      case Name => name
      case BaseURL => baseURL
      case Driver => driver
    }

    /** The record with field `f` set to `v`, every other field as it was. */
    function Set(f: Field, v: string): (t: Settings)
      ensures t.Get(f) == v
      ensures forall g :: g != f ==> t.Get(g) == Get(g)
    {
      match f
      case Name => this.(name := v)
      case BaseURL => this.(baseURL := v)
      case Driver => this.(driver := v)
    }
  }

  /** Two records that agree on every field are the same record. */
  lemma SettingsEqual(a: Settings, b: Settings)
    requires forall f :: a.Get(f) == b.Get(f)
    ensures a == b
  {
    assert a.Get(Name) == b.Get(Name);
    assert a.Get(BaseURL) == b.Get(BaseURL);
    assert a.Get(Driver) == b.Get(Driver);
  }

  /** The record `defaultConfig` builds: every field holds a non-empty placeholder. */
  function Defaults(): (s: Settings)
    ensures forall f :: s.Get(f) != ""
  {
    Settings("No name", "No base url", "No Driver")
  }

  /**
   * What a deserializer finds in a file: a value for each field whose key
   * the file holds (`name`, `base_url`, `driver` in every format).
   */
  type Partial = map<Field, string>

  /** Decoding into an existing record: the fields the file holds overwrite, the others stay. */
  function Merge(s: Settings, part: Partial): (t: Settings)
    ensures forall f :: t.Get(f) == if f in part then part[f] else s.Get(f)
  {
    Settings(
      if Name in part then part[Name] else s.name,
      if BaseURL in part then part[BaseURL] else s.baseURL,
      if Driver in part then part[Driver] else s.driver)
  }

  /**
   * `getEnvName`: the identifier's camel-case words joined by '_' and
   * upper-cased.
   */
  function GetEnvName(field: string): (key: string)
    ensures forall i :: 0 <= i < |key| ==> !IsLowerAscii(key[i])
  {
    ToUpper(Join(CamelCase.Split(field), "_"))
  }

  /**
   * Taking the underscores back out of the derived name leaves the
   * identifier, upper-cased: the name only inserts separators.
   */
  lemma EnvNameSpellsIdentifier(field: string)
    requires '_' !in field
    ensures Remove(GetEnvName(field), '_') == ToUpper(field)
  {
    var words := CamelCase.Split(field);
    forall i | 0 <= i < |words|
      ensures '_' !in words[i]
    {
      if '_' in words[i] {
        CamelCase.SplitWordsFromInput(field, i, '_');
      }
    }
    RemoveJoin(words, '_');
    CamelCase.SplitCovers(field);
    ToUpperRemove(Join(words, "_"), '_');
  }

  /** Re-applying `ToUpper` to the derived name, as the overlay does, changes nothing. */
  lemma EnvNameIsUpper(field: string)
    ensures ToUpper(GetEnvName(field)) == GetEnvName(field)
  {
    ToUpperIdempotent(Join(CamelCase.Split(field), "_"));
  }

  /**
   * The derived name is `Join` of the upper-cased words of the split: each
   * word of the identifier becomes one upper-case word of the name.
   */
  lemma EnvNameWords(field: string)
    ensures GetEnvName(field) == Join(UpperWords(CamelCase.Split(field)), "_")
  {
    assert ToUpper("_") == "_";
    ToUpperJoin(CamelCase.Split(field), "_");
  }

  /** The key the overlay looks up for a field: the derived name, whose second upper-casing is a no-op. */
  function EnvKey(f: Field): (key: string)
    ensures key == GetEnvName(Identifier(f))
  {
    EnvNameIsUpper(Identifier(f));
    ToUpper(GetEnvName(Identifier(f)))
  }

  /** The three keys: `NAME`, `BASE_URL` and `DRIVER`. */
  lemma EnvKeys()
    ensures EnvKey(Name) == "NAME"
    ensures EnvKey(BaseURL) == "BASE_URL"
    ensures EnvKey(Driver) == "DRIVER"
  {
    EnvKeyName();
    EnvKeyBaseURL();
    EnvKeyDriver();
  }

  lemma EnvKeyName()
    ensures EnvKey(Name) == "NAME"
  {
    calc {
      GetEnvName("Name");
      { CamelCase.SplitName(); }
      ToUpper(Join(["Name"], "_"));
      ToUpper("Name");
      { UpperCased("Name", "NAME"); }
      "NAME";
    }
  }

  lemma EnvKeyBaseURL()
    ensures EnvKey(BaseURL) == "BASE_URL"
  {
    EnvNameBaseURL();
  }

  lemma EnvNameBaseURL()
    ensures GetEnvName("BaseURL") == "BASE_URL"
  {
    calc {
      GetEnvName("BaseURL");
      { CamelCase.SplitBaseURL(); }
      ToUpper(Join(["Base", "URL"], "_"));
      { JoinPair("Base", "URL", "_");
        assert "Base" + "_" + "URL" == "Base_URL"; }
      ToUpper("Base_URL");
      { UpperCased("Base_URL", "BASE_URL"); }
      "BASE_URL";
    }
  }

  lemma EnvKeyDriver()
    ensures EnvKey(Driver) == "DRIVER"
  {
    calc {
      GetEnvName("Driver");
      { CamelCase.SplitDriver(); }
      ToUpper(Join(["Driver"], "_"));
      ToUpper("Driver");
      { UpperCased("Driver", "DRIVER"); }
      "DRIVER";
    }
  }

  /** `ToUpper(s) == u`, checked character by character. */
  lemma UpperCased(s: string, u: string)
    requires |s| == |u| && forall i :: 0 <= i < |s| ==> UpperChar(s[i]) == u[i]
    ensures ToUpper(s) == u
  {
  }

  /** Distinct fields read distinct variables. */
  lemma EnvKeyInjective(f: Field, g: Field)
    requires f != g
    ensures EnvKey(f) != EnvKey(g)
  {
    EnvKeys();
  }

  /** `os.Getenv`: the variable's value, or "" when it is unset. */
  function Getenv(env: map<string, string>, key: string): (v: string)
    ensures key in env ==> v == env[key]
    ensures key !in env ==> v == ""
  {
    if key in env then env[key] else ""
  }

  /** The value of the variable that belongs to field `f`. */
  function EnvValue(env: map<string, string>, f: Field): string {
    Getenv(env, EnvKey(f))
  }

  /** One turn of the overlay loop: an empty value is skipped, a non-empty one is stored. */
  function OverlayStep(s: Settings, f: Field, env: map<string, string>): (t: Settings)
    ensures forall g :: t.Get(g) == if g == f && EnvValue(env, f) != "" then EnvValue(env, f) else s.Get(g)
  {
    var v := Getenv(env, ToUpper(GetEnvName(Identifier(f))));
    if v == "" then s else s.Set(f, v)
  }

  /**
   * The overlay loop run over the fields `fs`, in order. A field in `fs`
   * whose variable is non-empty ends with that value; every other field
   * holds what it held before.
   */
  function OverlayFields(s: Settings, fs: seq<Field>, env: map<string, string>): (t: Settings)
    ensures forall f :: t.Get(f) == if f in fs && EnvValue(env, f) != "" then EnvValue(env, f) else s.Get(f)
    decreases |fs|
  {
    if fs == [] then s
    else
      assert fs == fs[..|fs| - 1] + [fs[|fs| - 1]];
      OverlayStep(OverlayFields(s, fs[..|fs| - 1], env), fs[|fs| - 1], env)
  }

  /** The loop over one more field is one more step. */
  lemma OverlayFieldsNext(s: Settings, fs: seq<Field>, i: nat, env: map<string, string>)
    requires i < |fs|
    ensures OverlayFields(s, fs[..i + 1], env) == OverlayStep(OverlayFields(s, fs[..i], env), fs[i], env)
  {
    assert fs[..i + 1][..i] == fs[..i];
  }

  /** The field table lists every field of the record. */
  lemma FieldsComplete()
    ensures forall f :: f in Fields
  {
    forall f ensures f in Fields {
      match f
      case Name => assert Fields[0] == f;
      case BaseURL => assert Fields[1] == f;
      case Driver => assert Fields[2] == f;
    }
  }

  /** The whole overlay: each field ends as its variable's non-empty value or, failing that, as it was. */
  function Overlay(s: Settings, env: map<string, string>): (t: Settings)
    ensures forall f :: t.Get(f) == if EnvValue(env, f) != "" then EnvValue(env, f) else s.Get(f)
  {
    FieldsComplete();
    OverlayFields(s, Fields, env)
  }

  /** Applying the overlay twice with the same environment gives what applying it once gives. */
  lemma OverlayIdempotent(s: Settings, env: map<string, string>)
    ensures Overlay(Overlay(s, env), env) == Overlay(s, env)
  {
    SettingsEqual(Overlay(Overlay(s, env), env), Overlay(s, env));
  }

  /**
   * The situation of the overlay test: `NAME` and `BASE_URL` are set and
   * non-empty, `DRIVER` is empty or unset. The first two fields take the
   * variables' values, the driver keeps what it held.
   */
  lemma OverlaySkipsEmptyDriver(s: Settings, env: map<string, string>)
    requires "NAME" in env && env["NAME"] != ""
    requires "BASE_URL" in env && env["BASE_URL"] != ""
    requires "DRIVER" !in env || env["DRIVER"] == ""
    ensures Overlay(s, env) == Settings(env["NAME"], env["BASE_URL"], s.driver)
  {
    EnvKeys();
    var t := Overlay(s, env);
    assert t.Get(Name) == env["NAME"];
    assert t.Get(BaseURL) == env["BASE_URL"];
    assert t.Get(Driver) == s.driver;
    SettingsEqual(t, Settings(env["NAME"], env["BASE_URL"], s.driver));
  }

  /** A configuration record that its methods update in place. */
  class Config {
    var name: string
    var baseURL: string
    var driver: string

    function Value(): Settings
      reads this
    {
      Settings(name, baseURL, driver)
    }

    /** `&Config{}`: every field the empty string. */
    constructor Zero()
      ensures Value() == Settings("", "", "")
    {
      name, baseURL, driver := "", "", "";
    }

    /** `defaultConfig()`. */
    constructor Default()
      ensures Value() == Defaults()
    {
      name, baseURL, driver := "No name", "No base url", "No Driver";
    }

    /** `SetString` on the named field. */
    method SetString(f: Field, v: string)
      modifies this
      ensures Value() == old(Value()).Set(f, v)
    {
      match f
      case Name => name := v;
      case BaseURL => baseURL := v;
      case Driver => driver := v;
    }

    /** A deserializer writing the fields the file holds into this record. */
    method Absorb(part: Partial)
      modifies this
      ensures Value() == Merge(old(Value()), part)
    {
      if Name in part { name := part[Name]; }
      if BaseURL in part { baseURL := part[BaseURL]; }
      if Driver in part { driver := part[Driver]; }
    }

    /**
     * `UseCustomEnvConfig`: for each field, read the variable named after
     * it and, when it is non-empty, store it in the field. The error result
     * is always nil.
     */
    method UseCustomEnvConfig(env: map<string, string>) returns (err: Option<string>)
      modifies this
      ensures err == None
      ensures Value() == Overlay(old(Value()), env)
      ensures forall f :: Value().Get(f) ==
                            if EnvValue(env, f) != "" then EnvValue(env, f) else old(Value()).Get(f)
    {
      var i := 0;
      while i < |Fields|
        invariant 0 <= i <= |Fields|
        invariant Value() == OverlayFields(old(Value()), Fields[..i], env)
      {
        var field := Fields[i];
        var cm := GetEnvName(Identifier(field));
        var value := Getenv(env, ToUpper(cm));
        OverlayFieldsNext(old(Value()), Fields, i, env);
        if value == "" {
          i := i + 1;
          continue;
        }
        // Every field of the record has kind string.
        SetString(field, value);
        i := i + 1;
      }
      assert Fields[..i] == Fields;
      err := None;
    }
  }
}
