/**
 * `NewConfig` / `readConfig`: read the file, pick a deserializer by the
 * file's extension, and decode into a record that already holds the
 * defaults.
 */
module Loader {
  import opened Results
  import opened Config
  import FilePath

  /** The raw content of a file. */
  type Bytes = seq<bv8>

  /** The formats with a deserializer. */
  datatype Format = Json | Xml | Yaml | Toml | Hcl

  /** The exact extension that selects each format. */
  function Extension(f: Format): string {
    match f
    case Json => ".json"
    case Xml => ".xml"
    case Yaml => ".yml"
    case Toml => ".toml"
    case Hcl => ".hcl"
  }

  /** The format an extension selects; anything but an exact match selects none. */
  function FormatOf(ext: string): (r: Option<Format>)
    ensures r.Some? ==> Extension(r.value) == ext
    ensures r.None? ==> forall f :: Extension(f) != ext
  {
    if ext == ".json" then Some(Json)
    else if ext == ".xml" then Some(Xml)
    else if ext == ".yml" then Some(Yaml)
    else if ext == ".toml" then Some(Toml)
    else if ext == ".hcl" then Some(Hcl)
    else None
  }

  /** Each format's extension selects that format, and no other. */
  lemma FormatOfExtension(f: Format)
    ensures FormatOf(Extension(f)) == Some(f)
  {
  }

  /** `errCfgUnsupported`'s message. */
  const UnsupportedMessage: string :=
    "config file format not supported. Supported formats are json, xml, yaml, toml, hcl"

  /** Why loading failed. */
  datatype LoadError =
    | ReadError(path: string)    // the file could not be read
    | Unsupported                // `errCfgUnsupported`
    | ParseError(cause: string)  // the deserializer's own error, passed on as it is
  {
    /** The text of the error, as `err.Error()` gives it. */
    function Message(): (m: string)
      ensures ReadError? ==> 5 + |path| <= |m| && m[..5] == "open " && m[5..5 + |path|] == path
      ensures Unsupported? ==> m == UnsupportedMessage
      ensures ParseError? ==> m == cause
    {
      match this
      case ReadError(path) => "open " + path + ": no such file or directory"
      case Unsupported => UnsupportedMessage
      case ParseError(cause) => cause
    }
  }

  /**
   * The deserializers, which are libraries outside this model. Each one
   * either fails with a message or yields the fields that the file holds.
   * HCL works in two stages: parsing the text into a syntax tree of type
   * `H`, then decoding that tree into the record.
   */
  datatype Parsers<!H> = Parsers(
    json: Bytes -> Result<Partial, string>,
    xml: Bytes -> Result<Partial, string>,
    yaml: Bytes -> Result<Partial, string>,
    toml: Bytes -> Result<Partial, string>,
    hclParse: Bytes -> Result<H, string>,
    hclDecode: H -> Result<Partial, string>)

  /** The selected deserializer applied to the file's bytes. */
  function Decode<H>(p: Parsers<H>, f: Format, data: Bytes): (r: Result<Partial, string>)
    // HCL succeeds only when both stages succeed; a parse failure is returned as it is.
    ensures f == Hcl ==> (r.Success? <==> p.hclParse(data).Success? && p.hclDecode(p.hclParse(data).value).Success?)
    ensures f == Hcl && p.hclParse(data).Failure? ==> r == Failure(p.hclParse(data).error)
  {
    match f
    case Json => p.json(data)
    case Xml => p.xml(data)
    case Yaml => p.yaml(data)
    case Toml => p.toml(data)
    case Hcl =>
      match p.hclParse(data)
      case Failure(e) => Failure(e)
      case Success(tree) => p.hclDecode(tree)
  }

  /** The read, checked before anything else: a path absent from `fs` cannot be read. */
  function ReadFile(fs: map<string, Bytes>, path: string): (r: Result<Bytes, LoadError>)
    ensures r.Success? <==> path in fs
    ensures r.Success? ==> r.value == fs[path]
    ensures r.Failure? ==> r.error == ReadError(path)
  {
    if path in fs then Success(fs[path]) else Failure(ReadError(path))
  }

  /** What loading the file at `path` yields. */
  function Load<H>(path: string, fs: map<string, Bytes>, p: Parsers<H>): (r: Result<Settings, LoadError>)
    // A read failure comes first, whatever the extension.
    ensures path !in fs ==> r == Failure(ReadError(path))
    // A readable file with an unknown extension is refused with the fixed error.
    ensures path in fs && FormatOf(FilePath.Ext(path)).None? ==> r == Failure(Unsupported)
    // A deserializer failure is passed on, with no record.
    ensures path in fs && FormatOf(FilePath.Ext(path)).Some?
            && Decode(p, FormatOf(FilePath.Ext(path)).value, fs[path]).Failure?
            ==> r == Failure(ParseError(Decode(p, FormatOf(FilePath.Ext(path)).value, fs[path]).error))
    // On success, each field holds the file's value if it has one and its default otherwise.
    ensures r.Success? <==> path in fs && FormatOf(FilePath.Ext(path)).Some?
                            && Decode(p, FormatOf(FilePath.Ext(path)).value, fs[path]).Success?
    ensures r.Success? ==>
              var part := Decode(p, FormatOf(FilePath.Ext(path)).value, fs[path]).value;
              forall f :: r.value.Get(f) == if f in part then part[f] else Defaults().Get(f)
  {
    var cfg := Defaults();
    match ReadFile(fs, path)
    case Failure(e) => Failure(e)
    case Success(data) =>
      match FormatOf(FilePath.Ext(path))
      case None => Failure(Unsupported)
      case Some(f) =>
        match Decode(p, f, data)
        case Failure(e) => Failure(ParseError(e))
        case Success(part) => Success(Merge(cfg, part))
  }

  /** A file that holds all three keys yields exactly the file's values, no default left. */
  lemma LoadCompleteFile<H>(path: string, fs: map<string, Bytes>, p: Parsers<H>, f: Format, part: Partial)
    requires path in fs && FilePath.Ext(path) == Extension(f)
    requires Decode(p, f, fs[path]) == Success(part)
    requires Name in part && BaseURL in part && Driver in part
    ensures Load(path, fs, p) == Success(Settings(part[Name], part[BaseURL], part[Driver]))
  {
    FormatOfExtension(f);
    var s := Load(path, fs, p).value;
    SettingsEqual(s, Settings(part[Name], part[BaseURL], part[Driver]));
  }

  /** Either HCL stage failing fails the load with that stage's error. */
  lemma LoadHclStages<H>(path: string, fs: map<string, Bytes>, p: Parsers<H>)
    requires path in fs && FilePath.Ext(path) == ".hcl"
    ensures p.hclParse(fs[path]).Failure? ==>
              Load(path, fs, p) == Failure(ParseError(p.hclParse(fs[path]).error))
    ensures p.hclParse(fs[path]).Success? && p.hclDecode(p.hclParse(fs[path]).value).Failure? ==>
              Load(path, fs, p) == Failure(ParseError(p.hclDecode(p.hclParse(fs[path]).value).error))
  {
  }

  /** The near-miss extensions `.hc` and `.yaml` are refused with exactly `errCfgUnsupported`. */
  lemma NearMissesUnsupported<H>(fs: map<string, Bytes>, p: Parsers<H>)
    requires "../test-config/test-config.hc" in fs
    requires "config/config.yaml" in fs
    ensures Load("../test-config/test-config.hc", fs, p) == Failure(Unsupported)
    ensures Load("config/config.yaml", fs, p) == Failure(Unsupported)
    ensures Unsupported.Message() == UnsupportedMessage
  {
    FilePath.ExtExamples();
  }

  /** A missing file with the unknown extension `.hcl1` still fails on the read. */
  lemma MissingFileFailsOnRead<H>(fs: map<string, Bytes>, p: Parsers<H>)
    requires "../test-config/bad/test-config.hcl1" !in fs
    ensures Load("../test-config/bad/test-config.hcl1", fs, p).Failure?
    ensures Load("../test-config/bad/test-config.hcl1", fs, p).error.ReadError?
  {
  }

  /**
   * `readConfig`: allocate the defaulted record, read the file, and let
   * the deserializer the extension names fill the record in place. On
   * failure the record is dropped and nil returned with the error.
   */
  method ReadConfig<H>(path: string, fs: map<string, Bytes>, p: Parsers<H>)
    returns (cfg: Config?, err: Option<LoadError>)
    ensures Load(path, fs, p).Success? ==>
              err == None && cfg != null && fresh(cfg) && cfg.Value() == Load(path, fs, p).value
    ensures Load(path, fs, p).Failure? ==> cfg == null && err == Some(Load(path, fs, p).error)
  {
    var c := new Config.Default();
    if path !in fs {
      return null, Some(ReadError(path));
    }
    var data := fs[path];
    var ext := FilePath.Ext(path);
    if ext == ".json" {
      var r := p.json(data);
      if r.Failure? {
        return null, Some(ParseError(r.error));
      }
      c.Absorb(r.value);
    } else if ext == ".xml" {
      var r := p.xml(data);
      if r.Failure? {
        return null, Some(ParseError(r.error));
      }
      c.Absorb(r.value);
    } else if ext == ".yml" {
      var r := p.yaml(data);
      if r.Failure? {
        return null, Some(ParseError(r.error));
      }
      c.Absorb(r.value);
    } else if ext == ".toml" {
      var r := p.toml(data);
      if r.Failure? {
        return null, Some(ParseError(r.error));
      }
      c.Absorb(r.value);
    } else if ext == ".hcl" {
      var tree := p.hclParse(data);
      if tree.Failure? {
        return null, Some(ParseError(tree.error));
      }
      var r := p.hclDecode(tree.value);
      if r.Failure? {
        return null, Some(ParseError(r.error));
      }
      c.Absorb(r.value);
    } else {
      return null, Some(Unsupported);
    }
    return c, None;
  }

  /** `NewConfig`: the same as `readConfig`. */
  method NewConfig<H>(path: string, fs: map<string, Bytes>, p: Parsers<H>)
    returns (cfg: Config?, err: Option<LoadError>)
    ensures Load(path, fs, p).Success? ==>
              err == None && cfg != null && fresh(cfg) && cfg.Value() == Load(path, fs, p).value
    ensures Load(path, fs, p).Failure? ==> cfg == null && err == Some(Load(path, fs, p).error)
  {
    cfg, err := ReadConfig(path, fs, p);
  }
}
