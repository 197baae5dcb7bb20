# Configuration loader and environment overlay

A Dafny model of package `config` of a small Go service. The package does two things.

- **Loading.** `NewConfig` and `readConfig` start from a record that holds placeholder defaults. They read the configuration file and pick a deserializer by the exact file extension: `.json`, `.xml`, `.yml`, `.toml` or `.hcl`. The deserializer decodes the file into the defaulted record. Any other extension fails with the fixed error `errCfgUnsupported`.
- **Environment overlay.** `UseCustomEnvConfig` visits each field of the record. It derives an environment-variable name from the field's Go identifier: the identifier is split into camel-case words, the words are joined with `_`, and the result is upper-cased (`BaseURL` becomes `BASE_URL`). When that variable is non-empty, its value replaces the field.

Files:

- `results.dfy`: `Option` and `Result`, for Go's nil error and its `(value, error)` pairs.
- `gostrings.dfy`: `strings.ToUpper` and `strings.Join` from Go's standard library, plus `Concat` and `Remove`, which the lemmas use.
- `camelcase.dfy`: the camel-case split that `getEnvName` calls. It cuts the text into runs of one character class. Where a capital run meets a lower-case run, it moves the last capital over to the lower-case run. Then it drops the runs left empty. `SplitCuts` states, position by position, where the words of the split begin.
- `filepath.dfy`: `filepath.Ext`. The `IsExtension` predicate describes the result independently of the code, and `ExtensionUnique` shows that only one string fits that description.
- `config.dfy`: the record as a value (`Settings`) and as a mutable object (class `Config`), the defaults, and the merge a deserializer performs. It also holds `getEnvName` and the overlay. `Overlay` specifies the overlay as a function, and the method `Config.UseCustomEnvConfig` runs the loop and is proved against it.
- `loader.dfy`: the extension dispatch. `Load` specifies it as a function, and the imperative `ReadConfig` / `NewConfig` are proved against it.

The deserializers are foreign libraries, so they are a parameter `Parsers<H>`. Each one maps the file's bytes either to an error message or to the fields the file holds (`Partial`). HCL takes two stages: `hclParse` turns the bytes into a tree of type `H`, and `hclDecode` turns that tree into the fields. The file system is a parameter `fs: map<string, Bytes>`, and a path missing from it is a read failure. The process environment is a parameter `env: map<string, string>`, and an unset key reads as `""`, as `os.Getenv` does.

Two details of the loader, as the code has them:

- The `errCfgUnsupported` message names yaml, but only the extension `.yml` selects the YAML deserializer. `.yaml` is refused (`Loader.NearMissesUnsupported`).
- A deserializer's error is returned unchanged, not wrapped. `LoadError.ParseError(cause)` carries it, and `Message()` gives back exactly `cause`.

## Model

| member | source | states |
|---|---|---|
| GoStrings.UpperChar | config/config.go:94 | A lower-case ASCII letter becomes its capital (32 code points below). Every other character is unchanged. The result is never lower-case. |
| GoStrings.ToUpper | config/config.go:94 | The result has the input's length, each character is upper-cased one for one, and it contains no lower-case letter. |
| GoStrings.ToUpperIdempotent | config/config.go:106 | Upper-casing an already upper-cased string changes nothing. |
| GoStrings.Join | config/config.go:93 | `strings.Join`: an empty list joins to the empty string; a non-empty list joins to the words' total length plus one separator between each two words; with an empty separator it is the plain concatenation. |
| GoStrings.JoinSeparated | config/config.go:93 | Where the separators go: for a non-empty list, the joined string is the first word followed by each further word with exactly one separator in front of it. |
| GoStrings.ToUpperJoin | config/config.go:93-94 | With a separator that upper-casing leaves alone, upper-casing the joined string is joining the upper-cased words. |
| GoStrings.RemoveJoin | config/config.go:93 | Join the words with a separator that no word contains, then remove that separator: the result is the plain concatenation of the words. |
| CamelCase.Runs | config/config.go:92 | Step 1 of the split. Every run is non-empty, and the runs concatenate back to the input. |
| CamelCase.RunsMaximal | config/config.go:92 | Each run holds characters of a single class, and neighbouring runs differ in class, so the runs are maximal. |
| CamelCase.RunsCut | config/config.go:92 | A run of step 1 begins at position `k` exactly when the characters at `k - 1` and `k` differ in class. |
| CamelCase.MoveCapitals | config/config.go:92 | Step 2, moving the last capital of an acronym run onto the next lower-case run. It keeps the number of runs and their concatenation. |
| CamelCase.MoveCapitalsAt | config/config.go:92 | Which character step 2 moves where: on maximal runs, run `i` gains the last capital of run `i - 1` when that run is a capital run and run `i` a lower-case one, and loses its own last capital when it is a capital run before a lower-case one. Nothing else changes. |
| CamelCase.MovedOffset | config/config.go:92 | After step 2, the boundary in front of run `j` lies one place further left exactly when a capital is handed across it, and where it was otherwise. |
| CamelCase.DropEmpty | config/config.go:92 | Step 3. No word in the result is empty, no character is lost, and there are at most as many words as runs. |
| CamelCase.DropEmptyKeeps | config/config.go:92 | A word is in the result of step 3 exactly when it is in the input and is not empty. |
| CamelCase.DropEmptyAppend | config/config.go:92 | Step 3 keeps the order: dropping the empty words of two lists joined is joining the two lists with their empty words dropped. |
| CamelCase.DropEmptyStarts | config/config.go:92 | Step 3 keeps every word boundary that lies strictly inside the text, and adds none. |
| CamelCase.Split | config/config.go:92 | Every word of the split is non-empty. |
| CamelCase.SplitCuts | config/config.go:92 | The boundaries of the split, for every input and every position `k` inside it: a word begins at `k` exactly when the classes at `k - 1` and `k` differ and they are not a capital followed by a lower-case letter, or when `k - 1` and `k` are capitals and `k + 1` is lower-case. With `SplitCovers` and the non-empty words, this determines the split. |
| CamelCase.SplitCovers | config/config.go:92 | The words, written one after another, spell the identifier exactly. |
| CamelCase.SplitWordsFromInput | config/config.go:92 | A word contains only characters of the identifier. |
| CamelCase.SplitName | config/config.go:92 | `Name` splits into the single word `Name`. |
| CamelCase.SplitDriver | config/config.go:92 | `Driver` splits into the single word `Driver`. |
| CamelCase.SplitBaseURL | config/config.go:92 | `BaseURL` splits into `Base` and `URL`: the capital run is one acronym word. |
| CamelCase.SplitPDFLoader | config/config.go:92 | `PDFLoader` splits into `PDF` and `Loader`: an acronym hands its last capital to the word that follows it. |
| FilePath.Ext | config/config.go:53 | The result is a suffix of the path. It starts at a `.` and has no `.` or `/` after that one. It is empty only when no `.` follows the last `/`. |
| FilePath.ExtBefore | config/config.go:53 | A scan backwards from index `i` that keeps the description of `Ext`, given that the characters after `i` are neither `.` nor `/`. |
| FilePath.ExtensionUnique | config/config.go:53 | At most one string fits the description of a path's extension, so `Ext` is determined by it. |
| FilePath.ExtExamples | config/config_test.go:145-165 | The extension of the `.hc` test path is `.hc`, and that of the `.hcl1` test path is `.hcl1`. |
| FilePath.ExtDefaultPath | main.go:12 | The extension of the default path `config/config.json` is `.json`. |
| Config.Settings.Set | config/config.go:113 | Setting a field gives that field the new value and leaves every other field as it was. |
| Config.Defaults | config/config.go:30-36 | Every field of the default record is non-empty: `No name`, `No base url` and `No Driver`. |
| Config.Merge | config/config.go:53-83 | Decoding into an existing record: a field the file holds takes the file's value, and every other field keeps its value. |
| Config.GetEnvName | config/config.go:91-95 | The derived name contains no lower-case letter. |
| Config.EnvNameWords | config/config.go:91-95 | For every identifier, the derived name is the words of the split, each upper-cased, joined with `_`. |
| Config.EnvNameSpellsIdentifier | config/config.go:91-95 | For an identifier without `_`, removing the `_` separators from the derived name gives back the upper-cased identifier. The name only adds separators between words. |
| Config.EnvNameIsUpper | config/config.go:105-106 | The second `ToUpper`, applied to the derived name before the lookup, leaves it unchanged. |
| Config.EnvKey | config/config.go:105-106 | The key looked up for a field is the name derived from the field's identifier: the second `ToUpper` does not change it. |
| Config.EnvKeys | config/config.go:105-106 | The overlay reads exactly the variables `NAME`, `BASE_URL` and `DRIVER`. |
| Config.EnvKeyName | config/config.go:105-106 | The key for field `Name` is `NAME`. |
| Config.EnvKeyBaseURL | config/config.go:105-106 | The key for field `BaseURL` is `BASE_URL`. |
| Config.EnvNameBaseURL | config/config.go:91-95 | `getEnvName("BaseURL")` is `BASE_URL`. |
| Config.EnvKeyDriver | config/config.go:105-106 | The key for field `Driver` is `DRIVER`. |
| Config.EnvKeyInjective | config/config.go:102-106 | Two different fields read two different variables. |
| Config.Getenv | config/config.go:106 | `os.Getenv`: a set variable reads as its value, and an unset variable reads as empty. |
| Config.OverlayStep | config/config.go:103-114 | One turn of the loop: the visited field takes its variable's value when that is non-empty, and every other field is unchanged. |
| Config.OverlayFields | config/config.go:102-115 | After the loop has visited the fields `fs`: a field in `fs` whose variable is non-empty holds that value, and every other field holds its value from before the loop. |
| Config.FieldsComplete | config/config.go:102-103 | The loop visits every field of the record. |
| Config.Overlay | config/config.go:98-118 | After the overlay, each field holds its variable's value when that value is non-empty, and its prior value when the variable is empty or unset. |
| Config.OverlayIdempotent | config/config.go:105-114 | Applying the overlay twice with an unchanged environment gives the same record as applying it once. |
| Config.OverlaySkipsEmptyDriver | config/config_test.go:100-129 | The situation of the overlay test: `NAME` and `BASE_URL` are non-empty and `DRIVER` is empty. Name and base URL take the variables' values, and the driver keeps its prior value. |
| Config.Config.Zero | config/config_test.go:111 | `&Config{}`: all three fields are empty. |
| Config.Config.Default | config/config.go:30-36 | `defaultConfig()`: the new record holds `Defaults()`. |
| Config.Config.SetString | config/config.go:113 | Writing one field in place: the new record is the old one with that field set. |
| Config.Config.Absorb | config/config.go:53-83 | A deserializer writing into the record in place: the new record is the old one merged with the fields the file holds. |
| Config.Config.UseCustomEnvConfig | config/config.go:98-118 | Always returns no error. The new record is `Overlay` of the old one. Each field holds its variable's non-empty value, or else its old value. |
| Loader.FormatOf | config/config.go:53-86 | An extension selects a format only when it is exactly that format's extension. Any other extension selects none. |
| Loader.FormatOfExtension | config/config.go:53-75 | Each format's extension selects that format, so all five deserializers can be reached. |
| Loader.ReadFile | config/config.go:48-51 | The read succeeds exactly for a path that exists, yields that file's bytes, and otherwise fails with a read error for that path. |
| Loader.LoadError.Message | config/config.go:20 | The unsupported-format error reads as the fixed `errCfgUnsupported` text, a deserializer's error reads as its own text, and a read error reads `open <path>...`. |
| Loader.Decode | config/config.go:75-83 | HCL succeeds exactly when both `hcl.Parse` and `DecodeObject` succeed, and a parse failure is returned as it is. |
| Loader.Load | config/config.go:44-89 | A path that cannot be read fails with a read error whatever its extension, because the read comes first. A readable file with an unlisted extension fails with `Unsupported`. A deserializer failure is passed on as the error, with no record. The load succeeds exactly when the read, the dispatch and the decode all succeed. A successful load holds the file's value for each field the file provides and the default for every other field. |
| Loader.LoadCompleteFile | config/config.go:46-88 | A file that provides all three keys loads to exactly those three values, with no default left. |
| Loader.LoadHclStages | config/config.go:75-83 | For `.hcl`, a failure of `hcl.Parse` or of `DecodeObject` fails the load with that stage's error. |
| Loader.NearMissesUnsupported | config/config.go:84-85 | The extensions `.hc` and `.yaml` are refused with exactly `errCfgUnsupported`, whose message is the fixed text naming the supported formats. |
| Loader.MissingFileFailsOnRead | config/config.go:48-51 | A missing file with the unlisted extension `.hcl1` fails with a read error, not with `Unsupported`. |
| Loader.ReadConfig | config/config.go:44-89 | On success it returns no error and a fresh record whose value is `Load`'s. On failure it returns nil and exactly `Load`'s error. |
| Loader.NewConfig | config/config.go:39-41 | Behaves exactly as `ReadConfig`. |

## Left out

- The JSON, XML, YAML, TOML and HCL libraries are not modelled. Each is an arbitrary total function in `Parsers`. Their own decoding rules, such as key matching, type errors and how `null` is treated, are reduced to "the fields the file holds overwrite the record".
- Partial writes by a failing deserializer are not modelled: `Absorb` runs only on success. The Go code returns nil on every failure, so a partial write cannot be observed.
- `ioutil.ReadFile` is a lookup in `fs`. Every read failure is treated as a missing path, whose Go message is `open <path>: no such file or directory`. Other OS errors, such as a permission denial, are not distinguished.
- `os.Getenv` is a lookup in `env`. The environment cannot change during a call.
- The `reflect` machinery is replaced by the field table `Fields` and `SetString`. Every field of the record has kind string, so the kind switch at config/config.go:111-114 always takes the string branch.
- `fmt.Println("XML")` at config/config.go:60 is a debugging print and is not modelled.
- The camel-case split is modelled for ASCII only. Unicode letter classes are not modelled, and neither is the early return that leaves a string of invalid UTF-8 whole. `ToUpper` is likewise ASCII only.
- `filepath.Ext` is modelled with `/` as the only path separator, as on Unix.
- Loader.Decode: its contract speaks only of the two HCL stages. For the other four formats it is the selected deserializer itself, an arbitrary parameter, so there is nothing more to state.
- The `string(data)` conversion before `hcl.Parse` is not modelled: `hclParse` takes the bytes directly.
- The round trip from serializing with a library to loading back depends on the libraries, so it is not modelled.
- main.go (flag parsing, printing, `log.Fatal`) is not part of this model.
- config/config_test.go is not modelled. It needs fixture files on disk, and its scenarios appear here as lemmas.
