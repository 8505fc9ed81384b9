# go-getters, modelled in Dafny

`go-getters` is a code generator for Go. It walks a directory and parses every `.go` file. In each file it collects the struct types whose type group carries a `//go:generate getters` doc comment. For every field of those structs it emits a getter method: the field name with its first letter upper-cased. The getters go into `<name>_getters.go`, together with the imports whose short alias is the text before the first `.` of some field type. That rule misses qualifiers behind `*`, `[]`, `map[…]`, `chann ` or `...` (see "## Findings").

This project models the generator's core, from `main.go`:

- `getFiledTypeString`: renders a field's type expression back to Go text, or panics.
- `createGetters`: builds the getter model. It registers each import under its short alias, makes one getter per field, marks the alias each field-type text starts with (its text before the first `.`), and keeps the paths of the marked aliases.
- The declaration visitor of `searchTargetStructs`: it picks out the marked struct specs and captures the package name and the import paths.
- The output file name of `generateGetters`.

The modules are:

| file | module | what it holds |
|---|---|---|
| `wrappers.dfy` | `Wrappers` | `Option`, and `Result` for the builder's panics |
| `go_ast.dfy` | `GoAst` | the part of Go's syntax tree the generator reads |
| `go_strings.dfy` | `GoStrings` | `HasPrefix`, `HasSuffix`, `TrimSuffix`, the two uses of `strings.Split`, ASCII `ToUpper` |
| `naming.dfy` | `Naming` | method names, import aliases, type qualifiers, output file names |
| `type_string.dfy` | `TypeString` | the type renderer, plus a parser for its output that proves the rendering round-trips |
| `scanner.dfy` | `Scanner` | the declaration filter, as a method with loops proved against prefix-recursive functions |
| `getters.dfy` | `Getters` | the builder, as a method with loops proved against the functions `AllGetters` and `UsedImportPaths`, plus the lemmas about those functions |
| `qualifiers.dfy` | `Qualifiers` | the import-marking defect below, with its corrected rule |
| `example.dfy` | `Example` | the repository's `example/` package, run through the model |

Go's map iteration order is unspecified. `CollectUsed` therefore draws each next key with a `:|` choice, so its contract holds for every order.

## Model

| member | source | states |
|---|---|---|
| TypeString.Resolve | main.go:189-211 | The renderer yields a text exactly for the supported shapes: identifiers, pointers, selectors, arrays and slices, maps, interfaces, channels and `...`. Struct, func and every other shape fail, which is the panic. |
| TypeString.ParseResolve | main.go:191-207 | For every supported expression whose names are Go identifiers, parsing the rendered text gives back the expression, up to what rendering erases (array length, channel direction, interface methods). So the rendering rules are unambiguous, and the text after the type is left alone. Names are any non-empty text without the renderer's punctuation `.[]{}*` and space, which covers every Go identifier, Unicode letters included. |
| TypeString.ResolveEqualIff | main.go:191-207 | Two supported expressions whose names are Go identifiers render to the same text if and only if they agree once array lengths, channel directions and interface methods are erased. |
| TypeString.ResolveNormalize | main.go:198-205 | Rendering ignores array lengths, channel directions and interface method sets. |
| TypeString.RenderableSupported | main.go:191-207 | Every expression built from identifiers (any Go identifier) and package selectors with the supported constructors renders without panicking. |
| TypeString.ResolveDropsLengthAndDirection | main.go:198-205 | `[3]int` renders as `[]int`, and receive-only and send-only `int` channels both render as `chann int`. |
| Naming.ExportName | main.go:162 | The method name has the field name's length and keeps everything after the first character. Its first character is the ASCII upper case of the field name's first character: `a`-`z` become `A`-`Z` (`id` gives `Id`), and any other first character is kept. |
| Naming.ExportNameIdempotent | main.go:162 | Upper-casing an already exported name changes nothing. |
| Naming.ExportNameCollides | main.go:162 | Two field names give the same method name if and only if they have the same length, agree after the first character and have the same upper-cased first character. The builder does not reject such a collision. |
| Naming.ShortName | main.go:144-145 | An import's alias is the suffix of its path after the last `/`. It holds no `/`. |
| Naming.TypeQualifier | main.go:167 | A type's candidate alias is the prefix of its text before the first `.`. It holds no `.`. |
| Naming.OutputFileName | main.go:219 | The output name ends in `_getters.go`. For a `.go` file, `.go` is replaced by `_getters.go`; any other name gets `_getters.go` appended. |
| Naming.OutputFileNameInjective | main.go:219 | Two different `.go` files never share an output file. |
| Naming.OutputFileNameDiffers | main.go:219 | The output file never overwrites its input. |
| GoStrings.BeforeFirstAt | main.go:167 | The text before the first `.` of `a.b`, where `a` has no `.`, is `a`. |
| GoStrings.AfterLastAt | main.go:144-145 | The text after the last `/` of `a/b`, where `b` has no `/`, is `b`. |
| Scanner.SearchTargetStructs | main.go:83-132 | The collected specs are exactly `TargetStructs` of the file's declaration groups in visiting order. The package name and import paths are captured once any documented TYPE group is seen; otherwise they stay empty. |
| Scanner.CopyImportPaths | main.go:104-111 | The i-th import path is the i-th import literal without its quotes. |
| Scanner.AppendMarkedStructs | main.go:113-126 | A documented group appends its struct specs once for every doc line that starts with the directive. |
| Scanner.StructSpecsMember | main.go:115-123 | A spec of a group is kept if and only if it is a type spec whose type is a struct. |
| Scanner.DirectiveStructsMember | main.go:113-126 | A struct spec comes out of a group if and only if some doc line starts with the directive. |
| Scanner.DirectiveStructsRepeat | main.go:113-126 | A group's struct specs come out once per directive line: with two such lines, twice. |
| Scanner.DeclStructsMember | main.go:100-126 | A spec comes out of a group if and only if the group is a TYPE group with a directive doc line and the spec is a struct type spec in it. |
| Scanner.TargetStructsMember | main.go:94-129 | A spec is collected if and only if it is a struct type spec of some marked TYPE group. Nothing else is collected. |
| Scanner.TargetStructsAreStructs | main.go:121-123 | Every collected spec is a struct. |
| Scanner.AnyDocumentedTypeStep | main.go:100-104 | The capture of the package and imports has happened after group i exactly when it had happened before or group i is a documented TYPE group. |
| Getters.CreateGetters | main.go:139-187 | A failure is exactly `AllGetters`' first panic. On success, the getters are `AllGetters` of the specs, and the package name is passed through. The imports are exactly the paths of `UsedImportPaths`, each once, in any order. |
| Getters.RegisterImports | main.go:142-150 | The table maps each alias to the last path registered under it, marked unused. |
| Getters.CollectUsed | main.go:177-184 | The result lists every path of a used entry, and nothing else, without repeats, whatever the map walk order. |
| Getters.UsedNamesMarked | main.go:166-184 | Marking the aliases of all field types and then collecting the used entries gives `UsedImportPaths`. |
| Getters.UsedImportPathsMember | main.go:142-184 | A path is kept if and only if it is the last path registered under its alias and some field type's text before its first `.` equals that alias. |
| Getters.UsedImportPathsOnePerAlias | main.go:142-184 | Kept paths all come from the input, and no two share an alias. |
| Getters.UnusedAliasDropped | main.go:167-184 | A path whose alias no field type names is dropped. |
| Getters.AliasTableLast | main.go:143-150 | Every alias entry holds the last input path with that alias. |
| Getters.AliasTableLastWins | main.go:143-150 | The last path registered under an alias is the one the table keeps. |
| Getters.AliasTableNames | main.go:143-150 | Every table entry is an input path whose short name is its key. |
| Getters.StructGettersAt | main.go:159-172 | A struct's getters build if and only if every field is named and has a supported type. The j-th getter then belongs to the j-th field: the struct name, the exported field name, the field name and the rendered type. |
| Getters.AllGettersSucceedsIff | main.go:152-175 | Building succeeds if and only if every field of every struct spec is named and has a supported type. Non-struct specs never fail. |
| Getters.AllGettersAt | main.go:152-175 | The getters are the structs' fields concatenated in order. There are as many getters as fields in total, and field j of spec i gives the getter at the field count of the specs before i, plus j. |
| Getters.AllGettersCount | main.go:152-175 | The getter count is the sum of the struct field counts. |
| Getters.BuildFails | main.go:160-163 | The first unnamed field, or the first field of unsupported type, makes the whole build fail with its error. |
| Getters.UsedAliasesAppend | main.go:166-171 | One more getter marks exactly one more alias: its type's qualifier. |
| Qualifiers.PointerQualifierDropped | main.go:167-171 | As written: for a struct whose one field is `*uuid.UUID`, the getter's type is `*uuid.UUID`, yet the kept imports are empty, although the field needs `github.com/google/uuid`. |
| Qualifiers.PointerQualifierUnused | main.go:167 | As written: the qualifier of `*uuid.UUID` is `*uuid`, which is no alias. |
| Qualifiers.TextQualifiersResolve | main.go:191-207 | For every supported type whose names are Go identifiers, Unicode letters included, the packages named in its rendered text are exactly the packages the type refers to. |
| Qualifiers.UnicodeKeyQualifiers | main.go:200-201 | The text `map[número]uuid.UUID` names the package `uuid`: a non-ASCII identifier does not hide a qualifier. |
| Qualifiers.NeededImportPathsComplete | main.go:152-184 | Corrected rule: a registered package named anywhere in a field's type keeps its import. This includes packages under `*`, `[]`, `map`, `chann ` and `...`, and types with any Go identifiers, Unicode letters included. |
| Qualifiers.NeededImportPathsSound | main.go:142-184 | Corrected rule: every kept import comes from the input, and some field type names its alias. |
| Qualifiers.BareSelectorAgrees | main.go:167 | For a plain `pkg.T` field the written rule and the corrected rule agree. |
| Qualifiers.PackageQualifiersNormalize | main.go:198-205 | Erasing lengths, directions and methods does not change which packages a type refers to. |
| Example.ExampleScan | example/main.go:1-25 | In the example file only `User` is collected, because `Ast` has no doc comment. The package name and the four import paths are captured. |
| Example.ExampleGetters | example/main_getters.go:10-36 | `User`'s fields give the seven getters `Id`, `Name`, `Age`, `Birthday`, `Children`, `CreatedAt` and `UpdatedAt`, in field order and with the types of the generated file. |
| Example.ExampleAliases | example/main.go:12-20 | The field types mark `uuid`, `time`, `string`, `int` and `[]User` as aliases. |
| Example.ExampleImports | example/main_getters.go:4-8 | Of the four imports only `time` and `github.com/google/uuid` are kept. |
| Example.ExampleGenerate | example/main_getters.go:1-36 | Scanning `example/main.go` and building its model gives package `example`, the seven getters and exactly the two imports, written to `example/main_getters.go`. |
| Example.ExampleOutputName | main.go:219 | `example/main.go` is written to `example/main_getters.go`. |

## Left out

- The directory walk, `main`'s loop over files, reading, parsing, templating, formatting and writing files, and the final message. These are I/O or calls into the Go standard library. `Example.ExampleGenerate` shows the per-file steps for one file.
- The parse error `searchTargetStructs` returns. A file is given as an already parsed `GoAst.File`.
- `ast.Inspect`'s traversal. The model takes the file's `GenDecl`s in the order the traversal visits them, including groups nested in function bodies.
- The dead error check inside the import loop (main.go:108-110). It tests an error that is always nil there.
- The `%T` text of the unsupported-type panic. The model reports `UnsupportedType` with the struct and field name instead.
- Naming.ExportName: upper-cases only ASCII letters and keeps any other first character. Go slices the first byte, not the first character. For a name that starts with a multi-byte UTF-8 character, `strings.ToUpper` therefore receives an invalid lone byte and writes U+FFFD in its place, followed by the remaining bytes of that character. The model keeps such a name unchanged instead.
- Field names after the first in `a, b int`. As in the source, only the first name gets a getter.
- Getters.CollectUsed: the order of the kept imports is left unconstrained, because Go's map iteration order is unspecified. The template output in that order is not modelled.
- TypeString.Resolve: array lengths, channel directions and interface method sets are not rendered. The model proves this rather than hiding it, and the generated Go is then a different type (`chann T` is not even Go syntax).

## Findings

| source | as written | input that shows it | evidently intended | confidence | as-written member | corrected member |
|---|---|---|---|---|---|---|
| main.go:167-171 | A field type marks its import used by the text before its first `.`, so a qualifier behind `*`, `[]`, `map[…]`, `chann ` or `...` is never matched. | A struct with the single field `id *uuid.UUID` and the import `github.com/google/uuid`: the getter returns `*uuid.UUID`, but the import is dropped, so the generated file does not compile. | Keep the import of every package the field type refers to. | not executed | Qualifiers.PointerQualifierDropped | Qualifiers.NeededImportPathsComplete |
