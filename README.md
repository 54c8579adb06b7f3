# dolphin: the analysis core, modelled in Dafny

dolphin generates Go unit tests with a language model. Before it asks the model, it
analyses the Go file under test:

- it lists the test functions already present (`getListFunctionName`);
- it builds the file's import index, which maps each alias to its quoted import path;
- it chooses the functions to generate tests for, asking on the terminal about those
  that already seem to have a test;
- it resolves the struct types of their parameters by walking the imported package's
  directory under `$GOPATH/src`. Resolved structs go through a process-wide struct
  cache, keyed by bare struct name;
- it extracts a struct's fields from a parsed file (`findStructFields`);
- it copies out the file's source text.

After generation, it post-processes the model's completion: the echoed prompt is
removed and the first fenced code block is kept.

The model works on already parsed declarations. Each module follows one part of the
program:

| module | stands for |
|---|---|
| `GoStrings`, `GoFilepath` | the parts of Go's `strings` and `path/filepath` the core calls |
| `Assoc` | a Go map built by successive writes, where the last writer wins |
| `GoAst` | the parsed declarations, plus a renderer of type expressions |
| `Prompt` | the template values passed to the prompt (`Template`, `Struct`, `StructField`, `Mock`) |
| `Scanner` | `getListFunctionName`, `getSourceCode` |
| `Imports` | the import-index loop of `readFileToPrompt` |
| `StructFields` | `findStructFields` |
| `Resolver` | the struct cache and `getStructFromImportPackage` |
| `Statements` | `getStructFromStatement` |
| `Selector` | `readFileToPrompt` |
| `Generator` | the default model name and the completion post-processing of `Generate` |

Code that mutates state keeps its form:

- The package-level struct cache is the class `Resolver.StructCache`, with one `map`
  field.
- The loops of the Go code are `method`s with loop invariants.
- Each method is proved equal to a specification function: a fold over the file's
  declarations, or over the entries `filepath.Walk` hands to the callback.
- The properties are lemmas about those functions.
- A loop body that touches the cache is a method of its own, called from the loop:
  `Imports.ReadImportSpecs`, `StructFields.WriteSpecList`, `StructFields.WriteNames`,
  `Resolver.VisitGoFile`, `Statements.WalkForSpec`, `Statements.StatementCallback`,
  `Selector.ParamCallback` and `Selector.ScanFunc`. Their branches are those of the Go code.
- Both walk callbacks make the same cache lookup (a hit returns the cached struct; a
  miss builds it and caches it). It is the method `Resolver.CachedOrBuilt`, which
  `Resolver.VisitGoFile` and `Statements.StatementGoFile` call.
- `continue fileLoop` in `readFileToPrompt` is a return from `Selector.ScanFunc`. The
  declaration loop then moves on to the next declaration.

Go map iteration order is not specified, and the model does not fix one:

- The loops over Go maps choose their next key nondeterministically.
- The field list of a resolved struct is built from a map, so specifications describe
  a struct by its shape: the field list seen as a map from name to type.
- The overlap check over existing tests always leaves its loop at the first overlapping
  test it meets. Its outcome therefore does not depend on the order.

The model follows the code. In these places the code does something other than what its
comments or a reader of the code might expect:

- **Cache hits still walk.** `getStructFromImportPackage` walks the whole directory
  even when the struct is cached. It appends one copy of the struct per `.go` file
  visited (`Resolver.ImportWalkClean`).
- **The first file decides.** On a cache miss, the struct is built from the first
  `.go` file visited, whether or not that file declares the type. That struct, which
  may have no fields, is cached for good (`Resolver.Resolved`).
- **Origin.** A returned struct's `From` is this call's quoted import path, on a hit
  as on a miss. The cached copy keeps an empty `From` (`Resolver.ImportWalkCache`).
- **Errors.** A walk that fails after caching a struct leaves the struct cached
  (`Resolver.ImportWalkFailure`).
- **findStructFields merges declarations.** It merges every struct declaration of the
  target name, and later fields overwrite earlier ones
  (`StructFields.StructFieldMapAppend`).
- **The skip-all latch.** The latch belongs to one `readFileToPrompt` call and starts
  cleared (`Selector.LatchIsPerCall`).
- **Same-package lookup.** A bare parameter type is looked up under the key formed by
  the package name followed by the type name. Nothing in the modelled code writes such
  a key.
- **getStructFromStatement** inspects only a declared type. `var user = user.User{}`,
  the example in its comment, yields nothing (`Statements.UntypedVarFindsNothing`). The
  function walks the quoted import literal itself, as given. It never sets `From`. It
  repeats the walk once per declared name. On an error it returns no structs.

Inputs stand in for the environment:

- the file system is a map from a walk root to the entries the walk callback receives,
  in walk order; `Resolver.WalkOf` looks a root up, and a root that is not in the map
  gives the single failure, without file info, that `filepath.Walk` reports;
- `$GOPATH` is a string;
- the file's bytes are an `Option` (a failed read is `None`);
- the replies typed at the prompt are a sequence, and when it runs out a reply reads as
  empty;
- the completion returned by the language model is a string.

## Model

| member | source | states |
|---|---|---|
| GoStrings.Index | generator/generator.go:40-41 | the first index where the pattern occurs, or -1 exactly when it does not occur |
| GoStrings.RemoveAllUnchanged | generator/generator.go:38 | removing a pattern changes nothing exactly when the pattern is empty or does not occur |
| GoStrings.RemoveAllShrinks | generator/generator.go:38 | removing a non-empty pattern that occurs makes the string shorter |
| GoStrings.RemoveAllIsJoinOfSplit | generator/generator.go:38 | ReplaceAll with an empty replacement equals splitting at the pattern and joining the pieces with nothing |
| GoStrings.RemoveBefore | generator/generator.go:38 | with the first occurrence at index i, the removal copies the text before i and resumes after the occurrence |
| GoStrings.IndexFrom | generator/generator.go:40-41 | the first occurrence at or after a start index, or -1 when there is none from there |
| GoStrings.SplitJoin | generator/generator.go:41 | joining the pieces of a split with the separator gives back the string |
| GoStrings.SplitPiecesFree | generator/generator.go:41-43 | no piece of a split contains the separator |
| GoStrings.SplitCount | generator/generator.go:40-42 | a split has more than one piece exactly when the separator occurs |
| GoFilepath.Base | parser/ast.go:82 | the base name is never empty and contains a slash only when it is "/" |
| GoFilepath.TrimTrailingSlashes | parser/ast.go:82 | the result is a prefix without a trailing slash, and only slashes were cut |
| GoFilepath.LastElement | parser/ast.go:82 | the result is a slash-free suffix that is the whole path or follows a slash |
| GoFilepath.BaseOfElement | parser/ast.go:82 | the base of a directory followed by a slash-free element is that element |
| GoFilepath.LastElementOf | parser/ast.go:82 | the last element of a directory followed by a slash-free element is that element |
| GoFilepath.Ext | parser/ast.go:194 | the extension is empty or a dot-led suffix of the path |
| GoFilepath.ExtGo | parser/ast.go:194 | the extension is ".go" exactly when the path ends in ".go" |
| Assoc.MapOfPairsKeys | parser/ast.go:80-83 | the keys of a map built by writes are the keys written |
| Assoc.LastWriterWins | parser/ast.go:342 | a key holds the value of its last write |
| Assoc.ValueFromLastWriter | parser/ast.go:342 | every value in the map was written by the last write of its key |
| Assoc.MapOfPairsAppend | parser/ast.go:74-89 | writes made in two runs build the union, with the later run winning |
| Prompt.ListsMapShape | parser/ast.go:215-222 | a field list with one entry per map key has that map as its shape |
| Prompt.ListsMapSize | parser/ast.go:215-222 | such a field list has as many fields as the map has keys |
| Scanner.GetListFunctionName | parser/ast.go:34-53 | the loop returns the names of the functions starting with "Test", in declaration order |
| Scanner.TestFunctionNamesMembers | parser/ast.go:43-50 | a name is listed exactly when a function of that name exists and the name starts with "Test" |
| Scanner.TestFunctionNamesAppend | parser/ast.go:43-50 | the list follows declaration order across any split of the declarations |
| Scanner.SourceCode | parser/ast.go:359-370 | the bytes between the offsets, with what precedes and follows them around, or empty when the read failed |
| Imports.ReadImports | parser/ast.go:71-89 | the loop builds the import index of the declarations |
| Imports.ImportIndexDomain | parser/ast.go:74-89 | a key is in the index exactly when some import spec of an import declaration has that key |
| Imports.ImportIndexValue | parser/ast.go:79-84 | the value of a key is the path of an import spec with that key, namely the last one written |
| Imports.ImportIndexAppend | parser/ast.go:74-89 | the index of two runs of declarations is the union, with later imports winning |
| Imports.ImportWritesMembers | parser/ast.go:74-89 | a write comes from an import spec of an import declaration, and every such spec writes |
| Imports.ReadImportSpecs | parser/ast.go:77-86 | the inner loop adds the writes of the spec list's import specs to the index built so far |
| Imports.RemoveLeadingQuote | parser/ast.go:82 | deleting quotes drops a leading quote |
| Imports.SpecWritesMembers | parser/ast.go:77-86 | the writes of a spec list are those of its import specs |
| Imports.ImportKeyOfElement | parser/ast.go:82 | an unaliased import "elem" has key elem |
| Imports.ImportKeyOfPath | parser/ast.go:82 | an unaliased import "dir/elem" has key elem |
| Imports.RemoveTrailingQuote | parser/ast.go:82 | deleting quotes from a quote-free element followed by a quote gives the element |
| StructFields.FindStructFields | parser/ast.go:328-353 | the loop builds the field map of the named struct declarations |
| StructFields.WriteSpecList | parser/ast.go:333-348 | the loop over one declaration's specs adds the writes of its struct specs of the target name |
| StructFields.WriteNames | parser/ast.go:339-343 | the loop over a field's names writes each name with the field's rendered type |
| StructFields.WriteFieldList | parser/ast.go:338-344 | the inner loops write every name of every field with its rendered type |
| StructFields.StructFieldMapDomain | parser/ast.go:331-350 | a name is a key exactly when it names a field of a struct type declared under the target name |
| StructFields.StructFieldMapDeclared | parser/ast.go:331-350 | every key names a field of a struct type declared under the target name |
| StructFields.DeclaredInStructFieldMap | parser/ast.go:331-350 | every field name of a struct type declared under the target name is a key |
| StructFields.StructFieldMapValue | parser/ast.go:337-343 | the value of a key is the rendered type of a field with that name |
| StructFields.StructFieldMapUndeclared | parser/ast.go:328-353 | with no struct declaration of the target name the map is empty |
| StructFields.StructFieldMapAppend | parser/ast.go:331-350 | declarations are merged in order, later fields overwriting earlier ones |
| StructFields.FieldListWritesMembers | parser/ast.go:338-344 | the writes of a field list are its named fields with their types |
| StructFields.SpecListWritesMembers | parser/ast.go:333-348 | only struct specs of the target name write |
| StructFields.DeclListWritesMembers | parser/ast.go:331-350 | the writes of the declarations are those of their specs |
| Resolver.StructCache.constructor | parser/ast.go:205 | the process starts with an empty, valid cache |
| Resolver.FieldsOfMap | parser/ast.go:215-222 | the loop lists each key of the field map once, with its type, in some order |
| Resolver.ImportCallback | parser/ast.go:188-230 | one callback call changes the structs, cache and error as the visit function says, keeps existing entries, keeps the cache valid, appends only copies of the cached struct stamped with the import path, each listing every field name once |
| Resolver.VisitGoFile | parser/ast.go:203-227 | a parsed Go file appends the struct now cached under the requested name, stamped with the import path; on a hit that is the struct cached before, field list and all; existing entries are kept, the cache stays valid and the struct lists each field name once |
| Resolver.BuildStruct | parser/ast.go:210-222 | the built struct has the requested name, an empty origin, distinct field names, and the file's field map as its shape |
| Resolver.CachedOrBuilt | parser/ast.go:205-224 | returns the struct now cached under the name: on a hit the cached struct, with the cache unchanged; on a miss the struct built from the file's fields, newly cached; no other entry changes, and a valid cache stays valid and gives a struct with that name, an empty origin and distinct field names |
| Resolver.CacheStruct | parser/ast.go:224 | the struct is stored under its name, no other entry changes, and the cache stays valid |
| Resolver.InsertKeepsValid | parser/ast.go:224 | storing a struct with an empty origin and distinct field names keeps the cache invariant |
| Resolver.ImportVisitCache | parser/ast.go:205-226 | one visit never replaces an entry, adds at most the struct's name, keeps the cache invariant, and keeps every returned struct's name and this import path |
| Resolver.ImportVisitClean | parser/ast.go:194-227 | a visit without failure adds one stamped struct per parsed Go file, and the struct of the first Go file is the one cached |
| Resolver.GetStructFromImportPackage | parser/ast.go:184-233 | the walk's structs, new cache and error are the fold of the callback over the walk; every returned struct is the struct cached under the requested name, stamped with the import path; old entries are kept, the cache stays valid, and with a valid cache no returned struct lists a field name twice |
| Resolver.ImportWalkSticky | parser/ast.go:190-201 | after the first error the walk goes no further |
| Resolver.ImportVisitSkips | parser/ast.go:194-196 | directories and non-Go files change nothing |
| Resolver.ImportWalkClean | parser/ast.go:203-227 | without failures, one struct per Go file, each the resolved struct stamped with the import path; the cache gains the struct resolved from the first Go file |
| Resolver.ImportWalkFailure | parser/ast.go:188-201 | the walk returns the first failure's error, with what was collected and cached before it |
| Resolver.ImportWalkCache | parser/ast.go:205-226 | entries are never replaced, at most the struct's name is added, the cache invariant is kept, and returned structs carry the struct's name and this import path |
| Statements.WalkForStatement | parser/ast.go:272-308 | the loop performs the callback's fold over the walk, keeps old entries and the cache valid, and appends only structs that are cached under their names and list each field name once |
| Statements.WalkForSpec | parser/ast.go:264-313 | the loop over a value spec's names performs the spec's repeated walk, stopping at the first failed walk, keeps old entries and the cache valid, and appends only structs that are cached under their names and list each field name once |
| Statements.StatementCallback | parser/ast.go:272-308 | one callback call changes the structs, cache and error as the visit function says, keeps old entries and the cache valid, and appends only structs that are cached under their names and list each field name once |
| Statements.StatementGoFile | parser/ast.go:283-305 | a parsed Go file appends the struct now cached under the requested name, which on a hit is the struct cached before, field list and all; old entries are kept and the cache stays valid |
| Statements.StatementWalkSticky | parser/ast.go:278-281 | after a parse error the walk goes no further |
| Statements.SpecsWalkSticky | parser/ast.go:309-311 | after a failed walk no further spec is walked |
| Statements.RepeatWalkSticky | parser/ast.go:309-311 | after a failed walk no further name is walked |
| Statements.StatementVisitIsImportVisit | parser/ast.go:272-308 | one visit of this walk is the import walk's visit with an empty origin, after the structs collected before |
| Statements.StatementVisitNoOrigin | parser/ast.go:285-304 | a visit keeps every struct's origin empty and adds only structs of the requested name |
| Statements.RepeatWalkNoOrigin | parser/ast.go:264-313 | the repeated walks of one spec keep every origin empty |
| Statements.SpecsWalkNoOrigin | parser/ast.go:262-321 | the walks of all specs keep every origin empty |
| Statements.GetStructFromStatement | parser/ast.go:258-326 | structs, new cache and error are those of the statement's specification; on an error no structs are returned; old entries are kept; with a valid cache, the cache stays valid and every returned struct is the struct cached under its name, listing each field name once |
| Statements.StatementWalkIsImportWalk | parser/ast.go:272-308 | without failures, the walk equals the import walk with an empty origin |
| Statements.StatementResultNoOrigin | parser/ast.go:285-304 | every returned struct has an empty origin and the cache invariant is kept |
| Statements.StatementWalkKeeps | parser/ast.go:272-308 | the statement walk never drops or replaces a cached struct |
| Statements.RepeatWalkKeeps | parser/ast.go:264-313 | the repeated walks of a value spec never drop or replace a cached struct |
| Statements.SpecsWalkKeeps | parser/ast.go:262-313 | the walks of a declaration's specs never drop or replace a cached struct |
| Statements.StatementResultKeeps | parser/ast.go:258-326 | a call, failed or not, never drops or replaces a cached struct |
| Statements.RepeatWalkCount | parser/ast.go:264-313 | a spec with n names and a clean walk adds n times one struct per Go file |
| Statements.RepeatWalkInert | parser/ast.go:266-270 | a spec naming no imported struct makes no walk |
| Statements.SpecsWalkInert | parser/ast.go:262-270 | specs naming no imported struct change nothing |
| Statements.UntypedVarFindsNothing | parser/ast.go:264-267 | a var declaration without declared types yields no struct and leaves the cache alone |
| Statements.StatementWalkNoOrigin | parser/ast.go:285-304 | visits keep the empty origin and add only structs of the requested name |
| Selector.OverlapGate | parser/ast.go:102-131 | the check asks at most once, and without an overlapping test it proceeds unchanged |
| Selector.CheckExistingTests | parser/ast.go:102-131 | the loop over existing tests gives the gate's outcome, whatever the iteration order |
| Selector.ScanParams | parser/ast.go:133-167 | the loop over parameters performs the parameter fold; a valid cache stays valid, old entries are kept, and appended structs list each field name once |
| Selector.ParamCallback | parser/ast.go:136-165 | one parameter changes the structs, cache and error as the parameter step says; a valid cache stays valid, old entries are kept, and appended structs list each field name once |
| Selector.ParamsScanSticky | parser/ast.go:149-152 | after a failed lookup no further parameter is scanned |
| Selector.ScanFunc | parser/ast.go:95-173 | one function declaration performs the declaration step and leaves the source code alone; a valid cache stays valid, old entries are kept, and appended structs list each field name once |
| Selector.ScanDeclsSticky | parser/ast.go:149-152 | after an error no further declaration is scanned |
| Selector.DeclStepAnyFunc | parser/ast.go:95-96 | after a step a function has been seen exactly when one had been before or the declaration is a function, and an error implies a function was seen |
| Selector.ScanIgnoresAnyFunc | parser/ast.go:91-175 | the seen-function flag affects nothing else the scan computes |
| Selector.ScanFile | parser/ast.go:91-175 | the loop over declarations performs the declaration fold, and an error implies a function was seen; a valid cache stays valid, old entries are kept, and no collected struct lists a field name twice |
| Selector.ParamStepCache | parser/ast.go:136-165 | one parameter keeps every cached entry unchanged and keeps the cache invariant |
| Selector.ParamsScanCache | parser/ast.go:133-167 | the parameter loop keeps every cached entry unchanged and keeps the cache invariant |
| Selector.ScanDeclsCache | parser/ast.go:91-175 | the declaration loop keeps every cached entry unchanged and keeps the cache invariant |
| Selector.AnalyzeCache | parser/ast.go:55-182 | a whole call never drops or replaces a cached struct and keeps the cache invariant |
| Selector.ReadFileToPrompt | parser/ast.go:55-182 | the template, package name, error, prompts and new cache are those of the analysis function; a valid cache stays valid, no cached struct is dropped or replaced, and no returned struct lists a field name twice |
| Selector.ScanAnyFunc | parser/ast.go:94-96 | a function was seen exactly when some declaration is a function |
| Selector.AnalyzeSourceCode | parser/ast.go:64-68 | the source text is returned exactly when the file declares a function |
| Selector.ScanStopsAtError | parser/ast.go:149-152 | after an error nothing more is scanned |
| Selector.Named | parser/ast.go:98-100 | the selection holds exactly the file's functions of the given name |
| Selector.NamedAppend | parser/ast.go:94-100 | selection keeps the declarations' order: selecting from a concatenation concatenates the selections |
| Selector.NamedOne | parser/ast.go:98-100 | one declaration is selected exactly when it is a function of the given name |
| Selector.NamedSelection | parser/ast.go:98-100 | with a function name given, the scan equals the scan of the functions of that name |
| Selector.NamedNeverPrompts | parser/ast.go:98-102 | with a function name given, nothing is asked and the latch is untouched |
| Selector.NamedAbsent | parser/ast.go:98-100 | naming a function the file lacks gives no structs, no mock, no error and no prompt |
| Selector.FuncStepReply | parser/ast.go:117-128 | "y"/"Y" proceeds to the parameters; "s"/"S" sets the latch and skips; anything else skips; one reply is read |
| Selector.FuncStepLatched | parser/ast.go:107-110 | once latched, an overlapping function is skipped without a prompt |
| Selector.LatchSticks | parser/ast.go:108-125 | once set, the latch stays set and no further prompt is shown |
| Selector.AskedGrows | parser/ast.go:117-118 | the number of replies read never decreases |
| Selector.LatchOnlyByS | parser/ast.go:123-125 | the latch is set only by an "s" or "S" reply read during the scan |
| Selector.LatchIsPerCall | parser/ast.go:91 | each call starts with the latch cleared, so an overlapping first function always prompts |
| Selector.ScanDeclsSplit | parser/ast.go:94-175 | scanning two runs of declarations is scanning the first, then the second |
| Selector.ParamsScanInert | parser/ast.go:136-164 | parameters with unknown qualifiers or uncached bare names change nothing |
| Selector.ParamsScanSamePackage | parser/ast.go:158-163 | bare type names never touch the cache and add only "same package" structs |
| Selector.ParamStepFailure | parser/ast.go:149-152 | a failed lookup drops the walk's structs and returns the error; its cache writes stay |
| Selector.PathDirOfImport | parser/ast.go:144-147 | the directory searched for import "p" is $GOPATH/src/p |
| Selector.ExampleIndex | parser/ast.go:73-89 | worked example, not a general property: the example caller's import "other/b" is indexed under b |
| Selector.ExampleFields | parser/ast.go:328-353 | worked example, not a general property: the example package's User struct has the field map Name string, Age int |
| Selector.ExampleWalk | parser/ast.go:184-233 | worked example, not a general property: walking the example package returns User stamped with "\"other/b\"" and caches it with an empty origin |
| Selector.ImportedParameterExample | parser/ast.go:55-182 | worked example, not a general property: a parameter of type b.User, imported from "other/b", resolves through the walk to User with its two fields |
| Generator.ModelName | generator/generator.go:15-18 | the model name is never empty: a named model is used as is, and no name gives "llama2" |
| Generator.PostProcess | generator/generator.go:37-47 | the result is never longer than the completion |
| Generator.FenceGuardHolds | generator/generator.go:40-44 | inside the fence branch the second-piece check always holds |
| Generator.PostProcessFenceFree | generator/generator.go:40-47 | the result never contains a fence |
| Generator.PostProcessUnfenced | generator/generator.go:40-47 | without a fence, the cleaned completion is returned |
| Generator.PostProcessFenced | generator/generator.go:40-44 | with a fence, the result is the text after the first fence, up to the second one if any |
| Generator.PostProcessWithoutEcho | generator/generator.go:37-38 | a completion that does not echo the prompt reaches fence handling unchanged |
| Generator.PostProcessRemovesEcho | generator/generator.go:37-38 | an echoed non-empty prompt is removed, so the cleaned text is shorter |

## Left out

- Parsing Go source (`parser.ParseFile`) is not modelled: files arrive parsed. In `filepath.Walk` callbacks a file that does not parse is an `Unparsable` entry. The `log.Fatal` on a parse failure of the file under analysis is outside the model.
- GoAst.TypeString: renders only identifiers, literals, selectors, pointers, arrays and slices, maps, ellipses and struct types. Other expressions carry their rendering. Full fidelity to `types.ExprString` is not claimed.
- Statements.GetStructFromStatement: requires every walk failure to carry file info. The Go callback ignores the walk error and dereferences a nil `info`, which panics.
- Selector.ReadFileToPrompt: does not model the nil guards on a function's parameter list or on a field's type. A parsed function always has a list, and a parameter always has a type.
- Selector.ReadFileToPrompt: `os.Getenv("GOPATH")` is a parameter. The spinner and the `fmt.Printf` message are output only and are left out. `fmt.Scanln` is the sequence of replies.
- Resolver.GetStructFromImportPackage: the order in which `filepath.Walk` visits entries, and the errors it reports, are inputs. The file system is not modelled beyond what the callback sees.
- Resolver.FieldsOfMap: the order of the field list is unconstrained, as Go's map order is. Properties are stated about the list's shape.
- The configuration fields `Path`, `ModulePath` and `Dir` are not read by the modelled code. The file under analysis is passed in parsed.
- The declaration of the package-level `Struct` variable is not part of this model; `Resolver.StructCache` stands for it.
- `Template.Generate` and the `PROMPT` text (prompt/template.go:8-79) render the template. Rendering is not modelled; only the template's values are.
- The language-model call in `Generate` (the ollama client, the streaming print, the temperature 0.8) is a foreign network call. Its completion is an input.
- Paths are Unix paths in `GoFilepath`: `/` is the only separator and there are no volume names, so `filepath.Base` and `filepath.Ext` follow their Unix behaviour only.
- Go strings are byte strings. A Dafny `string` stands for them, one character per byte, and the source text is a sequence of bytes.
