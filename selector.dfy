/** readFileToPrompt (parser/ast.go): choosing the functions of a file to generate tests
    for, asking about functions that already have tests, and collecting the structs
    their parameters refer to. */
module Selector {
  import opened Wrappers
  import opened GoAst
  import opened GoStrings
  import opened Prompt
  import opened Scanner
  import opened Imports
  import opened Resolver
  import opened GoFilepath
  import opened StructFields
  import opened Assoc

  /** The fields of the configuration readFileToPrompt reads. `existingTests` is None
      for a nil map; it maps test names to the files that hold them. */
  datatype Config = Config(funcName: string, mockLib: string, mockDir: string, existingTests: Option<map<string, string>>)

  /** Everything a call reads besides the cache: the configuration, the package name,
      the import index, $GOPATH, the filesystem and the replies typed at the prompt. */
  datatype Env = Env(conf: Config, pkg: string, index: map<string, string>, gopath: string, fs: FileSystem, replies: seq<string>)

  /** The state of the loop over declarations. */
  datatype Scan = Scan(structs: seq<StructShape>, mock: Mock, isAnyFunc: bool, skipAll: bool, asked: nat,
                       cache: map<string, StructShape>, err: Option<Error>)

  /** What a call returns and leaves in the cache. */
  datatype Outcome = Outcome(sourceCode: seq<byte>, structs: seq<StructShape>, mock: Mock, packageName: string,
                             err: Option<Error>, asked: nat, cache: map<string, StructShape>)

  /** The k-th reply read from the terminal; once the input is exhausted the read leaves
      the reply empty. */
  function Reply(replies: seq<string>, k: nat): string {
    if k < |replies| then replies[k] else ""
  }

  /** Some existing test's name contains the function's name. */
  predicate Overlaps(tests: map<string, string>, name: string) {
    exists t :: t in tests && Contains(t, name)
  }

  /** The overlap check is made only when no function was named and the map of existing
      tests is not nil. */
  predicate Checked(conf: Config, name: string) {
    conf.funcName == "" && conf.existingTests.Some? && Overlaps(conf.existingTests.value, name)
  }

  datatype Gate = Gate(proceed: bool, skipAll: bool, asked: nat)

  /** The overlap check for one function: every exit of the loop over the existing tests
      happens at the first test whose name contains the function's name, so the outcome
      does not depend on the map's iteration order. */
  function OverlapGate(conf: Config, replies: seq<string>, name: string, skipAll: bool, asked: nat): (g: Gate)
    ensures g.asked == asked || g.asked == asked + 1
    ensures !Checked(conf, name) ==> g == Gate(true, skipAll, asked)
  {
    if Checked(conf, name) then
      if skipAll then Gate(false, true, asked)
      else
        var reply := Reply(replies, asked);
        if reply == "y" || reply == "Y" then Gate(true, false, asked + 1)
        else if reply == "s" || reply == "S" then Gate(false, true, asked + 1)
        else Gate(false, false, asked + 1)
    else Gate(true, skipAll, asked)
  }

  /** The directory searched for a package imported as `path` (a quoted literal). */
  function PathDir(gopath: string, path: string): string {
    gopath + "/src/" + RemoveAll(path, "\"")
  }

  /** The qualifier of a parameter type `q.T` is a known import with a non-empty path
      (a missing key reads as the empty path). */
  predicate KnownQualifier(t: Expr, index: map<string, string>) {
    t.SelectorExpr? && t.x.Ident? && t.x.name in index && index[t.x.name] != ""
  }

  /** One parameter: `q.T` with a known qualifier is looked up in the imported package;
      a bare `T` is looked up in the cache under the package name followed by T. */
  function ParamStep(st: WalkState, field: Field, env: Env): WalkState {
    if st.err.Some? then st
    else
      var t := field.typ;
      if t.SelectorExpr? then
        if KnownQualifier(t, env.index) then
          var path := env.index[t.x.name];
          var w := ImportWalk(st.cache, WalkOf(env.fs, PathDir(env.gopath, path)), t.sel, path);
          if w.err.Some? then WalkState(st.structs, w.cache, w.err)
          else WalkState(st.structs + w.structs, w.cache, None)
        else st
      else if t.Ident? && env.pkg + t.name in st.cache then
        st.(structs := st.structs + [st.cache[env.pkg + t.name].(from := "same package")])
      else st
  }

  function ParamsScan(st: WalkState, params: seq<Field>, env: Env): WalkState {
    if params == [] then st
    else ParamStep(ParamsScan(st, params[..|params| - 1], env), params[|params| - 1], env)
  }

  /** One function declaration. */
  function FuncStep(sc: Scan, d: Decl, env: Env): Scan
    requires d.FuncDecl?
  {
    var sc1 := sc.(isAnyFunc := true);
    if env.conf.funcName != "" && env.conf.funcName != d.name then sc1
    else
      var g := OverlapGate(env.conf, env.replies, d.name, sc1.skipAll, sc1.asked);
      var sc2 := sc1.(skipAll := g.skipAll, asked := g.asked);
      if !g.proceed then sc2
      else
        var w := ParamsScan(WalkState(sc2.structs, sc2.cache, None), d.params, env);
        if w.err.Some? then sc2.(structs := w.structs, cache := w.cache, err := w.err)
        else sc2.(structs := w.structs, cache := w.cache, mock := Mock(env.conf.mockLib, env.conf.mockDir))
  }

  /** One declaration; after an error the function has returned. */
  function DeclStep(sc: Scan, d: Decl, env: Env): Scan {
    if sc.err.Some? || !d.FuncDecl? then sc else FuncStep(sc, d, env)
  }

  function ScanDecls(sc: Scan, decls: seq<Decl>, env: Env): Scan {
    if decls == [] then sc
    else DeclStep(ScanDecls(sc, decls[..|decls| - 1], env), decls[|decls| - 1], env)
  }

  /** The environment of a call on `file`. */
  function EnvOf(conf: Config, file: File, gopath: string, fs: FileSystem, replies: seq<string>): Env {
    Env(conf, file.pkg, ImportIndex(file.decls), gopath, fs, replies)
  }

  /** The state a call starts from: Go's zero values, and the skip-all latch cleared. */
  function Start(cache: map<string, StructShape>): Scan {
    Scan([], Mock("", ""), false, false, 0, cache, None)
  }

  /** readFileToPrompt on a parsed file whose bytes are `content`. */
  function Analyze(cache: map<string, StructShape>, conf: Config, file: File, content: Option<seq<byte>>,
                   gopath: string, fs: FileSystem, replies: seq<string>): Outcome
    requires content.Some? ==> file.startOffset <= file.endOffset <= |content.value|
  {
    var sc := ScanDecls(Start(cache), file.decls, EnvOf(conf, file, gopath, fs, replies));
    var source := if sc.isAnyFunc then SourceCode(content, file.startOffset, file.endOffset) else [];
    Outcome(source, sc.structs, sc.mock, file.pkg, sc.err, sc.asked, sc.cache)
  }

  /** The loop over a function's parameters. */
  method ScanParams(cache: StructCache, params: seq<Field>, structs: seq<Struct>, packageName: string,
                    importPath: map<string, string>, gopath: string, fs: FileSystem, ghost env: Env)
      returns (structs': seq<Struct>, err: Option<Error>)
    requires env.pkg == packageName && env.index == importPath && env.gopath == gopath && env.fs == fs
    modifies cache
    ensures WalkState(Shapes(structs'), cache.Model(), err)
         == ParamsScan(WalkState(Shapes(structs), old(cache.Model()), None), params, env)
    ensures old(cache.Valid()) ==> cache.Valid()
    ensures forall k :: k in old(cache.entries) ==> k in cache.entries && cache.entries[k] == old(cache.entries[k])
    ensures old(cache.Valid()) && FieldsDistinct(structs) ==> FieldsDistinct(structs')
  {
    ghost var start := WalkState(Shapes(structs), cache.Model(), None);
    ghost var wasValid := cache.Valid();
    ghost var wasDistinct := FieldsDistinct(structs);
    ghost var before := cache.entries;
    structs' := structs;
    err := None;
    var i := 0;
    while i < |params| && err.None?
      invariant 0 <= i <= |params|
      invariant WalkState(Shapes(structs'), cache.Model(), err) == ParamsScan(start, params[..i], env)
      invariant wasValid ==> cache.Valid()
      invariant wasValid && wasDistinct ==> FieldsDistinct(structs')
      invariant forall k :: k in before ==> k in cache.entries && cache.entries[k] == before[k]
      decreases |params| - i
    {
      ParamsScanStep(start, params, i, env);
      structs', err := ParamCallback(cache, params[i], structs', packageName, importPath, gopath, fs, env);
      i := i + 1;
    }
    if i < |params| {
      ParamsScanSticky(start, params, i, env);
    } else {
      assert params[..i] == params;
    }
  }

  lemma ParamsScanStep(st: WalkState, params: seq<Field>, i: nat, env: Env)
    requires i < |params|
    ensures ParamsScan(st, params[..i + 1], env) == ParamStep(ParamsScan(st, params[..i], env), params[i], env)
  {
    assert params[..i + 1][..i] == params[..i];
  }

  /** The body of the loop over a function's parameters. */
  method ParamCallback(cache: StructCache, field: Field, structs: seq<Struct>, packageName: string,
                       importPath: map<string, string>, gopath: string, fs: FileSystem, ghost env: Env)
      returns (structs': seq<Struct>, err: Option<Error>)
    requires env.pkg == packageName && env.index == importPath && env.gopath == gopath && env.fs == fs
    modifies cache
    ensures WalkState(Shapes(structs'), cache.Model(), err)
         == ParamStep(WalkState(Shapes(structs), old(cache.Model()), None), field, env)
    ensures old(cache.Valid()) ==> cache.Valid()
    ensures forall k :: k in old(cache.entries) ==> k in cache.entries && cache.entries[k] == old(cache.entries[k])
    ensures old(cache.Valid()) && FieldsDistinct(structs) ==> FieldsDistinct(structs')
  {
    structs' := structs;
    err := None;
    if field.typ.SelectorExpr? {
      var selExp := field.typ;
      if selExp.x.Ident? {
        var ident := selExp.x;
        if ident.name in importPath && importPath[ident.name] != "" {
          var pathDir := RemoveAll(importPath[ident.name], "\"");
          pathDir := gopath + "/src/" + pathDir;
          var found, e := GetStructFromImportPackage(cache, fs, pathDir, importPath[ident.name], selExp.sel);
          if e.Some? {
            err := e;
          } else {
            ShapesAppend(structs', found);
            structs' := structs' + found;
          }
        }
      }
    } else if field.typ.Ident? {
      var key := packageName + field.typ.name;
      if key in cache.entries {
        var s := cache.entries[key];
        s := s.(from := "same package");
        ShapesSnoc(structs', s);
        structs' := structs' + [s];
      }
    }
  }

  lemma {:induction false} ParamsScanSticky(st: WalkState, params: seq<Field>, i: nat, env: Env)
    requires i <= |params| && ParamsScan(st, params[..i], env).err.Some?
    ensures ParamsScan(st, params, env) == ParamsScan(st, params[..i], env)
    decreases |params|
  {
    if i < |params| {
      var n := |params| - 1;
      assert params[..n][..i] == params[..i];
      ParamsScanSticky(st, params[..n], i, env);
    } else {
      assert params[..i] == params;
    }
  }

  /** readFileToPrompt on a parsed file. `content` is what reading the file back
      returns, `gopath` the value of $GOPATH and `replies` the lines typed at the
      prompt; `asked` counts the prompts shown. */
  method ReadFileToPrompt(cache: StructCache, conf: Config, file: File, content: Option<seq<byte>>,
                          gopath: string, fs: FileSystem, replies: seq<string>)
      returns (promptResult: Template, packageName: string, err: Option<Error>, asked: nat)
    requires content.Some? ==> file.startOffset <= file.endOffset <= |content.value|
    modifies cache
    ensures Outcome(promptResult.sourceCode, Shapes(promptResult.structs), promptResult.mock, packageName, err, asked, cache.Model())
         == Analyze(old(cache.Model()), conf, file, content, gopath, fs, replies)
    ensures old(cache.Valid()) ==> cache.Valid() && FieldsDistinct(promptResult.structs)
    ensures forall k :: k in old(cache.entries) ==> k in cache.entries && cache.entries[k] == old(cache.entries[k])
  {
    promptResult := Template([], [], Mock("", ""));
    packageName := file.pkg;
    var sourceCode := SourceCode(content, file.startOffset, file.endOffset);
    if sourceCode != [] {
      promptResult := promptResult.(sourceCode := sourceCode);
    }
    var importPath := ReadImports(file.decls);
    var isAnyFunc;
    isAnyFunc, promptResult, err, asked := ScanFile(cache, conf, file.decls, promptResult, packageName, importPath,
                                                    gopath, fs, replies, EnvOf(conf, file, gopath, fs, replies));
    if err.None? && !isAnyFunc {
      promptResult := promptResult.(sourceCode := []);
    }
  }

  /** The loop `fileLoop` of readFileToPrompt over the file's declarations, from the
      zero state; on an error it returns at once, as the source does. */
  method ScanFile(cache: StructCache, conf: Config, decls: seq<Decl>, promptResult: Template, packageName: string,
                  importPath: map<string, string>, gopath: string, fs: FileSystem, replies: seq<string>, ghost env: Env)
      returns (isAnyFunc: bool, promptResult': Template, err: Option<Error>, asked: nat)
    requires env == Env(conf, packageName, importPath, gopath, fs, replies)
    requires promptResult.structs == [] && promptResult.mock == Mock("", "")
    modifies cache
    ensures promptResult'.sourceCode == promptResult.sourceCode
    ensures err.Some? ==> isAnyFunc
    ensures var sc := ScanDecls(Start(old(cache.Model())), decls, env);
      sc == Scan(Shapes(promptResult'.structs), promptResult'.mock, isAnyFunc, sc.skipAll, asked, cache.Model(), err)
    ensures old(cache.Valid()) ==> cache.Valid() && FieldsDistinct(promptResult'.structs)
    ensures forall k :: k in old(cache.entries) ==> k in cache.entries && cache.entries[k] == old(cache.entries[k])
  {
    ghost var start := Start(cache.Model());
    ghost var wasValid := cache.Valid();
    ghost var before := cache.entries;
    promptResult' := promptResult;
    var skipAll := false;
    isAnyFunc := false;
    asked := 0;
    err := None;
    for i := 0 to |decls|
      invariant promptResult'.sourceCode == promptResult.sourceCode && err.None?
      invariant Scan(Shapes(promptResult'.structs), promptResult'.mock, isAnyFunc, skipAll, asked, cache.Model(), None)
             == ScanDecls(start, decls[..i], env)
      invariant wasValid ==> cache.Valid() && FieldsDistinct(promptResult'.structs)
      invariant forall k :: k in before ==> k in cache.entries && cache.entries[k] == before[k]
    {
      ghost var sc := ScanDecls(start, decls[..i], env);
      ScanDeclsStep(start, decls, i, env);
      if decls[i].FuncDecl? {
        isAnyFunc := true;
        promptResult', skipAll, asked, err := ScanFunc(cache, conf, decls[i], promptResult', skipAll, asked, packageName,
                                                      importPath, gopath, fs, replies, env, sc);
        if err.Some? {
          ScanDeclsSticky(start, decls, i + 1, env);
          assert decls[..|decls|] == decls;
          return;
        }
      }
    }
    assert decls[..|decls|] == decls;
  }

  /** The body of `fileLoop` for a function declaration; a return without error is the
      source's `continue`. */
  method ScanFunc(cache: StructCache, conf: Config, funcDecl: Decl, promptResult: Template, skipAll: bool, asked: nat,
                  packageName: string, importPath: map<string, string>, gopath: string, fs: FileSystem,
                  replies: seq<string>, ghost env: Env, ghost sc: Scan)
      returns (promptResult': Template, skipAll': bool, asked': nat, err: Option<Error>)
    requires funcDecl.FuncDecl?
    requires env == Env(conf, packageName, importPath, gopath, fs, replies)
    requires sc == Scan(Shapes(promptResult.structs), promptResult.mock, sc.isAnyFunc, skipAll, asked, cache.Model(), None)
    modifies cache
    ensures promptResult'.sourceCode == promptResult.sourceCode
    ensures FuncStep(sc, funcDecl, env)
         == Scan(Shapes(promptResult'.structs), promptResult'.mock, true, skipAll', asked', cache.Model(), err)
    ensures old(cache.Valid()) ==> cache.Valid()
    ensures forall k :: k in old(cache.entries) ==> k in cache.entries && cache.entries[k] == old(cache.entries[k])
    ensures old(cache.Valid()) && FieldsDistinct(promptResult.structs) ==> FieldsDistinct(promptResult'.structs)
  {
    promptResult', skipAll', asked', err := promptResult, skipAll, asked, None;
    if conf.funcName != "" && conf.funcName != funcDecl.name {
      return;
    }
    if conf.funcName == "" && conf.existingTests.Some? {
      var proceed;
      proceed, skipAll', asked' := CheckExistingTests(conf, funcDecl.name, replies, skipAll, asked);
      if !proceed {
        return;
      }
    }
    var structs, e := ScanParams(cache, funcDecl.params, promptResult.structs, packageName, importPath, gopath, fs, env);
    promptResult' := promptResult.(structs := structs);
    FuncStepProceeds(sc, funcDecl, env, Shapes(structs), cache.Model(), e);
    if e.Some? {
      err := e;
      return;
    }
    promptResult' := promptResult'.(mock := Mock(conf.mockLib, conf.mockDir));
  }

  lemma ScanDeclsStep(sc: Scan, decls: seq<Decl>, i: nat, env: Env)
    requires i < |decls|
    ensures ScanDecls(sc, decls[..i + 1], env) == DeclStep(ScanDecls(sc, decls[..i], env), decls[i], env)
  {
    assert decls[..i + 1][..i] == decls[..i];
  }

  /** A function declaration that passes the name filter and the overlap check has its
      parameters scanned; the mock is set unless the scan failed. */
  lemma FuncStepProceeds(sc: Scan, d: Decl, env: Env, structs: seq<StructShape>, cache: map<string, StructShape>, err: Option<Error>)
    requires d.FuncDecl? && sc.err.None?
    requires !(env.conf.funcName != "" && env.conf.funcName != d.name)
    requires OverlapGate(env.conf, env.replies, d.name, sc.skipAll, sc.asked).proceed
    requires var g := OverlapGate(env.conf, env.replies, d.name, sc.skipAll, sc.asked);
      WalkState(structs, cache, err) == ParamsScan(WalkState(sc.structs, sc.cache, None), d.params, env)
    ensures var g := OverlapGate(env.conf, env.replies, d.name, sc.skipAll, sc.asked);
      FuncStep(sc, d, env)
      == if err.Some? then sc.(isAnyFunc := true, skipAll := g.skipAll, asked := g.asked, structs := structs, cache := cache, err := err)
         else sc.(isAnyFunc := true, skipAll := g.skipAll, asked := g.asked, structs := structs, cache := cache, mock := Mock(env.conf.mockLib, env.conf.mockDir))
  {
  }

  /** The loop of readFileToPrompt over the existing tests, for the function `name`:
      at the first test whose name contains `name` it skips the function when the
      skip-all latch is set, and otherwise prompts and reads a reply. `proceed` is false
      where the source continues with the next declaration. */
  method CheckExistingTests(conf: Config, name: string, replies: seq<string>, skipAll: bool, asked: nat)
      returns (proceed: bool, skipAll': bool, asked': nat)
    requires conf.funcName == "" && conf.existingTests.Some?
    ensures Gate(proceed, skipAll', asked') == OverlapGate(conf, replies, name, skipAll, asked)
  {
    var tests := conf.existingTests.value;
    proceed, skipAll', asked' := true, skipAll, asked;
    var rest := tests.Keys;
    while rest != {}
      invariant rest <= tests.Keys
      invariant forall t :: t in tests && t !in rest ==> !Contains(t, name)
      decreases |rest|
    {
      var testName :| testName in rest;
      if Contains(testName, name) {
        if skipAll' {
          proceed := false;
          return;
        }
        var stillGen := if asked' < |replies| then replies[asked'] else "";
        asked' := asked' + 1;
        if stillGen == "y" || stillGen == "Y" {
          return;
        } else if stillGen == "s" || stillGen == "S" {
          proceed, skipAll' := false, true;
          return;
        } else {
          proceed := false;
          return;
        }
      }
      rest := rest - {testName};
    }
  }

  lemma ScanDeclsSticky(sc: Scan, decls: seq<Decl>, i: nat, env: Env)
    requires i <= |decls| && ScanDecls(sc, decls[..i], env).err.Some?
    ensures ScanDecls(sc, decls, env) == ScanDecls(sc, decls[..i], env)
  {
    assert decls == decls[..i] + decls[i..];
    ScanDeclsSplit(sc, decls[..i], decls[i..], env);
    ScanStopsAtError(ScanDecls(sc, decls[..i], env), decls[i..], env);
  }

  // Properties of the scan.

  lemma {:induction false} ScanAnyFunc(sc: Scan, decls: seq<Decl>, env: Env)
    requires sc.err.Some? ==> sc.isAnyFunc
    ensures ScanDecls(sc, decls, env).err.Some? ==> ScanDecls(sc, decls, env).isAnyFunc
    ensures ScanDecls(sc, decls, env).isAnyFunc <==> sc.isAnyFunc || HasFunc(decls)
  {
    if decls != [] {
      var n := |decls| - 1;
      ScanAnyFunc(sc, decls[..n], env);
      DeclStepAnyFunc(ScanDecls(sc, decls[..n], env), decls[n], env);
      HasFuncSnoc(decls);
    }
  }

  // The cache across a call.

  /** One parameter keeps every cached entry as it was, and keeps every entry stored
      under its struct's name with an empty `from`. */
  lemma ParamStepCache(st: WalkState, field: Field, env: Env)
    ensures KeepsEntries(st.cache, ParamStep(st, field, env).cache)
    ensures CacheInvariant(st.cache) ==> CacheInvariant(ParamStep(st, field, env).cache)
  {
    var t := field.typ;
    if st.err.None? && KnownQualifier(t, env.index) {
      var path := env.index[t.x.name];
      ImportWalkCache(st.cache, WalkOf(env.fs, PathDir(env.gopath, path)), t.sel, path);
    }
  }

  lemma {:induction false} ParamsScanCache(st: WalkState, params: seq<Field>, env: Env)
    ensures KeepsEntries(st.cache, ParamsScan(st, params, env).cache)
    ensures CacheInvariant(st.cache) ==> CacheInvariant(ParamsScan(st, params, env).cache)
  {
    if params != [] {
      var n := |params| - 1;
      ParamsScanCache(st, params[..n], env);
      ParamStepCache(ParamsScan(st, params[..n], env), params[n], env);
    }
  }

  lemma {:induction false} ScanDeclsCache(sc: Scan, decls: seq<Decl>, env: Env)
    ensures KeepsEntries(sc.cache, ScanDecls(sc, decls, env).cache)
    ensures CacheInvariant(sc.cache) ==> CacheInvariant(ScanDecls(sc, decls, env).cache)
  {
    if decls != [] {
      var n := |decls| - 1;
      ScanDeclsCache(sc, decls[..n], env);
      DeclStepCache(ScanDecls(sc, decls[..n], env), decls[n], env);
    }
  }

  lemma DeclStepCache(sc: Scan, d: Decl, env: Env)
    ensures KeepsEntries(sc.cache, DeclStep(sc, d, env).cache)
    ensures CacheInvariant(sc.cache) ==> CacheInvariant(DeclStep(sc, d, env).cache)
  {
    if sc.err.None? && d.FuncDecl? {
      ParamsScanCache(WalkState(sc.structs, sc.cache, None), d.params, env);
    }
  }

  /** A call never drops or replaces a cached struct, and keeps the cache invariant. */
  lemma AnalyzeCache(cache: map<string, StructShape>, conf: Config, file: File, content: Option<seq<byte>>,
                     gopath: string, fs: FileSystem, replies: seq<string>)
    requires content.Some? ==> file.startOffset <= file.endOffset <= |content.value|
    ensures KeepsEntries(cache, Analyze(cache, conf, file, content, gopath, fs, replies).cache)
    ensures CacheInvariant(cache) ==> CacheInvariant(Analyze(cache, conf, file, content, gopath, fs, replies).cache)
  {
    ScanDeclsCache(Start(cache), file.decls, EnvOf(conf, file, gopath, fs, replies));
  }

  /** The file declares a function. */
  predicate HasFunc(decls: seq<Decl>) {
    exists i :: 0 <= i < |decls| && decls[i].FuncDecl?
  }

  lemma HasFuncSnoc(decls: seq<Decl>)
    requires decls != []
    ensures HasFunc(decls) <==> HasFunc(decls[..|decls| - 1]) || decls[|decls| - 1].FuncDecl?
  {
    var n := |decls| - 1;
    if HasFunc(decls[..n]) {
      var i :| 0 <= i < n && decls[..n][i].FuncDecl?;
      assert decls[i] == decls[..n][i];
    }
    if HasFunc(decls) {
      var i :| 0 <= i < |decls| && decls[i].FuncDecl?;
      if i < n {
        assert decls[..n][i] == decls[i];
      }
    }
  }

  /** One declaration step sets the flag exactly on a function declaration, and only
      a function declaration can fail. */
  lemma DeclStepAnyFunc(sc: Scan, d: Decl, env: Env)
    requires sc.err.Some? ==> sc.isAnyFunc
    ensures DeclStep(sc, d, env).err.Some? ==> DeclStep(sc, d, env).isAnyFunc
    ensures DeclStep(sc, d, env).isAnyFunc <==> sc.isAnyFunc || d.FuncDecl?
  {
  }

  /** The source text is kept exactly when the file declares a function. */
  lemma AnalyzeSourceCode(cache: map<string, StructShape>, conf: Config, file: File, content: Option<seq<byte>>,
                          gopath: string, fs: FileSystem, replies: seq<string>)
    requires content.Some? ==> file.startOffset <= file.endOffset <= |content.value|
    ensures Analyze(cache, conf, file, content, gopath, fs, replies).sourceCode
         == if HasFunc(file.decls) then SourceCode(content, file.startOffset, file.endOffset) else []
  {
    ScanAnyFunc(Start(cache), file.decls, EnvOf(conf, file, gopath, fs, replies));
  }

  /** After an error the scan has returned: nothing changes any more. */
  lemma {:induction false} ScanStopsAtError(sc: Scan, decls: seq<Decl>, env: Env)
    requires sc.err.Some?
    ensures ScanDecls(sc, decls, env) == sc
  {
    if decls != [] {
      ScanStopsAtError(sc, decls[..|decls| - 1], env);
    }
  }

  /** The declarations of the functions named `name`, in order. */
  function Named(decls: seq<Decl>, name: string): (r: seq<Decl>)
    ensures forall d :: d in r ==> d.FuncDecl? && d.name == name && d in decls
    ensures forall i :: 0 <= i < |decls| && decls[i].FuncDecl? && decls[i].name == name ==> decls[i] in r
  {
    if decls == [] then []
    else
      var d := decls[|decls| - 1];
      assert forall i :: 0 <= i < |decls| - 1 ==> decls[..|decls| - 1][i] == decls[i];
      Named(decls[..|decls| - 1], name) + (if d.FuncDecl? && d.name == name then [d] else [])
  }

  /** Whether the scan has seen a function is the only part of the state the steps copy
      without looking at it. */
  lemma DeclStepIgnoresAnyFunc(sc: Scan, d: Decl, env: Env, b: bool)
    ensures DeclStep(sc.(isAnyFunc := b), d, env).(isAnyFunc := false)
         == DeclStep(sc, d, env).(isAnyFunc := false)
  {
  }

  lemma {:induction false} ScanIgnoresAnyFunc(sc: Scan, decls: seq<Decl>, env: Env, b: bool)
    ensures ScanDecls(sc.(isAnyFunc := b), decls, env).(isAnyFunc := false)
         == ScanDecls(sc, decls, env).(isAnyFunc := false)
  {
    if decls != [] {
      var n := |decls| - 1;
      ScanIgnoresAnyFunc(sc, decls[..n], env, b);
      var p := ScanDecls(sc, decls[..n], env);
      var q := ScanDecls(sc.(isAnyFunc := b), decls[..n], env);
      assert q == p.(isAnyFunc := q.isAnyFunc);
      DeclStepIgnoresAnyFunc(p, decls[n], env, q.isAnyFunc);
    }
  }

  /** With a function name configured, only the functions of that exact name
      contribute: apart from whether a function was seen, the scan ends as if the file
      declared nothing else. */
  lemma {:induction false} NamedSelection(sc: Scan, decls: seq<Decl>, env: Env)
    requires env.conf.funcName != ""
    ensures ScanDecls(sc, decls, env).(isAnyFunc := false)
         == ScanDecls(sc, Named(decls, env.conf.funcName), env).(isAnyFunc := false)
  {
    if decls != [] {
      var n := |decls| - 1;
      var d := decls[n];
      var name := env.conf.funcName;
      NamedSelection(sc, decls[..n], env);
      var p := ScanDecls(sc, decls[..n], env);
      var named := Named(decls[..n], name);
      var q := ScanDecls(sc, named, env);
      assert q == p.(isAnyFunc := q.isAnyFunc);
      if d.FuncDecl? && d.name == name {
        assert Named(decls, name) == named + [d];
        ScanDeclsSnoc(sc, named, d, env);
        DeclStepIgnoresAnyFunc(p, d, env, q.isAnyFunc);
      } else {
        assert Named(decls, name) == named + [] == named;
        DeclStepUnnamed(p, d, env);
      }
    }
  }

  lemma ScanDeclsSnoc(sc: Scan, decls: seq<Decl>, d: Decl, env: Env)
    ensures ScanDecls(sc, decls + [d], env) == DeclStep(ScanDecls(sc, decls, env), d, env)
  {
    assert (decls + [d])[..|decls|] == decls;
  }

  /** With a function name configured, a declaration of another name only records that
      a function was seen. */
  lemma DeclStepUnnamed(sc: Scan, d: Decl, env: Env)
    requires env.conf.funcName != "" && !(d.FuncDecl? && d.name == env.conf.funcName)
    ensures DeclStep(sc, d, env).(isAnyFunc := false) == sc.(isAnyFunc := false)
  {
  }

  /** With a function name configured no prompt is shown and the latch never moves. */
  lemma {:induction false} NamedNeverPrompts(sc: Scan, decls: seq<Decl>, env: Env)
    requires env.conf.funcName != ""
    ensures ScanDecls(sc, decls, env).asked == sc.asked
    ensures ScanDecls(sc, decls, env).skipAll == sc.skipAll
  {
    if decls != [] {
      NamedNeverPrompts(sc, decls[..|decls| - 1], env);
    }
  }

  /** A configured function name that the file does not declare gives no structs, no
      mock, no error and leaves the cache alone. */
  lemma NamedAbsent(cache: map<string, StructShape>, conf: Config, file: File, content: Option<seq<byte>>,
                    gopath: string, fs: FileSystem, replies: seq<string>)
    requires content.Some? ==> file.startOffset <= file.endOffset <= |content.value|
    requires conf.funcName != ""
    requires forall i :: 0 <= i < |file.decls| && file.decls[i].FuncDecl? ==> file.decls[i].name != conf.funcName
    ensures var r := Analyze(cache, conf, file, content, gopath, fs, replies);
      r.structs == [] && r.mock == Mock("", "") && r.err.None? && r.cache == cache && r.asked == 0
  {
    var env := EnvOf(conf, file, gopath, fs, replies);
    NamedSelection(Start(cache), file.decls, env);
    NamedNone(file.decls, conf.funcName);
  }

  /** A name no function of the file has selects nothing. */
  lemma {:induction false} NamedNone(decls: seq<Decl>, name: string)
    requires forall i :: 0 <= i < |decls| && decls[i].FuncDecl? ==> decls[i].name != name
    ensures Named(decls, name) == []
  {
    if decls != [] {
      var n := |decls| - 1;
      assert forall i :: 0 <= i < n ==> decls[..n][i] == decls[i];
      NamedNone(decls[..n], name);
    }
  }

  /** Selecting by name keeps the declarations' order: the selection of a concatenation
      is the concatenation of the selections. */
  lemma {:induction false} NamedAppend(a: seq<Decl>, b: seq<Decl>, name: string)
    ensures Named(a + b, name) == Named(a, name) + Named(b, name)
  {
    if b == [] {
      assert a + b == a;
    } else {
      var n := |b| - 1;
      assert (a + b)[..|a + b| - 1] == a + b[..n];
      assert (a + b)[|a + b| - 1] == b[n];
      NamedAppend(a, b[..n], name);
      AppendAssoc(Named(a, name), Named(b[..n], name), if b[n].FuncDecl? && b[n].name == name then [b[n]] else []);
    }
  }

  /** A single declaration is selected exactly when it is a function of that name. */
  lemma NamedOne(d: Decl, name: string)
    ensures Named([d], name) == if d.FuncDecl? && d.name == name then [d] else []
  {
    assert [d][..0] == [];
  }

  /** The overlap check for a function whose name some existing test contains, with the
      latch clear: it reads the next reply; "y" or "Y" goes on to the parameters, "s" or
      "S" sets the latch and skips the function, anything else skips it. A skipped
      function adds no struct, leaves the mock and the cache alone. */
  lemma FuncStepReply(sc: Scan, d: Decl, env: Env)
    requires d.FuncDecl? && sc.err.None? && !sc.skipAll && Checked(env.conf, d.name)
    ensures var r := Reply(env.replies, sc.asked);
      var next := FuncStep(sc, d, env);
      && next.asked == sc.asked + 1 && next.isAnyFunc
      && ((r == "y" || r == "Y") ==>
            var w := ParamsScan(WalkState(sc.structs, sc.cache, None), d.params, env);
            && !next.skipAll && next.structs == w.structs && next.cache == w.cache && next.err == w.err
            && next.mock == (if w.err.Some? then sc.mock else Mock(env.conf.mockLib, env.conf.mockDir)))
      && (!(r == "y" || r == "Y") ==>
            next == sc.(isAnyFunc := true, asked := sc.asked + 1, skipAll := (r == "s" || r == "S")))
  {
  }

  /** Once the latch is set, an overlapping function is skipped without a prompt. */
  lemma FuncStepLatched(sc: Scan, d: Decl, env: Env)
    requires d.FuncDecl? && sc.err.None? && sc.skipAll && Checked(env.conf, d.name)
    ensures FuncStep(sc, d, env) == sc.(isAnyFunc := true)
  {
  }

  /** Once set, the latch stays set for the rest of the call, and no prompt is shown any
      more. */
  lemma {:induction false} LatchSticks(sc: Scan, decls: seq<Decl>, env: Env)
    requires sc.skipAll
    ensures ScanDecls(sc, decls, env).skipAll
    ensures ScanDecls(sc, decls, env).asked == sc.asked
  {
    if decls != [] {
      LatchSticks(sc, decls[..|decls| - 1], env);
    }
  }

  lemma {:induction false} AskedGrows(sc: Scan, decls: seq<Decl>, env: Env)
    ensures ScanDecls(sc, decls, env).asked >= sc.asked
  {
    if decls != [] {
      AskedGrows(sc, decls[..|decls| - 1], env);
      DeclStepAsked(ScanDecls(sc, decls[..|decls| - 1], env), decls[|decls| - 1], env);
    }
  }

  lemma DeclStepAsked(sc: Scan, d: Decl, env: Env)
    ensures DeclStep(sc, d, env).asked >= sc.asked
  {
  }

  /** Only a reply of "s" or "S" sets the latch. */
  lemma {:induction false} LatchOnlyByS(sc: Scan, decls: seq<Decl>, env: Env)
    requires !sc.skipAll && ScanDecls(sc, decls, env).skipAll
    ensures exists k :: sc.asked <= k < ScanDecls(sc, decls, env).asked
                        && (Reply(env.replies, k) == "s" || Reply(env.replies, k) == "S")
  {
    var n := |decls| - 1;
    var p := ScanDecls(sc, decls[..n], env);
    AskedGrows(sc, decls[..n], env);
    if p.skipAll {
      LatchOnlyByS(sc, decls[..n], env);
    } else {
      DeclStepLatch(p, decls[n], env);
    }
  }

  /** A step that sets the latch read a reply of "s" or "S". */
  lemma DeclStepLatch(sc: Scan, d: Decl, env: Env)
    requires !sc.skipAll && DeclStep(sc, d, env).skipAll
    ensures DeclStep(sc, d, env).asked == sc.asked + 1
    ensures Reply(env.replies, sc.asked) == "s" || Reply(env.replies, sc.asked) == "S"
  {
  }

  /** The latch belongs to one call: a call starts with it clear, so when the file's
      first declaration is a function some existing test overlaps, the call prompts, and
      the first reply decides. */
  lemma LatchIsPerCall(cache: map<string, StructShape>, conf: Config, file: File, content: Option<seq<byte>>,
                       gopath: string, fs: FileSystem, replies: seq<string>)
    requires content.Some? ==> file.startOffset <= file.endOffset <= |content.value|
    requires |file.decls| > 0 && file.decls[0].FuncDecl? && Checked(conf, file.decls[0].name)
    ensures Analyze(cache, conf, file, content, gopath, fs, replies).asked >= 1
  {
    var env := EnvOf(conf, file, gopath, fs, replies);
    var head := file.decls[..1];
    var first := ScanDecls(Start(cache), head, env);
    assert |head| == 1 && head[..0] == [] && head[0] == file.decls[0];
    assert ScanDecls(Start(cache), head[..0], env) == Start(cache);
    assert first == DeclStep(Start(cache), file.decls[0], env);
    FuncStepReply(Start(cache), file.decls[0], env);
    assert file.decls == head + file.decls[1..];
    ScanDeclsSplit(Start(cache), head, file.decls[1..], env);
    AskedGrows(first, file.decls[1..], env);
  }

  lemma {:induction false} ScanDeclsSplit(sc: Scan, a: seq<Decl>, b: seq<Decl>, env: Env)
    ensures ScanDecls(sc, a + b, env) == ScanDecls(ScanDecls(sc, a, env), b, env)
  {
    if b == [] {
      assert a + b == a;
    } else {
      var n := |b| - 1;
      assert a + b == (a + b[..n]) + [b[n]] && b == b[..n] + [b[n]];
      ScanDeclsSnoc(sc, a + b[..n], b[n], env);
      ScanDeclsSnoc(ScanDecls(sc, a, env), b[..n], b[n], env);
      ScanDeclsSplit(sc, a, b[..n], env);
    }
  }

  // Properties of the parameter dispatch.

  /** A parameter that makes a lookup: `q.T` with a known qualifier, or a bare `T`
      cached under the package name followed by T. */
  predicate Contributes(f: Field, env: Env, cache: map<string, StructShape>) {
    KnownQualifier(f.typ, env.index) || (f.typ.Ident? && env.pkg + f.typ.name in cache)
  }

  /** Parameters of any other shape, and qualifiers that are not known imports,
      contribute nothing. */
  lemma {:induction false} ParamsScanInert(st: WalkState, params: seq<Field>, env: Env)
    requires forall i :: 0 <= i < |params| ==> !Contributes(params[i], env, st.cache)
    ensures ParamsScan(st, params, env) == st
  {
    if params != [] {
      ParamsScanInert(st, params[..|params| - 1], env);
    }
  }

  /** Bare type names never walk a directory: the cache is left alone, and every struct
      they add is marked as coming from the same package. */
  lemma {:induction false} ParamsScanSamePackage(st: WalkState, params: seq<Field>, env: Env)
    requires forall i :: 0 <= i < |params| ==> params[i].typ.Ident?
    ensures ParamsScan(st, params, env).cache == st.cache
    ensures ParamsScan(st, params, env).err == st.err
    ensures |st.structs| <= |ParamsScan(st, params, env).structs| <= |st.structs| + |params|
    ensures ParamsScan(st, params, env).structs[..|st.structs|] == st.structs
    ensures forall k :: |st.structs| <= k < |ParamsScan(st, params, env).structs| ==>
      ParamsScan(st, params, env).structs[k].from == "same package"
  {
    if params != [] {
      ParamsScanSamePackage(st, params[..|params| - 1], env);
    }
  }

  /** A lookup that fails returns the error at once: the structs of the failed walk are
      dropped, while what the walk cached stays cached. */
  lemma ParamStepFailure(st: WalkState, field: Field, env: Env)
    requires st.err.None? && KnownQualifier(field.typ, env.index)
    requires ImportWalk(st.cache, WalkOf(env.fs, PathDir(env.gopath, env.index[field.typ.x.name])),
                        field.typ.sel, env.index[field.typ.x.name]).err.Some?
    ensures ParamStep(st, field, env).structs == st.structs
    ensures ParamStep(st, field, env).err.Some?
    ensures ParamStep(st, field, env).cache
         == ImportWalk(st.cache, WalkOf(env.fs, PathDir(env.gopath, env.index[field.typ.x.name])),
                       field.typ.sel, env.index[field.typ.x.name]).cache
  {
  }

  /** The directory searched for an import "p" is $GOPATH/src/p. */
  lemma PathDirOfImport(gopath: string, p: string)
    requires '"' !in p
    ensures PathDir(gopath, "\"" + p + "\"") == gopath + "/src/" + p
  {
    assert "\"" + p + "\"" == "\"" + (p + "\"");
    RemoveLeadingQuote(p + "\"");
    RemoveTrailingQuote(p);
  }

  // A worked example: package a imports "other/b" and declares func F(x b.User); with
  // GOPATH /go, the directory /go/src/other/b holds user.go, which declares
  // type User struct { Name string; Age int }.

  function UserFile(): File {
    File("b", [GenDecl(TYPE, [TypeSpec("User", StructType([Field(["Name"], Ident("string")), Field(["Age"], Ident("int"))]))])], 0, 0)
  }

  function CallerFile(): File {
    File("a", [GenDecl(IMPORT, [ImportSpec(None, "\"other/b\"")]),
               FuncDecl("F", [Field(["x"], SelectorExpr(Ident("b"), "User"))])], 0, 0)
  }

  function PackageTree(): FileSystem {
    map["/go/src/other/b" := [Visit("/go/src/other/b", true, Unparsable),
                              Visit("/go/src/other/b/user.go", false, Parsed(UserFile()))]]
  }

  function UserShape(): StructShape {
    StructShape("User", "", map["Name" := "string", "Age" := "int"])
  }

  function ExampleEnv(): Env {
    EnvOf(Config("", "", "", None), CallerFile(), "/go", PackageTree(), [])
  }

  lemma QuotedPathLiteral()
    ensures "\"" + "other" + "/" + "b" + "\"" == "\"other/b\""
    ensures "\"" + "other/b" + "\"" == "\"other/b\""
    ensures "/go" + "/src/" + "other/b" == "/go/src/other/b"
  {
  }

  lemma ExampleKey()
    ensures ImportKey(ImportSpec(None, "\"other/b\"")) == "b"
  {
    QuotedPathLiteral();
    ImportKeyOfPath("other", "b");
  }

  lemma ExampleWrites()
    ensures ImportWrites(CallerFile().decls) == [("b", "\"other/b\"")]
  {
    var decls := CallerFile().decls;
    ExampleSpecWrites();
    ImportThenOther(decls[0], decls[1]);
    assert decls == [decls[0], decls[1]];
  }

  lemma ExampleSpecWrites()
    ensures Imports.SpecWrites([ImportSpec(None, "\"other/b\"")]) == [("b", "\"other/b\"")]
  {
    ExampleKey();
    OneImportSpec(ImportSpec(None, "\"other/b\""));
  }

  lemma ExampleIndex()
    ensures ImportIndex(CallerFile().decls) == map["b" := "\"other/b\""]
  {
    var p := ("b", "\"other/b\"");
    ExampleWrites();
    MapOfPairsSnoc([], p);
    assert [] + [p] == [p];
  }

  lemma ExamplePathDir()
    ensures PathDir("/go", "\"other/b\"") == "/go/src/other/b"
  {
    QuotedPathLiteral();
    PathDirOfImport("/go", "other/b");
  }

  lemma ExampleFields()
    ensures StructFieldMap(UserFile().decls, "User") == UserShape().fields
  {
    var decls := UserFile().decls;
    var spec := decls[0].specs[0];
    var name := ("Name", "string");
    var age := ("Age", "int");
    assert decls == [decls[0]] && decls[0].specs == [spec];
    assert NameWrites(["Name"], "string") == [name];
    assert NameWrites(["Age"], "int") == [age];
    FieldListWritesPair(Field(["Name"], Ident("string")), Field(["Age"], Ident("int")));
    DeclListWritesSingle(decls[0], spec, "User");
    assert DeclListWrites(decls, "User") == [name] + [age];
    MapOfPairsSnoc([], name);
    MapOfPairsSnoc([name], age);
    assert [] + [name] == [name];
  }

  lemma ExampleWalk()
    ensures ImportWalk(map[], PackageTree()["/go/src/other/b"], "User", "\"other/b\"")
         == WalkState([UserShape().(from := "\"other/b\"")], map["User" := UserShape()], None)
  {
    var entries := PackageTree()["/go/src/other/b"];
    var start := WalkState([], map[], None);
    assert ImportWalk(map[], entries[..0], "User", "\"other/b\"") == start;
    ImportWalkStep(map[], entries, 0, "User", "\"other/b\"");
    assert ImportWalk(map[], entries[..1], "User", "\"other/b\"") == start;
    ImportWalkStep(map[], entries, 1, "User", "\"other/b\"");
    assert entries[..2] == entries;
    ExtGo("/go/src/other/b/user.go");
    ExampleFields();
    assert VisitParsed(start, UserFile(), "User", "\"other/b\"")
        == WalkState([UserShape().(from := "\"other/b\"")], map["User" := UserShape()], None);
  }

  lemma ExampleParams()
    ensures ParamsScan(WalkState([], map[], None), CallerFile().decls[1].params, ExampleEnv())
         == WalkState([UserShape().(from := "\"other/b\"")], map["User" := UserShape()], None)
  {
    var params := CallerFile().decls[1].params;
    assert params[..0] == [];
    ExampleIndex();
    ExamplePathDir();
    ExampleWalk();
  }

  /** With an empty cache and no existing tests, the call returns one struct User with
      fields Name and Age, from the quoted import path, and caches it without a `from`. */
  lemma ImportedParameterExample(content: Option<seq<byte>>)
    ensures var r := Analyze(map[], Config("", "", "", None), CallerFile(), content, "/go", PackageTree(), []);
      && r.structs == [UserShape().(from := "\"other/b\"")]
      && r.cache == map["User" := UserShape()]
      && r.err.None? && r.asked == 0 && r.packageName == "a" && r.mock == Mock("", "")
  {
    var decls := CallerFile().decls;
    var env := ExampleEnv();
    var sc0 := Start(map[]);
    var w := WalkState([UserShape().(from := "\"other/b\"")], map["User" := UserShape()], None);
    assert ScanDecls(sc0, decls[..1], env) == sc0 by {
      assert decls[..1][..0] == [];
      assert decls[..1][0] == decls[0];
    }
    assert OverlapGate(env.conf, env.replies, "F", false, 0) == Gate(true, false, 0);
    assert ParamsScan(WalkState([], map[], None), decls[1].params, env) == w by {
      ExampleParams();
    }
    assert FuncStep(sc0, decls[1], env) == sc0.(isAnyFunc := true, structs := w.structs, cache := w.cache);
    assert ScanDecls(sc0, decls, env) == sc0.(isAnyFunc := true, structs := w.structs, cache := w.cache) by {
      assert decls[..|decls| - 1] == decls[..1];
    }
  }
}
