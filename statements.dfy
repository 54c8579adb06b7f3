/** getStructFromStatement (parser/ast.go): resolving the struct types of `var`
    declarations of the form `var x pkg.T`, through the same struct cache. */
module Statements {
  import opened Wrappers
  import opened GoAst
  import opened GoFilepath
  import opened GoStrings
  import opened Prompt
  import opened StructFields
  import opened Resolver

  /** The callback ignores the error the walk reports and asks the file info whether
      the path is a directory; a call without file info would dereference nil, so
      every failure of a walk this function makes must carry its info. */
  predicate FailuresHaveInfo(entries: seq<WalkEntry>) {
    forall i :: 0 <= i < |entries| && entries[i].Failure? ==> entries[i].hasInfo
  }

  /** One call of getStructFromStatement's callback. A failure comes for a directory,
      which is skipped; nothing sets `from`. */
  function StatementVisit(st: WalkState, e: WalkEntry, structName: string): WalkState
    requires e.Failure? ==> e.hasInfo
  {
    if st.err.Some? then st
    else match e
      case Failure(_, _) => st
      case Visit(path, isDir, parsed) =>
        if isDir || Ext(path) != ".go" then st
        else match parsed
          case Unparsable => st.(err := Some(ParseError(path)))
          case Parsed(file) => StatementParsed(st, file, structName)
  }

  /** The callback on a Go file that parses: as in getStructFromImportPackage, but the
      struct is appended as cached or built, without setting `from`. */
  function StatementParsed(st: WalkState, file: File, structName: string): WalkState {
    if structName in st.cache then
      st.(structs := st.structs + [st.cache[structName]])
    else
      var s := StructShape(structName, "", StructFieldMap(file.decls, structName));
      st.(structs := st.structs + [s], cache := st.cache[structName := s])
  }

  /** A walk of the callback over `entries`, continuing from `st`. */
  function StatementWalk(st: WalkState, entries: seq<WalkEntry>, structName: string): WalkState
    requires FailuresHaveInfo(entries)
  {
    if entries == [] then st
    else
      var n := |entries| - 1;
      assert FailuresHaveInfo(entries[..n]) by {
        forall i | 0 <= i < n ensures entries[..n][i] == entries[i] { }
      }
      StatementVisit(StatementWalk(st, entries[..n], structName), entries[n], structName)
  }

  /** The directory a value spec makes the function walk: the quoted import path of
      the qualifier of its type `q.T`, when that path is not empty. */
  function StatementRoot(s: Spec, index: map<string, string>): Option<string> {
    if s.ValueSpec? && s.declared.Some? && s.declared.value.SelectorExpr?
       && s.declared.value.x.Ident? && s.declared.value.x.name in index
       && index[s.declared.value.x.name] != ""
    then Some(index[s.declared.value.x.name])
    else None
  }

  /** The walks a declaration makes carry file info for every failure. */
  predicate WalksHaveInfo(decl: Decl, index: map<string, string>, fs: FileSystem) {
    decl.GenDecl? ==>
      forall s :: s in decl.specs && StatementRoot(s, index).Some? ==>
        FailuresHaveInfo(WalkOf(fs, StatementRoot(s, index).value))
  }

  /** The walk is made once per declared name. */
  function RepeatWalk(st: WalkState, n: nat, s: Spec, index: map<string, string>, fs: FileSystem): WalkState
    requires StatementRoot(s, index).Some? ==> FailuresHaveInfo(WalkOf(fs, StatementRoot(s, index).value))
  {
    if n == 0 then st
    else
      var prev := RepeatWalk(st, n - 1, s, index, fs);
      if prev.err.Some? || StatementRoot(s, index).None? then prev
      else StatementWalk(prev, WalkOf(fs, StatementRoot(s, index).value), s.declared.value.sel)
  }

  function SpecsWalk(st: WalkState, specs: seq<Spec>, index: map<string, string>, fs: FileSystem): WalkState
    requires forall s :: s in specs && StatementRoot(s, index).Some? ==>
      FailuresHaveInfo(WalkOf(fs, StatementRoot(s, index).value))
  {
    if specs == [] then st
    else
      var n := |specs| - 1;
      var prev := SpecsWalk(st, specs[..n], index, fs);
      if specs[n].ValueSpec? then RepeatWalk(prev, |specs[n].names|, specs[n], index, fs) else prev
  }

  /** What getStructFromStatement returns and leaves in the cache: on an error the
      structs are dropped (Go returns nil with the error). */
  function StatementResult(cache: map<string, StructShape>, decl: Decl, index: map<string, string>, fs: FileSystem): (r: WalkState)
    requires WalksHaveInfo(decl, index, fs)
    ensures r.err.Some? ==> r.structs == []
  {
    if decl.GenDecl? && decl.tok == VAR then
      var st := SpecsWalk(WalkState([], cache, None), decl.specs, index, fs);
      if st.err.Some? then st.(structs := []) else st
    else WalkState([], cache, None)
  }

  /** getStructFromStatement. */
  method GetStructFromStatement(cache: StructCache, decl: Decl, importPath: map<string, string>, fs: FileSystem)
      returns (structs: seq<Struct>, err: Option<Error>)
    requires WalksHaveInfo(decl, importPath, fs)
    modifies cache
    ensures WalkState(Shapes(structs), cache.Model(), err) == StatementResult(old(cache.Model()), decl, importPath, fs)
    ensures old(cache.Valid()) ==> cache.Valid() && FieldsDistinct(structs) && CachedByName(structs, cache.entries)
    ensures forall k :: k in old(cache.entries) ==> k in cache.entries && cache.entries[k] == old(cache.entries[k])
    ensures err.Some? ==> structs == []
  {
    structs := [];
    err := None;
    ghost var start := cache.Model();
    ghost var wasValid := cache.Valid();
    ghost var before := cache.entries;
    if decl.GenDecl? && decl.tok == VAR {
      var genDecl := decl;
      for j := 0 to |genDecl.specs|
        invariant err.None? && (wasValid ==> cache.Valid() && FieldsDistinct(structs) && CachedByName(structs, cache.entries))
        invariant forall k :: k in before ==> k in cache.entries && cache.entries[k] == before[k]
        invariant WalkState(Shapes(structs), cache.Model(), None) == SpecsWalk(WalkState([], start, None), genDecl.specs[..j], importPath, fs)
      {
        SpecsWalkStep(WalkState([], start, None), genDecl.specs, j, importPath, fs);
        var spec := genDecl.specs[j];
        if spec.ValueSpec? {
          assert spec in genDecl.specs;
          structs, err := WalkForSpec(cache, spec, importPath, fs, structs);
          if err.Some? {
            ghost var failed := WalkState(Shapes(structs), cache.Model(), err);
            structs := [];
            SpecsWalkSticky(WalkState([], start, None), genDecl.specs, j + 1, importPath, fs);
            assert genDecl.specs[..|genDecl.specs|] == genDecl.specs;
            assert StatementResult(start, decl, importPath, fs) == failed.(structs := []);
            return;
          }
        }
      }
      assert genDecl.specs[..|genDecl.specs|] == genDecl.specs;
    }
  }

  lemma SpecsWalkStep(st: WalkState, specs: seq<Spec>, j: nat, index: map<string, string>, fs: FileSystem)
    requires j < |specs|
    requires forall s :: s in specs && StatementRoot(s, index).Some? ==>
      FailuresHaveInfo(WalkOf(fs, StatementRoot(s, index).value))
    ensures specs[j] in specs
    ensures SpecsWalk(st, specs[..j + 1], index, fs)
         == if specs[j].ValueSpec?
            then RepeatWalk(SpecsWalk(st, specs[..j], index, fs), |specs[j].names|, specs[j], index, fs)
            else SpecsWalk(st, specs[..j], index, fs)
  {
    assert specs[..j + 1][..j] == specs[..j];
    assert specs[..j + 1][j] == specs[j];
  }

  /** The loop of getStructFromStatement over the names of one value spec: the walk for
      its declared type, once per name, until a walk fails. */
  method WalkForSpec(cache: StructCache, valueSpec: Spec, importPath: map<string, string>, fs: FileSystem, structs: seq<Struct>)
      returns (structs': seq<Struct>, err: Option<Error>)
    requires valueSpec.ValueSpec?
    requires StatementRoot(valueSpec, importPath).Some? ==>
      FailuresHaveInfo(WalkOf(fs, StatementRoot(valueSpec, importPath).value))
    modifies cache
    ensures WalkState(Shapes(structs'), cache.Model(), err)
         == RepeatWalk(WalkState(Shapes(structs), old(cache.Model()), None), |valueSpec.names|, valueSpec, importPath, fs)
    ensures old(cache.Valid()) ==> cache.Valid()
    ensures old(cache.Valid()) && FieldsDistinct(structs) ==> FieldsDistinct(structs')
    ensures forall k :: k in old(cache.entries) ==> k in cache.entries && cache.entries[k] == old(cache.entries[k])
    ensures old(cache.Valid()) && CachedByName(structs, old(cache.entries)) ==> CachedByName(structs', cache.entries)
  {
    ghost var before := WalkState(Shapes(structs), cache.Model(), None);
    ghost var wasValid := cache.Valid();
    ghost var wasDistinct := FieldsDistinct(structs);
    ghost var wasCached := CachedByName(structs, cache.entries);
    ghost var entriesBefore := cache.entries;
    structs' := structs;
    err := None;
    for k := 0 to |valueSpec.names|
      invariant err.None? && (wasValid ==> cache.Valid()) && (wasValid && wasDistinct ==> FieldsDistinct(structs'))
      invariant wasValid && wasCached ==> CachedByName(structs', cache.entries)
      invariant forall k :: k in entriesBefore ==> k in cache.entries && cache.entries[k] == entriesBefore[k]
      invariant WalkState(Shapes(structs'), cache.Model(), None) == RepeatWalk(before, k, valueSpec, importPath, fs)
    {
      RepeatWalkStep(before, k, valueSpec, importPath, fs);
      if valueSpec.declared.Some? {
        if valueSpec.declared.value.SelectorExpr? {
          var selExp := valueSpec.declared.value;
          if selExp.x.Ident? {
            var ident := selExp.x;
            if ident.name in importPath && importPath[ident.name] != "" {
              structs', err := WalkForStatement(cache, WalkOf(fs, importPath[ident.name]), structs', selExp.sel);
              if err.Some? {
                RepeatWalkStickyFrom(before, k + 1, |valueSpec.names|, valueSpec, importPath, fs);
                return;
              }
            }
          }
        }
      }
    }
  }

  /** The walk getStructFromStatement makes, appending to `structs`. */
  method WalkForStatement(cache: StructCache, entries: seq<WalkEntry>, structs: seq<Struct>, structName: string)
      returns (structs': seq<Struct>, err: Option<Error>)
    requires FailuresHaveInfo(entries)
    modifies cache
    ensures WalkState(Shapes(structs'), cache.Model(), err)
         == StatementWalk(WalkState(Shapes(structs), old(cache.Model()), None), entries, structName)
    ensures old(cache.Valid()) ==> cache.Valid()
    ensures old(cache.Valid()) && FieldsDistinct(structs) ==> FieldsDistinct(structs')
    ensures forall k :: k in old(cache.entries) ==> k in cache.entries && cache.entries[k] == old(cache.entries[k])
    ensures old(cache.Valid()) && CachedByName(structs, old(cache.entries)) ==> CachedByName(structs', cache.entries)
  {
    ghost var start := WalkState(Shapes(structs), cache.Model(), None);
    ghost var wasValid := cache.Valid();
    ghost var wasCached := CachedByName(structs, cache.entries);
    ghost var before := cache.entries;
    ghost var wasDistinct := FieldsDistinct(structs);
    structs' := structs;
    err := None;
    var i := 0;
    while i < |entries| && err.None?
      invariant 0 <= i <= |entries|
      invariant WalkState(Shapes(structs'), cache.Model(), err) == StatementWalk(start, entries[..i], structName)
      invariant wasValid ==> cache.Valid()
      invariant wasValid && wasDistinct ==> FieldsDistinct(structs')
      invariant wasValid && wasCached ==> CachedByName(structs', cache.entries)
      invariant forall k :: k in before ==> k in cache.entries && cache.entries[k] == before[k]
      decreases |entries| - i
    {
      StatementWalkStep(start, entries, i, structName);
      structs', err := StatementCallback(cache, entries[i], structs', structName);
      i := i + 1;
    }
    if i < |entries| {
      StatementWalkSticky(start, entries, i, structName);
    } else {
      assert entries[..i] == entries;
    }
  }

  lemma StatementWalkStep(st: WalkState, entries: seq<WalkEntry>, i: nat, structName: string)
    requires i < |entries| && FailuresHaveInfo(entries)
    ensures FailuresHaveInfo(entries[..i]) && FailuresHaveInfo(entries[..i + 1])
    ensures entries[i].Failure? ==> entries[i].hasInfo
    ensures StatementWalk(st, entries[..i + 1], structName)
         == StatementVisit(StatementWalk(st, entries[..i], structName), entries[i], structName)
  {
    assert entries[..i + 1][..i] == entries[..i];
    assert forall q :: 0 <= q <= i ==> entries[..i + 1][q] == entries[q];
  }

  /** The walk callback of getStructFromStatement, given the structs appended so far. */
  method StatementCallback(cache: StructCache, e: WalkEntry, structs: seq<Struct>, structName: string)
      returns (structs': seq<Struct>, err: Option<Error>)
    requires e.Failure? ==> e.hasInfo
    modifies cache
    ensures WalkState(Shapes(structs'), cache.Model(), err)
         == StatementVisit(WalkState(Shapes(structs), old(cache.Model()), None), e, structName)
    ensures old(cache.Valid()) ==> cache.Valid()
    ensures old(cache.Valid()) && FieldsDistinct(structs) ==> FieldsDistinct(structs')
    ensures forall k :: k in old(cache.entries) ==> k in cache.entries && cache.entries[k] == old(cache.entries[k])
    ensures old(cache.Valid()) && CachedByName(structs, old(cache.entries)) ==> CachedByName(structs', cache.entries)
  {
    structs' := structs;
    err := None;
    if e.Visit? && !e.isDir && Ext(e.path) == ".go" {
      match e.parsed {
        case Unparsable =>
          err := Some(ParseError(e.path));
        case Parsed(importFile) =>
          structs' := StatementGoFile(cache, importFile, structs, structName);
      }
    }
  }

  /** The callback's work on a Go file that parses. */
  method StatementGoFile(cache: StructCache, importFile: File, structs: seq<Struct>, structName: string)
      returns (structs': seq<Struct>)
    modifies cache
    ensures WalkState(Shapes(structs'), cache.Model(), None)
         == StatementParsed(WalkState(Shapes(structs), old(cache.Model()), None), importFile, structName)
    ensures old(cache.Valid()) ==> cache.Valid()
    ensures old(cache.Valid()) && FieldsDistinct(structs) ==> FieldsDistinct(structs')
    ensures forall k :: k in old(cache.entries) ==> k in cache.entries && cache.entries[k] == old(cache.entries[k])
    ensures structName in cache.entries && structs' == structs + [cache.entries[structName]]
    ensures structName in old(cache.entries) ==> structs' == structs + [old(cache.entries)[structName]]
    ensures old(cache.Valid()) && CachedByName(structs, old(cache.entries)) ==> CachedByName(structs', cache.entries)
  {
    ghost var st := WalkState(Shapes(structs), cache.Model(), None);
    ghost var before := cache.entries;
    ghost var wasValid := cache.Valid();
    var s := CachedOrBuilt(cache, importFile, structName);
    if structName in before {
      StatementParsedHit(st, importFile, structName, s);
    } else {
      StatementParsedMiss(st, importFile, structName, s);
      ShapeMapUpdate(before, structName, s);
    }
    ShapesSnoc(structs, s);
    structs' := structs + [s];
    if wasValid {
      CachedByNameSnoc(structs, before, cache.entries, s);
    }
  }

  lemma StatementParsedHit(st: WalkState, file: File, structName: string, s: Struct)
    requires structName in st.cache && st.cache[structName] == ShapeOf(s)
    ensures StatementParsed(st, file, structName) == st.(structs := st.structs + [ShapeOf(s)])
  {
  }

  lemma StatementParsedMiss(st: WalkState, file: File, structName: string, s: Struct)
    requires structName !in st.cache
    requires ShapeOf(s) == StructShape(structName, "", StructFieldMap(file.decls, structName))
    ensures StatementParsed(st, file, structName)
         == st.(structs := st.structs + [ShapeOf(s)], cache := st.cache[structName := ShapeOf(s)])
  {
  }

  lemma {:induction false} StatementWalkSticky(st: WalkState, entries: seq<WalkEntry>, i: nat, structName: string)
    requires i <= |entries| && FailuresHaveInfo(entries) && FailuresHaveInfo(entries[..i])
    requires StatementWalk(st, entries[..i], structName).err.Some?
    ensures StatementWalk(st, entries, structName) == StatementWalk(st, entries[..i], structName)
    decreases |entries|
  {
    if i < |entries| {
      var n := |entries| - 1;
      StatementWalkStep(st, entries, n, structName);
      assert entries[..n][..i] == entries[..i];
      StatementWalkSticky(st, entries[..n], i, structName);
      assert entries[..n + 1] == entries;
    } else {
      assert entries[..i] == entries;
    }
  }

  lemma {:induction false} SpecsWalkSticky(st: WalkState, specs: seq<Spec>, j: nat, index: map<string, string>, fs: FileSystem)
    requires j <= |specs|
    requires forall s :: s in specs && StatementRoot(s, index).Some? ==>
      FailuresHaveInfo(WalkOf(fs, StatementRoot(s, index).value))
    requires SpecsWalk(st, specs[..j], index, fs).err.Some?
    ensures SpecsWalk(st, specs, index, fs) == SpecsWalk(st, specs[..j], index, fs)
    decreases |specs|
  {
    if j < |specs| {
      var n := |specs| - 1;
      assert specs[..n][..j] == specs[..j];
      SpecsWalkSticky(st, specs[..n], j, index, fs);
      if specs[n].ValueSpec? {
        RepeatWalkSticky(SpecsWalk(st, specs[..n], index, fs), |specs[n].names|, specs[n], index, fs);
      }
    } else {
      assert specs[..j] == specs;
    }
  }

  lemma {:induction false} RepeatWalkSticky(st: WalkState, n: nat, s: Spec, index: map<string, string>, fs: FileSystem)
    requires StatementRoot(s, index).Some? ==> FailuresHaveInfo(WalkOf(fs, StatementRoot(s, index).value))
    requires st.err.Some?
    ensures RepeatWalk(st, n, s, index, fs) == st
  {
    if n > 0 {
      RepeatWalkSticky(st, n - 1, s, index, fs);
    }
  }

  lemma RepeatWalkStep(st: WalkState, k: nat, s: Spec, index: map<string, string>, fs: FileSystem)
    requires StatementRoot(s, index).Some? ==> FailuresHaveInfo(WalkOf(fs, StatementRoot(s, index).value))
    requires RepeatWalk(st, k, s, index, fs).err.None?
    ensures RepeatWalk(st, k + 1, s, index, fs)
         == if StatementRoot(s, index).None? then RepeatWalk(st, k, s, index, fs)
            else StatementWalk(RepeatWalk(st, k, s, index, fs), WalkOf(fs, StatementRoot(s, index).value), s.declared.value.sel)
  {
  }

  lemma {:induction false} RepeatWalkStickyFrom(st: WalkState, k: nat, n: nat, s: Spec, index: map<string, string>, fs: FileSystem)
    requires StatementRoot(s, index).Some? ==> FailuresHaveInfo(WalkOf(fs, StatementRoot(s, index).value))
    requires k <= n && RepeatWalk(st, k, s, index, fs).err.Some?
    ensures RepeatWalk(st, n, s, index, fs) == RepeatWalk(st, k, s, index, fs)
  {
    if k < n {
      RepeatWalkStickyFrom(st, k, n - 1, s, index, fs);
    }
  }

  /** On a walk without failures, the statement walk does what the import walk does
      with an empty import path: because cached structs have an empty `from`, setting
      `from` to "" changes nothing. */
  lemma {:induction false} StatementWalkIsImportWalk(st: WalkState, entries: seq<WalkEntry>, structName: string)
    requires st.err.None? && CacheInvariant(st.cache)
    requires forall i :: 0 <= i < |entries| ==> entries[i].Visit?
    ensures FailuresHaveInfo(entries)
    ensures StatementWalk(st, entries, structName)
         == var w := ImportWalk(st.cache, entries, structName, "");
            WalkState(st.structs + w.structs, w.cache, w.err)
  {
    if entries != [] {
      var n := |entries| - 1;
      StatementWalkIsImportWalk(st, entries[..n], structName);
      ImportWalkCache(st.cache, entries[..n], structName, "");
      var w := ImportWalk(st.cache, entries[..n], structName, "");
      StatementVisitIsImportVisit(st.structs, w, entries[n], structName);
    }
  }

  /** One callback call of each walk, on a visited path, from states that agree. */
  lemma StatementVisitIsImportVisit(prefix: seq<StructShape>, w: WalkState, e: WalkEntry, structName: string)
    requires e.Visit? && CacheInvariant(w.cache)
    ensures StatementVisit(WalkState(prefix + w.structs, w.cache, w.err), e, structName)
         == var w' := ImportVisit(w, e, structName, "");
            WalkState(prefix + w'.structs, w'.cache, w'.err)
  {
    if w.err.None? && IsGoFile(e) && e.parsed.Parsed? {
      assert structName in w.cache ==> w.cache[structName].(from := "") == w.cache[structName];
      forall x: StructShape ensures (prefix + w.structs) + [x] == prefix + (w.structs + [x]) { }
    }
  }

  /** Nothing the statement walks append or cache has a `from`. */
  predicate NoOrigin(st: WalkState) {
    CacheInvariant(st.cache) && forall s :: s in st.structs ==> s.from == ""
  }

  lemma {:induction false} StatementWalkNoOrigin(st: WalkState, entries: seq<WalkEntry>, structName: string)
    requires FailuresHaveInfo(entries) && NoOrigin(st)
    ensures NoOrigin(StatementWalk(st, entries, structName))
    ensures forall s :: s in StatementWalk(st, entries, structName).structs && s !in st.structs ==> s.name == structName
  {
    if entries != [] {
      var n := |entries| - 1;
      assert FailuresHaveInfo(entries[..n]) by {
        forall i | 0 <= i < n ensures entries[..n][i] == entries[i] { }
      }
      StatementWalkNoOrigin(st, entries[..n], structName);
      StatementVisitNoOrigin(st.structs, StatementWalk(st, entries[..n], structName), entries[n], structName);
    }
  }

  lemma StatementVisitNoOrigin(earlier: seq<StructShape>, st: WalkState, e: WalkEntry, structName: string)
    requires (e.Failure? ==> e.hasInfo) && NoOrigin(st)
    requires forall s :: s in st.structs && s !in earlier ==> s.name == structName
    ensures NoOrigin(StatementVisit(st, e, structName))
    ensures forall s :: s in StatementVisit(st, e, structName).structs && s !in earlier ==> s.name == structName
  {
  }

  lemma {:induction false} RepeatWalkNoOrigin(st: WalkState, n: nat, s: Spec, index: map<string, string>, fs: FileSystem)
    requires StatementRoot(s, index).Some? ==> FailuresHaveInfo(WalkOf(fs, StatementRoot(s, index).value))
    requires NoOrigin(st)
    ensures NoOrigin(RepeatWalk(st, n, s, index, fs))
  {
    if n > 0 {
      RepeatWalkNoOrigin(st, n - 1, s, index, fs);
      var prev := RepeatWalk(st, n - 1, s, index, fs);
      if prev.err.None? && StatementRoot(s, index).Some? {
        StatementWalkNoOrigin(prev, WalkOf(fs, StatementRoot(s, index).value), s.declared.value.sel);
      }
    }
  }

  lemma {:induction false} SpecsWalkNoOrigin(st: WalkState, specs: seq<Spec>, index: map<string, string>, fs: FileSystem)
    requires forall s :: s in specs && StatementRoot(s, index).Some? ==>
      FailuresHaveInfo(WalkOf(fs, StatementRoot(s, index).value))
    requires NoOrigin(st)
    ensures NoOrigin(SpecsWalk(st, specs, index, fs))
  {
    if specs != [] {
      var n := |specs| - 1;
      assert forall s :: s in specs[..n] ==> s in specs;
      SpecsWalkNoOrigin(st, specs[..n], index, fs);
      if specs[n].ValueSpec? {
        RepeatWalkNoOrigin(SpecsWalk(st, specs[..n], index, fs), |specs[n].names|, specs[n], index, fs);
      }
    }
  }

  /** Unlike getStructFromImportPackage, getStructFromStatement never sets `from`: every
      struct it returns, and every struct it caches, has an empty `from`. */
  lemma StatementResultNoOrigin(cache: map<string, StructShape>, decl: Decl, index: map<string, string>, fs: FileSystem)
    requires WalksHaveInfo(decl, index, fs) && CacheInvariant(cache)
    ensures CacheInvariant(StatementResult(cache, decl, index, fs).cache)
    ensures forall s :: s in StatementResult(cache, decl, index, fs).structs ==> s.from == ""
  {
    if decl.GenDecl? && decl.tok == VAR {
      SpecsWalkNoOrigin(WalkState([], cache, None), decl.specs, index, fs);
    }
  }

  // The cache across getStructFromStatement: no entry is ever dropped or replaced.

  lemma {:induction false} StatementWalkKeeps(st: WalkState, entries: seq<WalkEntry>, structName: string)
    requires FailuresHaveInfo(entries)
    ensures KeepsEntries(st.cache, StatementWalk(st, entries, structName).cache)
  {
    if entries != [] {
      var n := |entries| - 1;
      assert FailuresHaveInfo(entries[..n]) by {
        forall i | 0 <= i < n ensures entries[..n][i] == entries[i] { }
      }
      StatementWalkKeeps(st, entries[..n], structName);
    }
  }

  lemma {:induction false} RepeatWalkKeeps(st: WalkState, n: nat, s: Spec, index: map<string, string>, fs: FileSystem)
    requires StatementRoot(s, index).Some? ==> FailuresHaveInfo(WalkOf(fs, StatementRoot(s, index).value))
    ensures KeepsEntries(st.cache, RepeatWalk(st, n, s, index, fs).cache)
  {
    if n > 0 {
      RepeatWalkKeeps(st, n - 1, s, index, fs);
      var prev := RepeatWalk(st, n - 1, s, index, fs);
      if prev.err.None? && StatementRoot(s, index).Some? {
        StatementWalkKeeps(prev, WalkOf(fs, StatementRoot(s, index).value), s.declared.value.sel);
      }
    }
  }

  lemma {:induction false} SpecsWalkKeeps(st: WalkState, specs: seq<Spec>, index: map<string, string>, fs: FileSystem)
    requires forall s :: s in specs && StatementRoot(s, index).Some? ==>
      FailuresHaveInfo(WalkOf(fs, StatementRoot(s, index).value))
    ensures KeepsEntries(st.cache, SpecsWalk(st, specs, index, fs).cache)
  {
    if specs != [] {
      var n := |specs| - 1;
      assert forall s :: s in specs[..n] ==> s in specs;
      SpecsWalkKeeps(st, specs[..n], index, fs);
      if specs[n].ValueSpec? {
        RepeatWalkKeeps(SpecsWalk(st, specs[..n], index, fs), |specs[n].names|, specs[n], index, fs);
      }
    }
  }

  /** A call, failed or not, keeps every cached struct as it was. */
  lemma StatementResultKeeps(cache: map<string, StructShape>, decl: Decl, index: map<string, string>, fs: FileSystem)
    requires WalksHaveInfo(decl, index, fs)
    ensures KeepsEntries(cache, StatementResult(cache, decl, index, fs).cache)
  {
    if decl.GenDecl? && decl.tok == VAR {
      SpecsWalkKeeps(WalkState([], cache, None), decl.specs, index, fs);
    }
  }

  /** Every callback call of the walk visits a path and none makes it fail. */
  predicate CleanWalk(entries: seq<WalkEntry>) {
    forall i :: 0 <= i < |entries| ==> entries[i].Visit? && !Trouble(entries[i])
  }

  /** The walk is repeated once per declared name: for `var a, b pkg.T` over a walk
      without failures, each Go file contributes one struct per name. */
  lemma RepeatWalkCount(st: WalkState, n: nat, s: Spec, index: map<string, string>, fs: FileSystem)
    requires StatementRoot(s, index).Some?
    requires CleanWalk(WalkOf(fs, StatementRoot(s, index).value))
    requires st.err.None? && CacheInvariant(st.cache)
    ensures FailuresHaveInfo(WalkOf(fs, StatementRoot(s, index).value))
    ensures RepeatWalk(st, n, s, index, fs).err.None?
    ensures CacheInvariant(RepeatWalk(st, n, s, index, fs).cache)
    ensures |RepeatWalk(st, n, s, index, fs).structs|
         == |st.structs| + n * |GoFiles(WalkOf(fs, StatementRoot(s, index).value))|
  {
    RepeatWalkTimes(st, n, s, index, fs);
    TimesIsProduct(n, |GoFiles(WalkOf(fs, StatementRoot(s, index).value))|);
  }

  /** `g` added `n` times. */
  function Times(n: nat, g: nat): nat {
    if n == 0 then 0 else Times(n - 1, g) + g
  }

  lemma {:induction false} TimesIsProduct(n: nat, g: nat)
    ensures Times(n, g) == n * g
  {
    if n > 0 {
      TimesIsProduct(n - 1, g);
      assert (n - 1) * g + g == n * g;
    }
  }

  lemma {:induction false} RepeatWalkTimes(st: WalkState, n: nat, s: Spec, index: map<string, string>, fs: FileSystem)
    requires StatementRoot(s, index).Some?
    requires CleanWalk(WalkOf(fs, StatementRoot(s, index).value))
    requires st.err.None? && CacheInvariant(st.cache)
    ensures FailuresHaveInfo(WalkOf(fs, StatementRoot(s, index).value))
    ensures RepeatWalk(st, n, s, index, fs).err.None?
    ensures CacheInvariant(RepeatWalk(st, n, s, index, fs).cache)
    ensures |RepeatWalk(st, n, s, index, fs).structs|
         == |st.structs| + Times(n, |GoFiles(WalkOf(fs, StatementRoot(s, index).value))|)
  {
    var entries := WalkOf(fs, StatementRoot(s, index).value);
    assert FailuresHaveInfo(entries);
    if n > 0 {
      RepeatWalkTimes(st, n - 1, s, index, fs);
      RepeatWalkStepClean(RepeatWalk(st, n - 1, s, index, fs), s, index, fs);
    }
  }

  /** One walk over a directory without failures, for a spec's declared type. */
  lemma RepeatWalkStepClean(prev: WalkState, s: Spec, index: map<string, string>, fs: FileSystem)
    requires StatementRoot(s, index).Some?
    requires CleanWalk(WalkOf(fs, StatementRoot(s, index).value))
    requires prev.err.None? && CacheInvariant(prev.cache)
    ensures FailuresHaveInfo(WalkOf(fs, StatementRoot(s, index).value))
    ensures var next := StatementWalk(prev, WalkOf(fs, StatementRoot(s, index).value), s.declared.value.sel);
      && next.err.None? && CacheInvariant(next.cache)
      && |next.structs| == |prev.structs| + |GoFiles(WalkOf(fs, StatementRoot(s, index).value))|
  {
    var entries := WalkOf(fs, StatementRoot(s, index).value);
    var name := s.declared.value.sel;
    StatementWalkIsImportWalk(prev, entries, name);
    ImportWalkClean(prev.cache, entries, name, "");
    ImportWalkCache(prev.cache, entries, name, "");
  }

  /** A spec that names no imported struct type makes no walk. */
  lemma {:induction false} RepeatWalkInert(st: WalkState, n: nat, s: Spec, index: map<string, string>, fs: FileSystem)
    requires StatementRoot(s, index).None?
    ensures RepeatWalk(st, n, s, index, fs) == st
  {
    if n > 0 {
      RepeatWalkInert(st, n - 1, s, index, fs);
    }
  }

  lemma {:induction false} SpecsWalkInert(st: WalkState, specs: seq<Spec>, index: map<string, string>, fs: FileSystem)
    requires forall s :: s in specs ==> StatementRoot(s, index).None?
    ensures SpecsWalk(st, specs, index, fs) == st
  {
    if specs != [] {
      var n := |specs| - 1;
      assert forall s :: s in specs[..n] ==> s in specs;
      SpecsWalkInert(st, specs[..n], index, fs);
      if specs[n].ValueSpec? {
        RepeatWalkInert(st, |specs[n].names|, specs[n], index, fs);
      }
    }
  }

  /** Only the declared type of a spec is inspected: a `var` declaration whose specs
      carry no type, such as `var user = user.User{}`, yields no struct and leaves the
      cache alone. */
  lemma UntypedVarFindsNothing(cache: map<string, StructShape>, specs: seq<Spec>, index: map<string, string>, fs: FileSystem)
    requires forall s :: s in specs ==> s.ValueSpec? && s.declared.None?
    ensures WalksHaveInfo(GenDecl(VAR, specs), index, fs)
    ensures StatementResult(cache, GenDecl(VAR, specs), index, fs) == WalkState([], cache, None)
  {
    SpecsWalkInert(WalkState([], cache, None), specs, index, fs);
  }
}
