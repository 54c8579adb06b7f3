/** getStructFromImportPackage (parser/ast.go): resolving a struct type of an imported
    package by walking the package's directory, through the process-wide struct cache. */
module Resolver {
  import opened Wrappers
  import opened GoAst
  import opened GoFilepath
  import opened GoStrings
  import opened Assoc
  import opened Prompt
  import opened StructFields

  /** The outcome of parsing a visited file. */
  datatype Parsed = Parsed(file: File) | Unparsable

  /** One call of the walk callback: a visited path, or a failure reported for a path.
      `hasInfo` tells whether the failure comes with the path's file info (a directory
      whose listing failed) or without it (the path itself could not be examined). */
  datatype WalkEntry =
    | Visit(path: string, isDir: bool, parsed: Parsed)
    | Failure(path: string, hasInfo: bool)

  /** The walks a filesystem allows: for each root, the callback calls in walk order. */
  type FileSystem = map<string, seq<WalkEntry>>

  /** The callback calls a walk from `root` makes. A root the filesystem does not know
      is reported as one failure without file info. */
  function WalkOf(fs: FileSystem, root: string): (r: seq<WalkEntry>)
    ensures root !in fs ==> r == [Failure(root, false)]
  {
    if root in fs then fs[root] else [Failure(root, false)]
  }

  datatype Error = WalkError(path: string) | ParseError(path: string)

  /** The process-wide struct cache, keyed by bare struct name. */
  class StructCache {
    var entries: map<string, Struct>

    /** The invariant the walks below keep. */
    ghost predicate Valid()
      reads this
    {
      ValidEntries(entries)
    }

    /** The cache with field lists seen as maps. */
    ghost function Model(): map<string, StructShape>
      reads this
    {
      ShapeMap(entries)
    }

    constructor()
      ensures entries == map[] && Valid()
    {
      entries := map[];
    }
  }

  /** Every cached struct is stored under its own name, with an empty `from`, and lists
      each of its fields once. */
  predicate ValidEntries(entries: map<string, Struct>) {
    CacheInvariant(ShapeMap(entries))
    && forall k :: k in entries ==> DistinctNames(entries[k].fields)
  }

  lemma InsertKeepsValid(entries: map<string, Struct>, s: Struct)
    requires ValidEntries(entries) && s.from == "" && DistinctNames(s.fields)
    ensures ValidEntries(entries[s.name := s])
  {
    ShapeMapUpdate(entries, s.name, s);
  }

  /** Every cached struct is stored under its own name, with an empty `from`. */
  predicate CacheInvariant(cache: map<string, StructShape>) {
    forall k :: k in cache ==> cache[k].name == k && cache[k].from == ""
  }

  /** The state of a walk: the structs appended so far, the cache, and the error the
      callback returned, after which the walk stops. */
  datatype WalkState = WalkState(structs: seq<StructShape>, cache: map<string, StructShape>, err: Option<Error>)

  predicate IsGoFile(e: WalkEntry) {
    e.Visit? && !e.isDir && Ext(e.path) == ".go"
  }

  /** One call of getStructFromImportPackage's callback. */
  function ImportVisit(st: WalkState, e: WalkEntry, structName: string, importPath: string): WalkState {
    if st.err.Some? then st
    else match e
      case Failure(path, _) => st.(err := Some(WalkError(path)))
      case Visit(path, isDir, parsed) =>
        if isDir || Ext(path) != ".go" then st
        else match parsed
          case Unparsable => st.(err := Some(ParseError(path)))
          case Parsed(file) => VisitParsed(st, file, structName, importPath)
  }

  /** The callback on a Go file that parses: a cache hit appends the cached struct, a
      miss builds the struct from this file and caches it. */
  function VisitParsed(st: WalkState, file: File, structName: string, importPath: string): WalkState {
    if structName in st.cache then
      st.(structs := st.structs + [st.cache[structName].(from := importPath)])
    else
      var s := StructShape(structName, "", StructFieldMap(file.decls, structName));
      st.(structs := st.structs + [s.(from := importPath)], cache := st.cache[structName := s])
  }

  /** Every struct of `structs` is the one cached under `structName`, with `from` set. */
  predicate StampedCopies(structs: seq<Struct>, entries: map<string, Struct>, structName: string, from: string) {
    forall s :: s in structs ==> structName in entries && s == entries[structName].(from := from)
  }

  /** Every struct of `structs` is the one cached under its own name. */
  predicate CachedByName(structs: seq<Struct>, entries: map<string, Struct>) {
    forall s :: s in structs ==> s.name in entries && entries[s.name] == s
  }

  /** `after` holds every entry of `before`, unchanged. */
  predicate KeepsEntries(before: map<string, StructShape>, after: map<string, StructShape>) {
    forall k :: k in before ==> k in after && after[k] == before[k]
  }

  /** The walk of getStructFromImportPackage over the callback calls `entries`. */
  function ImportWalk(cache: map<string, StructShape>, entries: seq<WalkEntry>, structName: string, importPath: string): WalkState {
    if entries == [] then WalkState([], cache, None)
    else ImportVisit(ImportWalk(cache, entries[..|entries| - 1], structName, importPath), entries[|entries| - 1], structName, importPath)
  }

  /** The loop over the map findStructFields returns: one field per key, in the map's
      unspecified iteration order. */
  method FieldsOfMap(structFieldMap: map<string, string>) returns (fields: seq<StructField>)
    ensures ListsMap(fields, structFieldMap)
  {
    fields := [];
    var rest := structFieldMap.Keys;
    while rest != {}
      invariant rest <= structFieldMap.Keys
      invariant DistinctNames(fields)
      invariant forall i :: 0 <= i < |fields| ==>
        fields[i].name in structFieldMap && structFieldMap[fields[i].name] == fields[i].typ && fields[i].name !in rest
      invariant forall k :: k in structFieldMap && k !in rest ==> exists i :: 0 <= i < |fields| && fields[i].name == k
      decreases |rest|
    {
      var fieldName :| fieldName in rest;
      ghost var before := fields;
      fields := fields + [StructField(fieldName, structFieldMap[fieldName])];
      assert forall i :: 0 <= i < |before| ==> fields[i] == before[i];
      assert fields[|before|].name == fieldName;
      rest := rest - {fieldName};
    }
  }

  /** getStructFromImportPackage: walks `pathDir`, appending for every Go file the
      struct `structName` (from the cache, or built from that file and cached) with
      `from` set to `importPath`; the walk stops at the first error, which is returned
      together with the structs appended before it. */
  method GetStructFromImportPackage(cache: StructCache, fs: FileSystem, pathDir: string, importPath: string, structName: string)
      returns (structs: seq<Struct>, err: Option<Error>)
    modifies cache
    ensures WalkState(Shapes(structs), cache.Model(), err)
         == ImportWalk(old(cache.Model()), WalkOf(fs, pathDir), structName, importPath)
    ensures old(cache.Valid()) ==> cache.Valid() && FieldsDistinct(structs)
    ensures forall k :: k in old(cache.entries) ==> k in cache.entries && cache.entries[k] == old(cache.entries[k])
    ensures StampedCopies(structs, cache.entries, structName, importPath)
  {
    var entries := WalkOf(fs, pathDir);
    ghost var start := cache.Model();
    ghost var wasValid := cache.Valid();
    ghost var before := cache.entries;
    structs := [];
    err := None;
    var i := 0;
    while i < |entries| && err.None?
      invariant 0 <= i <= |entries|
      invariant WalkState(Shapes(structs), cache.Model(), err) == ImportWalk(start, entries[..i], structName, importPath)
      invariant wasValid ==> cache.Valid() && FieldsDistinct(structs)
      invariant forall k :: k in before ==> k in cache.entries && cache.entries[k] == before[k]
      invariant StampedCopies(structs, cache.entries, structName, importPath)
      decreases |entries| - i
    {
      ImportWalkStep(start, entries, i, structName, importPath);
      structs, err := ImportCallback(cache, entries[i], structs, structName, importPath);
      i := i + 1;
    }
    if i < |entries| {
      ImportWalkSticky(start, entries, i, structName, importPath);
    } else {
      assert entries[..i] == entries;
    }
  }

  /** The walk callback of getStructFromImportPackage, given the structs appended so
      far. */
  method ImportCallback(cache: StructCache, e: WalkEntry, structs: seq<Struct>, structName: string, importPath: string)
      returns (structs': seq<Struct>, err: Option<Error>)
    modifies cache
    ensures WalkState(Shapes(structs'), cache.Model(), err)
         == ImportVisit(WalkState(Shapes(structs), old(cache.Model()), None), e, structName, importPath)
    ensures old(cache.Valid()) ==> cache.Valid()
    ensures old(cache.Valid()) && FieldsDistinct(structs) ==> FieldsDistinct(structs')
    ensures forall k :: k in old(cache.entries) ==> k in cache.entries && cache.entries[k] == old(cache.entries[k])
    ensures StampedCopies(structs, old(cache.entries), structName, importPath) ==>
      StampedCopies(structs', cache.entries, structName, importPath)
  {
    structs' := structs;
    err := None;
    match e {
      case Failure(path, _) =>
        err := Some(WalkError(path));
      case Visit(path, isDir, parsed) =>
        if !isDir && Ext(path) == ".go" {
          match parsed {
            case Unparsable =>
              err := Some(ParseError(path));
            case Parsed(importFile) =>
              structs' := VisitGoFile(cache, importFile, structs, structName, importPath);
          }
        }
    }
  }

  /** The callback's work on a Go file that parses. */
  method VisitGoFile(cache: StructCache, importFile: File, structs: seq<Struct>, structName: string, importPath: string)
      returns (structs': seq<Struct>)
    modifies cache
    ensures WalkState(Shapes(structs'), cache.Model(), None)
         == VisitParsed(WalkState(Shapes(structs), old(cache.Model()), None), importFile, structName, importPath)
    ensures old(cache.Valid()) ==> cache.Valid()
    ensures old(cache.Valid()) && FieldsDistinct(structs) ==> FieldsDistinct(structs')
    ensures forall k :: k in old(cache.entries) ==> k in cache.entries && cache.entries[k] == old(cache.entries[k])
    ensures structName in cache.entries && structs' == structs + [cache.entries[structName].(from := importPath)]
    ensures structName in old(cache.entries) ==> structs' == structs + [old(cache.entries)[structName].(from := importPath)]
    ensures StampedCopies(structs, old(cache.entries), structName, importPath) ==>
      StampedCopies(structs', cache.entries, structName, importPath)
  {
    ghost var st := WalkState(Shapes(structs), cache.Model(), None);
    ghost var before := cache.entries;
    var s := CachedOrBuilt(cache, importFile, structName);
    if structName in before {
      VisitParsedHit(st, importFile, structName, importPath, s);
    } else {
      VisitParsedMiss(st, importFile, structName, importPath, s);
      ShapeMapUpdate(before, structName, s);
    }
    ShapesSnoc(structs, s.(from := importPath));
    structs' := structs + [s.(from := importPath)];
    StampedCopiesSnoc(structs, before, cache.entries, structName, importPath);
  }

  /** The lookup both walk callbacks make: a hit returns the cached struct and leaves the
      cache alone; a miss builds the struct from the file and caches it. */
  method CachedOrBuilt(cache: StructCache, importFile: File, structName: string) returns (s: Struct)
    modifies cache
    ensures structName in cache.entries && cache.entries[structName] == s
    ensures structName in old(cache.entries) ==> cache.entries == old(cache.entries)
    ensures structName !in old(cache.entries) ==>
      && cache.entries == old(cache.entries)[structName := s]
      && ShapeOf(s) == StructShape(structName, "", StructFieldMap(importFile.decls, structName))
    ensures forall k :: k in old(cache.entries) ==> k in cache.entries && cache.entries[k] == old(cache.entries[k])
    ensures old(cache.Valid()) ==> cache.Valid() && s.name == structName && s.from == "" && DistinctNames(s.fields)
  {
    if structName in cache.entries {
      s := cache.entries[structName];
      if cache.Valid() {
        ValidEntryName(cache.entries, structName);
      }
    } else {
      s := BuildStruct(importFile, structName);
      CacheStruct(cache, s);
    }
  }

  /** Appending the stamped copy of the cached struct to stamped copies, in a cache that
      kept every entry. */
  lemma StampedCopiesSnoc(structs: seq<Struct>, before: map<string, Struct>, after: map<string, Struct>,
                          structName: string, from: string)
    requires forall k :: k in before ==> k in after && after[k] == before[k]
    requires structName in after
    ensures StampedCopies(structs, before, structName, from) ==>
      StampedCopies(structs + [after[structName].(from := from)], after, structName, from)
  {
  }

  /** Appending the struct cached under its own name to structs cached under theirs, in
      a cache that kept every entry. */
  lemma CachedByNameSnoc(structs: seq<Struct>, before: map<string, Struct>, after: map<string, Struct>, s: Struct)
    requires forall k :: k in before ==> k in after && after[k] == before[k]
    requires s.name in after && after[s.name] == s
    ensures CachedByName(structs, before) ==> CachedByName(structs + [s], after)
  {
  }

  /** In a valid cache every entry is stored under its own name with an empty `from`. */
  lemma ValidEntryName(entries: map<string, Struct>, k: string)
    requires ValidEntries(entries) && k in entries
    ensures entries[k].name == k && entries[k].from == "" && DistinctNames(entries[k].fields)
  {
    assert ShapeMap(entries)[k] == ShapeOf(entries[k]);
  }

  lemma ShapesSnoc(ss: seq<Struct>, s: Struct)
    ensures Shapes(ss + [s]) == Shapes(ss) + [ShapeOf(s)]
  {
    ShapesAppend(ss, [s]);
  }

  /** The callback on a cache hit. */
  lemma VisitParsedHit(st: WalkState, file: File, structName: string, importPath: string, s: Struct)
    requires structName in st.cache && st.cache[structName] == ShapeOf(s)
    ensures VisitParsed(st, file, structName, importPath)
         == st.(structs := st.structs + [ShapeOf(s.(from := importPath))])
  {
  }

  /** The callback on a cache miss, given the struct built from the file. */
  lemma VisitParsedMiss(st: WalkState, file: File, structName: string, importPath: string, s: Struct)
    requires structName !in st.cache
    requires ShapeOf(s) == StructShape(structName, "", StructFieldMap(file.decls, structName))
    ensures VisitParsed(st, file, structName, importPath)
         == st.(structs := st.structs + [ShapeOf(s.(from := importPath))], cache := st.cache[structName := ShapeOf(s)])
  {
  }

  /** Storing a struct built on a cache miss under its name. */
  method CacheStruct(cache: StructCache, s: Struct)
    modifies cache
    requires s.from == "" && DistinctNames(s.fields)
    ensures cache.entries == old(cache.entries)[s.name := s]
    ensures old(cache.Valid()) ==> cache.Valid()
  {
    if cache.Valid() {
      InsertKeepsValid(cache.entries, s);
    }
    cache.entries := cache.entries[s.name := s];
  }

  /** A cache miss: the struct built from the fields findStructFields finds in the file. */
  method BuildStruct(importFile: File, structName: string) returns (s: Struct)
    ensures ShapeOf(s) == StructShape(structName, "", StructFieldMap(importFile.decls, structName))
    ensures s.name == structName && s.from == "" && DistinctNames(s.fields)
  {
    var structFieldMap := FindStructFields(importFile, structName);
    var fields := FieldsOfMap(structFieldMap);
    ListsMapShape(fields, structFieldMap);
    s := Struct(structName, "", fields);
  }

  lemma ImportWalkStep(cache: map<string, StructShape>, entries: seq<WalkEntry>, i: nat, structName: string, importPath: string)
    requires i < |entries|
    ensures ImportWalk(cache, entries[..i + 1], structName, importPath)
         == ImportVisit(ImportWalk(cache, entries[..i], structName, importPath), entries[i], structName, importPath)
  {
    assert entries[..i + 1][..i] == entries[..i];
  }

  /** After the callback returns an error, the rest of the walk changes nothing. */
  lemma {:induction false} ImportWalkSticky(cache: map<string, StructShape>, entries: seq<WalkEntry>, i: nat, structName: string, importPath: string)
    requires i <= |entries|
    requires ImportWalk(cache, entries[..i], structName, importPath).err.Some?
    ensures ImportWalk(cache, entries, structName, importPath) == ImportWalk(cache, entries[..i], structName, importPath)
    decreases |entries|
  {
    if i < |entries| {
      var n := |entries| - 1;
      assert entries[..n][..i] == entries[..i];
      ImportWalkSticky(cache, entries[..n], i, structName, importPath);
    } else {
      assert entries[..i] == entries;
    }
  }

  /** A callback call that makes the walk fail: a failure, or a Go file that does not
      parse. */
  predicate Trouble(e: WalkEntry) {
    e.Failure? || (IsGoFile(e) && e.parsed.Unparsable?)
  }

  function ErrorOf(e: WalkEntry): Error
    requires Trouble(e)
  {
    if e.Failure? then WalkError(e.path) else ParseError(e.path)
  }

  /** The parsed Go files of a walk, in walk order. */
  function GoFiles(entries: seq<WalkEntry>): seq<File> {
    if entries == [] then []
    else
      var e := entries[|entries| - 1];
      GoFiles(entries[..|entries| - 1]) + (if IsGoFile(e) && e.parsed.Parsed? then [e.parsed.file] else [])
  }

  /** The struct a walk resolves `structName` to, given the first Go file it visits:
      the cached struct if there is one, otherwise the struct built from that file,
      whether or not the file declares the type. */
  function Resolved(cache: map<string, StructShape>, structName: string, first: File): StructShape {
    if structName in cache then cache[structName]
    else StructShape(structName, "", StructFieldMap(first.decls, structName))
  }

  /** Directories and files without the ".go" extension are skipped. */
  lemma ImportVisitSkips(st: WalkState, e: WalkEntry, structName: string, importPath: string)
    requires e.Visit? && (e.isDir || !HasSuffix(e.path, ".go"))
    ensures ImportVisit(st, e, structName, importPath) == st
  {
    ExtGo(e.path);
  }

  /** A walk without failures appends one struct per Go file, every one of them the
      struct resolved from the cache or from the FIRST Go file visited, with `from` set
      to the import path; that struct is cached when it was not. */
  lemma {:induction false} ImportWalkClean(cache: map<string, StructShape>, entries: seq<WalkEntry>, structName: string, importPath: string)
    requires forall i :: 0 <= i < |entries| ==> !Trouble(entries[i])
    ensures ImportWalk(cache, entries, structName, importPath).err.None?
    ensures |ImportWalk(cache, entries, structName, importPath).structs| == |GoFiles(entries)|
    ensures GoFiles(entries) == [] ==> ImportWalk(cache, entries, structName, importPath).cache == cache
    ensures GoFiles(entries) != [] ==>
      var s := Resolved(cache, structName, GoFiles(entries)[0]);
      && ImportWalk(cache, entries, structName, importPath).cache == cache[structName := s]
      && forall k :: 0 <= k < |GoFiles(entries)| ==>
           ImportWalk(cache, entries, structName, importPath).structs[k] == s.(from := importPath)
  {
    if entries != [] {
      var n := |entries| - 1;
      var e := entries[n];
      ImportWalkClean(cache, entries[..n], structName, importPath);
      ImportVisitClean(cache, ImportWalk(cache, entries[..n], structName, importPath), GoFiles(entries[..n]), e, structName, importPath);
    }
  }

  /** One callback call of a walk without failures, from the state the walk over the
      Go files `files` has reached. */
  lemma ImportVisitClean(cache: map<string, StructShape>, st: WalkState, files: seq<File>, e: WalkEntry, structName: string, importPath: string)
    requires !Trouble(e) && st.err.None? && |st.structs| == |files|
    requires files == [] ==> st.cache == cache
    requires files != [] ==>
      var s := Resolved(cache, structName, files[0]);
      && st.cache == cache[structName := s]
      && forall k :: 0 <= k < |files| ==> st.structs[k] == s.(from := importPath)
    ensures var next := ImportVisit(st, e, structName, importPath);
      var files' := files + (if IsGoFile(e) && e.parsed.Parsed? then [e.parsed.file] else []);
      && next.err.None? && |next.structs| == |files'|
      && (files' == [] ==> next.cache == cache)
      && (files' != [] ==>
            var s := Resolved(cache, structName, files'[0]);
            && next.cache == cache[structName := s]
            && forall k :: 0 <= k < |files'| ==> next.structs[k] == s.(from := importPath))
  {
    if IsGoFile(e) && e.parsed.Parsed? {
      assert (files + [e.parsed.file])[0] == if files == [] then e.parsed.file else files[0];
    }
  }

  /** The walk ends at the first failure: the error it reports is returned together with
      the structs and cache writes made before it. */
  lemma ImportWalkFailure(cache: map<string, StructShape>, entries: seq<WalkEntry>, k: nat, structName: string, importPath: string)
    requires k < |entries| && Trouble(entries[k])
    requires forall i :: 0 <= i < k ==> !Trouble(entries[i])
    ensures ImportWalk(cache, entries, structName, importPath)
         == ImportWalk(cache, entries[..k], structName, importPath).(err := Some(ErrorOf(entries[k])))
  {
    var prefix := ImportWalk(cache, entries[..k], structName, importPath);
    assert prefix.err.None? by {
      ImportWalkClean(cache, entries[..k], structName, importPath);
    }
    assert ImportWalk(cache, entries[..k + 1], structName, importPath) == prefix.(err := Some(ErrorOf(entries[k]))) by {
      assert entries[..k + 1][..k] == entries[..k];
      assert entries[..k + 1][k] == entries[k];
    }
    ImportWalkSticky(cache, entries, k + 1, structName, importPath);
  }

  /** A walk never replaces a cached struct, caches nothing but `structName`, keeps the
      cache invariant, and under it appends only structs named `structName` whose
      `from` is the import path. */
  lemma {:induction false} ImportWalkCache(cache: map<string, StructShape>, entries: seq<WalkEntry>, structName: string, importPath: string)
    ensures forall k :: k in cache ==>
      k in ImportWalk(cache, entries, structName, importPath).cache && ImportWalk(cache, entries, structName, importPath).cache[k] == cache[k]
    ensures ImportWalk(cache, entries, structName, importPath).cache.Keys <= cache.Keys + {structName}
    ensures CacheInvariant(cache) ==> CacheInvariant(ImportWalk(cache, entries, structName, importPath).cache)
    ensures CacheInvariant(cache) ==> forall s :: s in ImportWalk(cache, entries, structName, importPath).structs ==>
      s.name == structName && s.from == importPath
  {
    if entries != [] {
      var n := |entries| - 1;
      ImportWalkCache(cache, entries[..n], structName, importPath);
      ImportVisitCache(ImportWalk(cache, entries[..n], structName, importPath), entries[n], structName, importPath);
    }
  }

  /** One callback call never replaces a cached struct, caches nothing but `structName`,
      keeps the cache invariant, and under it appends only structs named `structName`
      whose `from` is the import path. */
  lemma ImportVisitCache(st: WalkState, e: WalkEntry, structName: string, importPath: string)
    ensures forall k :: k in st.cache ==>
      k in ImportVisit(st, e, structName, importPath).cache && ImportVisit(st, e, structName, importPath).cache[k] == st.cache[k]
    ensures ImportVisit(st, e, structName, importPath).cache.Keys <= st.cache.Keys + {structName}
    ensures CacheInvariant(st.cache) ==> CacheInvariant(ImportVisit(st, e, structName, importPath).cache)
    ensures CacheInvariant(st.cache) && (forall s :: s in st.structs ==> s.name == structName && s.from == importPath) ==>
      forall s :: s in ImportVisit(st, e, structName, importPath).structs ==> s.name == structName && s.from == importPath
  {
    if st.err.None? && IsGoFile(e) && e.parsed.Parsed? {
      VisitParsedCache(st, e.parsed.file, structName, importPath);
    }
  }

  lemma VisitParsedCache(st: WalkState, file: File, structName: string, importPath: string)
    ensures forall k :: k in st.cache ==>
      k in VisitParsed(st, file, structName, importPath).cache && VisitParsed(st, file, structName, importPath).cache[k] == st.cache[k]
    ensures VisitParsed(st, file, structName, importPath).cache.Keys <= st.cache.Keys + {structName}
    ensures CacheInvariant(st.cache) ==> CacheInvariant(VisitParsed(st, file, structName, importPath).cache)
    ensures CacheInvariant(st.cache) && (forall s :: s in st.structs ==> s.name == structName && s.from == importPath) ==>
      forall s :: s in VisitParsed(st, file, structName, importPath).structs ==> s.name == structName && s.from == importPath
  {
  }
}
