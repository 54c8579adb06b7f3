/** The import index of readFileToPrompt (parser/ast.go): a map from the name under
    which a file refers to an imported package to that import's quoted path literal. */
module Imports {
  import opened Wrappers
  import opened GoAst
  import opened GoStrings
  import opened GoFilepath
  import opened Assoc

  /** The key of an import: its explicit name if it has one, otherwise the last element
      of its path with the quotes removed. */
  function ImportKey(s: Spec): string
    requires s.ImportSpec?
  {
    match s.alias
    case Some(alias) => alias
    case None => RemoveAll(Base(s.path), "\"")
  }

  predicate IsImportDecl(d: Decl) {
    d.GenDecl? && d.tok == IMPORT
  }

  /** The writes the loop makes into the index for a list of specs, in order. */
  function SpecWrites(specs: seq<Spec>): seq<(string, string)> {
    if specs == [] then []
    else
      var s := specs[|specs| - 1];
      SpecWrites(specs[..|specs| - 1]) + (if s.ImportSpec? then [(ImportKey(s), s.path)] else [])
  }

  /** The writes the loop makes into the index for a file's declarations, in order. */
  function ImportWrites(decls: seq<Decl>): seq<(string, string)> {
    if decls == [] then []
    else
      var d := decls[|decls| - 1];
      ImportWrites(decls[..|decls| - 1]) + (if IsImportDecl(d) then SpecWrites(d.specs) else [])
  }

  /** The index the loop builds. */
  function ImportIndex(decls: seq<Decl>): map<string, string> {
    MapOfPairs(ImportWrites(decls))
  }

  /** The loop of readFileToPrompt that fills `importPath`. */
  method ReadImports(decls: seq<Decl>) returns (importPath: map<string, string>)
    ensures importPath == ImportIndex(decls)
  {
    importPath := map[];
    for i := 0 to |decls|
      invariant importPath == MapOfPairs(ImportWrites(decls[..i]))
    {
      ImportWritesSnoc(decls, i);
      ghost var before := ImportWrites(decls[..i]);
      if decls[i].GenDecl? && decls[i].tok == IMPORT {
        var genDecl := decls[i];
        importPath := ReadImportSpecs(importPath, genDecl.specs);
        MapOfPairsAppend(before, SpecWrites(genDecl.specs));
      } else {
        assert before + [] == before;
      }
    }
    assert decls[..|decls|] == decls;
  }

  lemma ImportWritesSnoc(decls: seq<Decl>, i: nat)
    requires i < |decls|
    ensures ImportWrites(decls[..i + 1])
         == ImportWrites(decls[..i]) + (if IsImportDecl(decls[i]) then SpecWrites(decls[i].specs) else [])
  {
    assert decls[..i + 1][..i] == decls[..i];
    assert decls[..i + 1][i] == decls[i];
  }

  /** One import spec writes its key and path. */
  lemma OneImportSpec(spec: Spec)
    requires spec.ImportSpec?
    ensures SpecWrites([spec]) == [(ImportKey(spec), spec.path)]
  {
    assert [spec][..0] == [];
  }

  /** An import declaration followed by another kind writes what the first one does. */
  lemma ImportThenOther(d0: Decl, d1: Decl)
    requires IsImportDecl(d0) && !IsImportDecl(d1)
    ensures ImportWrites([d0, d1]) == SpecWrites(d0.specs)
  {
    var w := SpecWrites(d0.specs);
    assert [d0, d1][..1] == [d0] && [d0][..0] == [];
    assert ImportWrites([d0]) == [] + w == w;
    assert ImportWrites([d0, d1]) == w + [] == w;
  }

  /** The inner loop of readFileToPrompt: the specs of one import declaration. */
  method ReadImportSpecs(m: map<string, string>, specs: seq<Spec>) returns (importPath: map<string, string>)
    ensures importPath == m + MapOfPairs(SpecWrites(specs))
  {
    importPath := m;
    assert SpecWrites(specs[..0]) == [];
    for j := 0 to |specs|
      invariant importPath == m + MapOfPairs(SpecWrites(specs[..j]))
    {
      var spec := specs[j];
      if spec.ImportSpec? {
        SpecWritesSnocImport(specs, j);
        UnionUpdate(m, MapOfPairs(SpecWrites(specs[..j])), ImportKey(spec), spec.path);
        if spec.alias.Some? {
          importPath := importPath[spec.alias.value := spec.path];
        } else {
          var key := RemoveAll(Base(spec.path), "\"");
          importPath := importPath[key := spec.path];
        }
      } else {
        SpecWritesSnocOther(specs, j);
      }
    }
    assert specs[..|specs|] == specs;
  }

  lemma SpecWritesSnocImport(specs: seq<Spec>, j: nat)
    requires j < |specs| && specs[j].ImportSpec?
    ensures MapOfPairs(SpecWrites(specs[..j + 1]))
         == MapOfPairs(SpecWrites(specs[..j]))[ImportKey(specs[j]) := specs[j].path]
  {
    assert specs[..j + 1][..j] == specs[..j];
    var ps := SpecWrites(specs[..j + 1]);
    assert ps == SpecWrites(specs[..j]) + [(ImportKey(specs[j]), specs[j].path)];
    assert ps[..|ps| - 1] == SpecWrites(specs[..j]);
  }

  lemma SpecWritesSnocOther(specs: seq<Spec>, j: nat)
    requires j < |specs| && !specs[j].ImportSpec?
    ensures SpecWrites(specs[..j + 1]) == SpecWrites(specs[..j])
  {
    assert specs[..j + 1][..j] == specs[..j];
    assert SpecWrites(specs[..j]) + [] == SpecWrites(specs[..j]);
  }

  lemma {:induction false} ImportWritesAppend(a: seq<Decl>, b: seq<Decl>)
    ensures ImportWrites(a + b) == ImportWrites(a) + ImportWrites(b)
  {
    if b == [] {
      assert a + b == a;
    } else {
      var n := |b| - 1;
      var last := if IsImportDecl(b[n]) then SpecWrites(b[n].specs) else [];
      calc {
        ImportWrites(a + b);
        { assert (a + b)[..|a + b| - 1] == a + b[..n];
          assert (a + b)[|a + b| - 1] == b[n]; }
        ImportWrites(a + b[..n]) + last;
        { ImportWritesAppend(a, b[..n]); }
        (ImportWrites(a) + ImportWrites(b[..n])) + last;
        { AppendAssoc(ImportWrites(a), ImportWrites(b[..n]), last); }
        ImportWrites(a) + (ImportWrites(b[..n]) + last);
      }
    }
  }

  /** Indexing declarations `a` and then `b` keeps `b`'s path for every key both
      define: a later import with the same key overwrites an earlier one. */
  lemma ImportIndexAppend(a: seq<Decl>, b: seq<Decl>)
    ensures ImportIndex(a + b) == ImportIndex(a) + ImportIndex(b)
  {
    ImportWritesAppend(a, b);
    MapOfPairsAppend(ImportWrites(a), ImportWrites(b));
  }

  /** What one spec writes, if it is an import. */
  predicate WritesPair(s: Spec, p: (string, string)) {
    s.ImportSpec? && p == (ImportKey(s), s.path)
  }

  lemma SpecWritesMembers(specs: seq<Spec>, p: (string, string))
    ensures p in SpecWrites(specs) <==> exists s :: s in specs && WritesPair(s, p)
  {
    if p in SpecWrites(specs) {
      SpecWritesSource(specs, p);
    }
    if exists s :: s in specs && WritesPair(s, p) {
      var s :| s in specs && WritesPair(s, p);
      SpecWritesReach(specs, p, s);
    }
  }

  lemma {:induction false} SpecWritesSource(specs: seq<Spec>, p: (string, string))
    requires p in SpecWrites(specs)
    ensures exists s :: s in specs && WritesPair(s, p)
  {
    var n := |specs| - 1;
    var last := specs[n];
    if p in SpecWrites(specs[..n]) {
      SpecWritesSource(specs[..n], p);
      var s :| s in specs[..n] && WritesPair(s, p);
      assert s in specs;
    } else {
      assert WritesPair(last, p);
    }
  }

  lemma {:induction false} SpecWritesReach(specs: seq<Spec>, p: (string, string), s: Spec)
    requires s in specs && WritesPair(s, p)
    ensures p in SpecWrites(specs)
  {
    var n := |specs| - 1;
    var last := specs[n];
    assert SpecWrites(specs)
        == SpecWrites(specs[..n]) + (if last.ImportSpec? then [(ImportKey(last), last.path)] else []);
    if s != last {
      var k :| 0 <= k < |specs| && specs[k] == s;
      assert specs[..n][k] == s;
      SpecWritesReach(specs[..n], p, s);
    }
  }

  /** What the import declaration `d` writes. */
  predicate DeclWrites(d: Decl, p: (string, string)) {
    IsImportDecl(d) && exists s :: s in d.specs && WritesPair(s, p)
  }

  /** A write is made exactly when some import of an import declaration makes it. */
  lemma ImportWritesMembers(decls: seq<Decl>, p: (string, string))
    ensures p in ImportWrites(decls) <==> exists i :: 0 <= i < |decls| && DeclWrites(decls[i], p)
  {
    if p in ImportWrites(decls) {
      ImportWritesSource(decls, p);
    }
    if exists i :: 0 <= i < |decls| && DeclWrites(decls[i], p) {
      var i :| 0 <= i < |decls| && DeclWrites(decls[i], p);
      ImportWritesReach(decls, p, i);
    }
  }

  lemma {:induction false} ImportWritesSource(decls: seq<Decl>, p: (string, string))
    requires p in ImportWrites(decls)
    ensures exists i :: 0 <= i < |decls| && DeclWrites(decls[i], p)
  {
    var n := |decls| - 1;
    var last := decls[n];
    if p in ImportWrites(decls[..n]) {
      ImportWritesSource(decls[..n], p);
      var i :| 0 <= i < n && DeclWrites(decls[..n][i], p);
      assert decls[i] == decls[..n][i];
    } else {
      SpecWritesSource(last.specs, p);
      assert DeclWrites(decls[n], p);
    }
  }

  lemma {:induction false} ImportWritesReach(decls: seq<Decl>, p: (string, string), i: nat)
    requires i < |decls| && DeclWrites(decls[i], p)
    ensures p in ImportWrites(decls)
  {
    var n := |decls| - 1;
    var last := decls[n];
    assert ImportWrites(decls)
        == ImportWrites(decls[..n]) + (if IsImportDecl(last) then SpecWrites(last.specs) else []);
    if i < n {
      assert decls[..n][i] == decls[i];
      ImportWritesReach(decls[..n], p, i);
    } else {
      var s :| s in last.specs && WritesPair(s, p);
      SpecWritesReach(last.specs, p, s);
    }
  }

  /** A key is indexed exactly when some import of an import declaration has that key. */
  lemma ImportIndexDomain(decls: seq<Decl>, key: string)
    ensures key in ImportIndex(decls) <==>
      exists i, s :: 0 <= i < |decls| && IsImportDecl(decls[i]) && s in decls[i].specs
                     && s.ImportSpec? && ImportKey(s) == key
  {
    var ws := ImportWrites(decls);
    MapOfPairsKeys(ws);
    if key in ImportIndex(decls) {
      var k :| 0 <= k < |ws| && ws[k].0 == key;
      ImportWritesMembers(decls, ws[k]);
      var i :| 0 <= i < |decls| && DeclWrites(decls[i], ws[k]);
      var s :| s in decls[i].specs && WritesPair(s, ws[k]);
      assert s.ImportSpec? && ImportKey(s) == key;
    }
    if exists i, s :: 0 <= i < |decls| && IsImportDecl(decls[i]) && s in decls[i].specs
                      && s.ImportSpec? && ImportKey(s) == key {
      var i, s :| 0 <= i < |decls| && IsImportDecl(decls[i]) && s in decls[i].specs
                  && s.ImportSpec? && ImportKey(s) == key;
      assert DeclWrites(decls[i], (key, s.path)) by {
        assert WritesPair(s, (key, s.path));
      }
      ImportWritesMembers(decls, (key, s.path));
      var k :| 0 <= k < |ws| && ws[k] == (key, s.path);
      assert ws[k].0 == key;
    }
  }

  /** The value stored under a key is the quoted path literal of an import of an import
      declaration that has that key, and no import written after it has that key. */
  lemma ImportIndexValue(decls: seq<Decl>, key: string)
    requires key in ImportIndex(decls)
    ensures exists i, s :: 0 <= i < |decls| && IsImportDecl(decls[i]) && s in decls[i].specs
                           && s.ImportSpec? && ImportKey(s) == key && s.path == ImportIndex(decls)[key]
    ensures exists k :: 0 <= k < |ImportWrites(decls)|
              && ImportWrites(decls)[k] == (key, ImportIndex(decls)[key])
              && (forall j :: k < j < |ImportWrites(decls)| ==> ImportWrites(decls)[j].0 != key)
  {
    var ws := ImportWrites(decls);
    ValueFromLastWriter(ws, key);
    var k :| 0 <= k < |ws| && ws[k] == (key, ImportIndex(decls)[key]);
    ImportWritesMembers(decls, ws[k]);
    var i :| 0 <= i < |decls| && DeclWrites(decls[i], ws[k]);
    var s :| s in decls[i].specs && WritesPair(s, ws[k]);
    assert s.ImportSpec? && ImportKey(s) == key && s.path == ImportIndex(decls)[key];
  }

  /** The unaliased import "elem" is indexed under elem. */
  lemma ImportKeyOfElement(elem: string)
    requires elem != "" && '/' !in elem && '"' !in elem
    ensures ImportKey(ImportSpec(None, "\"" + elem + "\"")) == elem
  {
    var t := elem + "\"";
    var q := "\"" + t;
    assert q == "\"" + elem + "\"";
    NoSlashQuoted(elem);
    assert Base(q) == q by {
      assert q == "" + q;
      BaseOfElement("", q);
    }
    calc {
      ImportKey(ImportSpec(None, q));
      RemoveAll(q, "\"");
      { RemoveLeadingQuote(t); }
      RemoveAll(t, "\"");
      { RemoveTrailingQuote(elem); }
      elem;
    }
  }

  /** The unaliased import "dir/elem" is indexed under elem. */
  lemma ImportKeyOfPath(dir: string, elem: string)
    requires elem != "" && '/' !in elem && '"' !in elem
    ensures ImportKey(ImportSpec(None, "\"" + dir + "/" + elem + "\"")) == elem
  {
    var tail := elem + "\"";
    NoSlashQuoted(elem);
    var d := "\"" + dir + "/";
    assert d[|d| - 1] == '/';
    assert "\"" + dir + "/" + elem + "\"" == d + tail;
    BaseOfElement(d, tail);
    RemoveTrailingQuote(elem);
  }

  lemma RemoveLeadingQuote(t: string)
    ensures RemoveAll("\"" + t, "\"") == RemoveAll(t, "\"")
  {
    var s := "\"" + t;
    assert HasPrefix(s, "\"");
    assert s[1..] == t;
  }

  lemma NoSlashQuoted(elem: string)
    requires '/' !in elem
    ensures '/' !in elem + "\"" && '/' !in "\"" + elem + "\""
  {
    assert forall k :: 0 <= k < |elem| ==> elem[k] in elem;
  }

  lemma {:induction false} RemoveTrailingQuote(elem: string)
    requires '"' !in elem
    ensures RemoveAll(elem + "\"", "\"") == elem
  {
    var s := elem + "\"";
    if elem == [] {
      assert s == "\"";
      assert HasPrefix(s, "\"");
      assert s[1..] == [];
    } else {
      assert s[0] == elem[0] && elem[0] in elem;
      assert s[..1] != "\"";
      assert s[1..] == elem[1..] + "\"";
      assert '"' !in elem[1..] by {
        forall k | 0 <= k < |elem[1..]| ensures elem[1..][k] != '"' {
          assert elem[1..][k] == elem[k + 1];
          assert elem[k + 1] in elem;
        }
      }
      RemoveTrailingQuote(elem[1..]);
      assert elem == [elem[0]] + elem[1..];
    }
  }
}
