/** findStructFields (parser/ast.go): the field names and rendered field types of every
    struct type declared in a file under a given name. */
module StructFields {
  import opened GoAst
  import opened Assoc

  /** The writes for one field `a, b T`: each name with the rendering of T. */
  function NameWrites(names: seq<string>, typ: string): (ps: seq<(string, string)>)
    ensures |ps| == |names|
    ensures forall i :: 0 <= i < |names| ==> ps[i] == (names[i], typ)
  {
    seq(|names|, i requires 0 <= i < |names| => (names[i], typ))
  }

  /** The writes for a struct type's field list, in order. */
  function FieldListWrites(fields: seq<Field>): seq<(string, string)> {
    if fields == [] then []
    else
      var f := fields[|fields| - 1];
      FieldListWrites(fields[..|fields| - 1]) + NameWrites(f.names, TypeString(f.typ))
  }

  /** A spec that declares a struct type named `target` writes its fields; any other
      spec writes nothing. */
  predicate DeclaresStruct(s: Spec, target: string) {
    s.TypeSpec? && s.name == target && s.typ.StructType?
  }

  function SpecWrites(s: Spec, target: string): seq<(string, string)> {
    if DeclaresStruct(s, target) then FieldListWrites(s.typ.fields) else []
  }

  function SpecListWrites(specs: seq<Spec>, target: string): seq<(string, string)> {
    if specs == [] then []
    else SpecListWrites(specs[..|specs| - 1], target) + SpecWrites(specs[|specs| - 1], target)
  }

  /** Every general declaration is searched, whatever its keyword. */
  function DeclWrites(d: Decl, target: string): seq<(string, string)> {
    if d.GenDecl? then SpecListWrites(d.specs, target) else []
  }

  function DeclListWrites(decls: seq<Decl>, target: string): seq<(string, string)> {
    if decls == [] then []
    else DeclListWrites(decls[..|decls| - 1], target) + DeclWrites(decls[|decls| - 1], target)
  }

  /** The map findStructFields returns. */
  function StructFieldMap(decls: seq<Decl>, target: string): map<string, string> {
    MapOfPairs(DeclListWrites(decls, target))
  }

  lemma SpecListWritesSnoc(specs: seq<Spec>, j: nat, target: string)
    requires j < |specs|
    ensures SpecListWrites(specs[..j + 1], target) == SpecListWrites(specs[..j], target) + SpecWrites(specs[j], target)
  {
    assert specs[..j + 1][..j] == specs[..j];
  }

  /** The writes of a struct type with two fields. */
  lemma FieldListWritesPair(f: Field, g: Field)
    ensures FieldListWrites([f, g]) == NameWrites(f.names, TypeString(f.typ)) + NameWrites(g.names, TypeString(g.typ))
  {
    var wf := NameWrites(f.names, TypeString(f.typ));
    assert [f, g][..1] == [f];
    assert [f][..0] == [];
    calc {
      FieldListWrites([f]);
      FieldListWrites([]) + wf;
      [] + wf;
      { assert [] + wf == wf; }
      wf;
    }
  }

  /** The writes of a file whose only declaration holds one spec. */
  lemma DeclListWritesSingle(d: Decl, s: Spec, target: string)
    requires d.GenDecl? && d.specs == [s]
    ensures DeclListWrites([d], target) == SpecWrites(s, target)
  {
    var w := SpecWrites(s, target);
    assert [d][..0] == [];
    assert d.specs[..0] == [];
    calc {
      DeclListWrites([d], target);
      DeclListWrites([], target) + DeclWrites(d, target);
      [] + SpecListWrites(d.specs, target);
      { assert [] + SpecListWrites(d.specs, target) == SpecListWrites(d.specs, target); }
      SpecListWrites(d.specs, target);
      SpecListWrites([], target) + w;
      { assert [] + w == w; }
      w;
    }
  }

  /** The loops of findStructFields. */
  method FindStructFields(file: File, structName: string) returns (structFieldMap: map<string, string>)
    ensures structFieldMap == StructFieldMap(file.decls, structName)
  {
    var decls := file.decls;
    structFieldMap := map[];
    for i := 0 to |decls|
      invariant structFieldMap == MapOfPairs(DeclListWrites(decls[..i], structName))
    {
      DeclListWritesSnoc(decls, i, structName);
      if decls[i].GenDecl? {
        var genDecl := decls[i];
        structFieldMap := WriteSpecList(structFieldMap, genDecl.specs, structName);
        MapOfPairsAppend(DeclListWrites(decls[..i], structName), SpecListWrites(genDecl.specs, structName));
      } else {
        ghost var w := DeclListWrites(decls[..i], structName);
        assert w + [] == w;
      }
    }
    assert decls[..|decls|] == decls;
  }

  lemma DeclListWritesSnoc(decls: seq<Decl>, i: nat, target: string)
    requires i < |decls|
    ensures DeclListWrites(decls[..i + 1], target) == DeclListWrites(decls[..i], target) + DeclWrites(decls[i], target)
  {
    assert decls[..i + 1][..i] == decls[..i];
    assert decls[..i + 1][i] == decls[i];
  }

  /** The middle loop of findStructFields: the specs of one general declaration. */
  method WriteSpecList(m: map<string, string>, specs: seq<Spec>, structName: string) returns (r: map<string, string>)
    ensures r == m + MapOfPairs(SpecListWrites(specs, structName))
  {
    r := m;
    assert SpecListWrites(specs[..0], structName) == [];
    for j := 0 to |specs|
      invariant r == m + MapOfPairs(SpecListWrites(specs[..j], structName))
    {
      ghost var w := SpecListWrites(specs[..j], structName);
      SpecListWritesSnoc(specs, j, structName);
      var spec := specs[j];
      if spec.TypeSpec? && spec.name == structName && spec.typ.StructType? {
        r := WriteFieldList(r, spec.typ.fields);
        UnionAppend(m, w, FieldListWrites(spec.typ.fields));
      } else {
        assert w + [] == w;
      }
    }
    assert specs[..|specs|] == specs;
  }

  /** The two innermost loops of findStructFields: writing one struct type's fields
      into the map. */
  method WriteFieldList(m: map<string, string>, fields: seq<Field>) returns (r: map<string, string>)
    ensures r == m + MapOfPairs(FieldListWrites(fields))
  {
    r := m;
    assert FieldListWrites(fields[..0]) == [];
    for k := 0 to |fields|
      invariant r == m + MapOfPairs(FieldListWrites(fields[..k]))
    {
      ghost var w := FieldListWrites(fields[..k]);
      var field := fields[k];
      var fieldType := TypeString(field.typ);
      FieldListWritesSnoc(fields, k);
      r := WriteNames(r, field.names, fieldType);
      UnionAppend(m, w, NameWrites(field.names, fieldType));
    }
    assert fields[..|fields|] == fields;
  }

  lemma FieldListWritesSnoc(fields: seq<Field>, k: nat)
    requires k < |fields|
    ensures FieldListWrites(fields[..k + 1]) == FieldListWrites(fields[..k]) + NameWrites(fields[k].names, TypeString(fields[k].typ))
  {
    assert fields[..k + 1][..k] == fields[..k];
    assert fields[..k + 1][k] == fields[k];
  }

  lemma UnionAppend<K, V>(m: map<K, V>, a: seq<(K, V)>, b: seq<(K, V)>)
    ensures (m + MapOfPairs(a)) + MapOfPairs(b) == m + MapOfPairs(a + b)
  {
    MapOfPairsAppend(a, b);
  }

  /** The innermost loop of findStructFields: writing the names of one field with its
      rendered type. */
  method WriteNames(m: map<string, string>, names: seq<string>, fieldType: string) returns (r: map<string, string>)
    ensures r == m + MapOfPairs(NameWrites(names, fieldType))
  {
    r := m;
    assert NameWrites(names[..0], fieldType) == [];
    for l := 0 to |names|
      invariant r == m + MapOfPairs(NameWrites(names[..l], fieldType))
    {
      var fieldName := names[l];
      NameWritesSnoc(names, l, fieldType);
      UnionUpdate(m, MapOfPairs(NameWrites(names[..l], fieldType)), fieldName, fieldType);
      r := r[fieldName := fieldType];
    }
    assert names[..|names|] == names;
  }

  lemma NameWritesSnoc(names: seq<string>, l: nat, fieldType: string)
    requires l < |names|
    ensures MapOfPairs(NameWrites(names[..l + 1], fieldType))
         == MapOfPairs(NameWrites(names[..l], fieldType))[names[l] := fieldType]
  {
    var ps := NameWrites(names[..l + 1], fieldType);
    assert ps[..|ps| - 1] == NameWrites(names[..l], fieldType);
  }

  /** The field `f` declares the name and rendered type of `p`. */
  predicate FieldWrites(f: Field, p: (string, string)) {
    p.0 in f.names && p.1 == TypeString(f.typ)
  }

  /** The spec `s` declares a struct type named `target` with a field like `p`. */
  predicate StructWrites(s: Spec, target: string, p: (string, string)) {
    DeclaresStruct(s, target) && exists f :: f in s.typ.fields && FieldWrites(f, p)
  }

  /** The declaration `d` is a general declaration with such a spec. */
  predicate DeclHasWrite(d: Decl, target: string, p: (string, string)) {
    d.GenDecl? && exists s :: s in d.specs && StructWrites(s, target, p)
  }

  lemma FieldListWritesMembers(fields: seq<Field>, p: (string, string))
    ensures p in FieldListWrites(fields) <==> exists f :: f in fields && FieldWrites(f, p)
  {
    if p in FieldListWrites(fields) {
      FieldListWritesSource(fields, p);
    }
    if exists f :: f in fields && FieldWrites(f, p) {
      var f :| f in fields && FieldWrites(f, p);
      FieldListWritesReach(fields, p, f);
    }
  }

  lemma {:induction false} FieldListWritesSource(fields: seq<Field>, p: (string, string))
    requires p in FieldListWrites(fields)
    ensures exists f :: f in fields && FieldWrites(f, p)
  {
    var n := |fields| - 1;
    var last := fields[n];
    if p in FieldListWrites(fields[..n]) {
      FieldListWritesSource(fields[..n], p);
      var f :| f in fields[..n] && FieldWrites(f, p);
      assert f in fields;
    } else {
      var k :| 0 <= k < |last.names| && NameWrites(last.names, TypeString(last.typ))[k] == p;
      assert FieldWrites(last, p);
    }
  }

  lemma {:induction false} FieldListWritesReach(fields: seq<Field>, p: (string, string), f: Field)
    requires f in fields && FieldWrites(f, p)
    ensures p in FieldListWrites(fields)
  {
    var n := |fields| - 1;
    var last := fields[n];
    assert FieldListWrites(fields) == FieldListWrites(fields[..n]) + NameWrites(last.names, TypeString(last.typ));
    if f == last {
      var q :| 0 <= q < |f.names| && f.names[q] == p.0;
      assert NameWrites(last.names, TypeString(last.typ))[q] == p;
    } else {
      var k :| 0 <= k < |fields| && fields[k] == f;
      assert fields[..n][k] == f;
      FieldListWritesReach(fields[..n], p, f);
    }
  }

  lemma SpecListWritesMembers(specs: seq<Spec>, target: string, p: (string, string))
    ensures p in SpecListWrites(specs, target) <==> exists s :: s in specs && StructWrites(s, target, p)
  {
    if p in SpecListWrites(specs, target) {
      SpecListWritesSource(specs, target, p);
    }
    if exists s :: s in specs && StructWrites(s, target, p) {
      var s :| s in specs && StructWrites(s, target, p);
      SpecListWritesReach(specs, target, p, s);
    }
  }

  lemma {:induction false} SpecListWritesSource(specs: seq<Spec>, target: string, p: (string, string))
    requires p in SpecListWrites(specs, target)
    ensures exists s :: s in specs && StructWrites(s, target, p)
  {
    var n := |specs| - 1;
    var last := specs[n];
    if p in SpecListWrites(specs[..n], target) {
      SpecListWritesSource(specs[..n], target, p);
      var s :| s in specs[..n] && StructWrites(s, target, p);
      assert s in specs;
    } else {
      FieldListWritesSource(last.typ.fields, p);
      assert StructWrites(last, target, p);
    }
  }

  lemma {:induction false} SpecListWritesReach(specs: seq<Spec>, target: string, p: (string, string), s: Spec)
    requires s in specs && StructWrites(s, target, p)
    ensures p in SpecListWrites(specs, target)
  {
    var n := |specs| - 1;
    var last := specs[n];
    assert SpecListWrites(specs, target) == SpecListWrites(specs[..n], target) + SpecWrites(last, target);
    if s == last {
      var f :| f in s.typ.fields && FieldWrites(f, p);
      FieldListWritesReach(s.typ.fields, p, f);
    } else {
      var k :| 0 <= k < |specs| && specs[k] == s;
      assert specs[..n][k] == s;
      SpecListWritesReach(specs[..n], target, p, s);
    }
  }

  /** A pair is written exactly when some general declaration of the file declares a
      struct type named `target` with a field of that name and rendered type. */
  lemma DeclListWritesMembers(decls: seq<Decl>, target: string, p: (string, string))
    ensures p in DeclListWrites(decls, target) <==>
      exists i :: 0 <= i < |decls| && DeclHasWrite(decls[i], target, p)
  {
    if p in DeclListWrites(decls, target) {
      DeclListWritesSource(decls, target, p);
    }
    if exists i :: 0 <= i < |decls| && DeclHasWrite(decls[i], target, p) {
      var i :| 0 <= i < |decls| && DeclHasWrite(decls[i], target, p);
      DeclListWritesReach(decls, target, p, i);
    }
  }

  lemma {:induction false} DeclListWritesSource(decls: seq<Decl>, target: string, p: (string, string))
    requires p in DeclListWrites(decls, target)
    ensures exists i :: 0 <= i < |decls| && DeclHasWrite(decls[i], target, p)
  {
    var n := |decls| - 1;
    if p in DeclListWrites(decls[..n], target) {
      DeclListWritesSource(decls[..n], target, p);
      var i :| 0 <= i < n && DeclHasWrite(decls[..n][i], target, p);
      assert decls[i] == decls[..n][i];
    } else {
      assert p in DeclWrites(decls[n], target);
      SpecListWritesMembers(decls[n].specs, target, p);
      assert DeclHasWrite(decls[n], target, p);
    }
  }

  lemma {:induction false} DeclListWritesReach(decls: seq<Decl>, target: string, p: (string, string), i: nat)
    requires i < |decls| && DeclHasWrite(decls[i], target, p)
    ensures p in DeclListWrites(decls, target)
  {
    var n := |decls| - 1;
    assert DeclListWrites(decls, target) == DeclListWrites(decls[..n], target) + DeclWrites(decls[n], target);
    if i < n {
      assert decls[..n][i] == decls[i];
      DeclListWritesReach(decls[..n], target, p, i);
    } else {
      SpecListWritesMembers(decls[n].specs, target, p);
    }
  }

  /** Some struct type named `target` declared in `decls` has a field called `name`. */
  predicate DeclaresField(decls: seq<Decl>, target: string, name: string) {
    exists i, s, f :: 0 <= i < |decls| && decls[i].GenDecl? && s in decls[i].specs
                      && DeclaresStruct(s, target) && f in s.typ.fields && name in f.names
  }

  /** A name is in the map exactly when a struct type named `target` of the file
      declares a field of that name. */
  lemma StructFieldMapDomain(decls: seq<Decl>, target: string, name: string)
    ensures name in StructFieldMap(decls, target) <==> DeclaresField(decls, target, name)
  {
    if name in StructFieldMap(decls, target) {
      StructFieldMapDeclared(decls, target, name);
    }
    if DeclaresField(decls, target, name) {
      DeclaredInStructFieldMap(decls, target, name);
    }
  }

  lemma StructFieldMapDeclared(decls: seq<Decl>, target: string, name: string)
    requires name in StructFieldMap(decls, target)
    ensures DeclaresField(decls, target, name)
  {
    var ws := DeclListWrites(decls, target);
    MapOfPairsKeys(ws);
    var k :| 0 <= k < |ws| && ws[k].0 == name;
    DeclListWritesSource(decls, target, ws[k]);
    var i :| 0 <= i < |decls| && DeclHasWrite(decls[i], target, ws[k]);
    var s :| s in decls[i].specs && StructWrites(s, target, ws[k]);
    var f :| f in s.typ.fields && FieldWrites(f, ws[k]);
  }

  lemma DeclaredInStructFieldMap(decls: seq<Decl>, target: string, name: string)
    requires DeclaresField(decls, target, name)
    ensures name in StructFieldMap(decls, target)
  {
    var i, s, f :| 0 <= i < |decls| && decls[i].GenDecl? && s in decls[i].specs
                   && DeclaresStruct(s, target) && f in s.typ.fields && name in f.names;
    var p := (name, TypeString(f.typ));
    assert StructWrites(s, target, p) by {
      assert FieldWrites(f, p);
    }
    assert DeclHasWrite(decls[i], target, p);
    DeclListWritesReach(decls, target, p, i);
    var ws := DeclListWrites(decls, target);
    MapOfPairsKeys(ws);
    var k :| 0 <= k < |ws| && ws[k] == p;
  }

  /** The type stored for a field name is the rendering of the type of a field of that
      name in a struct type named `target` of the file. */
  lemma StructFieldMapValue(decls: seq<Decl>, target: string, name: string)
    requires name in StructFieldMap(decls, target)
    ensures exists i, s, f :: 0 <= i < |decls| && decls[i].GenDecl? && s in decls[i].specs
                              && DeclaresStruct(s, target) && f in s.typ.fields && name in f.names
                              && TypeString(f.typ) == StructFieldMap(decls, target)[name]
  {
    var ws := DeclListWrites(decls, target);
    ValueFromLastWriter(ws, name);
    var k :| 0 <= k < |ws| && ws[k] == (name, StructFieldMap(decls, target)[name]);
    DeclListWritesMembers(decls, target, ws[k]);
    var i :| 0 <= i < |decls| && DeclHasWrite(decls[i], target, ws[k]);
    var s :| s in decls[i].specs && StructWrites(s, target, ws[k]);
    var f :| f in s.typ.fields && FieldWrites(f, ws[k]);
  }

  /** A file that declares no struct type named `target` gives the empty map. */
  lemma StructFieldMapUndeclared(decls: seq<Decl>, target: string)
    requires forall i, s :: 0 <= i < |decls| && decls[i].GenDecl? && s in decls[i].specs ==> !DeclaresStruct(s, target)
    ensures StructFieldMap(decls, target) == map[]
  {
    var m := StructFieldMap(decls, target);
    forall name ensures name !in m {
      StructFieldMapDomain(decls, target, name);
    }
    assert m.Keys == {};
  }

  lemma {:induction false} DeclListWritesAppend(a: seq<Decl>, b: seq<Decl>, target: string)
    ensures DeclListWrites(a + b, target) == DeclListWrites(a, target) + DeclListWrites(b, target)
  {
    if b == [] {
      assert a + b == a;
    } else {
      var n := |b| - 1;
      var last := DeclWrites(b[n], target);
      calc {
        DeclListWrites(a + b, target);
        { assert (a + b)[..|a + b| - 1] == a + b[..n];
          assert (a + b)[|a + b| - 1] == b[n]; }
        DeclListWrites(a + b[..n], target) + last;
        { DeclListWritesAppend(a, b[..n], target); }
        (DeclListWrites(a, target) + DeclListWrites(b[..n], target)) + last;
        { AppendAssoc(DeclListWrites(a, target), DeclListWrites(b[..n], target), last); }
        DeclListWrites(a, target) + (DeclListWrites(b[..n], target) + last);
      }
    }
  }

  /** Declarations searched later overwrite the types of fields found earlier. */
  lemma StructFieldMapAppend(a: seq<Decl>, b: seq<Decl>, target: string)
    ensures StructFieldMap(a + b, target) == StructFieldMap(a, target) + StructFieldMap(b, target)
  {
    DeclListWritesAppend(a, b, target);
    MapOfPairsAppend(DeclListWrites(a, target), DeclListWrites(b, target));
  }
}
