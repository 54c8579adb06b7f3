/** The values handed to the prompt template (prompt/template.go). Rendering the
    template is not modelled. */
module Prompt {
  import opened GoAst
  import opened Assoc

  datatype StructField = StructField(name: string, typ: string)

  /** A resolved struct: its name, where it was found (`from`) and its fields. */
  datatype Struct = Struct(name: string, from: string, fields: seq<StructField>)

  datatype Mock = Mock(name: string, dir: string)

  /** The analysis result. Go's zero value has an empty source code, no structs and
      an empty mock. */
  datatype Template = Template(sourceCode: seq<byte>, structs: seq<Struct>, mock: Mock)

  /** A struct whose field list is seen as a map from field name to type. The field
      list is built by iterating a Go map, whose order is unspecified, so the
      specifications describe structs by their shapes. */
  datatype StructShape = StructShape(name: string, from: string, fields: map<string, string>)

  function FieldPairs(fields: seq<StructField>): (ps: seq<(string, string)>)
    ensures |ps| == |fields|
    ensures forall i :: 0 <= i < |fields| ==> ps[i] == (fields[i].name, fields[i].typ)
  {
    seq(|fields|, i requires 0 <= i < |fields| => (fields[i].name, fields[i].typ))
  }

  function ShapeOf(s: Struct): StructShape {
    StructShape(s.name, s.from, MapOfPairs(FieldPairs(s.fields)))
  }

  function Shapes(ss: seq<Struct>): (r: seq<StructShape>)
    ensures |r| == |ss|
    ensures forall i :: 0 <= i < |ss| ==> r[i] == ShapeOf(ss[i])
  {
    seq(|ss|, i requires 0 <= i < |ss| => ShapeOf(ss[i]))
  }

  function ShapeMap(m: map<string, Struct>): (r: map<string, StructShape>)
    ensures r.Keys == m.Keys
    ensures forall k :: k in m ==> r[k] == ShapeOf(m[k])
  {
    map k | k in m :: ShapeOf(m[k])
  }

  lemma ShapesAppend(ss: seq<Struct>, ts: seq<Struct>)
    ensures Shapes(ss + ts) == Shapes(ss) + Shapes(ts)
  {
  }

  lemma ShapeMapUpdate(m: map<string, Struct>, k: string, s: Struct)
    ensures ShapeMap(m[k := s]) == ShapeMap(m)[k := ShapeOf(s)]
  {
  }

  /** No two fields share a name. */
  predicate DistinctNames(fields: seq<StructField>) {
    forall i, j :: 0 <= i < j < |fields| ==> fields[i].name != fields[j].name
  }

  /** No struct of `structs` lists a field name twice. */
  predicate FieldsDistinct(structs: seq<Struct>) {
    forall s :: s in structs ==> DistinctNames(s.fields)
  }

  /** `fields` holds exactly one entry per key of `m`, with that key's type, in some
      order. */
  predicate ListsMap(fields: seq<StructField>, m: map<string, string>) {
    && DistinctNames(fields)
    && (forall i :: 0 <= i < |fields| ==> fields[i].name in m && m[fields[i].name] == fields[i].typ)
    && (forall k :: k in m ==> exists i :: 0 <= i < |fields| && fields[i].name == k)
  }

  /** A field list that lists a map has that map as its shape. */
  lemma ListsMapShape(fields: seq<StructField>, m: map<string, string>)
    requires ListsMap(fields, m)
    ensures MapOfPairs(FieldPairs(fields)) == m
  {
    var mm := MapOfPairs(FieldPairs(fields));
    assert mm.Keys == m.Keys by {
      FieldPairsKeys(fields);
    }
    forall k | k in m ensures mm[k] == m[k] {
      var i :| 0 <= i < |fields| && fields[i].name == k;
      DistinctLastWriter(fields, i);
    }
  }

  lemma FieldPairsKeys(fields: seq<StructField>)
    ensures MapOfPairs(FieldPairs(fields)).Keys == NameSet(fields)
  {
    var ps := FieldPairs(fields);
    MapOfPairsKeys(ps);
    assert forall i :: 0 <= i < |ps| ==> ps[i].0 == fields[i].name;
  }

  lemma DistinctLastWriter(fields: seq<StructField>, i: nat)
    requires DistinctNames(fields) && i < |fields|
    ensures fields[i].name in MapOfPairs(FieldPairs(fields))
    ensures MapOfPairs(FieldPairs(fields))[fields[i].name] == fields[i].typ
  {
    LastWriterWins(FieldPairs(fields), i);
  }

  /** A field list that lists a map has one entry per key. */
  lemma ListsMapSize(fields: seq<StructField>, m: map<string, string>)
    requires ListsMap(fields, m)
    ensures |fields| == |m|
  {
    assert NameSet(fields) == m.Keys;
    IndexSetSize(fields);
  }

  /** The names of a list of distinct fields are as many as the fields. */
  lemma {:induction false} IndexSetSize(fields: seq<StructField>)
    requires DistinctNames(fields)
    ensures |NameSet(fields)| == |fields|
  {
    if fields != [] {
      var n := |fields| - 1;
      IndexSetSize(fields[..n]);
      NameSetSnoc(fields);
    }
  }

  function NameSet(fields: seq<StructField>): set<string> {
    set i | 0 <= i < |fields| :: fields[i].name
  }

  lemma NameSetSnoc(fields: seq<StructField>)
    requires DistinctNames(fields) && fields != []
    ensures NameSet(fields) == NameSet(fields[..|fields| - 1]) + {fields[|fields| - 1].name}
    ensures fields[|fields| - 1].name !in NameSet(fields[..|fields| - 1])
  {
    var n := |fields| - 1;
    assert forall i :: 0 <= i < n ==> fields[..n][i] == fields[i];
  }
}
