/** The declaration scanner of parser/ast.go: the names of a test file's test
    functions, and the source text of a file recovered from its byte offsets. */
module Scanner {
  import opened Wrappers
  import opened GoAst
  import opened GoStrings

  /** The names, in declaration order, of the functions whose name starts with "Test". */
  function TestFunctionNames(decls: seq<Decl>): seq<string> {
    if decls == [] then []
    else TestFunctionNames(decls[..|decls| - 1]) + TestNameOf(decls[|decls| - 1])
  }

  function TestNameOf(d: Decl): seq<string> {
    if d.FuncDecl? && HasPrefix(d.name, "Test") then [d.name] else []
  }

  /** getListFunctionName on an already parsed file (a parse failure ends the program
      in the source and is not modelled). */
  method GetListFunctionName(file: File) returns (funcNames: seq<string>)
    ensures funcNames == TestFunctionNames(file.decls)
  {
    var decls := file.decls;
    funcNames := [];
    for i := 0 to |decls|
      invariant funcNames == TestFunctionNames(decls[..i])
    {
      assert decls[..i + 1][..i] == decls[..i];
      if decls[i].FuncDecl? {
        if HasPrefix(decls[i].name, "Test") {
          funcNames := funcNames + [decls[i].name];
        }
      }
    }
    assert decls[..|decls|] == decls;
  }

  /** The names listed for a sequence of declarations followed by more are those of the
      first part followed by those of the rest: the list keeps declaration order. */
  lemma {:induction false} TestFunctionNamesAppend(a: seq<Decl>, b: seq<Decl>)
    ensures TestFunctionNames(a + b) == TestFunctionNames(a) + TestFunctionNames(b)
  {
    if b != [] {
      var n := |b| - 1;
      assert (a + b)[..|a + b| - 1] == a + b[..n];
      assert (a + b)[|a + b| - 1] == b[n];
      TestFunctionNamesAppend(a, b[..n]);
    } else {
      assert a + b == a;
    }
  }

  /** A name is listed exactly when it is the name of a declared function and starts
      with "Test". */
  lemma TestFunctionNamesMembers(decls: seq<Decl>, name: string)
    ensures name in TestFunctionNames(decls) <==>
      HasPrefix(name, "Test") && exists i :: 0 <= i < |decls| && decls[i].FuncDecl? && decls[i].name == name
  {
    if name in TestFunctionNames(decls) {
      TestFunctionNamesSource(decls, name);
    }
    if HasPrefix(name, "Test") && exists i :: 0 <= i < |decls| && decls[i].FuncDecl? && decls[i].name == name {
      var i :| 0 <= i < |decls| && decls[i].FuncDecl? && decls[i].name == name;
      TestFunctionNamesReach(decls, name, i);
    }
  }

  lemma {:induction false} TestFunctionNamesSource(decls: seq<Decl>, name: string)
    requires name in TestFunctionNames(decls)
    ensures HasPrefix(name, "Test")
    ensures exists i :: 0 <= i < |decls| && decls[i].FuncDecl? && decls[i].name == name
  {
    var n := |decls| - 1;
    if name in TestFunctionNames(decls[..n]) {
      TestFunctionNamesSource(decls[..n], name);
      var i :| 0 <= i < n && decls[..n][i].FuncDecl? && decls[..n][i].name == name;
      assert decls[i] == decls[..n][i];
    } else {
      assert name in TestNameOf(decls[n]);
    }
  }

  lemma {:induction false} TestFunctionNamesReach(decls: seq<Decl>, name: string, i: nat)
    requires HasPrefix(name, "Test") && i < |decls| && decls[i].FuncDecl? && decls[i].name == name
    ensures name in TestFunctionNames(decls)
  {
    var n := |decls| - 1;
    assert TestFunctionNames(decls) == TestFunctionNames(decls[..n]) + TestNameOf(decls[n]);
    if i < n {
      assert decls[..n][i] == decls[i];
      TestFunctionNamesReach(decls[..n], name, i);
    } else {
      assert TestNameOf(decls[n]) == [name];
    }
  }

  /** getSourceCode: the bytes of the file from `start` up to `end`, where `content` is
      what os.ReadFile returned; a failed read gives the empty string. Go's slice
      expression panics outside 0 <= start <= end <= len, hence the precondition. */
  function SourceCode(content: Option<seq<byte>>, start: nat, end: nat): (r: seq<byte>)
    requires content.Some? ==> start <= end <= |content.value|
    ensures content.None? ==> r == []
    ensures content.Some? ==> |r| == end - start
    ensures content.Some? ==> content.value == content.value[..start] + r + content.value[end..]
  {
    match content
    case None => []
    case Some(bytes) =>
      assert bytes == bytes[..start] + bytes[start..end] + bytes[end..];
      bytes[start..end]
  }
}
