/** The parsed Go declarations the core works on: an abstraction of the parts of
    `go/ast` that parser/ast.go inspects, and a formatter standing in for
    `types.ExprString` on the type expressions that appear in field lists. */
module GoAst {
  import opened Wrappers

  newtype byte = x: int | 0 <= x < 256

  /** The keyword of a general declaration. */
  datatype Token = IMPORT | CONST | TYPE | VAR

  /** A type expression. `OtherExpr` stands for any shape the formatter below does not
      spell out (function, channel and interface types, ...), carrying its rendering. */
  datatype Expr =
    | Ident(name: string)
    | BasicLit(value: string)
    | SelectorExpr(x: Expr, sel: string)
    | StarExpr(x: Expr)
    | ArrayType(len: Option<Expr>, elt: Expr)
    | MapType(key: Expr, elem: Expr)
    | Ellipsis(elt: Expr)
    | StructType(fields: seq<Field>)
    | OtherExpr(text: string)

  /** A field of a struct or a parameter list: `a, b T` has two names, an embedded
      field none. */
  datatype Field = Field(names: seq<string>, typ: Expr)

  datatype Spec =
    | ImportSpec(alias: Option<string>, path: string)   // path is the quoted literal
    | TypeSpec(name: string, typ: Expr)
    | ValueSpec(names: seq<string>, declared: Option<Expr>)

  datatype Decl =
    | FuncDecl(name: string, params: seq<Field>)
    | GenDecl(tok: Token, specs: seq<Spec>)
    | BadDecl

  /** One parsed file: its package name, its declarations, and the byte offsets of
      `file.Pos()` and `file.End()`. */
  datatype File = File(pkg: string, decls: seq<Decl>, startOffset: nat, endOffset: nat)

  /** The rendering of a type expression, following the cases of go/types' ExprString
      for the shapes above. */
  function TypeString(e: Expr): string
    decreases e, 1
  {
    match e
    case Ident(name) => name
    case BasicLit(value) => value
    case SelectorExpr(x, sel) => TypeString(x) + "." + sel
    case StarExpr(x) => "*" + TypeString(x)
    case ArrayType(len, elt) =>
      "[" + (match len case Some(l) => TypeString(l) case None => "") + "]" + TypeString(elt)
    case MapType(key, elem) => "map[" + TypeString(key) + "]" + TypeString(elem)
    case Ellipsis(elt) => "..." + TypeString(elt)
    case StructType(fields) => "struct{" + FieldListString(e, fields) + "}"
    case OtherExpr(text) => text
  }

  /** The fields of a struct type `owner`, separated by "; ". */
  function FieldListString(owner: Expr, fields: seq<Field>): string
    requires forall f :: f in fields ==> f < owner
    decreases owner, 0, |fields|
  {
    if fields == [] then ""
    else
      var f := fields[0];
      assert f in fields && f.typ < f;
      assert forall g :: g in fields[1..] ==> g in fields;
      var names := NameList(f.names);
      var head := if names == "" then TypeString(f.typ) else names + " " + TypeString(f.typ);
      if |fields| == 1 then head else head + "; " + FieldListString(owner, fields[1..])
  }

  /** Names separated by ", ". */
  function NameList(names: seq<string>): string {
    if names == [] then ""
    else if |names| == 1 then names[0]
    else names[0] + ", " + NameList(names[1..])
  }
}
