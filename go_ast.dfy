/**
  The part of a parsed Go file that the getter generator looks at, as plain values.
  The Go parser itself is not modelled: a file arrives already parsed, with its
  declaration groups listed in the order `ast.Inspect` visits them.
 */
module GoAst {
  import opened Wrappers

  /** An identifier as the parser produces it: never empty. */
  type Identifier = s: string | s != [] witness "_"

  /** An import path literal as the parser produces it: the path between two quotes. */
  type PathLiteral = s: string | |s| >= 2 witness "\"\""

  datatype ChanDir = Send | Recv | Both

  /** A type expression, one variant per `ast.Expr` node kind that can stand in type position. */
  datatype TypeExpr =
    | Ident(name: string)                         // ast.Ident
    | Star(x: TypeExpr)                           // ast.StarExpr: *X
    | Selector(x: TypeExpr, sel: string)          // ast.SelectorExpr: X.Sel
    | Array(len: Option<string>, elt: TypeExpr)   // ast.ArrayType: []Elt (len None) or [Len]Elt
    | Map(key: TypeExpr, value: TypeExpr)         // ast.MapType
    | Interface(methods: seq<string>)             // ast.InterfaceType, with its method names
    | Chan(dir: ChanDir, value: TypeExpr)         // ast.ChanType
    | Ellipsis(elt: TypeExpr)                     // ast.Ellipsis: ...Elt
    | Struct(fields: seq<Field>)                  // ast.StructType
    | Other(kind: string)                         // any other node: FuncType, IndexExpr, ParenExpr, ...

  /** A struct field; `names` is empty for an embedded field and has several entries for `a, b T`. */
  datatype Field = Field(names: seq<Identifier>, typ: TypeExpr)

  /** `type Name Type` */
  datatype TypeSpec = TypeSpec(name: string, typ: TypeExpr)

  datatype Spec =
    | TypeSpecItem(spec: TypeSpec)
    | ValueSpec(names: seq<Identifier>)
    | ImportSpec(path: PathLiteral)

  datatype Token = IMPORT | CONST | TYPE | VAR

  /** A declaration group; `doc` is None when the group has no doc comment, else the comment texts (with their `//`). */
  datatype GenDecl = GenDecl(tok: Token, doc: Option<seq<string>>, specs: seq<Spec>)

  /** A parsed file: package name, import path literals, and its GenDecls in visiting order. */
  datatype File = File(packageName: string, imports: seq<PathLiteral>, decls: seq<GenDecl>)
}
