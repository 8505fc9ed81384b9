/**
  The repository's example: example/main.go marks `User` for generation, and
  example/main_getters.go holds the result, seven getters and two imports.
 */
module Example {
  import opened Wrappers
  import opened GoAst
  import opened GoStrings
  import opened Naming
  import opened TypeString
  import opened Scanner
  import opened Getters
  import opened Qualifiers

  const UuidType := Selector(Ident("uuid"), "UUID")
  const TimeType := Selector(Ident("time"), "Time")

  const UserFields: seq<Field> := [
    Field(["id"], UuidType),
    Field(["name"], Ident("string")),
    Field(["age"], Ident("int")),
    Field(["birthday"], TimeType),
    Field(["children"], Array(None, Ident("User"))),
    Field(["createdAt"], TimeType),
    Field(["updatedAt"], TimeType)
  ]

  const User := TypeSpec("User", Struct(UserFields))

  const AstStruct := TypeSpec("Ast", Struct([
    Field(["node"], Star(Selector(Ident("ast"), "Node"))),
    Field(["num"], Ident("int"))
  ]))

  /** A Go string literal holding `path`, as the parser stores an import's path. */
  function Quote(path: string): (lit: PathLiteral)
    ensures Unquote(lit) == path
  {
    var lit := "\"" + path + "\"";
    assert lit[1..|lit| - 1] == path;
    lit
  }

  const ExamplePaths: seq<string> := ["go/ast", "math/rand", "time", UuidPath]

  const ExampleFile := File(
    "example",
    [Quote(ExamplePaths[0]), Quote(ExamplePaths[1]), Quote(ExamplePaths[2]), Quote(ExamplePaths[3])],
    [
      GenDecl(IMPORT, None, [
        ImportSpec(Quote(ExamplePaths[0])), ImportSpec(Quote(ExamplePaths[1])),
        ImportSpec(Quote(ExamplePaths[2])), ImportSpec(Quote(ExamplePaths[3]))]),
      GenDecl(TYPE, Some([Directive]), [TypeSpecItem(User)]),
      GenDecl(TYPE, None, [TypeSpecItem(AstStruct)])
    ])

  const UserGetters: seq<GetterField> := [
    GetterField("User", "Id", "id", "uuid.UUID"),
    GetterField("User", "Name", "name", "string"),
    GetterField("User", "Age", "age", "int"),
    GetterField("User", "Birthday", "birthday", "time.Time"),
    GetterField("User", "Children", "children", "[]User"),
    GetterField("User", "CreatedAt", "createdAt", "time.Time"),
    GetterField("User", "UpdatedAt", "updatedAt", "time.Time")
  ]

  /** Only `User` is collected: `Ast` has no doc comment. Package and imports are captured. */
  lemma ExampleScan()
    ensures TargetStructs(ExampleFile.decls) == [User]
    ensures AnyDocumentedType(ExampleFile.decls)
    ensures ImportPaths(ExampleFile.imports) == ExamplePaths
  {
    var ds := ExampleFile.decls;
    assert IsDocumentedType(ds[1]);
    assert IsDirective(Directive);
    assert StructSpecs([TypeSpecItem(User)]) == [User] by {
      assert [TypeSpecItem(User)][..0] == [];
    }
    var lines := [Directive];
    assert lines[..0] == [];
    assert DirectiveStructs(lines, ds[1].specs) == [User];
    assert ds[..1][..0] == [] && ds[..2][..1] == ds[..1] && ds[..3][..2] == ds[..2] && ds[..3] == ds;
    assert TargetStructs(ds[..1]) == [];
    assert TargetStructs(ds[..2]) == [User];
  }

  /** The getter of a one-name field, from its method name and type text. */
  lemma FieldGetterOf(fieldName: Identifier, typ: TypeExpr, methodName: string, typeText: string)
    requires ExportName(fieldName) == methodName && Resolve(typ) == Some(typeText)
    ensures FieldGetter("User", Field([fieldName], typ))
         == Success(GetterField("User", methodName, fieldName, typeText))
  {
  }

  lemma SelectorText(x: string, sel: string)
    requires x != []
    ensures Resolve(Selector(Ident(x), sel)) == Some(x + "." + sel)
  {
  }

  lemma IdGetter()
    ensures FieldGetter("User", UserFields[0]) == Success(UserGetters[0])
  {
    SelectorText("uuid", "UUID");
    assert "uuid" + "." + "UUID" == "uuid.UUID";
    assert ExportName("id") == "Id";
    FieldGetterOf("id", UuidType, "Id", "uuid.UUID");
  }

  lemma ChildrenGetter()
    ensures FieldGetter("User", UserFields[4]) == Success(UserGetters[4])
  {
    assert Resolve(Array(None, Ident("User"))) == Some("[]" + "User");
    assert "[]" + "User" == "[]User";
    assert ExportName("children") == "Children";
    FieldGetterOf("children", Array(None, Ident("User")), "Children", "[]User");
  }

  lemma IdentGetters()
    ensures FieldGetter("User", UserFields[1]) == Success(UserGetters[1])
    ensures FieldGetter("User", UserFields[2]) == Success(UserGetters[2])
  {
    assert ExportName("name") == "Name";
    FieldGetterOf("name", Ident("string"), "Name", "string");
    assert ExportName("age") == "Age";
    FieldGetterOf("age", Ident("int"), "Age", "int");
  }

  lemma TimeGetter(j: nat)
    requires j == 3 || j == 5 || j == 6
    ensures FieldGetter("User", UserFields[j]) == Success(UserGetters[j])
  {
    SelectorText("time", "Time");
    assert "time" + "." + "Time" == "time.Time";
    var name := UserFields[j].names[0];
    var methodName := UserGetters[j].methodName;
    assert ExportName(name) == methodName by {
      if j == 3 {
        assert ExportName("birthday") == "Birthday";
      } else if j == 5 {
        assert ExportName("createdAt") == "CreatedAt";
      } else {
        assert ExportName("updatedAt") == "UpdatedAt";
      }
    }
    FieldGetterOf(name, TimeType, methodName, "time.Time");
  }

  lemma UserFieldGetter(j: nat)
    requires j < 7
    ensures FieldGetter("User", UserFields[j]) == Success(UserGetters[j])
  {
    if j == 0 {
      IdGetter();
    } else if j == 4 {
      ChildrenGetter();
    } else if j == 1 || j == 2 {
      IdentGetters();
    } else {
      TimeGetter(j);
    }
  }

  /** Seven getters, `Id` to `UpdatedAt`, in field order, as in example/main_getters.go. */
  lemma ExampleGetters()
    ensures AllGetters([User]) == Success(UserGetters)
  {
    var k := 0;
    while k < 7
      invariant k <= 7
      invariant StructGetters("User", UserFields[..k]) == Success(UserGetters[..k])
    {
      UserFieldGetter(k);
      assert UserFields[..k + 1][..k] == UserFields[..k];
      assert UserGetters[..k + 1] == UserGetters[..k] + [UserGetters[k]];
      k := k + 1;
    }
    assert UserFields[..7] == UserFields && UserGetters[..7] == UserGetters;
    assert SpecGetters(User) == Success(UserGetters);
    assert [User][..0] == [] && [] + UserGetters == UserGetters;
  }

  lemma ShortNameAst()
    ensures ShortName(ExamplePaths[0]) == "ast"
  {
    AfterLastAt("go", '/', "ast");
    assert "go" + ['/'] + "ast" == ExamplePaths[0];
  }

  lemma ShortNameRand()
    ensures ShortName(ExamplePaths[1]) == "rand"
  {
    AfterLastAt("math", '/', "rand");
    assert "math" + ['/'] + "rand" == ExamplePaths[1];
  }

  lemma ExampleShortNames()
    ensures ShortName(ExamplePaths[0]) == "ast"
    ensures ShortName(ExamplePaths[1]) == "rand"
    ensures ShortName(ExamplePaths[2]) == "time"
    ensures ShortName(ExamplePaths[3]) == "uuid"
  {
    ShortNameAst();
    ShortNameRand();
    AfterLastAbsent("time", '/');
    UuidShortName();
  }

  lemma ExampleAliasTable()
    ensures AliasTable(ExamplePaths)
         == map["ast" := "go/ast", "rand" := "math/rand", "time" := "time", "uuid" := "github.com/google/uuid"]
  {
    ExampleShortNames();
    var ps := ExamplePaths;
    assert ps[..1][..0] == [] && ps[..2][..1] == ps[..1] && ps[..3][..2] == ps[..2] && ps[..3] == ps[..|ps| - 1];
    assert AliasTable(ps[..1]) == map["ast" := "go/ast"];
    assert AliasTable(ps[..2]) == map["ast" := "go/ast", "rand" := "math/rand"];
    assert AliasTable(ps[..3]) == map["ast" := "go/ast", "rand" := "math/rand", "time" := "time"];
  }

  const UserAliases: seq<string> := ["uuid", "string", "int", "time", "[]User", "time", "time"]

  lemma UserQualifier(j: nat)
    requires j < 7
    ensures TypeQualifier(UserGetters[j].fieldType) == UserAliases[j]
  {
    var t := UserGetters[j].fieldType;
    if j == 0 {
      BeforeFirstAt("uuid", '.', "UUID");
      assert "uuid" + ['.'] + "UUID" == t;
    } else if j == 3 || j == 5 || j == 6 {
      BeforeFirstAt("time", '.', "Time");
      assert "time" + ['.'] + "Time" == t;
    } else {
      assert t == UserAliases[j];
      BeforeFirstAbsent(t, '.');
    }
  }

  const ExpectedAliases: set<string> := {"uuid", "string", "int", "time", "[]User"}

  lemma ExampleAliasesWithin()
    ensures UsedAliases(UserGetters) <= ExpectedAliases
  {
    var gs := UserGetters;
    forall a | a in UsedAliases(gs) ensures a in ExpectedAliases {
      var g :| g in gs && TypeQualifier(g.fieldType) == a;
      var i :| 0 <= i < 7 && gs[i] == g;
      UserQualifier(i);
    }
  }

  lemma ExampleAliasesCover()
    ensures ExpectedAliases <= UsedAliases(UserGetters)
  {
    var gs := UserGetters;
    UserQualifier(0);
    UserQualifier(1);
    UserQualifier(2);
    UserQualifier(3);
    UserQualifier(4);
    assert gs[0] in gs && gs[1] in gs && gs[2] in gs && gs[3] in gs && gs[4] in gs;
  }

  /** The field types mark `uuid` and `time`, and also the non-aliases `string`, `int` and `[]User`. */
  lemma ExampleAliases()
    ensures UsedAliases(UserGetters) == ExpectedAliases
  {
    ExampleAliasesWithin();
    ExampleAliasesCover();
  }

  const ExpectedPaths: set<string> := {"time", "github.com/google/uuid"}

  lemma KeptPaths(table: map<string, string>, used: set<string>)
    requires table == map["ast" := "go/ast", "rand" := "math/rand", "time" := "time", "uuid" := "github.com/google/uuid"]
    requires used == ExpectedAliases
    ensures (set a | a in table && a in used :: table[a]) == ExpectedPaths
  {
    // Neither `ast` nor `rand` is among the marked aliases.
    assert "ast" !in used && "rand" !in used;
    assert "time" in table && "time" in used;
    assert "uuid" in table && "uuid" in used;
  }

  /** The imports reduce to `time` and `github.com/google/uuid`; `go/ast` and `math/rand` are dropped. */
  lemma ExampleImports()
    ensures UsedImportPaths(ExamplePaths, UserGetters) == ExpectedPaths
  {
    ExampleAliasTable();
    ExampleAliases();
    KeptPaths(AliasTable(ExamplePaths), UsedAliases(UserGetters));
  }

  /**
    The per-file steps of the generator run on example/main.go: scan the file,
    build the getter model and name the output file.
   */
  method ExampleGenerate() returns (getters: Getters, outFile: string)
    ensures getters.packageName == "example" && getters.fields == UserGetters
    ensures forall p :: p in getters.imports <==> p in ExpectedPaths
    ensures outFile == "example/main_getters.go"
  {
    var structs, packageName, imports := SearchTargetStructs(ExampleFile);
    ExampleScan();
    ExampleGetters();
    ExampleImports();
    var r := CreateGetters(packageName, imports, structs);
    getters := r.value;
    ExampleOutputName();
    outFile := OutputFileName("example/main.go");
  }

  /** The generated file sits next to the input: example/main.go gives example/main_getters.go. */
  lemma ExampleOutputName()
    ensures OutputFileName("example/main.go") == "example/main_getters.go"
  {
    assert HasSuffix("example/main.go", GoExt);
  }
}
