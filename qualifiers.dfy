/**
  Which packages a field type really refers to. The builder decides that an
  import is used from the text before the first `.` of a field type
  (main.go:167), which misses a qualifier that is not at the very start of the
  text: `*uuid.UUID`, `[]time.Time`, `map[string]time.Time`. This module gives
  the corrected rule, reading the qualifiers off the parsed type text, and
  exhibits the difference.
 */
module Qualifiers {
  import opened Wrappers
  import opened GoAst
  import opened GoStrings
  import opened Naming
  import opened TypeString
  import opened Getters

  /** The package identifiers `e` qualifies a type name with, at any depth. */
  function PackageQualifiers(e: TypeExpr): set<string> {
    match e
    case Ident(_) => {}
    case Star(x) => PackageQualifiers(x)
    case Selector(x, _) => if x.Ident? then {x.name} else PackageQualifiers(x)
    case Array(_, elt) => PackageQualifiers(elt)
    case Map(k, v) => PackageQualifiers(k) + PackageQualifiers(v)
    case Interface(_) => {}
    case Chan(_, v) => PackageQualifiers(v)
    case Ellipsis(elt) => PackageQualifiers(elt)
    case Struct(_) => {}
    case Other(_) => {}
  }

  lemma {:induction false} PackageQualifiersNormalize(e: TypeExpr)
    ensures PackageQualifiers(Normalize(e)) == PackageQualifiers(e)
  {
    match e
    case Ident(_) =>
    case Star(x) => PackageQualifiersNormalize(x);
    case Selector(x, _) => PackageQualifiersNormalize(x);
    case Array(_, elt) => PackageQualifiersNormalize(elt);
    case Map(k, v) => PackageQualifiersNormalize(k); PackageQualifiersNormalize(v);
    case Interface(_) =>
    case Chan(_, v) => PackageQualifiersNormalize(v);
    case Ellipsis(elt) => PackageQualifiersNormalize(elt);
    case Struct(_) =>
    case Other(_) =>
  }

  /** The packages a field-type text refers to: those of the type it reads back as. */
  function TextQualifiers(fieldType: string): set<string> {
    match Parse(fieldType)
    case Some((e, rest)) => if rest == [] then PackageQualifiers(e) else {}
    case None => {}
  }

  /** The text of a parsed type refers to exactly the packages the type does. */
  lemma TextQualifiersResolve(e: TypeExpr)
    requires Renderable(e)
    ensures Supported(e)
    ensures TextQualifiers(Resolve(e).value) == PackageQualifiers(e)
  {
    ParseResolve(e, []);
    assert Resolve(e).value + [] == Resolve(e).value;
    PackageQualifiersNormalize(e);
  }

  /** Names outside ASCII are read back too: the key `número` does not hide the package `uuid`. */
  lemma UnicodeKeyQualifiers()
    ensures TextQualifiers("map[número]uuid.UUID") == {"uuid"}
  {
    var e := Map(Ident("número"), Selector(Ident("uuid"), "UUID"));
    assert IsIdentText("número") && IsIdentText("uuid") && IsIdentText("UUID");
    TextQualifiersResolve(e);
    assert Resolve(Selector(Ident("uuid"), "UUID")) == Some("uuid" + "." + "UUID");
    assert Resolve(e).value == "map[" + "número" + "]" + ("uuid" + "." + "UUID");
    assert "map[" + "número" + "]" + ("uuid" + "." + "UUID") == "map[número]uuid.UUID";
    assert PackageQualifiers(e) == {"uuid"};
  }

  /** Corrected marking: every package any field type refers to. */
  function NeededAliases(fields: seq<GetterField>): set<string> {
    set g, q | g in fields && q in TextQualifiers(g.fieldType) :: q
  }

  /** Corrected import list: the registered path of every package some field type refers to. */
  function NeededImportPaths(imports: seq<string>, fields: seq<GetterField>): set<string> {
    var table := AliasTable(imports);
    set a | a in table && a in NeededAliases(fields) :: table[a]
  }

  /**
    With the corrected rule, every registered package that any field type of
    the model refers to, at any depth, is imported; and nothing else is.
   */
  lemma NeededImportPathsComplete(imports: seq<string>, specs: seq<TypeSpec>, i: nat, j: nat, q: string)
    requires AllGetters(specs).Success?
    requires i < |specs| && specs[i].typ.Struct? && j < |specs[i].typ.fields|
    requires Renderable(specs[i].typ.fields[j].typ)
    requires q in PackageQualifiers(specs[i].typ.fields[j].typ)
    requires q in AliasTable(imports)
    ensures AliasTable(imports)[q] in NeededImportPaths(imports, AllGetters(specs).value)
  {
    var fields := AllGetters(specs).value;
    AllGettersAt(specs, i, j);
    var g := fields[FieldCount(specs[..i]) + j];
    TextQualifiersResolve(specs[i].typ.fields[j].typ);
    assert g in fields && q in TextQualifiers(g.fieldType);
  }

  lemma NeededImportPathsSound(imports: seq<string>, fields: seq<GetterField>, p: string)
    requires p in NeededImportPaths(imports, fields)
    ensures p in imports
    ensures exists g | g in fields :: ShortName(p) in TextQualifiers(g.fieldType)
  {
    AliasTableNames(imports);
    var a :| a in AliasTable(imports) && a in NeededAliases(fields) && AliasTable(imports)[a] == p;
    var g, q :| g in fields && q in TextQualifiers(g.fieldType) && q == a;
  }

  /** For a field type that is a bare `pkg.Name`, the source's rule and the corrected one agree. */
  lemma BareSelectorAgrees(p: string, sel: string)
    requires IsIdentText(p) && IsIdentText(sel)
    ensures TypeQualifier(Resolve(Selector(Ident(p), sel)).value) == p
    ensures TextQualifiers(Resolve(Selector(Ident(p), sel)).value) == {p}
  {
    assert Resolve(Ident(p)) == Some(p);
    var t := Resolve(Selector(Ident(p), sel)).value;
    assert t == p + "." + sel;
    assert forall k | 0 <= k < |p| :: t[k] == p[k] && t[k] != '.';
    assert t[|p|] == '.';
    var r := TypeQualifier(t);
    assert |r| == |p|;
    assert r == t[..|p|] == p;
    TextQualifiersResolve(Selector(Ident(p), sel));
  }

  // ---------------------------------------------------------------------------
  // The discrepancy, on one struct with a field `id *uuid.UUID`.

  const UuidImports: seq<string> := [UuidPath]

  const PointerUser := TypeSpec("User", Struct([Field(["id"], Star(Selector(Ident("uuid"), "UUID")))]))

  const PointerId := Star(Selector(Ident("uuid"), "UUID"))

  const PointerIdGetter := GetterField("User", "Id", "id", "*uuid.UUID")

  lemma PointerIdText()
    ensures Resolve(PointerId) == Some("*uuid.UUID")
    ensures PackageQualifiers(PointerId) == {"uuid"}
  {
    var sel := Selector(Ident("uuid"), "UUID");
    assert Resolve(Ident("uuid")) == Some("uuid");
    assert Resolve(sel) == Some("uuid" + "." + "UUID");
    assert "uuid" + "." + "UUID" == "uuid.UUID";
    assert Resolve(Star(sel)) == Some("*" + "uuid.UUID");
    assert "*" + "uuid.UUID" == "*uuid.UUID";
  }

  lemma PointerUserGetters()
    ensures AllGetters([PointerUser]) == Success([PointerIdGetter])
  {
    PointerIdText();
    assert ExportName("id") == "Id";
    var f := Field(["id"], PointerId);
    assert PointerUser.typ.fields == [f] && [f][..0] == [];
    assert FieldGetter("User", f) == Success(PointerIdGetter);
    assert StructGetters("User", []) == Success([]);
    assert StructGetters("User", [f]) == Success([] + [PointerIdGetter]);
    assert [] + [PointerIdGetter] == [PointerIdGetter];
    assert [PointerUser][..0] == [];
    assert AllGetters([]) == Success([]);
    assert [] + [PointerIdGetter] == [PointerIdGetter];
  }

  const UuidPath := "github.com/google/uuid"

  /** The alias of `github.com/google/uuid` is `uuid`. */
  lemma UuidShortName()
    ensures ShortName(UuidPath) == "uuid"
  {
    AfterLastAt("github.com/google", '/', "uuid");
    assert "github.com/google" + ['/'] + "uuid" == UuidPath;
  }

  lemma UuidAliasTable()
    ensures AliasTable(UuidImports) == map["uuid" := UuidPath]
  {
    UuidShortName();
    assert UuidImports[..0] == [];
  }

  lemma PointerIdAliases()
    ensures UsedAliases([PointerIdGetter]) == {"*uuid"}
  {
    BeforeFirstAt("*uuid", '.', "UUID");
    assert "*uuid" + ['.'] + "UUID" == PointerIdGetter.fieldType;
    UsedAliasesAppend([], PointerIdGetter);
    assert [] + [PointerIdGetter] == [PointerIdGetter];
  }

  lemma KeptFromUuidTable(table: map<string, string>, used: set<string>)
    requires table == map["uuid" := UuidPath]
    ensures "uuid" in used ==> (set a | a in table && a in used :: table[a]) == {UuidPath}
    ensures "uuid" !in used ==> (set a | a in table && a in used :: table[a]) == {}
  {
    if "uuid" in used {
      assert "uuid" in table;
    }
  }

  /** The source's rule: the text before the first `.` of `*uuid.UUID` is `*uuid`, which is no alias. */
  lemma PointerQualifierUnused()
    ensures UsedImportPaths(UuidImports, [PointerIdGetter]) == {}
  {
    PointerIdAliases();
    UuidAliasTable();
    // The only marked alias is `*uuid`, which is not `uuid`.
    assert "uuid" !in UsedAliases([PointerIdGetter]);
    KeptFromUuidTable(AliasTable(UuidImports), UsedAliases([PointerIdGetter]));
  }

  lemma PointerIdNeededAliases()
    ensures NeededAliases([PointerIdGetter]) == {"uuid"}
  {
    PointerIdText();
    TextQualifiersResolve(PointerId);
    var fields := [PointerIdGetter];
    assert TextQualifiers(fields[0].fieldType) == {"uuid"};
    assert fields[0] in fields;
  }

  /** The corrected rule reads `uuid` off the text `*uuid.UUID`. */
  lemma PointerQualifierNeeded()
    ensures NeededImportPaths(UuidImports, [PointerIdGetter]) == {"github.com/google/uuid"}
  {
    UuidAliasTable();
    PointerIdNeededAliases();
    KeptFromUuidTable(AliasTable(UuidImports), NeededAliases([PointerIdGetter]));
  }

  /**
    The source builds the getter `Id() *uuid.UUID` but keeps no import, so
    the generated file refers to `uuid` without importing it; the corrected
    rule keeps `github.com/google/uuid`.
   */
  lemma PointerQualifierDropped()
    ensures AllGetters([PointerUser]) == Success([PointerIdGetter])
    ensures PointerIdGetter.fieldType == "*uuid.UUID"
    ensures UsedImportPaths(UuidImports, AllGetters([PointerUser]).value) == {}
    ensures NeededImportPaths(UuidImports, AllGetters([PointerUser]).value) == {"github.com/google/uuid"}
  {
    PointerUserGetters();
    PointerQualifierUnused();
    PointerQualifierNeeded();
  }
}
