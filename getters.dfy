/**
  The accessor-model builder `createGetters` (main.go:134-187): one getter per
  struct field, in order, and the import paths whose alias some field type uses.
 */
module Getters {
  import opened Wrappers
  import opened GoAst
  import opened GoStrings
  import opened Naming
  import opened TypeString

  /** One getter to emit: owner struct, method name, field name, field-type text (main.go:26-35). */
  datatype GetterField = GetterField(structName: string, methodName: string, fieldName: string, fieldType: string)

  /** What the template renders for one file (main.go:20-24). */
  datatype Getters = Getters(packageName: string, imports: seq<string>, fields: seq<GetterField>)

  /** An entry of the alias table: the full path and whether some field type uses its alias (main.go:134-137). */
  datatype UsedImport = UsedImport(name: string, used: bool)

  /** The two panics of the builder. */
  datatype BuildError =
    | AnonymousField(structName: string)                      // field.Names[0] of an embedded field (main.go:161)
    | UnsupportedType(structName: string, fieldName: string)  // the resolver's default case (main.go:208-209)

  // ---------------------------------------------------------------------------
  // The specification of the builder.

  /** Short alias to path after registering `imports` in order; a later path with the same alias replaces an earlier one (main.go:142-150). */
  function AliasTable(imports: seq<string>): map<string, string> {
    if imports == [] then map[]
    else
      var p := imports[|imports| - 1];
      AliasTable(imports[..|imports| - 1])[ShortName(p) := p]
  }

  /** The getter for one field of struct `structName`, or the panic building it runs into (main.go:161-165). */
  function FieldGetter(structName: string, field: Field): Result<GetterField, BuildError> {
    if field.names == [] then Failure(AnonymousField(structName))
    else
      var name := field.names[0];
      match Resolve(field.typ)
      case None => Failure(UnsupportedType(structName, name))
      case Some(t) => Success(GetterField(structName, ExportName(name), name, t))
  }

  /** The getters of a struct's fields in declaration order, or the first field's panic (main.go:159-172). */
  function StructGetters(structName: string, fields: seq<Field>): Result<seq<GetterField>, BuildError> {
    if fields == [] then Success([])
    else
      var init :- StructGetters(structName, fields[..|fields| - 1]);
      var g :- FieldGetter(structName, fields[|fields| - 1]);
      Success(init + [g])
  }

  /** A type spec whose type is not a struct contributes nothing (main.go:154-157). */
  function SpecGetters(ts: TypeSpec): Result<seq<GetterField>, BuildError> {
    if ts.typ.Struct? then StructGetters(ts.name, ts.typ.fields) else Success([])
  }

  /** All getters of the specs, concatenated in spec order (main.go:152-175). */
  function AllGetters(specs: seq<TypeSpec>): Result<seq<GetterField>, BuildError> {
    if specs == [] then Success([])
    else
      var init :- AllGetters(specs[..|specs| - 1]);
      var gs :- SpecGetters(specs[|specs| - 1]);
      Success(init + gs)
  }

  /** The aliases the field types mark as used: each text before its first `.` (main.go:167-171). */
  function UsedAliases(fields: seq<GetterField>): set<string> {
    set g | g in fields :: TypeQualifier(g.fieldType)
  }

  /** The paths the builder keeps: the registered path of every used alias (main.go:177-184). */
  function UsedImportPaths(imports: seq<string>, fields: seq<GetterField>): set<string> {
    var table := AliasTable(imports);
    set a | a in table && a in UsedAliases(fields) :: table[a]
  }

  predicate Distinct(s: seq<string>) {
    forall i, j | 0 <= i < j < |s| :: s[i] != s[j]
  }

  // ---------------------------------------------------------------------------
  // The builder.

  /**
    Builds the getter model of one file: the getters of all fields of the
    struct specs in order, and the used import paths, each once, in the
    order the alias table happens to be walked (main.go:139-187).
   */
  method CreateGetters(packageName: string, imports: seq<string>, typeSpecs: seq<TypeSpec>)
    returns (r: Result<Getters, BuildError>)
    ensures AllGetters(typeSpecs).Failure? ==> r == Failure(AllGetters(typeSpecs).error)
    ensures AllGetters(typeSpecs).Success? ==>
              && r.Success?
              && r.value.packageName == packageName
              && r.value.fields == AllGetters(typeSpecs).value
              && (forall p :: p in r.value.imports <==> p in UsedImportPaths(imports, r.value.fields))
              && Distinct(r.value.imports)
  {
    var usedImportMap := RegisterImports(imports);
    ghost var table := AliasTable(imports);
    MarkedNone(table);
    assert UsedAliases([]) == {};

    var fields: seq<GetterField> := [];
    var i := 0;
    while i < |typeSpecs|
      invariant 0 <= i <= |typeSpecs|
      invariant AllGetters(typeSpecs[..i]) == Success(fields)
      invariant usedImportMap == Marked(table, UsedAliases(fields))
    {
      var typeSpec := typeSpecs[i];
      assert typeSpecs[..i + 1][..i] == typeSpecs[..i];
      var structName := typeSpec.name;
      if typeSpec.typ.Struct? {
        var structFields := typeSpec.typ.fields;
        var getterFields := new GetterField[|structFields|];
        var j := 0;
        while j < |structFields|
          invariant 0 <= j <= |structFields|
          invariant StructGetters(structName, structFields[..j]) == Success(getterFields[..j])
          invariant usedImportMap == Marked(table, UsedAliases(fields + getterFields[..j]))
        {
          var field := structFields[j];
          assert structFields[..j + 1][..j] == structFields[..j];
          if field.names == [] {
            r := Failure(AnonymousField(structName));
            BuildFails(typeSpecs, i, structFields, j);
            return;
          }
          var fieldName := field.names[0];
          var methodName := ExportName(fieldName);
          var resolved := Resolve(field.typ);
          if resolved.None? {
            r := Failure(UnsupportedType(structName, fieldName));
            BuildFails(typeSpecs, i, structFields, j);
            return;
          }
          var fieldType := resolved.value;
          getterFields[j] := GetterField(structName, methodName, fieldName, fieldType);
          assert getterFields[..j + 1] == getterFields[..j] + [getterFields[j]];
          UsedAliasesAppend(fields + getterFields[..j], getterFields[j]);
          assert fields + getterFields[..j + 1] == fields + getterFields[..j] + [getterFields[j]];

          var shortFieldType := TypeQualifier(fieldType);
          MarkedAdd(table, UsedAliases(fields + getterFields[..j]), shortFieldType);
          if shortFieldType in usedImportMap {
            var imp := usedImportMap[shortFieldType];
            usedImportMap := usedImportMap[shortFieldType := imp.(used := true)];
          }
          j := j + 1;
        }
        assert structFields[..j] == structFields;
        assert getterFields[..j] == getterFields[..];
        assert fields + getterFields[..j] == fields + getterFields[..];
        assert SpecGetters(typeSpec) == Success(getterFields[..]);
        fields := fields + getterFields[..];
      } else {
        assert SpecGetters(typeSpec) == Success([]);
        assert fields + [] == fields;
      }
      i := i + 1;
    }
    assert typeSpecs[..i] == typeSpecs;

    AliasTableNames(imports);
    forall a, b | a in usedImportMap && b in usedImportMap && usedImportMap[a].name == usedImportMap[b].name
      ensures a == b
    {
      assert ShortName(table[a]) == a && ShortName(table[b]) == b;
    }
    var usedImports := CollectUsed(usedImportMap);
    UsedNamesMarked(imports, fields);
    r := Success(Getters(packageName, usedImports, fields));
  }

  /** The alias table with every entry marked unused. */
  function Unused(table: map<string, string>): map<string, UsedImport> {
    map a | a in table :: UsedImport(table[a], false)
  }

  /** The alias table with the entries of `used` aliases marked used. */
  function Marked(table: map<string, string>, used: set<string>): map<string, UsedImport> {
    map a | a in table :: UsedImport(table[a], a in used)
  }

  lemma MarkedNone(table: map<string, string>)
    ensures Marked(table, {}) == Unused(table)
  {
  }

  lemma MarkedAdd(table: map<string, string>, used: set<string>, q: string)
    ensures q in table ==> Marked(table, used + {q}) == Marked(table, used)[q := UsedImport(table[q], true)]
    ensures q !in table ==> Marked(table, used + {q}) == Marked(table, used)
  {
  }

  /** The alias table, every entry unused (main.go:142-150). */
  method RegisterImports(imports: seq<string>) returns (usedImportMap: map<string, UsedImport>)
    ensures usedImportMap == Unused(AliasTable(imports))
  {
    usedImportMap := map[];
    var n := 0;
    while n < |imports|
      invariant 0 <= n <= |imports|
      invariant usedImportMap == Unused(AliasTable(imports[..n]))
    {
      assert imports[..n + 1][..n] == imports[..n];
      var name := imports[n];
      var shortName := ShortName(name);
      UnusedUpdate(AliasTable(imports[..n]), shortName, name);
      usedImportMap := usedImportMap[shortName := UsedImport(name, false)];
      n := n + 1;
    }
    assert imports[..n] == imports;
  }

  lemma UnusedUpdate(table: map<string, string>, a: string, p: string)
    ensures Unused(table[a := p]) == Unused(table)[a := UsedImport(p, false)]
  {
  }

  /** The paths of the entries marked used. */
  function UsedNames(usedImportMap: map<string, UsedImport>): set<string> {
    set a | a in usedImportMap && usedImportMap[a].used :: usedImportMap[a].name
  }

  /**
    The paths of the used entries, each once, in whatever order the map is
    walked: Go leaves that order unspecified, so each step picks any key left
    (main.go:177-182).
   */
  method CollectUsed(usedImportMap: map<string, UsedImport>) returns (usedImports: seq<string>)
    requires forall a, b | a in usedImportMap && b in usedImportMap && a != b :: usedImportMap[a].name != usedImportMap[b].name
    ensures forall p :: p in usedImports <==> p in UsedNames(usedImportMap)
    ensures Distinct(usedImports)
  {
    usedImports := [];
    ghost var keys: seq<string> := [];
    var remaining := usedImportMap.Keys;
    while remaining != {}
      invariant remaining <= usedImportMap.Keys
      invariant |keys| == |usedImports|
      invariant forall k | 0 <= k < |keys| ::
                  && keys[k] in usedImportMap && keys[k] !in remaining
                  && usedImportMap[keys[k]].used && usedImportMap[keys[k]].name == usedImports[k]
      invariant forall a | a in usedImportMap && a !in remaining && usedImportMap[a].used ::
                  usedImportMap[a].name in usedImports
      invariant forall i, j | 0 <= i < j < |keys| :: keys[i] != keys[j]
      decreases remaining
    {
      var a :| a in remaining;
      var imp := usedImportMap[a];
      if imp.used {
        usedImports := usedImports + [imp.name];
        keys := keys + [a];
      }
      remaining := remaining - {a};
    }
    forall i, j | 0 <= i < j < |usedImports|
      ensures usedImports[i] != usedImports[j]
    {
      assert keys[i] != keys[j];
    }
    forall p | p in usedImports
      ensures p in UsedNames(usedImportMap)
    {
      var k :| 0 <= k < |usedImports| && usedImports[k] == p;
      assert keys[k] in usedImportMap;
    }
  }

  /** The used paths of the marked table are the paths the builder keeps. */
  lemma UsedNamesMarked(imports: seq<string>, fields: seq<GetterField>)
    ensures UsedNames(Marked(AliasTable(imports), UsedAliases(fields))) == UsedImportPaths(imports, fields)
  {
    var table, used := AliasTable(imports), UsedAliases(fields);
    var m := Marked(table, used);
    forall p | p in UsedNames(m) ensures p in UsedImportPaths(imports, fields) {
      var a :| a in m && m[a].used && m[a].name == p;
      assert a in table && a in used && table[a] == p;
    }
    forall p | p in UsedImportPaths(imports, fields) ensures p in UsedNames(m) {
      var a :| a in table && a in used && table[a] == p;
      assert a in m && m[a].used && m[a].name == p;
    }
  }

  // ---------------------------------------------------------------------------
  // Helper lemmas for the builder's proof.

  lemma UsedAliasesAppend(fields: seq<GetterField>, g: GetterField)
    ensures UsedAliases(fields + [g]) == UsedAliases(fields) + {TypeQualifier(g.fieldType)}
  {
    var l, r := UsedAliases(fields + [g]), UsedAliases(fields) + {TypeQualifier(g.fieldType)};
    forall a | a in r ensures a in l {
      if a in UsedAliases(fields) {
        var h :| h in fields && TypeQualifier(h.fieldType) == a;
        assert h in fields + [g];
      } else {
        assert g in fields + [g];
      }
    }
  }

  /** Every entry of the alias table is a registered path whose short name is its key. */
  lemma {:induction false} AliasTableNames(imports: seq<string>)
    ensures forall a | a in AliasTable(imports) :: ShortName(AliasTable(imports)[a]) == a && AliasTable(imports)[a] in imports
  {
    if imports != [] {
      var init := imports[..|imports| - 1];
      AliasTableNames(init);
      forall a | a in AliasTable(imports)
        ensures ShortName(AliasTable(imports)[a]) == a && AliasTable(imports)[a] in imports
      {
        if a != ShortName(imports[|imports| - 1]) {
          assert AliasTable(imports)[a] == AliasTable(init)[a];
          assert AliasTable(init)[a] in init;
        }
      }
    }
  }

  lemma {:induction false} StructGettersFailurePersists(name: string, fields: seq<Field>, j: nat)
    requires j <= |fields|
    requires StructGetters(name, fields[..j]).Failure?
    ensures StructGetters(name, fields) == StructGetters(name, fields[..j])
    decreases |fields| - j
  {
    if j < |fields| {
      assert fields[..j + 1][..j] == fields[..j];
      StructGettersFailurePersists(name, fields, j + 1);
    } else {
      assert fields[..j] == fields;
    }
  }

  lemma {:induction false} AllGettersFailurePersists(specs: seq<TypeSpec>, i: nat)
    requires i <= |specs|
    requires AllGetters(specs[..i]).Failure?
    ensures AllGetters(specs) == AllGetters(specs[..i])
    decreases |specs| - i
  {
    if i < |specs| {
      assert specs[..i + 1][..i] == specs[..i];
      AllGettersFailurePersists(specs, i + 1);
    } else {
      assert specs[..i] == specs;
    }
  }

  lemma StructGettersFirstFailure(name: string, fields: seq<Field>, j: nat)
    requires j < |fields|
    requires StructGetters(name, fields[..j]).Success?
    requires FieldGetter(name, fields[j]).Failure?
    ensures StructGetters(name, fields) == Failure(FieldGetter(name, fields[j]).error)
  {
    var upTo := fields[..j + 1];
    assert upTo[..|upTo| - 1] == fields[..j] && upTo[|upTo| - 1] == fields[j];
    StructGettersFailurePersists(name, fields, j + 1);
  }

  lemma AllGettersLastFails(specs: seq<TypeSpec>)
    requires specs != [] && AllGetters(specs[..|specs| - 1]).Success?
    requires SpecGetters(specs[|specs| - 1]).Failure?
    ensures AllGetters(specs) == Failure(SpecGetters(specs[|specs| - 1]).error)
  {
  }

  /** The first field that cannot be built decides the whole build's failure. */
  lemma BuildFails(specs: seq<TypeSpec>, i: nat, fields: seq<Field>, j: nat)
    requires i < |specs| && specs[i].typ.Struct? && fields == specs[i].typ.fields
    requires j < |fields|
    requires AllGetters(specs[..i]).Success?
    requires StructGetters(specs[i].name, fields[..j]).Success?
    requires FieldGetter(specs[i].name, fields[j]).Failure?
    ensures AllGetters(specs) == Failure(FieldGetter(specs[i].name, fields[j]).error)
  {
    var e := FieldGetter(specs[i].name, fields[j]).error;
    StructGettersFirstFailure(specs[i].name, fields, j);
    assert SpecGetters(specs[i]) == Failure(e);
    var before := specs[..i + 1];
    assert before[..|before| - 1] == specs[..i] && before[|before| - 1] == specs[i];
    AllGettersLastFails(before);
    assert AllGetters(before) == Failure(e);
    AllGettersFailurePersists(specs, i + 1);
  }

  // ---------------------------------------------------------------------------
  // Which imports are kept.

  /** No import after position `k` has short alias `a`. */
  predicate NoLaterAlias(imports: seq<string>, k: nat, a: string) {
    forall l | k < l < |imports| :: ShortName(imports[l]) != a
  }

  /** `p` is registered in `imports` and no later import has the same short alias. */
  predicate IsLastRegistered(imports: seq<string>, p: string) {
    exists k | 0 <= k < |imports| :: imports[k] == p && NoLaterAlias(imports, k, ShortName(p))
  }

  lemma {:induction false} AliasTableLastWins(imports: seq<string>, k: nat)
    requires k < |imports|
    requires NoLaterAlias(imports, k, ShortName(imports[k]))
    ensures ShortName(imports[k]) in AliasTable(imports)
    ensures AliasTable(imports)[ShortName(imports[k])] == imports[k]
  {
    if k < |imports| - 1 {
      var init := imports[..|imports| - 1];
      assert init[k] == imports[k];
      forall l | k < l < |init| ensures ShortName(init[l]) != ShortName(init[k]) {
        assert init[l] == imports[l];
      }
      AliasTableLastWins(init, k);
    }
  }

  lemma {:induction false} AliasTableLast(imports: seq<string>, a: string) returns (k: nat)
    requires a in AliasTable(imports)
    ensures k < |imports| && imports[k] == AliasTable(imports)[a] && ShortName(imports[k]) == a
    ensures NoLaterAlias(imports, k, a)
  {
    var last := |imports| - 1;
    var init := imports[..last];
    if ShortName(imports[last]) != a {
      assert AliasTable(imports)[a] == AliasTable(init)[a];
      k := AliasTableLast(init, a);
      assert imports[k] == init[k];
      forall l | k < l < |imports| ensures ShortName(imports[l]) != a {
        if l < last {
          assert imports[l] == init[l];
        }
      }
    } else {
      k := last;
    }
  }

  /**
    A path is kept exactly when it is the last path registered for its short
    alias and that alias is the text before the first `.` of some field type.
   */
  lemma UsedImportPathsMember(imports: seq<string>, fields: seq<GetterField>, p: string)
    ensures p in UsedImportPaths(imports, fields)
        <==> IsLastRegistered(imports, p) && exists g | g in fields :: TypeQualifier(g.fieldType) == ShortName(p)
  {
    var table := AliasTable(imports);
    if p in UsedImportPaths(imports, fields) {
      var a :| a in table && a in UsedAliases(fields) && table[a] == p;
      AliasTableNames(imports);
      var k := AliasTableLast(imports, a);
      var g :| g in fields && TypeQualifier(g.fieldType) == a;
    }
    if IsLastRegistered(imports, p) && exists g | g in fields :: TypeQualifier(g.fieldType) == ShortName(p) {
      var k :| 0 <= k < |imports| && imports[k] == p && NoLaterAlias(imports, k, ShortName(p));
      AliasTableLastWins(imports, k);
      var g :| g in fields && TypeQualifier(g.fieldType) == ShortName(p);
      assert ShortName(p) in UsedAliases(fields);
    }
  }

  /** Only paths of the input are kept, and at most one path per short alias. */
  lemma UsedImportPathsOnePerAlias(imports: seq<string>, fields: seq<GetterField>)
    ensures forall p | p in UsedImportPaths(imports, fields) :: p in imports
    ensures forall p, q | p in UsedImportPaths(imports, fields) && q in UsedImportPaths(imports, fields) ::
              ShortName(p) == ShortName(q) ==> p == q
  {
    AliasTableNames(imports);
  }

  /** A path whose alias no field type starts with is never kept. */
  lemma UnusedAliasDropped(imports: seq<string>, fields: seq<GetterField>, p: string)
    requires forall g | g in fields :: TypeQualifier(g.fieldType) != ShortName(p)
    ensures p !in UsedImportPaths(imports, fields)
  {
    UsedImportPathsMember(imports, fields, p);
  }

  // ---------------------------------------------------------------------------
  // Which getters are built, and in what order.

  predicate FieldOk(f: Field) {
    f.names != [] && Supported(f.typ)
  }

  /** `g` is the getter of field `f` of struct `structName`. */
  predicate IsGetterOf(structName: string, f: Field, g: GetterField) {
    && FieldOk(f)
    && g.structName == structName
    && g.fieldName == f.names[0]
    && g.methodName == ExportName(f.names[0])
    && Resolve(f.typ) == Some(g.fieldType)
  }

  /** The number of getters the specs ask for: the field count of every struct spec. */
  function FieldCount(specs: seq<TypeSpec>): nat {
    if specs == [] then 0
    else
      var last := specs[|specs| - 1];
      FieldCount(specs[..|specs| - 1]) + (if last.typ.Struct? then |last.typ.fields| else 0)
  }

  /** A struct's getters, one per field in field order; building fails exactly when some field cannot be built. */
  lemma {:induction false} StructGettersAt(name: string, fields: seq<Field>)
    ensures StructGetters(name, fields).Success? <==> forall j | 0 <= j < |fields| :: FieldOk(fields[j])
    ensures StructGetters(name, fields).Success? ==>
              && |StructGetters(name, fields).value| == |fields|
              && forall j | 0 <= j < |fields| :: IsGetterOf(name, fields[j], StructGetters(name, fields).value[j])
  {
    if fields != [] {
      var init, f := fields[..|fields| - 1], fields[|fields| - 1];
      StructGettersAt(name, init);
      assert forall j | 0 <= j < |init| :: init[j] == fields[j];
      if !FieldOk(f) {
        assert !forall j | 0 <= j < |fields| :: FieldOk(fields[j]);
      }
    }
  }

  lemma {:induction false} AllGettersSucceedsIff(specs: seq<TypeSpec>)
    ensures AllGetters(specs).Success?
        <==> forall i, j | 0 <= i < |specs| && specs[i].typ.Struct? && 0 <= j < |specs[i].typ.fields| ::
               FieldOk(specs[i].typ.fields[j])
  {
    if specs != [] {
      var init, last := specs[..|specs| - 1], specs[|specs| - 1];
      AllGettersSucceedsIff(init);
      assert forall i | 0 <= i < |init| :: init[i] == specs[i];
      if last.typ.Struct? {
        StructGettersAt(last.name, last.typ.fields);
      }
      if SpecGetters(last).Failure? {
        var j :| 0 <= j < |last.typ.fields| && !FieldOk(last.typ.fields[j]);
        assert specs[|specs| - 1].typ.fields[j] == last.typ.fields[j];
      }
    }
  }

  /**
    The getters are the fields of the struct specs, concatenated in spec order,
    each struct's in field order: field `j` of spec `i` gives the getter at
    position FieldCount(specs[..i]) + j.
   */
  lemma {:induction false} AllGettersAt(specs: seq<TypeSpec>, i: nat, j: nat)
    requires AllGetters(specs).Success?
    requires i < |specs| && specs[i].typ.Struct? && j < |specs[i].typ.fields|
    ensures |AllGetters(specs).value| == FieldCount(specs)
    ensures FieldCount(specs[..i]) + j < FieldCount(specs)
    ensures IsGetterOf(specs[i].name, specs[i].typ.fields[j], AllGetters(specs).value[FieldCount(specs[..i]) + j])
  {
    var init, last := specs[..|specs| - 1], specs[|specs| - 1];
    var gs := AllGetters(specs).value;
    var initGs := AllGetters(init).value;
    AllGettersCount(init);
    if last.typ.Struct? {
      StructGettersAt(last.name, last.typ.fields);
    }
    assert gs == initGs + SpecGetters(last).value;
    if i < |init| {
      assert init[i] == specs[i];
      assert init[..i] == specs[..i];
      AllGettersAt(init, i, j);
    } else {
      assert specs[..i] == init;
    }
  }

  lemma {:induction false} AllGettersCount(specs: seq<TypeSpec>)
    requires AllGetters(specs).Success?
    ensures |AllGetters(specs).value| == FieldCount(specs)
  {
    if specs != [] {
      var init, last := specs[..|specs| - 1], specs[|specs| - 1];
      AllGettersCount(init);
      if last.typ.Struct? {
        StructGettersAt(last.name, last.typ.fields);
      }
    }
  }
}
