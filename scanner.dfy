/**
  The declaration scanner: the filtering closure of `searchTargetStructs`
  (main.go:83-132), run over a file that is already parsed.
 */
module Scanner {
  import opened Wrappers
  import opened GoAst
  import opened GoStrings

  /** The comment prefix that marks a type group for generation (main.go:114). */
  const Directive := "//go:generate getters"

  /** A group the closure does not skip at its first guard (main.go:100): a `type` group with a doc comment. */
  predicate IsDocumentedType(d: GenDecl) {
    d.tok == TYPE && d.doc.Some?
  }

  predicate IsDirective(line: string) {
    HasPrefix(line, Directive)
  }

  predicate IsStructSpec(spec: Spec) {
    spec.TypeSpecItem? && spec.spec.typ.Struct?
  }

  /** The group's specs that are type specs of struct type, in order (main.go:115-124). */
  function StructSpecs(specs: seq<Spec>): seq<TypeSpec> {
    if specs == [] then []
    else
      var last := specs[|specs| - 1];
      StructSpecs(specs[..|specs| - 1]) + (if IsStructSpec(last) then [last.spec] else [])
  }

  /** What a doc comment list contributes: the struct specs once for every directive line (main.go:113-126). */
  function DirectiveStructs(lines: seq<string>, specs: seq<Spec>): seq<TypeSpec> {
    if lines == [] then []
    else
      DirectiveStructs(lines[..|lines| - 1], specs)
        + (if IsDirective(lines[|lines| - 1]) then StructSpecs(specs) else [])
  }

  function DeclStructs(d: GenDecl): seq<TypeSpec> {
    if IsDocumentedType(d) then DirectiveStructs(d.doc.value, d.specs) else []
  }

  /** The specs the scanner collects from a file's groups, in visiting order. */
  function TargetStructs(decls: seq<GenDecl>): seq<TypeSpec> {
    if decls == [] then []
    else TargetStructs(decls[..|decls| - 1]) + DeclStructs(decls[|decls| - 1])
  }

  predicate AnyDocumentedType(decls: seq<GenDecl>) {
    exists i | 0 <= i < |decls| :: IsDocumentedType(decls[i])
  }

  /** The import path inside its quotes (main.go:107). */
  function Unquote(lit: PathLiteral): string {
    lit[1..|lit| - 1]
  }

  function ImportPaths(lits: seq<PathLiteral>): (r: seq<string>)
    ensures |r| == |lits|
    ensures forall i | 0 <= i < |lits| :: r[i] == Unquote(lits[i])
  {
    seq(|lits|, i requires 0 <= i < |lits| => Unquote(lits[i]))
  }

  /**
    Collects the struct specs of the file's directive-marked type groups, and
    captures the package name and import paths as soon as any documented type
    group is visited; until then they stay empty (main.go:83-132).
   */
  method SearchTargetStructs(f: File) returns (structs: seq<TypeSpec>, packageName: string, imports: seq<string>)
    ensures structs == TargetStructs(f.decls)
    ensures packageName == if AnyDocumentedType(f.decls) then f.packageName else ""
    ensures imports == if AnyDocumentedType(f.decls) then ImportPaths(f.imports) else []
  {
    packageName := "";
    imports := [];
    structs := [];
    var i := 0;
    while i < |f.decls|
      invariant 0 <= i <= |f.decls|
      invariant structs == TargetStructs(f.decls[..i])
      invariant packageName == if AnyDocumentedType(f.decls[..i]) then f.packageName else ""
      invariant imports == if AnyDocumentedType(f.decls[..i]) then ImportPaths(f.imports) else []
    {
      var d := f.decls[i];
      AnyDocumentedTypeStep(f.decls, i);
      assert f.decls[..i + 1][..i] == f.decls[..i];
      if d.tok == TYPE && d.doc.Some? {
        packageName := f.packageName;
        imports := CopyImportPaths(f.imports);
        structs := AppendMarkedStructs(structs, d);
      }
      i := i + 1;
    }
    assert f.decls[..i] == f.decls;
  }

  lemma AnyDocumentedTypeStep(decls: seq<GenDecl>, i: nat)
    requires i < |decls|
    ensures AnyDocumentedType(decls[..i + 1]) <==> AnyDocumentedType(decls[..i]) || IsDocumentedType(decls[i])
  {
    var d := decls[i];
    if IsDocumentedType(d) {
      assert decls[..i + 1][i] == d;
    }
    if AnyDocumentedType(decls[..i + 1]) && !IsDocumentedType(d) {
      var j :| 0 <= j < i + 1 && IsDocumentedType(decls[..i + 1][j]);
      assert j < i && decls[..i][j] == decls[..i + 1][j];
    }
    if AnyDocumentedType(decls[..i]) {
      var j :| 0 <= j < i && IsDocumentedType(decls[..i][j]);
      assert decls[..i + 1][j] == decls[..i][j];
    }
  }

  /** `imports = make([]string, n)` filled with the unquoted path of each import (main.go:105-111). */
  method CopyImportPaths(lits: seq<PathLiteral>) returns (imports: seq<string>)
    ensures imports == ImportPaths(lits)
  {
    var paths := new string[|lits|];
    var m := 0;
    while m < |lits|
      invariant 0 <= m <= |lits|
      invariant forall n | 0 <= n < m :: paths[n] == Unquote(lits[n])
    {
      paths[m] := Unquote(lits[m]);
      m := m + 1;
    }
    imports := paths[..];
  }

  /** The loops over a documented group's comments and specs, appending to `structs` (main.go:113-126). */
  method AppendMarkedStructs(structs: seq<TypeSpec>, d: GenDecl) returns (out: seq<TypeSpec>)
    requires IsDocumentedType(d)
    ensures out == structs + DeclStructs(d)
  {
    out := structs;
    var lines := d.doc.value;
    var k := 0;
    while k < |lines|
      invariant 0 <= k <= |lines|
      invariant out == structs + DirectiveStructs(lines[..k], d.specs)
    {
      assert lines[..k + 1][..k] == lines[..k];
      if HasPrefix(lines[k], Directive) {
        var j := 0;
        while j < |d.specs|
          invariant 0 <= j <= |d.specs|
          invariant out == structs + DirectiveStructs(lines[..k], d.specs) + StructSpecs(d.specs[..j])
        {
          assert d.specs[..j + 1][..j] == d.specs[..j];
          var spec := d.specs[j];
          if spec.TypeSpecItem? && spec.spec.typ.Struct? {
            out := out + [spec.spec];
          }
          j := j + 1;
        }
        assert d.specs[..j] == d.specs;
      }
      k := k + 1;
    }
    assert lines[..k] == lines;
  }

  // ---------------------------------------------------------------------------
  // What the scanner promises about what it collects.

  lemma {:induction false} StructSpecsMember(specs: seq<Spec>, s: TypeSpec)
    ensures s in StructSpecs(specs) <==> TypeSpecItem(s) in specs && s.typ.Struct?
  {
    if specs != [] {
      var init := specs[..|specs| - 1];
      StructSpecsMember(init, s);
      assert specs == init + [specs[|specs| - 1]];
    }
  }

  function DirectiveCount(lines: seq<string>): nat {
    if lines == [] then 0
    else DirectiveCount(lines[..|lines| - 1]) + (if IsDirective(lines[|lines| - 1]) then 1 else 0)
  }

  function Repeat(xs: seq<TypeSpec>, n: nat): seq<TypeSpec> {
    if n == 0 then [] else Repeat(xs, n - 1) + xs
  }

  /** A group's struct specs come out once per directive line in its doc comment: two such lines, twice. */
  lemma {:induction false} DirectiveStructsRepeat(lines: seq<string>, specs: seq<Spec>)
    ensures DirectiveStructs(lines, specs) == Repeat(StructSpecs(specs), DirectiveCount(lines))
  {
    if lines != [] {
      DirectiveStructsRepeat(lines[..|lines| - 1], specs);
    }
  }

  predicate HasDirective(lines: seq<string>) {
    exists k | 0 <= k < |lines| :: IsDirective(lines[k])
  }

  lemma {:induction false} DirectiveStructsMember(lines: seq<string>, specs: seq<Spec>, s: TypeSpec)
    ensures s in DirectiveStructs(lines, specs) <==> HasDirective(lines) && s in StructSpecs(specs)
  {
    if lines != [] {
      var init := lines[..|lines| - 1];
      DirectiveStructsMember(init, specs, s);
      if HasDirective(lines) && !IsDirective(lines[|lines| - 1]) {
        var k :| 0 <= k < |lines| && IsDirective(lines[k]);
        assert init[k] == lines[k];
      }
      if HasDirective(init) {
        var k :| 0 <= k < |init| && IsDirective(init[k]);
        assert lines[k] == init[k];
      }
    }
  }

  /** A group whose doc comment holds the directive, and that is a `type` group. */
  predicate IsMarked(d: GenDecl) {
    IsDocumentedType(d) && HasDirective(d.doc.value)
  }

  lemma DeclStructsMember(d: GenDecl, s: TypeSpec)
    ensures s in DeclStructs(d) <==> s.typ.Struct? && IsMarked(d) && TypeSpecItem(s) in d.specs
  {
    if IsDocumentedType(d) {
      DirectiveStructsMember(d.doc.value, d.specs, s);
    }
    StructSpecsMember(d.specs, s);
  }

  /**
    A spec is collected exactly when it is a struct-typed type spec of some
    marked type group; groups without the directive contribute nothing.
   */
  lemma {:induction false} TargetStructsMember(decls: seq<GenDecl>, s: TypeSpec)
    ensures s in TargetStructs(decls)
        <==> s.typ.Struct? && exists i | 0 <= i < |decls| :: IsMarked(decls[i]) && TypeSpecItem(s) in decls[i].specs
  {
    if decls != [] {
      var init, d := decls[..|decls| - 1], decls[|decls| - 1];
      TargetStructsMember(init, s);
      DeclStructsMember(d, s);
      assert TargetStructs(decls) == TargetStructs(init) + DeclStructs(d);
      if s in TargetStructs(init) {
        var i :| 0 <= i < |init| && IsMarked(init[i]) && TypeSpecItem(s) in init[i].specs;
        assert decls[i] == init[i];
      }
      if s.typ.Struct? && exists i | 0 <= i < |decls| :: IsMarked(decls[i]) && TypeSpecItem(s) in decls[i].specs {
        var i :| 0 <= i < |decls| && IsMarked(decls[i]) && TypeSpecItem(s) in decls[i].specs;
        if i < |init| {
          assert init[i] == decls[i];
        }
      }
    }
  }

  /** Everything collected is a struct type spec. */
  lemma TargetStructsAreStructs(decls: seq<GenDecl>)
    ensures forall s | s in TargetStructs(decls) :: s.typ.Struct?
  {
    forall s | s in TargetStructs(decls)
      ensures s.typ.Struct?
    {
      TargetStructsMember(decls, s);
    }
  }
}
