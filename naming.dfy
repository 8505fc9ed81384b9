/** Names the generator derives: getter method names, import aliases, type qualifiers, output file names. */
module Naming {
  import opened GoAst
  import opened GoStrings

  /**
    The getter's method name: the field name with its first character upper-cased
    and the rest unchanged (main.go:162).
   */
  function ExportName(name: Identifier): (r: Identifier)
    ensures |r| == |name| && r[1..] == name[1..]
    ensures r[0] == ToUpperAscii(name[0])
    ensures IsLowerAscii(name[0]) ==> IsUpperAscii(r[0])
    ensures !IsLowerAscii(name[0]) ==> r == name
  {
    [ToUpperAscii(name[0])] + name[1..]
  }

  /** Exporting an exported name changes nothing. */
  lemma ExportNameIdempotent(name: Identifier)
    ensures ExportName(ExportName(name)) == ExportName(name)
  {
    var r := ExportName(name);
    assert !IsLowerAscii(r[0]);
  }

  /**
    Two field names give the same method name exactly when they agree after the
    first character and their first characters agree once upper-cased; nothing
    rejects such a collision.
   */
  lemma ExportNameCollides(a: Identifier, b: Identifier)
    ensures ExportName(a) == ExportName(b)
        <==> |a| == |b| && a[1..] == b[1..] && ToUpperAscii(a[0]) == ToUpperAscii(b[0])
  {
    var ra, rb := ExportName(a), ExportName(b);
    if ra == rb {
      assert ra[0] == rb[0];
    }
    if |a| == |b| && a[1..] == b[1..] && ToUpperAscii(a[0]) == ToUpperAscii(b[0]) {
      assert ra == [ToUpperAscii(a[0])] + a[1..] == [ToUpperAscii(b[0])] + b[1..] == rb;
    }
  }

  /** The import's short alias: the segment after the last `/` of its path (main.go:144-145). */
  function ShortName(path: string): (r: string)
    ensures '/' !in r && HasSuffix(path, r)
    ensures |r| < |path| ==> path[|path| - |r| - 1] == '/'
  {
    AfterLast(path, '/')
  }

  /** The candidate alias of a resolved field type: the text before its first `.` (main.go:167). */
  function TypeQualifier(fieldType: string): (r: string)
    ensures '.' !in r && HasPrefix(fieldType, r)
    ensures |r| < |fieldType| ==> fieldType[|r|] == '.'
  {
    BeforeFirst(fieldType, '.')
  }

  const GoExt := ".go"
  const GettersSuffix := "_getters.go"

  /** The generated file's name: the input name without `.go`, followed by `_getters.go` (main.go:219). */
  function OutputFileName(fileName: string): (r: string)
    ensures HasSuffix(r, GettersSuffix)
    ensures HasSuffix(fileName, GoExt) ==> r == fileName[..|fileName| - 3] + GettersSuffix
    ensures !HasSuffix(fileName, GoExt) ==> r == fileName + GettersSuffix
  {
    var r := TrimSuffix(fileName, GoExt) + GettersSuffix;
    assert r[|r| - |GettersSuffix|..] == GettersSuffix;
    r
  }

  /** Distinct Go files never share an output file. */
  lemma OutputFileNameInjective(a: string, b: string)
    requires HasSuffix(a, GoExt) && HasSuffix(b, GoExt)
    requires OutputFileName(a) == OutputFileName(b)
    ensures a == b
  {
    var ra := OutputFileName(a);
    var stemA, stemB := a[..|a| - 3], b[..|b| - 3];
    assert ra == stemA + GettersSuffix == stemB + GettersSuffix;
    assert |stemA| == |stemB|;
    assert stemA == ra[..|stemA|] == stemB;
    assert a == stemA + GoExt;
    assert b == stemB + GoExt;
  }

  /** The output name of a Go file ends in `_getters.go` and is itself a Go file name, different from the input. */
  lemma OutputFileNameDiffers(fileName: string)
    requires HasSuffix(fileName, GoExt)
    ensures HasSuffix(OutputFileName(fileName), GoExt)
    ensures OutputFileName(fileName) != fileName
  {
    var r := OutputFileName(fileName);
    assert |r| == |fileName| + 8;
    assert r[|r| - 3..] == GettersSuffix[8..] == GoExt;
  }
}
