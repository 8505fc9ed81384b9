/**
  The type-signature resolver `getFiledTypeString` (main.go:189-211): the text a
  getter declares as its return type, rebuilt from the field's type expression.
 */
module TypeString {
  import opened Wrappers
  import opened GoAst
  import opened GoStrings

  /** Every node of `e` is one of the eight shapes the resolver handles. */
  predicate Supported(e: TypeExpr) {
    match e
    case Ident(_) => true
    case Star(x) => Supported(x)
    case Selector(x, _) => Supported(x)
    case Array(_, elt) => Supported(elt)
    case Map(k, v) => Supported(k) && Supported(v)
    case Interface(_) => true
    case Chan(_, v) => Supported(v)
    case Ellipsis(elt) => Supported(elt)
    case Struct(_) => false
    case Other(_) => false
  }

  /**
    The field-type text of `e`, or None where the source panics with
    "unsupported type": an inline struct, a function type or any other node
    anywhere inside `e`.
   */
  function Resolve(e: TypeExpr): (r: Option<string>)
    ensures r.Some? <==> Supported(e)
  {
    match e
    case Ident(name) => Some(name)
    case Star(x) =>
      var s :- Resolve(x);
      Some("*" + s)
    case Selector(x, sel) =>
      var s :- Resolve(x);
      Some(s + "." + sel)
    case Array(_, elt) =>
      var s :- Resolve(elt);
      Some("[]" + s)
    case Map(k, v) =>
      var ks :- Resolve(k);
      var vs :- Resolve(v);
      Some("map[" + ks + "]" + vs)
    case Interface(_) => Some("interface{}")
    case Chan(_, v) =>
      var s :- Resolve(v);
      Some("chann " + s)
    case Ellipsis(elt) =>
      var s :- Resolve(elt);
      Some("..." + s)
    case Struct(_) => None
    case Other(_) => None
  }

  // ---------------------------------------------------------------------------
  // What the rendering keeps and what it forgets.

  /**
    A character that can stand inside a name in the rendered text: anything but
    the punctuation the renderer writes (`.`, `[`, `]`, `{`, `}`, `*`, space).
    Every character of a Go identifier (a Unicode letter, a digit or `_`) is one.
   */
  predicate IsIdentChar(c: char) {
    c != '.' && c != '[' && c != ']' && c != '{' && c != '}' && c != '*' && c != ' '
  }

  predicate IsIdentText(s: string) {
    s != [] && forall i | 0 <= i < |s| :: IsIdentChar(s[i])
  }

  /**
    A supported expression as the Go parser builds it from source: names are
    non-empty and free of the renderer's punctuation (every Go identifier is),
    and a selector qualifies a package identifier.
   */
  predicate Renderable(e: TypeExpr) {
    match e
    case Ident(n) => IsIdentText(n)
    case Star(x) => Renderable(x)
    case Selector(x, sel) => x.Ident? && IsIdentText(x.name) && IsIdentText(sel)
    case Array(_, elt) => Renderable(elt)
    case Map(k, v) => Renderable(k) && Renderable(v)
    case Interface(_) => true
    case Chan(_, v) => Renderable(v)
    case Ellipsis(elt) => Renderable(elt)
    case Struct(_) => false
    case Other(_) => false
  }

  /** `e` with what the resolver ignores erased: array lengths, channel directions, interface methods. */
  function Normalize(e: TypeExpr): TypeExpr {
    match e
    case Ident(n) => e
    case Star(x) => Star(Normalize(x))
    case Selector(x, sel) => Selector(Normalize(x), sel)
    case Array(_, elt) => Array(None, Normalize(elt))
    case Map(k, v) => Map(Normalize(k), Normalize(v))
    case Interface(_) => Interface([])
    case Chan(_, v) => Chan(Both, Normalize(v))
    case Ellipsis(elt) => Ellipsis(Normalize(elt))
    case Struct(_) => e
    case Other(_) => e
  }

  /** Number of leading identifier characters of `s`. */
  function IdentLen(s: string): (n: nat)
    ensures n <= |s|
    ensures forall i | 0 <= i < n :: IsIdentChar(s[i])
    ensures n < |s| ==> !IsIdentChar(s[n])
  {
    if s == [] || !IsIdentChar(s[0]) then 0 else 1 + IdentLen(s[1..])
  }

  /**
    Reads one field-type text back, in the grammar the resolver writes
    (including its `chann ` spelling), and returns the expression and what follows it.
   */
  function Parse(s: string): (r: Option<(TypeExpr, string)>)
    ensures r.Some? ==> |r.value.1| < |s|
    decreases |s|, 0
  {
    if s == [] then None
    else match s[0]
      case '*' =>
        var p :- Parse(s[1..]);
        Some((Star(p.0), p.1))
      case '[' =>
        if HasPrefix(s, "[]") then
          var p :- Parse(s[2..]);
          Some((Array(None, p.0), p.1))
        else None
      case 'm' =>
        if HasPrefix(s, "map[") then ParseMapBody(s[4..]) else ParseName(s)
      case 'i' =>
        if HasPrefix(s, "interface{}") then Some((Interface([]), s[11..])) else ParseName(s)
      case 'c' =>
        if HasPrefix(s, "chann ") then
          var p :- Parse(s[6..]);
          Some((Chan(Both, p.0), p.1))
        else ParseName(s)
      case '.' =>
        if HasPrefix(s, "...") then
          var p :- Parse(s[3..]);
          Some((Ellipsis(p.0), p.1))
        else None
      case _ => ParseName(s)
  }

  /** What follows `map[`: the key type, `]`, the value type. */
  function ParseMapBody(t: string): (r: Option<(TypeExpr, string)>)
    ensures r.Some? ==> |r.value.1| < |t|
    decreases |t|, 1
  {
    var pk :- Parse(t);
    if HasPrefix(pk.1, "]") then
      var pv :- Parse(pk.1[1..]);
      Some((Map(pk.0, pv.0), pv.1))
    else None
  }

  /** A type name: an identifier, or a package identifier, a `.` and an identifier. */
  function ParseName(s: string): (r: Option<(TypeExpr, string)>)
    ensures r.Some? ==> |r.value.1| < |s|
  {
    var n := IdentLen(s);
    if n == 0 then None
    else if n < |s| && s[n] == '.' then
      var m := IdentLen(s[n + 1..]);
      if m == 0 then None
      else Some((Selector(Ident(s[..n]), s[n + 1..n + 1 + m]), s[n + 1 + m..]))
    else Some((Ident(s[..n]), s[n..]))
  }

  /** What may follow a complete type text: nothing, or the `]` closing a map key. */
  predicate Delimits(rest: string) {
    rest == [] || rest[0] == ']'
  }

  /** An identifier followed by a non-word character that is not `[`, `{` or a space does not start a keyword form. */
  lemma WordIsNoKeyword(n: string, rest: string, kw: string, k: nat)
    requires IsIdentText(n)
    requires rest == [] || (!IsIdentChar(rest[0]) && rest[0] != '[' && rest[0] != '{' && rest[0] != ' ')
    requires k < |kw| && !IsIdentChar(kw[k]) && (k == 0 || kw[k] in "[{ ")
    requires forall i | 0 <= i < k :: IsIdentChar(kw[i])
    ensures !HasPrefix(n + rest, kw)
  {
    var s := n + rest;
    if |kw| <= |s| {
      var j := if k < |n| then k else |n|;
      assert s[j] != kw[j];
      assert s[..|kw|][j] != kw[j];
    }
  }

  lemma WordIsNoForm(n: string, rest: string)
    requires IsIdentText(n)
    requires rest == [] || (!IsIdentChar(rest[0]) && rest[0] != '[' && rest[0] != '{' && rest[0] != ' ')
    ensures !HasPrefix(n + rest, "*") && !HasPrefix(n + rest, "[]") && !HasPrefix(n + rest, "map[")
    ensures !HasPrefix(n + rest, "interface{}") && !HasPrefix(n + rest, "chann ") && !HasPrefix(n + rest, "...")
  {
    WordIsNoKeyword(n, rest, "*", 0);
    WordIsNoKeyword(n, rest, "[]", 0);
    WordIsNoKeyword(n, rest, "map[", 3);
    WordIsNoKeyword(n, rest, "interface{}", 9);
    WordIsNoKeyword(n, rest, "chann ", 5);
    WordIsNoKeyword(n, rest, "...", 0);
  }

  lemma IdentLenOfWord(n: string, rest: string)
    requires IsIdentText(n)
    requires rest == [] || !IsIdentChar(rest[0])
    ensures IdentLen(n + rest) == |n|
  {
    var s := n + rest;
    assert forall i | 0 <= i < |n| :: IsIdentChar(s[i]);
    assert |n| < |s| ==> !IsIdentChar(s[|n|]);
  }

  // One step of the round trip per shape: reading a form back, given that its parts read back.

  lemma ParseWord(s: string)
    requires s != [] && IsIdentChar(s[0])
    requires !HasPrefix(s, "map[") && !HasPrefix(s, "interface{}") && !HasPrefix(s, "chann ")
    ensures Parse(s) == ParseName(s)
  {
  }

  lemma ParseIdent(n: string, rest: string)
    requires IsIdentText(n) && Delimits(rest)
    ensures Parse(n + rest) == Some((Ident(n), rest))
  {
    var s := n + rest;
    WordIsNoForm(n, rest);
    ParseWord(s);
    IdentLenOfWord(n, rest);
    assert s[..|n|] == n && s[|n|..] == rest;
  }

  lemma ParseSelector(p: string, sel: string, rest: string)
    requires IsIdentText(p) && IsIdentText(sel) && Delimits(rest)
    ensures Parse(p + "." + sel + rest) == Some((Selector(Ident(p), sel), rest))
  {
    var tail := "." + sel + rest;
    var s := p + tail;
    assert p + "." + sel + rest == s;
    WordIsNoForm(p, tail);
    ParseWord(s);
    ParseNameSelector(p, sel, rest);
  }

  lemma ParseNameSelector(p: string, sel: string, rest: string)
    requires IsIdentText(p) && IsIdentText(sel) && Delimits(rest)
    ensures ParseName(p + ("." + sel + rest)) == Some((Selector(Ident(p), sel), rest))
  {
    var tail := "." + sel + rest;
    var s := p + tail;
    IdentLenOfWord(p, tail);
    assert s[|p|] == '.';
    assert s[|p| + 1..] == sel + rest;
    IdentLenOfWord(sel, rest);
    assert s[..|p|] == p;
    assert s[|p| + 1..|p| + 1 + |sel|] == sel;
    assert s[|p| + 1 + |sel|..] == rest;
  }

  lemma ParseStar(a: string, rest: string, x: TypeExpr)
    requires Parse(a + rest) == Some((x, rest))
    ensures Parse("*" + a + rest) == Some((Star(x), rest))
  {
    var s := "*" + a + rest;
    assert s[1..] == a + rest;
  }

  lemma ParseSlice(a: string, rest: string, x: TypeExpr)
    requires Parse(a + rest) == Some((x, rest))
    ensures Parse("[]" + a + rest) == Some((Array(None, x), rest))
  {
    var s := "[]" + a + rest;
    assert s[0] == '[';
    assert s[2..] == a + rest;
  }

  lemma ParseMap(ks: string, krest: string, vrest: string, k: TypeExpr, v: TypeExpr, rest: string)
    requires krest == "]" + vrest
    requires Parse(ks + krest) == Some((k, krest))
    requires Parse(vrest) == Some((v, rest))
    ensures Parse("map[" + (ks + krest)) == Some((Map(k, v), rest))
  {
    var s := "map[" + (ks + krest);
    assert s[..4] == "map[";
    ParseMapDispatch(s);
    assert s[4..] == ks + krest;
    ParseMapBodyStep(ks, krest, vrest, k, v, rest);
  }

  lemma MapText(ks: string, vs: string, rest: string)
    ensures "map[" + ks + "]" + vs + rest == "map[" + (ks + ("]" + (vs + rest)))
  {
  }

  lemma ParseMapDispatch(s: string)
    requires HasPrefix(s, "map[")
    ensures Parse(s) == ParseMapBody(s[4..])
  {
    assert s[0] == 'm';
  }

  lemma ParseMapBodyStep(ks: string, krest: string, vrest: string, k: TypeExpr, v: TypeExpr, rest: string)
    requires krest == "]" + vrest
    requires Parse(ks + krest) == Some((k, krest))
    requires Parse(vrest) == Some((v, rest))
    ensures ParseMapBody(ks + krest) == Some((Map(k, v), rest))
  {
    assert HasPrefix(krest, "]");
    assert krest[1..] == vrest;
  }

  lemma ParseInterface(rest: string)
    ensures Parse("interface{}" + rest) == Some((Interface([]), rest))
  {
    var s := "interface{}" + rest;
    assert s[0] == 'i';
    assert s[..11] == "interface{}";
    assert s[11..] == rest;
  }

  lemma ParseChan(a: string, rest: string, x: TypeExpr)
    requires Parse(a + rest) == Some((x, rest))
    ensures Parse("chann " + a + rest) == Some((Chan(Both, x), rest))
  {
    var s := "chann " + a + rest;
    assert s[0] == 'c';
    assert s[..6] == "chann ";
    assert s[6..] == a + rest;
  }

  lemma ParseEllipsis(a: string, rest: string, x: TypeExpr)
    requires Parse(a + rest) == Some((x, rest))
    ensures Parse("..." + a + rest) == Some((Ellipsis(x), rest))
  {
    var s := "..." + a + rest;
    assert s[0] == '.';
    assert s[..3] == "...";
    assert s[3..] == a + rest;
  }

  /**
    Reading back the text of a parsed type gives the type again, up to what the
    resolver forgets; the text after it is left untouched.
   */
  lemma {:induction false} ParseResolve(e: TypeExpr, rest: string)
    requires Renderable(e)
    requires Delimits(rest)
    ensures Supported(e)
    ensures Parse(Resolve(e).value + rest) == Some((Normalize(e), rest))
    decreases e
  {
    RenderableSupported(e);
    match e
    case Ident(n) =>
      ParseIdent(n, rest);
    case Star(x) =>
      ParseResolve(x, rest);
      ParseStar(Resolve(x).value, rest, Normalize(x));
    case Selector(x, sel) =>
      ParseSelector(x.name, sel, rest);
    case Array(_, elt) =>
      ParseResolve(elt, rest);
      ParseSlice(Resolve(elt).value, rest, Normalize(elt));
    case Map(k, v) =>
      var ks, vs := Resolve(k).value, Resolve(v).value;
      var krest := "]" + (vs + rest);
      ParseResolve(k, krest);
      ParseResolve(v, rest);
      ParseMap(ks, krest, vs + rest, Normalize(k), Normalize(v), rest);
      assert Resolve(e).value == "map[" + ks + "]" + vs;
      MapText(ks, vs, rest);
    case Interface(_) =>
      ParseInterface(rest);
    case Chan(_, v) =>
      ParseResolve(v, rest);
      ParseChan(Resolve(v).value, rest, Normalize(v));
    case Ellipsis(elt) =>
      ParseResolve(elt, rest);
      ParseEllipsis(Resolve(elt).value, rest, Normalize(elt));
  }

  lemma {:induction false} RenderableSupported(e: TypeExpr)
    requires Renderable(e)
    ensures Supported(e)
  {
    match e
    case Ident(_) =>
    case Star(x) => RenderableSupported(x);
    case Selector(x, _) =>
    case Array(_, elt) => RenderableSupported(elt);
    case Map(k, v) => RenderableSupported(k); RenderableSupported(v);
    case Interface(_) =>
    case Chan(_, v) => RenderableSupported(v);
    case Ellipsis(elt) => RenderableSupported(elt);
  }

  /** Erasing what the resolver ignores does not change the text. */
  lemma {:induction false} ResolveNormalize(e: TypeExpr)
    requires Supported(e)
    ensures Resolve(Normalize(e)) == Resolve(e)
  {
    match e
    case Ident(_) =>
    case Star(x) => ResolveNormalize(x);
    case Selector(x, _) => ResolveNormalize(x);
    case Array(_, elt) => ResolveNormalize(elt);
    case Map(k, v) => ResolveNormalize(k); ResolveNormalize(v);
    case Interface(_) =>
    case Chan(_, v) => ResolveNormalize(v);
    case Ellipsis(elt) => ResolveNormalize(elt);
  }

  /**
    Two parsed types get the same text exactly when they differ only in array
    lengths, channel directions and interface methods.
   */
  lemma ResolveEqualIff(e1: TypeExpr, e2: TypeExpr)
    requires Renderable(e1) && Renderable(e2)
    ensures Resolve(e1) == Resolve(e2) <==> Normalize(e1) == Normalize(e2)
  {
    ParseResolve(e1, []);
    ParseResolve(e2, []);
    assert Resolve(e1).value + [] == Resolve(e1).value;
    assert Resolve(e2).value + [] == Resolve(e2).value;
    if Normalize(e1) == Normalize(e2) {
      ResolveNormalize(e1);
      ResolveNormalize(e2);
    }
  }

  /** A fixed-length array renders as a slice, and any channel as `chann `. */
  lemma ResolveDropsLengthAndDirection()
    ensures Resolve(Array(Some("3"), Ident("int"))) == Resolve(Array(None, Ident("int"))) == Some("[]int")
    ensures Resolve(Chan(Recv, Ident("int"))) == Resolve(Chan(Send, Ident("int"))) == Some("chann int")
  {
    assert "[]" + "int" == "[]int";
    assert "chann " + "int" == "chann int";
  }
}
