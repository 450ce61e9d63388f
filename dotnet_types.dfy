/** `map_dotnet_to_python`: the rewriting of a .NET type label into a Python typing label. */
module DotnetTypes {
  import opened Wrappers
  import opened Text
  import opened Splitter

  /** The alias table: .NET primitive and keyword names and their Python spelling. */
  const ALIASES: map<string, string> := map[
    "System.Void" := "None", "void" := "None",
    "System.Boolean" := "bool", "bool" := "bool",
    "System.Double" := "float", "double" := "float",
    "System.Single" := "float", "float" := "float",
    "System.Int32" := "int", "int" := "int",
    "System.Int64" := "int", "long" := "int",
    "System.String" := "str", "string" := "str",
    "System.Object" := "Any", "object" := "Any"]

  /** The generic base table: collection interfaces and their `typing` names. */
  const BASE_MAP: map<string, string> := map[
    "System.Collections.Generic.List" := "List",
    "System.Collections.Generic.IList" := "List",
    "System.Collections.Generic.IReadOnlyList" := "Sequence",
    "System.Collections.Generic.IEnumerable" := "Iterable",
    "System.Collections.Generic.ICollection" := "Sequence",
    "System.Collections.Generic.Dictionary" := "Dict",
    "System.Collections.Generic.IDictionary" := "Dict",
    "System.Tuple" := "Tuple"]

  /** The characters of the class `[\w\.]`. */
  predicate IsNameChar(c: char) { IsWordChar(c) || c == '.' }

  /** A dotted name: nothing but `[\w\.]` characters. */
  predicate Dotted(t: string) { forall i :: 0 <= i < |t| ==> IsNameChar(t[i]) }

  /** The length of the longest prefix of `t` made of `[\w\.]` characters. */
  function NameRun(t: string): (r: nat)
    ensures r <= |t| && Dotted(t[..r])
    ensures r < |t| ==> !IsNameChar(t[r])
    decreases |t|
  {
    if t != [] && IsNameChar(t[0]) then
      var k := NameRun(t[1..]);
      assert t[..k + 1] == [t[0]] + t[1..][..k];
      k + 1
    else 0
  }

  /** `name[inner]`: a subscripted typing label. */
  function Wrap(name: string, arg: string): string { name + "[" + arg + "]" }

  /** The group of `re.match(r'(?:System\.)?Nullable\{(.+)\}$', t)` on stripped text. */
  function NullableInner(t: string): (r: Option<string>)
    ensures r.Some? ==> r.value != [] && |r.value| < |t| && '\n' !in r.value
  {
    if StartsWith(t, "System.Nullable{") then BracedTail(t, 16)
    else if StartsWith(t, "Nullable{") then BracedTail(t, 9)
    else None
  }

  /** `(.+)\}$` from position `k`: at least one character other than a newline, then the
      closing `}` that ends the text. */
  function BracedTail(t: string, k: nat): (r: Option<string>)
    requires 1 <= k <= |t|
    ensures r.Some? ==> |t| >= k + 2 && r.value == t[k..|t| - 1] && r.value != [] && '\n' !in r.value
  {
    if |t| >= k + 2 && t[|t| - 1] == '}' && '\n' !in t[k..|t| - 1] then Some(t[k..|t| - 1])
    else None
  }

  /** A match of `(?P<base>[\w\.]+)\{(?P<inner>.+)\}$`. */
  datatype Generic = Generic(base: string, inner: string)

  /** `re.match` of the generic pattern on stripped text: the base is the longest `[\w\.]`
      prefix, since `{` is not in that class. */
  function GenericMatch(t: string): (r: Option<Generic>)
    ensures r.Some? ==>
      Dotted(r.value.base) && r.value.base != [] && t == r.value.base + "{" + r.value.inner + "}"
  {
    var n := NameRun(t);
    if n >= 1 && n < |t| && t[n] == '{' then
      match BracedTail(t, n + 1)
      case None => None
      case Some(inner) =>
        assert t == t[..n] + "{" + inner + "}";
        Some(Generic(t[..n], inner))
    else None
  }

  /** The Python name of a generic base: the table entry, else the last dotted segment. */
  function PyBase(base: string): string {
    if base in BASE_MAP then BASE_MAP[base] else AfterLast(base, '.')
  }

  /** The last rules: the alias table, then the container's simple name, then `t` itself.
      `fqn` and `simple` are empty when the caller passes `None`. */
  function Leaf(t: string, fqn: string, simple: string): string {
    if t in ALIASES then ALIASES[t]
    else if simple != [] && t == simple then (if fqn != [] then fqn else t)
    else t
  }

  /** `map_dotnet_to_python(t, container_fqn, container_simple)`: the rules applied to the
      stripped label. */
  function MapDotnet(t0: string, fqn: string, simple: string): (r: string)
    decreases |t0|, 1
  {
    Rules(Strip(t0), fqn, simple)
  }

  /** The rules in the source's order, on stripped text: array suffix, Nullable, `?`
      suffix, generic, then the leaf tables. */
  function Rules(t: string, fqn: string, simple: string): (r: string)
    decreases |t|, 0
  {
    if EndsWith(t, "[]") then Wrap("List", MapDotnet(t[..|t| - 2], fqn, simple))
    else if NullableInner(t).Some? then
      Wrap("Optional", MapDotnet(NullableInner(t).value, fqn, simple))
    else if EndsWith(t, "?") && !EndsWith(t, "??") then
      Wrap("Optional", MapDotnet(t[..|t| - 1], fqn, simple))
    else if GenericMatch(t).Some? then
      var g := GenericMatch(t).value;
      var parts := SplitTypes(g.inner);
      SplitTypesShape(g.inner);
      Wrap(PyBase(g.base), Join(", ",
        seq(|parts|, k requires 0 <= k < |parts| => MapDotnet(parts[k], fqn, simple))))
    else Leaf(t, fqn, simple)
  }

  /** Each label of `ts` mapped in turn. */
  function MapAll(ts: seq<string>, fqn: string, simple: string): (r: seq<string>)
    ensures |r| == |ts| && forall k :: 0 <= k < |ts| ==> r[k] == MapDotnet(ts[k], fqn, simple)
  {
    seq(|ts|, k requires 0 <= k < |ts| => MapDotnet(ts[k], fqn, simple))
  }

  // ---------- the rules, one lemma each ----------

  /** Only the stripped text matters. */
  lemma MapDotnetOfStrip(t: string, fqn: string, simple: string)
    ensures MapDotnet(Strip(t), fqn, simple) == MapDotnet(t, fqn, simple)
  {
    assert Strip(Strip(t)) == Strip(t);
  }

  /** Rule 1: `T[]` becomes `List[T']`. */
  lemma ArrayOf(x: string, fqn: string, simple: string)
    requires x == [] || !IsSpace(x[0])
    ensures MapDotnet(x + "[]", fqn, simple) == Wrap("List", MapDotnet(x, fqn, simple))
  {
    var t := x + "[]";
    assert Trimmed(t) by { assert t[0] == if x == [] then '[' else x[0]; }
    assert t[..|t| - 2] == x;
    MapDotnetOfStrip(x, fqn, simple);
  }

  /** Rule 2, first form: `System.Nullable{T}` and `Nullable{T}` become `Optional[T']`. */
  lemma NullableOf(pre: string, x: string, fqn: string, simple: string)
    requires pre == "System.Nullable{" || pre == "Nullable{"
    requires x != [] && '\n' !in x
    ensures MapDotnet(pre + x + "}", fqn, simple) == Wrap("Optional", MapDotnet(x, fqn, simple))
  {
    var t := pre + x + "}";
    assert Trimmed(t) by { assert t[0] == pre[0]; }
    assert t[|pre|..|t| - 1] == x;
    assert !EndsWith(t, "[]") by { assert t[|t| - 1] == '}'; }
    if pre == "Nullable{" {
      assert !StartsWith(t, "System.Nullable{") by { assert t[0] != 'S'; }
    }
    assert NullableInner(t) == Some(x);
    MapDotnetOfStrip(x, fqn, simple);
  }

  /** Rule 2, second form: `T?` (but not `T??`) becomes `Optional[T']`. */
  lemma OptionalOf(x: string, fqn: string, simple: string)
    requires x == [] || !IsSpace(x[0])
    requires !EndsWith(x, "?")
    ensures MapDotnet(x + "?", fqn, simple) == Wrap("Optional", MapDotnet(x, fqn, simple))
  {
    var t := x + "?";
    assert Trimmed(t) by { assert t[0] == if x == [] then '?' else x[0]; }
    assert t[..|t| - 1] == x;
    SingleQuestion(x);
    RulesOptional(t, fqn, simple);
  }

  lemma SingleQuestion(x: string)
    requires !EndsWith(x, "?")
    ensures EndsWith(x + "?", "?") && !EndsWith(x + "?", "??")
  {
    var t := x + "?";
    if |t| >= 2 {
      assert t[|t| - 2..] == [x[|x| - 1], '?'];
      assert x[|x| - 1..] == [x[|x| - 1]];
    }
  }

  lemma RulesOptional(t: string, fqn: string, simple: string)
    requires EndsWith(t, "?") && !EndsWith(t, "??")
    ensures Rules(t, fqn, simple) == Wrap("Optional", MapDotnet(t[..|t| - 1], fqn, simple))
  {
    NoNullableWithout(t);
    assert !EndsWith(t, "[]") by { assert t[|t| - 1] == '?'; }
  }

  /** Text that does not end in `}` has no Nullable match. */
  lemma NoNullableWithout(t: string)
    requires t != [] && t[|t| - 1] != '}'
    ensures NullableInner(t) == None
  {}

  /** Rule 3: `Base{A,B}` becomes `Base'[A', B']`, the base through its table or its last
      dotted segment, each argument mapped. Nullable bases are taken by rule 2 instead. */
  lemma GenericOf(base: string, args: seq<string>, fqn: string, simple: string)
    requires Dotted(base) && base != [] && base != "Nullable" && base != "System.Nullable"
    requires |args| >= 1
    requires forall k :: 0 <= k < |args| ==> Sealed(args[k], AllScopes) && args[k] != [] && Trimmed(args[k])
    requires '\n' !in Join(",", args)
    ensures MapDotnet(base + "{" + Join(",", args) + "}", fqn, simple)
         == Wrap(PyBase(base), Join(", ", MapAll(args, fqn, simple)))
  {
    var j := Join(",", args);
    var t := base + "{" + j + "}";
    JoinFirst(args);
    assert Trimmed(t) by { assert t[0] == base[0]; assert !IsSpace(base[0]) by { assert IsNameChar(base[0]); } }
    NoNullableGeneric(base, j);
    GenericMatchOf(base, j);
    SplitTypesOfJoin(args);
    RulesGeneric(t, base, j, fqn, simple);
  }

  lemma JoinFirst(args: seq<string>)
    requires |args| >= 1 && args[0] != []
    ensures Join(",", args) != []
  {}

  /** The generic rule fires on a match whose inner text splits into `args`. */
  lemma RulesGeneric(t: string, base: string, j: string, fqn: string, simple: string)
    requires t == base + "{" + j + "}"
    requires NullableInner(t) == None
    requires GenericMatch(t) == Some(Generic(base, j))
    ensures Rules(t, fqn, simple) == Wrap(PyBase(base), Join(", ", MapAll(SplitTypes(j), fqn, simple)))
  {
    assert !EndsWith(t, "[]") by { assert t[|t| - 1] == '}'; }
    assert !EndsWith(t, "?") by { assert t[|t| - 1] == '}'; }
    var parts := SplitTypes(j);
    SplitTypesShape(j);
    assert seq(|parts|, k requires 0 <= k < |parts| => MapDotnet(parts[k], fqn, simple))
        == MapAll(parts, fqn, simple);
  }

  /** A dotted base followed by `{` is no Nullable prefix unless it is `Nullable` itself. */
  lemma NoNullableGeneric(base: string, j: string)
    requires Dotted(base) && base != "Nullable" && base != "System.Nullable"
    ensures NullableInner(base + "{" + j + "}") == None
  {
    var t := base + "{" + j + "}";
    assert t == base + "{" + (j + "}");
    if StartsWith(t, "System.Nullable{") {
      assert "System.Nullable{" == "System.Nullable" + "{";
      DottedBeforeBrace("System.Nullable", base, j + "}");
    } else if StartsWith(t, "Nullable{") {
      assert "Nullable{" == "Nullable" + "{";
      DottedBeforeBrace("Nullable", base, j + "}");
    }
  }

  /** Two dotted names each followed by `{` at the head of the same text are equal. */
  lemma DottedBeforeBrace(p: string, base: string, rest: string)
    requires Dotted(p) && Dotted(base)
    requires p + "{" <= base + "{" + rest
    ensures p == base
  {
    var t := base + "{" + rest;
    PrefixChar(p + "{", t, |p|);
    PrefixChar(p + "{", t, |base|);
    assert t[|base|] == '{';
    assert |p| == |base|;
    assert t[..|base|] == base;
    assert (p + "{")[..|p|] == p;
  }

  lemma GenericMatchOf(base: string, j: string)
    requires Dotted(base) && base != [] && j != [] && '\n' !in j
    ensures GenericMatch(base + "{" + j + "}") == Some(Generic(base, j))
  {
    var t := base + "{" + j + "}";
    NameRunOf(base, "{" + j + "}");
    assert t == base + ("{" + j + "}");
    assert t[|base|] == '{';
    assert t[..|base|] == base;
    assert t[|base| + 1..|t| - 1] == j;
  }

  /** The name run of a dotted name followed by another character is that name. */
  lemma {:induction false} NameRunOf(base: string, rest: string)
    requires Dotted(base) && rest != [] && !IsNameChar(rest[0])
    ensures NameRun(base + rest) == |base|
    decreases |base|
  {
    if base != [] {
      assert (base + rest)[1..] == base[1..] + rest;
      NameRunOf(base[1..], rest);
    } else {
      assert base + rest == rest;
    }
  }

  /** Rule 4: a bare dotted name goes through the leaf tables. */
  lemma DottedLeaf(t: string, fqn: string, simple: string)
    requires Dotted(t)
    ensures MapDotnet(t, fqn, simple) == Leaf(t, fqn, simple)
  {
    DottedEnds(t);
    NameRunWhole(t);
    NoGeneric(t);
    RulesLeaf(t, fqn, simple);
  }

  lemma DottedEnds(t: string)
    requires Dotted(t)
    ensures Trimmed(t) && !EndsWith(t, "[]") && !EndsWith(t, "?") && NullableInner(t) == None
  {
    if t != [] {
      assert IsNameChar(t[0]) && IsNameChar(t[|t| - 1]);
      NoNullableWithout(t);
    }
  }

  lemma NoGeneric(t: string)
    requires NameRun(t) == |t|
    ensures GenericMatch(t) == None
  {}

  lemma RulesLeaf(t: string, fqn: string, simple: string)
    requires !EndsWith(t, "[]") && NullableInner(t) == None && !EndsWith(t, "?")
    requires GenericMatch(t) == None
    ensures Rules(t, fqn, simple) == Leaf(t, fqn, simple)
  {}

  lemma {:induction false} NameRunWhole(t: string)
    requires Dotted(t)
    ensures NameRun(t) == |t|
    decreases |t|
  {
    if t != [] {
      assert Dotted(t[1..]) by { assert forall i :: 0 <= i < |t| - 1 ==> t[1..][i] == t[i + 1]; }
      NameRunWhole(t[1..]);
    }
  }

  /** Every alias key is a dotted name, and no alias value is empty. */
  lemma AliasShape(t: string)
    requires t in ALIASES
    ensures Dotted(t) && ALIASES[t] != []
  {}

  /** Each alias key maps to its table entry, whatever the container. */
  lemma AliasOf(t: string, fqn: string, simple: string)
    requires t in ALIASES
    ensures MapDotnet(t, fqn, simple) == ALIASES[t]
  {
    AliasShape(t);
    DottedLeaf(t, fqn, simple);
  }

  /** Every alias value maps to itself, unless it is the container's own simple name and not
      an alias key, in which case it becomes the container's full name. */
  lemma AliasFixedPoint(v: string, fqn: string, simple: string)
    requires v in ALIASES.Values
    ensures MapDotnet(v, fqn, simple) == if v !in ALIASES && v == simple && fqn != [] then fqn else v
  {
    AliasValues();
    ValueShape(v);
    DottedLeaf(v, fqn, simple);
  }

  lemma ValueShape(v: string)
    requires v in {"None", "bool", "float", "int", "str", "Any"}
    ensures Dotted(v) && (v in ALIASES ==> ALIASES[v] == v)
  {}

  lemma AliasValues()
    ensures ALIASES.Values == {"None", "bool", "float", "int", "str", "Any"}
  {
    assert ALIASES["void"] == "None" && ALIASES["bool"] == "bool" && ALIASES["float"] == "float";
    assert ALIASES["int"] == "int" && ALIASES["string"] == "str" && ALIASES["object"] == "Any";
  }

  /** The result is empty exactly when the label is blank. */
  lemma EmptyIffBlank(t: string, fqn: string, simple: string)
    ensures MapDotnet(t, fqn, simple) == [] <==> AllSpace(t)
  {
    var u := Strip(t);
    if u == [] {
      RulesEmpty(u, fqn, simple);
    } else {
      RulesNonEmpty(u, fqn, simple);
    }
  }

  lemma RulesEmpty(u: string, fqn: string, simple: string)
    requires u == []
    ensures Rules(u, fqn, simple) == []
  {
    DottedEnds(u);
    NameRunWhole(u);
    NoGeneric(u);
    RulesLeaf(u, fqn, simple);
  }

  lemma RulesNonEmpty(t: string, fqn: string, simple: string)
    requires t != []
    ensures Rules(t, fqn, simple) != []
  {
    if t in ALIASES {
      AliasShape(t);
    }
  }

  // ---------- consequences ----------

  /** An array of an alias, such as `int[]`, is a `List` of the alias's Python name. */
  lemma ArrayOfAlias(x: string, fqn: string, simple: string)
    requires x in ALIASES
    ensures MapDotnet(x + "[]", fqn, simple) == Wrap("List", ALIASES[x])
  {
    AliasShape(x);
    ArrayOf(x, fqn, simple);
    AliasOf(x, fqn, simple);
  }

  /** A Nullable alias, such as `System.Nullable{double}`, is `Optional` of its Python name. */
  lemma NullableOfAlias(pre: string, x: string, fqn: string, simple: string)
    requires pre == "System.Nullable{" || pre == "Nullable{"
    requires x in ALIASES
    ensures MapDotnet(pre + x + "}", fqn, simple) == Wrap("Optional", ALIASES[x])
  {
    AliasShape(x);
    DottedNoNewline(x);
    NullableOf(pre, x, fqn, simple);
    AliasOf(x, fqn, simple);
  }

  lemma DottedNoNewline(x: string)
    requires Dotted(x)
    ensures '\n' !in x
  {}

  /** The container's own simple name, when it is no alias, stands for its full name. */
  lemma ContainerName(simple: string, fqn: string)
    requires Dotted(simple) && simple != [] && simple !in ALIASES
    ensures MapDotnet(simple, fqn, simple) == if fqn != [] then fqn else simple
  {
    DottedLeaf(simple, fqn, simple);
  }

  /** Mapping is not idempotent: `x[[]` maps to `List[x[]`, which maps on to `List[List[x]`,
      because the `[...]` the first pass produces reads as an array suffix in the second. */
  lemma NotIdempotent(x: string, fqn: string, simple: string)
    requires Dotted(x) && x != [] && '[' !in simple
    ensures MapDotnet(x + "[[]", fqn, simple) == "List[" + x + "[]"
    ensures MapDotnet("List[" + x + "[]", fqn, simple) == "List[List[" + x + "]"
    ensures MapDotnet(MapDotnet(x + "[[]", fqn, simple), fqn, simple) != MapDotnet(x + "[[]", fqn, simple)
  {
    var a, b := x + "[", "List[" + x;
    OpaqueShapes(x, a, b);
    ArrayOfOpaque(a, |x|, fqn, simple);
    ArrayOfOpaque(b, 4, fqn, simple);
    TwoPasses(x, MapDotnet(a + "[]", fqn, simple), MapDotnet(b + "[]", fqn, simple));
  }

  lemma TwoPasses(x: string, p: string, q: string)
    requires p == Wrap("List", x + "[") && q == Wrap("List", "List[" + x)
    ensures x + "[[]" == (x + "[") + "[]" && "List[" + x + "[]" == ("List[" + x) + "[]"
    ensures p == "List[" + x + "[]" && q == "List[List[" + x + "]" && q != p
  {
    assert |q| == |p| + 4;
  }

  lemma OpaqueShapes(x: string, a: string, b: string)
    requires Dotted(x) && x != [] && a == x + "[" && b == "List[" + x
    ensures 0 < |x| < |a| && Dotted(a[..|x|]) && a[|x|] == '['
    ensures a[|a| - 1] != ']' && a[|a| - 1] != '?' && a[|a| - 1] != '}'
    ensures !IsSpace(a[0]) && !IsSpace(a[|a| - 1])
    ensures 0 < 4 < |b| && Dotted(b[..4]) && b[4] == '['
    ensures b[|b| - 1] != ']' && b[|b| - 1] != '?' && b[|b| - 1] != '}'
    ensures !IsSpace(b[0]) && !IsSpace(b[|b| - 1])
  {
    assert a[0] == x[0] && IsNameChar(x[0]) && IsNameChar(x[|x| - 1]);
    assert a[..|x|] == x;
    assert b[..4] == "List";
  }

  /** An opaque label with `[]` appended becomes a `List` of itself. */
  lemma ArrayOfOpaque(t: string, n: nat, fqn: string, simple: string)
    requires 0 < n < |t| && Dotted(t[..n]) && t[n] == '['
    requires t[|t| - 1] != ']' && t[|t| - 1] != '?' && t[|t| - 1] != '}'
    requires !IsSpace(t[0]) && !IsSpace(t[|t| - 1]) && '[' !in simple
    ensures MapDotnet(t + "[]", fqn, simple) == Wrap("List", t)
  {
    ArrayOf(t, fqn, simple);
    OpaqueLeaf(t, n, fqn, simple);
  }

  /** A label whose name run stops at a character other than `{`, that does not end in `]`,
      `?` or `}`, and that holds a `[`, is left as it is. */
  lemma OpaqueLeaf(t: string, n: nat, fqn: string, simple: string)
    requires 0 < n < |t| && Dotted(t[..n]) && t[n] == '['
    requires t[|t| - 1] != ']' && t[|t| - 1] != '?' && t[|t| - 1] != '}'
    requires !IsSpace(t[0]) && !IsSpace(t[|t| - 1]) && '[' !in simple
    ensures MapDotnet(t, fqn, simple) == t
  {
    NameRunOf(t[..n], t[n..]);
    assert t[..n] + t[n..] == t;
    NoBraceAfterRun(t, n);
    NoNullableWithout(t);
    RulesLeaf(t, fqn, simple);
    AliasKeyChar(t, n);
    assert t != simple by { assert t[n] in t; }
  }

  lemma AliasKeyChar(t: string, i: nat)
    ensures t in ALIASES && i < |t| ==> IsNameChar(t[i])
  {
    if t in ALIASES {
      AliasShape(t);
    }
  }

  lemma NoBraceAfterRun(t: string, n: nat)
    requires NameRun(t) == n < |t| && t[n] != '{'
    ensures GenericMatch(t) == None
  {}
}
