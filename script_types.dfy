/** `norm` and the `map_type` closure of `build_type_mapper`: free-text type labels of the
    RhinoScriptSyntax documentation rewritten as Python typing labels. */
module ScriptTypes {
  import opened Wrappers
  import opened Text

  /** The two table styles `build_type_mapper` chooses between. */
  datatype Style = DotnetStyle | PythonStyle

  /** Pythonic names: ids as `str`, colours and points as tuples. */
  const PY_MAP: map<string, string> := map[
    "none" := "None", "void" := "None",
    "bool" := "bool", "boolean" := "bool",
    "number" := "float", "double" := "float", "float" := "float",
    "int" := "int", "integer" := "int",
    "str" := "str", "string" := "str",
    "guid" := "str", "uuid" := "str",
    "date" := "datetime.date", "datetime.date" := "datetime.date",
    "color" := "Tuple[int, int, int]",
    "point" := "Tuple[float, float, float]", "point3d" := "Tuple[float, float, float]",
    "vector" := "Tuple[float, float, float]", "vector3d" := "Tuple[float, float, float]",
    "interval" := "Tuple[float, float]",
    "plane" := "Any",
    "matrix" := "List[List[float]]", "transform" := "List[List[float]]"]

  /** .NET-flavoured names: `System.Guid`, `Rhino.Geometry.Plane` and the like. */
  const DN_MAP: map<string, string> := map[
    "none" := "None", "void" := "None",
    "bool" := "bool", "boolean" := "bool",
    "number" := "float", "double" := "float", "float" := "float",
    "int" := "int", "integer" := "int",
    "str" := "str", "string" := "str",
    "guid" := "System.Guid", "uuid" := "System.Guid",
    "date" := "datetime.date", "datetime.date" := "datetime.date",
    "color" := "System.Drawing.Color",
    "point" := "Rhino.Geometry.Point3d", "point3d" := "Rhino.Geometry.Point3d",
    "vector" := "Rhino.Geometry.Vector3d", "vector3d" := "Rhino.Geometry.Vector3d",
    "interval" := "Tuple[float, float]",
    "plane" := "Rhino.Geometry.Plane",
    "matrix" := "Rhino.Geometry.Transform", "transform" := "Rhino.Geometry.Transform"]

  /** `base_map`: the .NET table for the `dotnet` style, the Pythonic one otherwise. */
  function Table(style: Style): (m: map<string, string>)
    ensures "guid" in m && "point" in m && "vector" in m && "color" in m
    ensures "interval" in m && "plane" in m && "transform" in m
  {
    if style == DotnetStyle then DN_MAP else PY_MAP
  }

  /** `norm(s)`: stripped and lower-cased. */
  function Norm(s: string): (r: string)
    ensures |r| <= |s|
    ensures r == [] <==> AllSpace(s)
    ensures forall i :: 0 <= i < |r| ==> !('A' <= r[i] <= 'Z')
  {
    Lower(Strip(s))
  }

  /** `t.replace('–', '-')`: each en dash becomes a hyphen. */
  function Dashes(t: string): (r: string)
    ensures |r| == |t|
  {
    seq(|t|, i requires 0 <= i < |t| => if t[i] == '–' then '-' else t[i])
  }

  /** An alternative the union loop accepts: non-empty once stripped, and a table key. */
  predicate Known(m: map<string, string>, p: string) { Strip(p) != [] && Strip(p) in m }

  /** The union loop: the position of the first stripped ` or ` alternative that is a
      key (empty alternatives are skipped), or `|parts|` when there is none. */
  function FirstKnownAt(m: map<string, string>, parts: seq<string>): (k: nat)
    ensures k <= |parts| && (k < |parts| ==> Known(m, parts[k]))
    ensures forall j :: 0 <= j < k ==> !Known(m, parts[j])
  {
    FirstKnownFrom(m, parts, 0)
  }

  /** The loop from position `i` on. */
  function FirstKnownFrom(m: map<string, string>, parts: seq<string>, i: nat): (k: nat)
    requires i <= |parts|
    ensures i <= k <= |parts| && (k < |parts| ==> Known(m, parts[k]))
    ensures forall j :: i <= j < k ==> !Known(m, parts[j])
    decreases |parts| - i
  {
    if i == |parts| || Known(m, parts[i]) then i
    else
      var k := FirstKnownFrom(m, parts, i + 1);
      assert forall j :: i + 1 <= j < k ==> !Known(m, parts[j]);
      k
  }

  /** The table entry the union loop returns, if any. */
  function FirstKnown(m: map<string, string>, parts: seq<string>): (r: Option<string>)
    ensures r.None? <==> forall k :: 0 <= k < |parts| ==> !Known(m, parts[k])
  {
    var k := FirstKnownAt(m, parts);
    if k < |parts| then Some(m[Strip(parts[k])]) else None
  }

  /** The text the rules see: normalised, en dashes made hyphens. */
  function Normalized(raw: string): (t: string)
    ensures |t| <= |raw|
    ensures t == [] <==> AllSpace(raw)
  {
    Dashes(Norm(raw))
  }

  /** `map_type(raw)`. */
  function MapType(style: Style, raw: string): (r: string)
    decreases |raw|, 4
  {
    if Norm(raw) == [] then "Any" else Classify(style, Normalized(raw))
  }

  /** Unions first: the first alternative that is a key, else the first alternative mapped. */
  function Classify(style: Style, t: string): (r: string)
    decreases |t|, 3
  {
    if Contains(t, " or ") then
      match FirstKnown(Table(style), SplitOn(t, " or "))
      case Some(v) => v
      case None => MapType(style, Before(t, " or "))
    else Phrase(style, t)
  }

  /** `list of X`, `array of X` and `tuple of N X` phrasing. */
  function Phrase(style: Style, t: string): (r: string)
    decreases |t|, 2
  {
    if StartsWith(t, "list of ") || StartsWith(t, "array of ") then
      OfInside(t);
      Wrap("List", MapType(style, Strip(After(t, " of "))))
    else if StartsWith(t, "tuple of ") then
      OfInside(t);
      match TupleCount(Strip(After(t, " of ")))
      case Some(nb) =>
        Wrap("Tuple", Join(", ", Copies(MapType(style, nb.1), nb.0)))
      case None => "Tuple[Any, ...]"
    else Lookup(style, t)
  }

  /** The exact key, the text before a comma, the `[guid, ...]` list hint, then the
      substring heuristics. */
  function Lookup(style: Style, t: string): (r: string)
    decreases |t|, 1
  {
    var m := Table(style);
    if t in m then m[t]
    else if ',' in t then
      BeforeCharShorter(t, ',');
      MapType(style, Strip(Before(t, ",")))
    else if IsGuidList(t) then Wrap("List", m["guid"])
    else Heuristic(m, t)
  }

  /** Each of the three phrasings holds ` of `, so `split(' of ', 1)[1]` exists. */
  lemma OfInside(t: string)
    requires StartsWith(t, "list of ") || StartsWith(t, "array of ") || StartsWith(t, "tuple of ")
    ensures Contains(t, " of ")
  {
    if StartsWith(t, "list of ") {
      ContainsInPrefix(t, "list of ", " of ", 4);
    } else if StartsWith(t, "array of ") {
      ContainsInPrefix(t, "array of ", " of ", 5);
    } else {
      ContainsInPrefix(t, "tuple of ", " of ", 5);
    }
  }

  /** `t.startswith('[') and '...' in t and ('guid' in t or 'uuid' in t)`. */
  predicate IsGuidList(t: string) {
    StartsWith(t, "[") && Contains(t, "...") && (Contains(t, "guid") || Contains(t, "uuid"))
  }

  /** The substring heuristics in their order, and `Any` when none applies. */
  function Heuristic(m: map<string, string>, t: string): (r: string)
    requires "point" in m && "vector" in m && "color" in m
    requires "interval" in m && "plane" in m && "transform" in m
  {
    if Contains(t, "point") then m["point"]
    else if Contains(t, "vector") then m["vector"]
    else if Contains(t, "color") then m["color"]
    else if Contains(t, "interval") then m["interval"]
    else if Contains(t, "plane") then m["plane"]
    else if Contains(t, "transform") || Contains(t, "matrix") then m["transform"]
    else "Any"
  }

  /** `name[arg]`. */
  function Wrap(name: string, arg: string): string { name + "[" + arg + "]" }

  /** `[x] * n`. */
  function Copies(x: string, n: nat): (r: seq<string>)
    ensures |r| == n && forall k :: 0 <= k < n ==> r[k] == x
  {
    seq(n, _ => x)
  }

  /** The characters of `[a-zA-Z0-9_.]`. */
  predicate IsBaseChar(c: char) { IsWordChar(c) || c == '.' }

  /** `re.match(r'(\d+)\s+([a-zA-Z0-9_.]+)s?$', inner)`: the count and the base name. The
      greedy base group takes every character to the end, a plural `s` included, so the
      optional `s` is never the one that matches. */
  function TupleCount(inner: string): (r: Option<(nat, string)>)
    ensures r.Some? ==>
      r.value.1 != [] && |r.value.1| < |inner|
      && forall i :: 0 <= i < |r.value.1| ==> IsBaseChar(r.value.1[i])
  {
    var k := RunLength(inner, IsDigit);
    var w := RunLength(inner[k..], IsSpace);
    var rest := inner[k + w..];
    if k >= 1 && w >= 1 && rest != [] && forall i :: 0 <= i < |rest| ==> IsBaseChar(rest[i]) then
      assert forall i :: 0 <= i < k ==> IsDigit(inner[..k][i]);
      Some((DigitsValue(inner[..k]), rest))
    else None
  }

  // ---------- the rules, one lemma each ----------

  /** Blank or whitespace-only text maps to `Any`. */
  lemma BlankIsAny(style: Style, raw: string)
    requires AllSpace(raw)
    ensures MapType(style, raw) == "Any"
  {}

  lemma StageClassify(style: Style, raw: string)
    requires !AllSpace(raw)
    ensures MapType(style, raw) == Classify(style, Normalized(raw))
  {}

  lemma StagePhrase(style: Style, t: string)
    requires !Contains(t, " or ")
    ensures Classify(style, t) == Phrase(style, t)
  {}

  /** None of the phrasing prefixes. */
  predicate Unphrased(t: string) {
    !StartsWith(t, "list of ") && !StartsWith(t, "array of ") && !StartsWith(t, "tuple of ")
  }

  lemma StageLookup(style: Style, t: string)
    requires Unphrased(t)
    ensures Phrase(style, t) == Lookup(style, t)
  {}

  /** A union takes the entry of its first alternative that is a key. */
  lemma UnionFirstKey(style: Style, raw: string, k: nat)
    requires Contains(Normalized(raw), " or ")
    requires k < |Alternatives(raw)| && Known(Table(style), Alternatives(raw)[k])
    requires forall j :: 0 <= j < k ==> !Known(Table(style), Alternatives(raw)[j])
    ensures MapType(style, raw) == Table(style)[Strip(Alternatives(raw)[k])]
  {
    StageClassify(style, raw);
    FirstKnownIs(Table(style), Alternatives(raw), k);
  }

  /** The alternatives of a union, as the union rule splits them. */
  function Alternatives(raw: string): (parts: seq<string>)
    ensures |parts| >= 1
  {
    SplitOn(Normalized(raw), " or ")
  }

  lemma FirstKnownIs(m: map<string, string>, parts: seq<string>, k: nat)
    requires k < |parts| && Known(m, parts[k]) && forall j :: 0 <= j < k ==> !Known(m, parts[j])
    ensures FirstKnown(m, parts) == Some(m[Strip(parts[k])])
  {
    FirstKnownAtIs(m, parts, k);
  }

  lemma FirstKnownAtIs(m: map<string, string>, parts: seq<string>, k: nat)
    requires k < |parts| && Known(m, parts[k]) && forall j :: 0 <= j < k ==> !Known(m, parts[j])
    ensures FirstKnownAt(m, parts) == k
  {
    var i := FirstKnownAt(m, parts);
    assert !(i < k) && !(k < i);
  }

  /** A union none of whose alternatives is a key maps as its first alternative. */
  lemma UnionFallback(style: Style, raw: string)
    requires Contains(Normalized(raw), " or ")
    requires forall k :: 0 <= k < |Alternatives(raw)| ==> !Known(Table(style), Alternatives(raw)[k])
    ensures MapType(style, raw) == MapType(style, Before(Normalized(raw), " or "))
  {
    StageClassify(style, raw);
    assert FirstKnown(Table(style), Alternatives(raw)).None?;
    ClassifyFallback(style, Normalized(raw));
  }

  lemma ClassifyFallback(style: Style, t: string)
    requires Contains(t, " or ") && FirstKnown(Table(style), SplitOn(t, " or ")).None?
    ensures Classify(style, t) == MapType(style, Before(t, " or "))
  {}

  /** The tuple-count parser reads back a count written out and a base name after one
      space. */
  lemma TupleCountOf(n: nat, base: string)
    requires base != [] && forall i :: 0 <= i < |base| ==> IsBaseChar(base[i])
    ensures TupleCount(NatToString(n) + " " + base) == Some((n, base))
  {
    var d := NatToString(n);
    var tail := " " + base;
    var inner := d + " " + base;
    assert inner == d + tail by { ConcatAssoc(d, " ", base); }
    assert inner[..|d|] == d && inner[|d|..] == tail && inner[|d| + 1..] == base by {
      SplitAt(d, tail);
    }
    assert RunLength(inner, IsDigit) == |d| by {
      assert inner[|d|] == ' ';
      RunLengthIs(inner, IsDigit, |d|);
    }
    assert RunLength(tail, IsSpace) == 1 by {
      assert IsBaseChar(base[0]);
      RunLengthIs(tail, IsSpace, 1);
    }
    TupleCountIs(inner, |d|, 1, d, base);
    DigitsValueOfNatToString(n);
  }

  /** What `TupleCount` computes, given the digit run and the blank run after it. */
  lemma TupleCountIs(inner: string, k: nat, w: nat, digits: string, rest: string)
    requires k >= 1 && w >= 1 && k + w <= |inner| && digits == inner[..k] && rest == inner[k + w..]
    requires RunLength(inner, IsDigit) == k && RunLength(inner[k..], IsSpace) == w
    requires forall i :: 0 <= i < |digits| ==> IsDigit(digits[i])
    requires rest != [] && forall i :: 0 <= i < |rest| ==> IsBaseChar(rest[i])
    ensures TupleCount(inner) == Some((DigitsValue(digits), rest))
  {}

  lemma SplitAt<T>(x: seq<T>, y: seq<T>)
    requires y != []
    ensures (x + y)[..|x|] == x && (x + y)[|x|..] == y && (x + y)[|x| + 1..] == y[1..]
  {}


  /** `list of X` and `array of X` map to `List[X']`. */
  lemma ListOf(style: Style, raw: string)
    requires var t := Normalized(raw);
      !Contains(t, " or ") && (StartsWith(t, "list of ") || StartsWith(t, "array of "))
    ensures var t := Normalized(raw);
      Contains(t, " of ") && MapType(style, raw) == Wrap("List", MapType(style, Strip(After(t, " of "))))
  {
    var t := Normalized(raw);
    StageClassify(style, raw);
    StagePhrase(style, t);
    OfInside(t);
  }

  /** `tuple of N X` maps to `Tuple[X', ..., X']` with `N` copies. */
  lemma TupleOf(style: Style, raw: string, n: nat, base: string)
    requires var t := Normalized(raw);
      !Contains(t, " or ") && StartsWith(t, "tuple of ")
      && Contains(t, " of ") && TupleCount(Strip(After(t, " of "))) == Some((n, base))
    ensures MapType(style, raw) == Wrap("Tuple", Join(", ", Copies(MapType(style, base), n)))
  {
    var t := Normalized(raw);
    StageClassify(style, raw);
    StagePhrase(style, t);
    TuplePrefix(t);
    TupleBranch(style, t, n, base);
  }

  lemma TuplePrefix(t: string)
    requires StartsWith(t, "tuple of ")
    ensures !StartsWith(t, "list of ") && !StartsWith(t, "array of ")
  {
    PrefixChar("tuple of ", t, 0);
    PrefixChar("list of ", t, 0);
    PrefixChar("array of ", t, 0);
  }

  lemma TupleNone(style: Style, t: string)
    requires StartsWith(t, "tuple of ") && !StartsWith(t, "list of ") && !StartsWith(t, "array of ")
    requires Contains(t, " of ") && TupleCount(Strip(After(t, " of "))) == None
    ensures Phrase(style, t) == "Tuple[Any, ...]"
  {}

  lemma TupleBranch(style: Style, t: string, n: nat, base: string)
    requires StartsWith(t, "tuple of ") && !StartsWith(t, "list of ") && !StartsWith(t, "array of ")
    requires Contains(t, " of ") && TupleCount(Strip(After(t, " of "))) == Some((n, base))
    ensures Phrase(style, t) == Wrap("Tuple", Join(", ", Copies(MapType(style, base), n)))
  {}

  /** Any other `tuple of ...` maps to `Tuple[Any, ...]`. */
  lemma TupleOther(style: Style, raw: string)
    requires var t := Normalized(raw);
      !Contains(t, " or ") && StartsWith(t, "tuple of ")
      && Contains(t, " of ") && TupleCount(Strip(After(t, " of "))) == None
    ensures MapType(style, raw) == "Tuple[Any, ...]"
  {
    var t := Normalized(raw);
    StageClassify(style, raw);
    StagePhrase(style, t);
    TuplePrefix(t);
    TupleNone(style, t);
  }

  /** After the union and phrasing rules, an exact key maps to its entry. */
  lemma KeyLookup(style: Style, raw: string)
    requires var t := Normalized(raw);
      !AllSpace(raw) && !Contains(t, " or ") && Unphrased(t) && t in Table(style)
    ensures MapType(style, raw) == Table(style)[Normalized(raw)]
  {
    var t := Normalized(raw);
    StageClassify(style, raw);
    StagePhrase(style, t);
    StageLookup(style, t);
  }

  /** Then text with a comma maps as its part before the first comma. */
  lemma CommaRule(style: Style, raw: string)
    requires var t := Normalized(raw);
      !Contains(t, " or ") && Unphrased(t) && t !in Table(style) && ',' in t
    ensures Contains(Normalized(raw), ",")
    ensures MapType(style, raw) == MapType(style, Strip(Before(Normalized(raw), ",")))
  {
    var t := Normalized(raw);
    StageClassify(style, raw);
    StagePhrase(style, t);
    StageLookup(style, t);
    CharContains(t, ',');
  }

  /** Then a bracketed list naming guids maps to a `List` of the guid entry. */
  lemma GuidListRule(style: Style, raw: string)
    requires var t := Normalized(raw);
      !Contains(t, " or ") && Unphrased(t) && t !in Table(style) && ',' !in t && IsGuidList(t)
    ensures MapType(style, raw) == Wrap("List", Table(style)["guid"])
  {
    var t := Normalized(raw);
    StageClassify(style, raw);
    StagePhrase(style, t);
    StageLookup(style, t);
  }

  /** Then the substring heuristics, and `Any` when none of their words occurs. */
  lemma HeuristicRule(style: Style, raw: string)
    requires var t := Normalized(raw);
      !AllSpace(raw) && !Contains(t, " or ") && Unphrased(t) && t !in Table(style) && ',' !in t
      && !IsGuidList(t)
    ensures MapType(style, raw) == Heuristic(Table(style), Normalized(raw))
  {
    var t := Normalized(raw);
    StageClassify(style, raw);
    StagePhrase(style, t);
    StageLookup(style, t);
  }

  /** Text that no rule recognises maps to `Any`: no union, phrasing, key, comma or guid
      list, and none of the heuristic words. */
  lemma NoRuleIsAny(style: Style, raw: string)
    requires var t := Normalized(raw);
      !AllSpace(raw) && !Contains(t, " or ") && Unphrased(t) && t !in Table(style) && ',' !in t
      && !IsGuidList(t)
    requires var t := Normalized(raw);
      !Contains(t, "point") && !Contains(t, "vector") && !Contains(t, "color")
      && !Contains(t, "interval") && !Contains(t, "plane")
      && !Contains(t, "transform") && !Contains(t, "matrix")
    ensures MapType(style, raw) == "Any"
  {
    HeuristicRule(style, raw);
  }
}
