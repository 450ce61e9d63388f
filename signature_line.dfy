/** `build_signature_line` and `process_file`: one Python-style signature line per method
    page, from the help identity and the C# declaration. */
module SignatureLine {
  import opened Wrappers
  import opened Text
  import opened HelpId
  import opened CSharpSignature
  import opened DotnetTypes

  // Optional strings of the source (`cs_return_type`, `cs_method_name`, `container_simple`)
  // are only ever checked for truthiness, so the model passes them as strings with the
  // empty string standing for `None`.

  /** `container_fqn.split('.')[-1]`, empty for an empty container. */
  function SimpleName(fqn: string): (r: string)
    ensures '.' !in r
    ensures '.' !in fqn ==> r == fqn
  {
    AfterLast(fqn, '.')
  }

  /** A `#ctor` member, or a C# name equal to the container's simple name. */
  predicate IsConstructor(methodRaw: string, csName: string, simple: string) {
    methodRaw == "#ctor" || (csName != [] && simple != [] && csName == simple)
  }

  /** The Python method name: `__init__` for a constructor, else the C# name, else the
      member of the identity. */
  function PyName(methodRaw: string, csName: string, simple: string): string {
    if IsConstructor(methodRaw, csName, simple) then "__init__"
    else if csName != [] then csName
    else methodRaw
  }

  /** The Python return label: `None` for a constructor, else the mapped C# return type,
      `None` standing in when there is none. */
  function PyReturn(methodRaw: string, csReturn: string, csName: string, fqn: string): string {
    var simple := SimpleName(fqn);
    if IsConstructor(methodRaw, csName, simple) then "None"
    else MapDotnet(ReturnLabel(csReturn), fqn, simple)
  }

  /** `cs_return_type or 'None'`. */
  function ReturnLabel(csReturn: string): string {
    if csReturn != [] then csReturn else "None"
  }

  /** `[f'arg{i+1}' for i in range(n)]`. */
  function ArgNames(n: nat): (r: seq<string>)
    ensures |r| == n && forall k :: 0 <= k < n ==> r[k] == ArgName(k + 1)
  {
    seq(n, i requires 0 <= i < n => ArgName(i + 1))
  }

  /** The names as given when there is one per type, else `arg1..argN`. */
  function AlignedNames(names: seq<string>, n: nat): (r: seq<string>)
    ensures |r| == n
    ensures |names| == n ==> r == names
    ensures |names| != n ==> forall k :: 0 <= k < n ==> r[k] == ArgName(k + 1)
  {
    if |names| != n then ArgNames(n) else names
  }

  /** `self` leads the parameter list of `__init__` and of a non-static method the C#
      declaration names. */
  predicate WantsSelf(pyName: string, csName: string, isStatic: bool) {
    pyName == "__init__" || (!isStatic && csName != [])
  }

  /** `name: ann` for each pair of `zip(names, anns)`. */
  function Typed(names: seq<string>, anns: seq<string>): (r: seq<string>)
    requires |names| == |anns|
    ensures |r| == |anns|
  {
    seq(|anns|, i requires 0 <= i < |anns| => names[i] + ": " + anns[i])
  }

  /** The parameter list: `self` when asked for, then `name: ann` for each pair. */
  function ItemsOf(withSelf: bool, names: seq<string>, anns: seq<string>): seq<string>
    requires |names| == |anns|
  {
    (if withSelf then ["self"] else []) + Typed(names, anns)
  }

  /** `f'{qualified}({", ".join(params)}) -> {ret}'`. */
  function Line(fqn: string, name: string, items: seq<string>, ret: string): string {
    fqn + "." + name + "(" + Join(", ", items) + ") -> " + ret
  }

  /** The parameter list of the line. */
  function Items(fqn: string, methodRaw: string, paramTypes: seq<string>, csName: string,
                 paramNames: seq<string>, isStatic: bool): seq<string>
  {
    var simple := SimpleName(fqn);
    ItemsOf(WantsSelf(PyName(methodRaw, csName, simple), csName, isStatic),
      AlignedNames(paramNames, |paramTypes|), MapAll(paramTypes, fqn, simple))
  }

  /** `build_signature_line(...)`. */
  function SignatureOf(fqn: string, methodRaw: string, paramTypes: seq<string>, csReturn: string,
                       csName: string, paramNames: seq<string>, isStatic: bool): string
  {
    Line(fqn, PyName(methodRaw, csName, SimpleName(fqn)),
      Items(fqn, methodRaw, paramTypes, csName, paramNames, isStatic),
      PyReturn(methodRaw, csReturn, csName, fqn))
  }

  /** `build_signature_line`, with its annotation loop and its parameter loop. */
  method BuildSignatureLine(fqn: string, methodRaw: string, paramTypes: seq<string>,
                            csReturn: string, csName: string, paramNames: seq<string>,
                            isStatic: bool)
    returns (line: string)
    ensures line == SignatureOf(fqn, methodRaw, paramTypes, csReturn, csName, paramNames, isStatic)
  {
    var simple := SimpleName(fqn);
    var name, ret := NameAndReturn(fqn, simple, methodRaw, csReturn, csName);
    var anns := AnnotateEach(paramTypes, fqn, simple);
    var names := paramNames;
    if |names| != |anns| {
      names := ArgNames(|anns|);
    }
    var head: seq<string> := [];
    if name == "__init__" || (!isStatic && csName != []) {
      head := ["self"];
    }
    var params := TypeEach(head, names, anns);
    line := fqn + "." + name + "(" + Join(", ", params) + ") -> " + ret;
    assert params == ItemsOf(WantsSelf(name, csName, isStatic), names, anns);
  }

  /** The name and return branch of `build_signature_line`. */
  method NameAndReturn(fqn: string, simple: string, methodRaw: string, csReturn: string,
                       csName: string)
    returns (name: string, ret: string)
    requires simple == SimpleName(fqn)
    ensures name == PyName(methodRaw, csName, simple)
    ensures ret == PyReturn(methodRaw, csReturn, csName, fqn)
  {
    if methodRaw == "#ctor" || (csName != [] && simple != [] && csName == simple) {
      name, ret := "__init__", "None";
    } else {
      name := if csName != [] then csName else methodRaw;
      ret := MapDotnet(ReturnLabel(csReturn), fqn, simple);
    }
  }

  /** The loop appending one mapped annotation per parameter type. */
  method AnnotateEach(paramTypes: seq<string>, fqn: string, simple: string)
    returns (anns: seq<string>)
    ensures anns == MapAll(paramTypes, fqn, simple)
  {
    anns := [];
    for i := 0 to |paramTypes|
      invariant anns == MapAll(paramTypes[..i], fqn, simple)
    {
      MapAllSnoc(paramTypes, i, fqn, simple);
      anns := anns + [MapDotnet(paramTypes[i], fqn, simple)];
    }
    assert paramTypes[..|paramTypes|] == paramTypes;
  }

  lemma MapAllSnoc(ts: seq<string>, i: nat, fqn: string, simple: string)
    requires i < |ts|
    ensures MapAll(ts[..i + 1], fqn, simple) == MapAll(ts[..i], fqn, simple) + [MapDotnet(ts[i], fqn, simple)]
  {
    var l := MapAll(ts[..i + 1], fqn, simple);
    var r := MapAll(ts[..i], fqn, simple);
    forall k | 0 <= k < i ensures l[k] == r[k] {
      assert ts[..i + 1][k] == ts[..i][k];
    }
    assert ts[..i + 1][i] == ts[i];
    SnocEq(l, r, MapDotnet(ts[i], fqn, simple));
  }

  /** The loop appending `name: ann` for each pair, after the optional `self`. */
  method TypeEach(head: seq<string>, names: seq<string>, anns: seq<string>)
    returns (params: seq<string>)
    requires |names| == |anns|
    ensures params == head + Typed(names, anns)
  {
    params := head;
    for i := 0 to |anns|
      invariant |params| == |head| + i && params[..|head|] == head
      invariant forall k :: 0 <= k < i ==> params[|head| + k] == names[k] + ": " + anns[k]
    {
      params := params + [names[i] + ": " + anns[i]];
    }
  }

  // ---------- one method page ----------

  /** What `process_file` does with a page. */
  datatype PageOutcome =
    | Skipped
      // `None`: no container, or neither a member nor a C# name
    | Raises
      // `parse_help_id` raises, outside the `try`, on a target without `.` or `.#ctor`
    | Emitted(line: string)

  /** `process_file` once the help identity and the C# block are read off the page, the
      empty string standing for a missing one. */
  function ProcessPage(helpId: string, cs: string): (r: PageOutcome)
    ensures r == Raises <==> ParseHelpId(helpId) == Malformed
    ensures !StartsWith(helpId, "M:") ==> r == Skipped
    ensures r.Emitted? ==>
      ParseHelpId(helpId).Identity? && ParseHelpId(helpId).container != []
      && StartsWith(r.line, ParseHelpId(helpId).container + ".")
  {
    match ParseHelpId(helpId)
    case NotAMethod => Skipped
    case Malformed => Raises
    case Identity(container, member, types) =>
      var sig := ParseCSharp(cs);
      var csName := sig.name.GetOr("");
      if container == [] || (member == [] && csName == []) then Skipped
      else
        var line := SignatureOf(container, member, types, sig.returnType.GetOr(""), csName,
          sig.paramNames, sig.isStatic);
        LinePrefix(container, member, types, sig.returnType.GetOr(""), csName, sig.paramNames,
          sig.isStatic);
        Emitted(line)
  }

  lemma LinePrefix(fqn: string, methodRaw: string, paramTypes: seq<string>, csReturn: string,
                   csName: string, paramNames: seq<string>, isStatic: bool)
    ensures StartsWith(SignatureOf(fqn, methodRaw, paramTypes, csReturn, csName, paramNames, isStatic),
      fqn + ".")
  {
    var name := PyName(methodRaw, csName, SimpleName(fqn));
    LineEnds(fqn, name, Items(fqn, methodRaw, paramTypes, csName, paramNames, isStatic),
      PyReturn(methodRaw, csReturn, csName, fqn));
    assert fqn + "." <= fqn + "." + name + "(";
  }

  // ---------- properties ----------

  /** The parameter list: `self` first exactly when wanted, then one `name: ann` per
      parameter type, in order, the annotation being the mapped type. */
  lemma ItemsShape(fqn: string, methodRaw: string, paramTypes: seq<string>, csName: string,
                   paramNames: seq<string>, isStatic: bool, k: nat)
    requires k < |paramTypes|
    ensures var simple := SimpleName(fqn);
      var items := Items(fqn, methodRaw, paramTypes, csName, paramNames, isStatic);
      var off := if WantsSelf(PyName(methodRaw, csName, simple), csName, isStatic) then 1 else 0;
      |items| == |paramTypes| + off
      && (off == 1 ==> items[0] == "self")
      && items[off + k] == AlignedNames(paramNames, |paramTypes|)[k] + ": "
           + MapDotnet(paramTypes[k], fqn, simple)
  {
    var simple := SimpleName(fqn);
    var anns := MapAll(paramTypes, fqn, simple);
    ItemsOfShape(WantsSelf(PyName(methodRaw, csName, simple), csName, isStatic),
      AlignedNames(paramNames, |paramTypes|), anns, k);
  }

  lemma ItemsOfShape(withSelf: bool, names: seq<string>, anns: seq<string>, k: nat)
    requires |names| == |anns| && k < |anns|
    ensures var items := ItemsOf(withSelf, names, anns);
      var off := if withSelf then 1 else 0;
      |items| == |anns| + off && (withSelf ==> items[0] == "self")
      && items[off + k] == names[k] + ": " + anns[k]
  {}

  /** `self` is among the parameters exactly when the method is `__init__` or a non-static
      method with a C# name: no `name: ann` item can read `self`. */
  lemma SelfIff(fqn: string, methodRaw: string, paramTypes: seq<string>, csName: string,
                paramNames: seq<string>, isStatic: bool)
    ensures "self" in Items(fqn, methodRaw, paramTypes, csName, paramNames, isStatic)
        <==> WantsSelf(PyName(methodRaw, csName, SimpleName(fqn)), csName, isStatic)
  {
    var simple := SimpleName(fqn);
    SelfOnlyFirst(WantsSelf(PyName(methodRaw, csName, simple), csName, isStatic),
      AlignedNames(paramNames, |paramTypes|), MapAll(paramTypes, fqn, simple));
  }

  lemma SelfOnlyFirst(withSelf: bool, names: seq<string>, anns: seq<string>)
    requires |names| == |anns|
    ensures "self" in ItemsOf(withSelf, names, anns) <==> withSelf
  {
    var typed := Typed(names, anns);
    forall k | 0 <= k < |typed| ensures typed[k] != "self" {
      TypedItem(names[k], anns[k]);
    }
  }

  lemma TypedItem(name: string, ann: string)
    ensures name + ": " + ann != "self"
  {
    var x := name + ": " + ann;
    assert x[|name|] == ':';
    assert ':' in x;
  }

  /** A constructor's line is `container.__init__(self ...) -> None`, whatever the C#
      return type. */
  lemma ConstructorLine(fqn: string, methodRaw: string, paramTypes: seq<string>, csReturn: string,
                        csName: string, paramNames: seq<string>, isStatic: bool)
    requires IsConstructor(methodRaw, csName, SimpleName(fqn))
    ensures var line := SignatureOf(fqn, methodRaw, paramTypes, csReturn, csName, paramNames, isStatic);
      StartsWith(line, fqn + ".__init__(self") && EndsWith(line, ") -> None")
  {
    var simple := SimpleName(fqn);
    var names := AlignedNames(paramNames, |paramTypes|);
    var anns := MapAll(paramTypes, fqn, simple);
    var name := PyName(methodRaw, csName, simple);
    var ret := PyReturn(methodRaw, csReturn, csName, fqn);
    assert name == "__init__" && ret == "None";
    assert Items(fqn, methodRaw, paramTypes, csName, paramNames, isStatic) == ItemsOf(true, names, anns);
    SelfLine(fqn, name, names, anns, ret);
    assert fqn + "." + name + "(self" == fqn + ".__init__(self" by {
      assert "." + name + "(self" == ".__init__(self";
      ConcatAssoc(fqn, ".", name + "(self");
    }
    assert ") -> " + ret == ") -> None";
  }

  /** A line whose parameters start with `self`. */
  lemma SelfLine(fqn: string, name: string, names: seq<string>, anns: seq<string>, ret: string)
    requires |names| == |anns|
    ensures var line := Line(fqn, name, ItemsOf(true, names, anns), ret);
      StartsWith(line, fqn + "." + name + "(self") && EndsWith(line, ") -> " + ret)
  {
    var items := ItemsOf(true, names, anns);
    assert items[0] == "self";
    JoinFirst(", ", items);
    LineEnds(fqn, name, items, ret);
    var j := Join(", ", items);
    assert fqn + "." + name + "(" + j == (fqn + "." + name + "(self") + j[4..];
  }

  /** Every line is `container.name(` ... `) -> ret`. */
  lemma LineEnds(fqn: string, name: string, items: seq<string>, ret: string)
    ensures var line := Line(fqn, name, items, ret);
      StartsWith(line, fqn + "." + name + "(") && EndsWith(line, ") -> " + ret)
      && line[..|line| - |") -> " + ret|] == fqn + "." + name + "(" + Join(", ", items)
  {
    var j := Join(", ", items);
    var line := Line(fqn, name, items, ret);
    assert line == (fqn + "." + name + "(") + (j + (") -> " + ret));
    assert line == (fqn + "." + name + "(" + j) + (") -> " + ret);
  }

  /** `sep.join(xs)` starts with the first item. */
  lemma JoinFirst(sep: string, xs: seq<string>)
    requires |xs| >= 1
    ensures xs[0] <= Join(sep, xs)
  {
    if |xs| >= 2 {
      assert Join(sep, xs) == xs[0] + (sep + Join(sep, xs[1..]));
    }
  }

  /** A method that is no constructor keeps its C# name (or, lacking one, the identity's
      member) and maps its C# return type, `None` standing in for a missing one. */
  lemma MethodLine(fqn: string, methodRaw: string, paramTypes: seq<string>, csReturn: string,
                   csName: string, paramNames: seq<string>, isStatic: bool)
    requires !IsConstructor(methodRaw, csName, SimpleName(fqn))
    ensures var name := if csName != [] then csName else methodRaw;
      var ret := MapDotnet(ReturnLabel(csReturn), fqn, SimpleName(fqn));
      var line := SignatureOf(fqn, methodRaw, paramTypes, csReturn, csName, paramNames, isStatic);
      StartsWith(line, fqn + "." + name + "(") && EndsWith(line, ") -> " + ret)
  {
    LineEnds(fqn, PyName(methodRaw, csName, SimpleName(fqn)),
      Items(fqn, methodRaw, paramTypes, csName, paramNames, isStatic),
      PyReturn(methodRaw, csReturn, csName, fqn));
  }

  /** The fallback name `arg{k}` reads back as `k`. */
  lemma ArgNameNumber(k: nat)
    ensures var a := ArgName(k);
      |a| > 3 && a[..3] == "arg" && (forall i :: 3 <= i < |a| ==> IsDigit(a[i]))
      && DigitsValue(a[3..]) == k
  {
    var a := ArgName(k);
    assert a[3..] == NatToString(k);
    DigitsValueOfNatToString(k);
  }
}
