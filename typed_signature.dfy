/** `build_typed_signature`: the typed stub line of a RhinoScriptSyntax function, from the
    call's parameters, the typed Parameters block and the return type. */
module TypedSignature {
  import opened Wrappers
  import opened Text
  import opened ParamsBlock
  import opened ScriptSignature

  /** `param_types.get(name, {'type': 'Any', 'optional': False})` */
  function InfoOf(types: Mapping, name: string): (info: ParamInfo)
    ensures name !in types ==> info == ParamInfo("Any", false)
    ensures name in types ==> info == types[name]
  {
    if name in types then types[name] else ParamInfo("Any", false)
  }

  /** An optional parameter without a default, of a type that is neither `Any`, `None` nor
      already `Optional[...]`, is annotated `Optional[...]` and given the default `None`. */
  predicate Widens(info: ParamInfo, default: Option<string>) {
    info.optional && default.None? && info.typ != "Any" && info.typ != "None"
    && !StartsWith(info.typ, "Optional[")
  }

  /** The annotation and default a parameter is written with. */
  function Annotated(info: ParamInfo, default: Option<string>): (r: (string, Option<string>))
    ensures Widens(info, default) ==> r == ("Optional[" + info.typ + "]", Some("None"))
    ensures !Widens(info, default) ==> r == (info.typ, default)
  {
    if Widens(info, default) then ("Optional[" + info.typ + "]", Some("None"))
    else (info.typ, default)
  }

  /** `name: ann` or `name: ann = default` */
  function Item(types: Mapping, p: Param): (r: string)
    ensures StartsWith(r, p.0 + ": ")
  {
    var (ann, d) := Annotated(InfoOf(types, p.0), p.1);
    var head := p.0 + ": " + ann;
    assert (p.0 + ": ") <= head;
    if d.None? then head else head + " = " + d.value
  }

  /** One item per parameter, in the order of the call. */
  function Items(types: Mapping, params: seq<Param>): (r: seq<string>)
    ensures |r| == |params|
    ensures forall k :: 0 <= k < |params| ==> StartsWith(r[k], params[k].0 + ": ")
  {
    seq(|params|, k requires 0 <= k < |params| => Item(types, params[k]))
  }

  /** `f'rhinoscriptsyntax.{func_name}({args_str}) -> {returns_type}'` */
  function TypedSignatureOf(funcName: string, params: seq<Param>, types: Mapping, ret: string): string {
    "rhinoscriptsyntax." + funcName + "(" + Join(", ", Items(types, params)) + ") -> " + ret
  }

  /** `build_typed_signature(func_name, sig_params, param_types, returns_type)`, with its loop
      over the parameters. */
  method BuildTypedSignature(funcName: string, sigParams: seq<Param>, paramTypes: Mapping,
                             returnsType: string) returns (line: string)
    ensures line == TypedSignatureOf(funcName, sigParams, paramTypes, returnsType)
  {
    var items: seq<string> := [];
    for i := 0 to |sigParams|
      invariant items == Items(paramTypes, sigParams[..i])
    {
      var (name, default) := sigParams[i];
      var pinfo := if name in paramTypes then paramTypes[name] else ParamInfo("Any", false);
      var ann := pinfo.typ;
      var optional := pinfo.optional;
      if optional && default.None? && ann != "Any" && ann != "None" && !StartsWith(ann, "Optional[") {
        ann := "Optional[" + ann + "]";
        default := Some("None");
      }
      ItemsSnoc(paramTypes, sigParams, i);
      if default.None? {
        items := items + [name + ": " + ann];
      } else {
        items := items + [name + ": " + ann + " = " + default.value];
      }
    }
    assert sigParams[..|sigParams|] == sigParams;
    line := "rhinoscriptsyntax." + funcName + "(" + Join(", ", items) + ") -> " + returnsType;
  }

  lemma ItemsSnoc(types: Mapping, params: seq<Param>, i: nat)
    requires i < |params|
    ensures Items(types, params[..i + 1]) == Items(types, params[..i]) + [Item(types, params[i])]
  {
    assert |Items(types, params[..i + 1])| == i + 1;
  }

  // ---------- properties ----------

  /** Items are built parameter by parameter: those of a concatenation are concatenated. */
  lemma ItemsAppend(types: Mapping, ps: seq<Param>, qs: seq<Param>)
    ensures Items(types, ps + qs) == Items(types, ps) + Items(types, qs)
  {
    assert |Items(types, ps + qs)| == |Items(types, ps) + Items(types, qs)|;
    forall k | 0 <= k < |ps| + |qs|
      ensures Items(types, ps + qs)[k] == (Items(types, ps) + Items(types, qs))[k]
    {
      if k < |ps| {
        assert (ps + qs)[k] == ps[k];
      } else {
        assert (ps + qs)[k] == qs[k - |ps|];
      }
    }
  }

  /** A parameter the Parameters block does not describe is typed `Any`, and keeps its
      default. */
  lemma UndescribedIsAny(types: Mapping, name: string, default: Option<string>)
    requires name !in types
    ensures default.None? ==> Item(types, (name, default)) == name + ": Any"
    ensures default.Some? ==> Item(types, (name, default)) == name + ": Any = " + default.value
  {}

  /** An optional parameter with no default, of a plain type `T`, is written
      `name: Optional[T] = None`. */
  lemma OptionalWidened(types: Mapping, name: string)
    requires name in types && types[name].optional
    requires types[name].typ != "Any" && types[name].typ != "None"
    requires !StartsWith(types[name].typ, "Optional[")
    ensures Item(types, (name, None)) == name + ": Optional[" + types[name].typ + "] = None"
  {}

  /** A default written in the call is kept, and the annotation is then the type as
      described, never widened. */
  lemma DefaultKept(types: Mapping, name: string, d: string)
    ensures Item(types, (name, Some(d))) == name + ": " + InfoOf(types, name).typ + " = " + d
  {}

  /** With no default and no widening, the item is the bare annotation: for a parameter
      that is not optional, or whose type is `Any`, `None` or already `Optional[...]`. */
  lemma NoDefaultPlain(types: Mapping, name: string)
    requires !Widens(InfoOf(types, name), None)
    ensures Item(types, (name, None)) == name + ": " + InfoOf(types, name).typ
  {}

  /** An item gets a default exactly when the call gives one or the parameter is widened. */
  lemma DefaultIff(types: Mapping, name: string, default: Option<string>)
    ensures Annotated(InfoOf(types, name), default).1.Some?
        <==> default.Some? || Widens(InfoOf(types, name), default)
  {}

  /** The line names the module and function, then the items, then the return type. */
  lemma SignatureShape(funcName: string, params: seq<Param>, types: Mapping, ret: string)
    ensures var line := TypedSignatureOf(funcName, params, types, ret);
      StartsWith(line, "rhinoscriptsyntax." + funcName + "(") && EndsWith(line, ") -> " + ret)
  {
    var line := TypedSignatureOf(funcName, params, types, ret);
    var args := Join(", ", Items(types, params));
    assert line == ("rhinoscriptsyntax." + funcName + "(") + (args + ") -> " + ret);
    assert line == ("rhinoscriptsyntax." + funcName + "(" + args) + (") -> " + ret);
  }
}
