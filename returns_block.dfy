/** `parse_returns_block`: the Returns block of a RhinoScriptSyntax entry reduced to one
    return type, wrapped in `Optional[...]` when the block says `None on error`. */
module ReturnsBlock {
  import opened Wrappers
  import opened Text

  /** `[ln.strip() for ln in lines if ln.strip()]` */
  function NonBlank(lines: seq<string>): (r: seq<string>)
    ensures forall k :: 0 <= k < |r| ==> r[k] != [] && Trimmed(r[k])
    decreases |lines|
  {
    if lines == [] then []
    else
      var p := Strip(lines[|lines| - 1]);
      NonBlank(lines[..|lines| - 1]) + (if p == [] then [] else [p])
  }

  /** `re.search(r'\bNone on error\b', ln, re.IGNORECASE)` */
  predicate SaysNoneOnError(ln: string) { HasWord(ln, "none on error") }

  /** Some line says `None on error`. */
  function SawNone(lines: seq<string>): (b: bool)
    ensures b <==> exists k :: 0 <= k < |lines| && SaysNoneOnError(lines[k])
    decreases |lines|
  {
    if lines == [] then false
    else
      var b := SawNone(lines[..|lines| - 1]);
      assert forall k :: 0 <= k < |lines| - 1 ==> lines[..|lines| - 1][k] == lines[k];
      b || SaysNoneOnError(lines[|lines| - 1])
  }

  /** `map_type(ln.split(':', 1)[0])`: the type a line names. */
  function LineType(mapType: string -> string, ln: string): string {
    mapType(Before(ln, ":"))
  }

  /** The return type before wrapping: that of the first line, `None` when there is none. */
  function BaseType(mapType: string -> string, lines: seq<string>): string {
    if lines == [] then "None" else LineType(mapType, lines[0])
  }

  /** `Optional[...]` around `ret`, unless it is `None` or already optional, when the
      block says `None on error`. */
  function Wrapped(saw: bool, ret: string): string {
    if saw && ret != "None" && !StartsWith(ret, "Optional[") then "Optional[" + ret + "]" else ret
  }

  /** `parse_returns_block(pre_text, map_type)` */
  function ReturnsOf(mapType: string -> string, text: string): string {
    var lines := NonBlank(SplitLines(text));
    Wrapped(SawNone(lines), BaseType(mapType, lines))
  }

  /** The loop of `parse_returns_block`, with the two first-assignment guards of the
      source. */
  method ParseReturnsBlock(mapType: string -> string, text: string) returns (ret: string)
    ensures ret == ReturnsOf(mapType, text)
  {
    var lines := NonBlank(SplitLines(text));
    var retType: Option<string> := None;
    var sawNone := false;
    for i := 0 to |lines|
      invariant sawNone == SawNone(lines[..i])
      invariant retType == if i == 0 then None else Some(LineType(mapType, lines[0]))
    {
      SawNoneSnoc(lines, i);
      var ln := lines[i];
      if SaysNoneOnError(ln) {
        sawNone := true;
      }
      var t := mapType(Before(ln, ":"));
      if t != "None" && retType.None? {
        retType := Some(t);
      }
      if t == "None" && retType.None? {
        retType := Some("None");
      }
    }
    assert lines[..|lines|] == lines;
    assert retType.GetOr("None") == BaseType(mapType, lines);
    ret := retType.GetOr("None");
    if sawNone && ret != "None" && !StartsWith(ret, "Optional[") {
      ret := "Optional[" + ret + "]";
    }
  }

  lemma SawNoneSnoc(lines: seq<string>, i: nat)
    requires i < |lines|
    ensures SawNone(lines[..i + 1]) == (SawNone(lines[..i]) || SaysNoneOnError(lines[i]))
  {
    assert lines[..i + 1][..i] == lines[..i];
  }

  // ---------- properties ----------

  /** A block with no non-blank line returns `None`. */
  lemma BlankBlockIsNone(mapType: string -> string, text: string)
    requires forall k :: 0 <= k < |SplitLines(text)| ==> AllSpace(SplitLines(text)[k])
    ensures ReturnsOf(mapType, text) == "None"
  {
    NoNonBlank(SplitLines(text));
  }

  lemma {:induction false} NoNonBlank(lines: seq<string>)
    requires forall k :: 0 <= k < |lines| ==> AllSpace(lines[k])
    ensures NonBlank(lines) == []
    decreases |lines|
  {
    if lines != [] {
      NoNonBlank(lines[..|lines| - 1]);
    }
  }

  /** Lines after the first never change the type before wrapping. */
  lemma LaterLinesIgnored(mapType: string -> string, lines: seq<string>, more: seq<string>)
    requires lines != []
    ensures BaseType(mapType, lines + more) == BaseType(mapType, lines)
  {
    assert (lines + more)[0] == lines[0];
  }

  /** Adding a line at the end changes the result only through `None on error`. */
  lemma AppendedLine(mapType: string -> string, lines: seq<string>, ln: string)
    requires lines != []
    ensures Wrapped(SawNone(lines + [ln]), BaseType(mapType, lines + [ln]))
         == Wrapped(SawNone(lines) || SaysNoneOnError(ln), BaseType(mapType, lines))
  {
    LaterLinesIgnored(mapType, lines, [ln]);
    assert (lines + [ln])[..|lines|] == lines;
  }

  /** The result is `Optional[T]` around the base type `T` exactly when some line says
      `None on error` and `T` is neither `None` nor already `Optional[...]`; otherwise it is
      `T` itself. */
  lemma OptionalIff(mapType: string -> string, text: string)
    ensures var lines := NonBlank(SplitLines(text));
      var base := BaseType(mapType, lines);
      var wraps := SawNone(lines) && base != "None" && !StartsWith(base, "Optional[");
      (ReturnsOf(mapType, text) == "Optional[" + base + "]" <==> wraps)
      && (ReturnsOf(mapType, text) == base <==> !wraps)
  {
    var lines := NonBlank(SplitLines(text));
    var base := BaseType(mapType, lines);
    assert |"Optional[" + base + "]"| == |base| + 10;
  }

  /** A block whose first line names `None` returns `None`, whatever it says later. */
  lemma FirstNoneIsNone(mapType: string -> string, text: string)
    requires var lines := NonBlank(SplitLines(text));
      lines != [] && LineType(mapType, lines[0]) == "None"
    ensures ReturnsOf(mapType, text) == "None"
  {}
}
