/** `parse_help_id`: the method identity in a `Microsoft.Help.Id` string such as
    `M:Rhino.Display.ColorHSL.CreateFromLCH(Rhino.Display.ColorLCH)`. */
module HelpId {
  import opened Text
  import opened Splitter

  /** What `parse_help_id` makes of an identity string. */
  datatype MethodIdentity =
    | NotAMethod
      // `(None, None, [])`: the string does not start with `M:`
    | Malformed
      // the target has neither `.#ctor` nor a `.`, so `rsplit('.', 1)` unpacks one value and raises
    | Identity(container: string, member: string, paramTypes: seq<string>)

  const CTOR_MARK := ".#ctor"

  /** The method target: the text of `body` before its first `(`. */
  function Target(body: string): (r: string)
    ensures r <= body && '(' !in r
    ensures r == body || body[|r|] == '('
  {
    var i := IndexOf(body, '(');
    if i < 0 then body else body[..i]
  }

  /** The parameter text: between the first `(` and the last `)` after it; everything after
      the `(` when no `)` follows it; empty when there is no `(`. */
  function ParamsText(body: string): (r: string)
    ensures '(' !in body ==> r == []
    ensures '(' in body ==> Target(body) + "(" + r <= body
  {
    var i := IndexOf(body, '(');
    if i < 0 then []
    else
      var right := body[i + 1..];
      var p := if ')' in right then BeforeLast(right, ')') else right;
      PrefixAfter(body[..i] + "(", p, right);
      assert body == body[..i] + "(" + right;
      p
  }

  /** A prefix of `y`, after `x`, is a prefix of `x + y`. */
  lemma PrefixAfter<T>(x: seq<T>, p: seq<T>, y: seq<T>)
    requires p <= y
    ensures x + p <= x + y
  {
    assert (x + y)[..|x + p|] == x + p;
  }

  /** The parameter types. The source skips the splitter on empty text; the split of empty
      text is empty anyway, so the result is always the bracket-aware split. */
  function ParamTypesOf(params: string): (r: seq<string>)
    ensures r == SplitTypes(params)
    ensures forall k :: 0 <= k < |r| ==> r[k] != [] && Trimmed(r[k])
  {
    SplitTypesShape(params);
    if params == [] then SplitTypesNoComma(params); [] else SplitTypes(params)
  }

  /** Container and member from the method target: cut before the first `.#ctor` for a
      constructor, otherwise at the last `.`. */
  function SplitTarget(left: string, types: seq<string>): (r: MethodIdentity)
    ensures r != NotAMethod
    ensures r == Malformed <==> !Contains(left, CTOR_MARK) && '.' !in left
    ensures r.Identity? ==> r.paramTypes == types
    ensures r.Identity? && !Contains(left, CTOR_MARK) ==>
      left == r.container + "." + r.member && '.' !in r.member && r.member != "#ctor"
    ensures Contains(left, CTOR_MARK) ==>
      r.Identity? && r.member == "#ctor" && r.container + CTOR_MARK <= left
      && !Contains(r.container, CTOR_MARK)
  {
    if Contains(left, CTOR_MARK) then
      BeforeFirstOccurrence(left, CTOR_MARK);
      Identity(Before(left, CTOR_MARK), "#ctor", types)
    else if '.' !in left then Malformed
    else
      var i := LastIndexOf(left, '.');
      assert left == left[..i] + "." + left[i + 1..];
      assert "#ctor" != left[i + 1..] by {
        if left[i + 1..] == "#ctor" {
          assert left[i..i + 6] == CTOR_MARK;
          ContainsAt(left, CTOR_MARK, i);
        }
      }
      Identity(left[..i], left[i + 1..], types)
  }

  /** `parse_help_id`. */
  function ParseHelpId(id: string): (r: MethodIdentity)
    ensures r == NotAMethod <==> !StartsWith(id, "M:")
    ensures r.Identity? ==> r.paramTypes == SplitTypes(ParamsText(id[2..]))
  {
    if !StartsWith(id, "M:") then NotAMethod
    else
      var body := id[2..];
      SplitTarget(Target(body), ParamTypesOf(ParamsText(body)))
  }

  /** `s.split(pat)[0]` is followed by `pat` in `s` and holds no copy of `pat` itself. */
  lemma BeforeFirstOccurrence(s: string, pat: string)
    requires pat != [] && Contains(s, pat)
    ensures Before(s, pat) + pat <= s && !Contains(Before(s, pat), pat)
  {
    var b := Before(s, pat);
    assert s == b + pat + After(s, pat);
    if Contains(b, pat) {
      var j := Find(b, pat);
      assert s[j..j + |pat|] == b[j..j + |pat|];
      FindFirst(s, pat, j);
    }
  }

  // ---------- properties ----------

  /** Composing an identity string from its parts and parsing it gives the parts back. */
  lemma RoundTrip(c: string, m: string, ts: seq<string>)
    requires '(' !in c && '(' !in m && '.' !in m && '#' !in c
    requires m == "#ctor" || '#' !in m
    requires forall k :: 0 <= k < |ts| ==> ts[k] != [] && Trimmed(ts[k]) && Sealed(ts[k], AllScopes)
    ensures ParseHelpId("M:" + c + "." + m + "(" + Join(",", ts) + ")") == Identity(c, m, ts)
  {
    var joined := Join(",", ts);
    IdShape(c, m, joined);
    ParseOfBody(c + "." + m, joined);
    TypesOfJoin(ts);
    if m == "#ctor" {
      TargetCtor(c, ts);
    } else {
      TargetMember(c, m, ts);
    }
  }

  lemma ParseOfBody(left: string, joined: string)
    requires '(' !in left
    ensures ParseHelpId("M:" + (left + "(" + (joined + ")"))) == SplitTarget(left, ParamTypesOf(joined))
  {
    var body := left + "(" + (joined + ")");
    assert ("M:" + body)[2..] == body;
    TargetOf(left, joined + ")");
    ParamsOf(left, joined);
  }

  lemma TargetCtor(c: string, types: seq<string>)
    requires '#' !in c
    ensures SplitTarget(c + "." + "#ctor", types) == Identity(c, "#ctor", types)
  {
    CtorMarkAfter(c);
  }

  lemma TargetMember(c: string, m: string, types: seq<string>)
    requires '.' !in m && '#' !in c && '#' !in m
    ensures SplitTarget(c + "." + m, types) == Identity(c, m, types)
  {
    NoHashNoMark(c + "." + m);
    LastDot(c, m);
  }

  lemma TypesOfJoin(ts: seq<string>)
    requires forall k :: 0 <= k < |ts| ==> ts[k] != [] && Trimmed(ts[k]) && Sealed(ts[k], AllScopes)
    ensures ParamTypesOf(Join(",", ts)) == ts
  {
    if ts == [] {
      SplitTypesNoComma([]);
    } else {
      SplitTypesOfJoin(ts);
    }
  }

  lemma IdShape(c: string, m: string, joined: string)
    ensures "M:" + c + "." + m + "(" + joined + ")" == "M:" + (c + "." + m + "(" + (joined + ")"))
  {}

  lemma TargetOf(left: string, rest: string)
    requires '(' !in left
    ensures IndexOf(left + "(" + rest, '(') == |left|
    ensures Target(left + "(" + rest) == left
  {
    IndexOfPrefix(left, "(" + rest, '(');
    assert left + "(" + rest == left + ("(" + rest);
  }

  lemma ParamsOf(left: string, joined: string)
    requires '(' !in left
    ensures ParamsText(left + "(" + (joined + ")")) == joined
  {
    var body := left + "(" + (joined + ")");
    TargetOf(left, joined + ")");
    var right := body[|left| + 1..];
    assert right == joined + ")";
    assert right[..|right| - 1] == joined;
    assert right[..|joined|] == joined;
  }

  lemma LastDot(c: string, m: string)
    requires '.' !in m
    ensures LastIndexOf(c + "." + m, '.') == |c|
    ensures (c + "." + m)[..|c|] == c && (c + "." + m)[|c| + 1..] == m
  {
    LastIndexOfSuffix(c + ".", m, '.');
    assert LastIndexOf(c + ".", '.') == |c|;
  }

  lemma JoinNonEmpty(ts: seq<string>)
    requires |ts| >= 1 && ts[0] != []
    ensures Join(",", ts) != []
  {}

  /** Text holding a constructor mark holds a `#`. */
  lemma NoHashNoMark(s: string)
    ensures Contains(s, CTOR_MARK) ==> '#' in s
  {
    if Contains(s, CTOR_MARK) {
      var j := Find(s, CTOR_MARK);
      assert s[j..j + 6][1] == s[j + 1];
    }
  }

  /** The constructor target `c.#ctor` is cut at the mark that ends it. */
  lemma CtorMarkAfter(c: string)
    requires '#' !in c
    ensures Contains(c + "." + "#ctor", CTOR_MARK) && Before(c + "." + "#ctor", CTOR_MARK) == c
  {
    var s := c + "." + "#ctor";
    assert s == c + CTOR_MARK;
    assert s[|c|..|c| + 6] == CTOR_MARK;
    FindFirst(s, CTOR_MARK, |c|);
    var j := Find(s, CTOR_MARK);
    assert s[j..j + 6][1] == s[j + 1] == '#';
    assert s[..|c|] == c;
  }
}
