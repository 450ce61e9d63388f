/** `parse_signature`: the call line of a RhinoScriptSyntax entry, `f(a, b=1)`, read into
    the function name and its (parameter, default) pairs. */
module ScriptSignature {
  import opened Wrappers
  import opened Text
  import opened Splitter

  /** A parameter name and its default text, if it has one. */
  type Param = (string, Option<string>)

  /** `sig_text.strip().replace('\r', '').splitlines()[0]`; the source indexes the first
      line of the stripped text, so that text must not be blank. */
  function FirstLine(sigText: string): (line: string)
    requires Strip(sigText) != []
    ensures forall i :: 0 <= i < |line| ==> !IsLineBreak(line[i])
  {
    var t := Strip(sigText);
    RemoveFirst(t);
    SplitLines(RemoveChar(t, '\r'))[0]
  }

  /** A stripped, non-empty text keeps its first character once `\r` is removed. */
  lemma RemoveFirst(t: string)
    requires t != [] && !IsSpace(t[0])
    ensures RemoveChar(t, '\r') != []
  {
    assert t == [t[0]] + t[1..];
    RemoveCharAppend([t[0]], t[1..], '\r');
    assert RemoveChar([t[0]], '\r') == [t[0]] by {
      assert [t[0]][..0] == [];
    }
  }

  /** `re.match(r'^\s*([A-Za-z_]\w*)\s*\(\s*(.*?)\s*\)\s*$', line)`: the name, and the text
      between the `(` that follows it and the last `)` of the line, stripped. Only
      blanks may follow that `)`; the lazy group then ends where the trailing blanks
      before it begin. */
  function SigMatch(line: string): (r: Option<(string, string)>)
  {
    var t := TrimLeft(line);
    if t == [] || !(IsLetter(t[0]) || t[0] == '_') then None
    else
      var k := RunLength(t, IsWordChar);
      match ArgsOf(TrimLeft(t[k..]))
      case None => None
      case Some(a) => Some((t[..k], a))
  }

  /** The part of the pattern after the name and its blanks: `(`, the text up to the
      last `)`, stripped, and only blanks after that `)`. */
  function ArgsOf(u: string): (r: Option<string>)
  {
    if u == [] || u[0] != '(' then None
    else
      var inside := u[1..];
      var c := LastIndexOf(inside, ')');
      if c < 0 || !AllSpace(inside[c + 1..]) then None
      else Some(Strip(inside[..c]))
  }

  /** A matched name is an identifier. */
  lemma SigMatchName(line: string)
    ensures SigMatch(line).Some? ==> IsIdentifier(SigMatch(line).value.0)
  {
    var t := TrimLeft(line);
    if t != [] && (IsLetter(t[0]) || t[0] == '_') {
      var k := RunLength(t, IsWordChar);
      RunIsIdentifier(t, k);
    }
  }

  lemma RunIsIdentifier(t: string, k: nat)
    requires t != [] && (IsLetter(t[0]) || t[0] == '_') && k == RunLength(t, IsWordChar)
    ensures IsIdentifier(t[..k])
  {
    assert forall i :: 0 <= i < k ==> t[..k][i] == t[i];
  }

  /** The parts the depth loop collects from the parameter text: one per comma read
      outside parentheses, each stripped, and the last one only when its buffer is
      non-empty. */
  function PartsOf(raw: string): (parts: seq<string>)
  {
    var p := Pieces(CLOSED, raw, ParensOnly);
    var last := p[|p| - 1];
    StripAll(p[..|p| - 1]) + (if last != [] then [Strip(last)] else [])
  }

  /** `p.split('=', 1)` into a stripped name and default, or the name alone. */
  function SplitDefault(p: string): (r: Param)
    ensures r.1.None? <==> '=' !in p
  {
    if '=' in p then
      CharContains(p, '=');
      (Strip(Before(p, "=")), Some(Strip(After(p, "="))))
    else (Strip(p), None)
  }

  /** The parameters of the non-empty parts, in order. */
  function Defaults(parts: seq<string>): (r: seq<Param>)
    ensures |r| == |NonEmpty(parts)|
  {
    var ne := NonEmpty(parts);
    seq(|ne|, k requires 0 <= k < |ne| => SplitDefault(ne[k]))
  }

  /** The parameters of the parameter text; none when it is empty. */
  function ParamsOf(raw: string): seq<Param> {
    if raw == [] then [] else Defaults(PartsOf(raw))
  }

  /** `parse_signature(sig_text)`: the name and parameters, or `(None, [])` when the first
      line is not a call. */
  function SignatureOf(sigText: string): (r: (Option<string>, seq<Param>))
    requires Strip(sigText) != []
    ensures r.0.None? ==> r.1 == []
    ensures r.0.Some? ==> IsIdentifier(r.0.value)
  {
    match SigMatch(FirstLine(sigText))
    case None => (None, [])
    case Some(m) =>
      SigMatchName(FirstLine(sigText));
      (Some(m.0), ParamsOf(m.1))
  }

  // ---------- the loops ----------

  /** `parse_signature(sig_text)`, with its character loop and its loop over the parts. */
  method ParseSignature(sigText: string) returns (name: Option<string>, params: seq<Param>)
    requires Strip(sigText) != []
    ensures (name, params) == SignatureOf(sigText)
  {
    var line := FirstLine(sigText);
    var m := SigMatch(line);
    if m.None? {
      return None, [];
    }
    name := Some(m.value.0);
    var raw := m.value.1;
    params := [];
    if raw != [] {
      var parts := SplitParams(raw);
      params := ReadParams(parts);
    }
  }

  /** The loop over the parts: empty ones are skipped, the rest split at their first `=`. */
  method ReadParams(parts: seq<string>) returns (params: seq<Param>)
    ensures params == Defaults(parts)
  {
    params := [];
    for i := 0 to |parts|
      invariant params == Defaults(parts[..i])
    {
      DefaultsSnoc(parts, i);
      if parts[i] == [] {
        continue;
      }
      var p := parts[i];
      if '=' in p {
        CharContains(p, '=');
        params := params + [(Strip(Before(p, "=")), Some(Strip(After(p, "="))))];
      } else {
        params := params + [(Strip(p), None)];
      }
    }
    assert parts[..|parts|] == parts;
  }

  lemma DefaultsSnoc(parts: seq<string>, i: nat)
    requires i < |parts|
    ensures Defaults(parts[..i + 1])
         == Defaults(parts[..i]) + (if parts[i] == [] then [] else [SplitDefault(parts[i])])
  {
    assert parts[..i + 1] == parts[..i] + [parts[i]];
    NonEmptySnoc(parts[..i], parts[i]);
  }

  /** The depth loop: a comma cuts only when no parenthesis is open; the depth never
      drops below zero. */
  method SplitParams(s: string) returns (parts: seq<string>)
    ensures parts == PartsOf(s)
  {
    parts := [];
    var buf: string := [];
    var depth := 0;
    ghost var raw: seq<string> := [];
    for i := 0 to |s|
      invariant depth == Scan(CLOSED, s[..i]).paren
      invariant raw + [buf] == Pieces(CLOSED, s[..i], ParensOnly)
      invariant parts == StripAll(raw)
    {
      var ch := s[i];
      ReadOne(s, i, raw, buf, ParensOnly);
      ParenStep(Scan(CLOSED, s[..i]), ch);
      if ch == '(' {
        depth := depth + 1;
        buf := buf + [ch];
      } else if ch == ')' {
        depth := if depth - 1 > 0 then depth - 1 else 0;
        buf := buf + [ch];
      } else if ch == ',' && depth == 0 {
        StripAllSnoc(raw, buf);
        PushPiece(raw, buf, "");
        parts := parts + [Strip(buf)];
        raw := raw + [buf];
        buf := [];
      } else {
        buf := buf + [ch];
      }
    }
    assert s[..|s|] == s;
    var p := raw + [buf];
    assert p[..|p| - 1] == raw && p[|p| - 1] == buf;
    if buf != [] {
      parts := parts + [Strip(buf)];
    }
  }

  /** Only parentheses move the depth the loop keeps, and a comma cuts exactly at depth
      zero. */
  lemma ParenStep(st: Depths, ch: char)
    ensures Splitter.Step(st, ch).paren
         == if ch == '(' then st.paren + 1
            else if ch == ')' then (if st.paren - 1 > 0 then st.paren - 1 else 0)
            else st.paren
    ensures IsCut(st, ch, ParensOnly) <==> ch == ',' && st.paren == 0
  {}

  // ---------- properties ----------

  /** Only the first line counts: what follows the first line break is never read. */
  lemma FirstLineOnly(a: string, b: string)
    requires a != [] && Trimmed(a) && forall i :: 0 <= i < |a| ==> !IsLineBreak(a[i])
    requires !AllSpace(b)
    ensures Strip(a + "\n" + b) != []
    ensures SignatureOf(a + "\n" + b) == SignatureOf(a)
  {
    StripSplit(a, b);
    FirstLineIs(a + "\n" + b, a, TrimRight(b));
    FirstLineSelf(a);
    SameFirstLine(a + "\n" + b, a);
  }

  /** The signature depends on the first line alone. */
  lemma SameFirstLine(x: string, y: string)
    requires Strip(x) != [] && Strip(y) != [] && FirstLine(x) == FirstLine(y)
    ensures SignatureOf(x) == SignatureOf(y)
  {}

  /** Stripping `a`, a break and `b` trims only the end of `b`. */
  lemma StripSplit(a: string, b: string)
    requires a != [] && Trimmed(a) && !AllSpace(b)
    ensures Strip(a + "\n" + b) == a + "\n" + TrimRight(b)
  {
    var s := a + "\n" + b;
    assert s == a + ("\n" + b);
    TrimLeftAppend(a, "\n" + b);
    LeftTrimmed(a);
    TrimRightKeep(a + "\n", b);
  }

  /** A stripped text that starts with a break-free `a` and a break has `a` as first line. */
  lemma FirstLineIs(s: string, a: string, rest: string)
    requires Strip(s) == a + "\n" + rest && forall i :: 0 <= i < |a| ==> !IsLineBreak(a[i])
    ensures Strip(s) != [] && FirstLine(s) == a
  {
    assert '\r' !in a + "\n" by {
      assert forall i :: 0 <= i < |a| ==> a[i] != '\r';
    }
    RemoveCharAppend(a + "\n", rest, '\r');
    RemoveCharAbsent(a + "\n", '\r');
    FirstLineOf(a, '\n', RemoveChar(rest, '\r'));
  }

  /** A stripped, non-empty, break-free text is its own first line. */
  lemma FirstLineSelf(a: string)
    requires a != [] && Trimmed(a) && forall i :: 0 <= i < |a| ==> !IsLineBreak(a[i])
    ensures Strip(a) != [] && FirstLine(a) == a
  {
    LeftTrimmed(a);
    assert '\r' !in a by {
      assert forall i :: 0 <= i < |a| ==> a[i] != '\r';
    }
    RemoveCharAbsent(a, '\r');
    OneLine(a);
  }

  /** `name(inner)` is a call: the name, and the parameters of the stripped inner text. */
  lemma CallLine(name: string, inner: string)
    requires IsIdentifier(name)
    ensures SigMatch(name + "(" + inner + ")") == Some((name, Strip(inner)))
  {
    var inside := inner + ")";
    var u := "(" + inside;
    assert name + "(" + inner + ")" == name + u;
    NameRun(name, u);
    LeftTrimmed(u);
    CloseParen(inner);
    SigMatchIs(name + u, |name|, inside, |inner|);
  }

  /** What `SigMatch` computes, given the name run, the `(` after it and the last `)`. */
  lemma SigMatchIs(line: string, k: nat, inside: string, c: nat)
    requires line != [] && !IsSpace(line[0]) && (IsLetter(line[0]) || line[0] == '_')
    requires k <= |line| && RunLength(line, IsWordChar) == k
    requires TrimLeft(line[k..]) == "(" + inside
    requires c < |inside| && LastIndexOf(inside, ')') == c && AllSpace(inside[c + 1..])
    ensures SigMatch(line) == Some((line[..k], Strip(inside[..c])))
  {
    assert TrimLeft(line) == line by { LeftTrimmed(line); }
    assert ArgsOf(TrimLeft(line[k..])) == Some(Strip(inside[..c])) by {
      ArgsOfIs(inside, c);
    }
  }

  lemma ArgsOfIs(inside: string, c: nat)
    requires c < |inside| && LastIndexOf(inside, ')') == c && AllSpace(inside[c + 1..])
    ensures ArgsOf("(" + inside) == Some(Strip(inside[..c]))
  {
    assert ("(" + inside)[1..] == inside;
  }

  /** An identifier followed by `(`: the name run ends at the `(`. */
  lemma NameRun(name: string, u: string)
    requires IsIdentifier(name) && u != [] && u[0] == '('
    ensures var line := name + u;
      line != [] && !IsSpace(line[0]) && (IsLetter(line[0]) || line[0] == '_')
      && RunLength(line, IsWordChar) == |name|
      && line[..|name|] == name && line[|name|..] == u
  {
    var line := name + u;
    assert line[0] == name[0];
    assert forall i :: 0 <= i < |name| ==> IsWordChar(line[i]) by {
      assert forall i :: 0 <= i < |name| ==> line[i] == name[i];
    }
    assert line[|name|] == '(';
    RunLengthIs(line, IsWordChar, |name|);
  }

  /** The last `)` of `inner + ")"` is the closing one. */
  lemma CloseParen(inner: string)
    ensures var inside := inner + ")";
      LastIndexOf(inside, ')') == |inner| && AllSpace(inside[|inner| + 1..])
      && inside[..|inner|] == inner
  {
    var inside := inner + ")";
    assert inside[|inner| + 1..] == [] && inside[..|inner|] == inner;
  }

  /** A text that does not start with a blank has nothing to trim on the left. */
  lemma LeftTrimmed(s: string)
    requires s != [] && !IsSpace(s[0])
    ensures TrimLeft(s) == s
  {}

  /** A one-line call `name(inner)` is read as that name and the parameters of `inner`. */
  lemma CallSignature(name: string, inner: string)
    requires IsIdentifier(name) && forall i :: 0 <= i < |inner| ==> !IsLineBreak(inner[i])
    ensures Strip(name + "(" + inner + ")") != []
    ensures SignatureOf(name + "(" + inner + ")") == (Some(name), ParamsOf(Strip(inner)))
  {
    CallShape(name, inner);
    FirstLineSelf(name + "(" + inner + ")");
    CallLine(name, inner);
  }

  /** A call line is stripped and holds no line break. */
  lemma CallShape(name: string, inner: string)
    requires IsIdentifier(name) && forall i :: 0 <= i < |inner| ==> !IsLineBreak(inner[i])
    ensures var line := name + "(" + inner + ")";
      line != [] && Trimmed(line) && forall i :: 0 <= i < |line| ==> !IsLineBreak(line[i])
  {
    var line := name + "(" + inner + ")";
    assert line[0] == name[0] && line[|line| - 1] == ')';
    forall i | 0 <= i < |line| ensures !IsLineBreak(line[i]) {
      if i < |name| {
        assert line[i] == name[i] && IsWordChar(name[i]);
      } else if |name| < i < |name| + 1 + |inner| {
        assert line[i] == inner[i - |name| - 1];
      }
    }
  }

  /** Commas inside parentheses never cut; parts between top-level commas that use no
      parenthesis, comma or `=` become parameters without defaults, in order. */
  lemma TopLevelParams(rs: seq<string>)
    requires |rs| >= 1
    requires forall k :: 0 <= k < |rs| ==> Sealed(rs[k], ParensOnly) && rs[k] != [] && Trimmed(rs[k]) && '=' !in rs[k]
    ensures ParamsOf(Join(",", rs)) == seq(|rs|, k requires 0 <= k < |rs| => (rs[k], None))
  {
    var j := Join(",", rs);
    SplitJoined(rs, ParensOnly);
    JoinStarts(rs);
    PartsOfPieces(j, rs);
    PlainDefaults(rs);
  }

  /** Trimmed, non-empty pieces are the parts themselves. */
  lemma PartsOfPieces(raw: string, rs: seq<string>)
    requires Pieces(CLOSED, raw, ParensOnly) == rs
    requires forall k :: 0 <= k < |rs| ==> rs[k] != [] && Trimmed(rs[k])
    ensures PartsOf(raw) == rs
  {
    var n := |rs| - 1;
    var l := StripAll(rs[..n]);
    forall k | 0 <= k < n ensures rs[k] == l[k] {
      assert rs[..n][k] == rs[k];
    }
    assert Strip(rs[n]) == rs[n] && rs[n] != [];
    SnocEq(rs, l, rs[n]);
  }

  /** Non-empty parts without `=` are parameters without defaults. */
  lemma PlainDefaults(rs: seq<string>)
    requires forall k :: 0 <= k < |rs| ==> rs[k] != [] && Trimmed(rs[k]) && '=' !in rs[k]
    ensures Defaults(rs) == seq(|rs|, k requires 0 <= k < |rs| => (rs[k], None))
  {
    assert NonEmpty(rs) == rs;
  }

  lemma JoinStarts(rs: seq<string>)
    requires |rs| >= 1 && rs[0] != []
    ensures Join(",", rs) != []
  {
    if |rs| > 1 {
      assert Join(",", rs) == rs[0] + "," + Join(",", rs[1..]);
    }
  }

  /** Angle brackets and braces are not scopes here: a comma after an unclosed `<` or `{`
      still cuts. */
  lemma BracketsDoNotNest(a: string, b: string)
    requires a != [] && b != [] && Trimmed(a) && Trimmed(b)
    requires '(' !in a && ')' !in a && ',' !in a && '=' !in a
    requires ',' !in b && '=' !in b
    ensures ParamsOf(a + "," + b) == [(a, None), (b, None)]
  {
    var raw := a + "," + b;
    var rs := [a, b];
    PiecesTwo(a, b);
    PartsOfPieces(raw, rs);
    PlainDefaults(rs);
    assert raw != [] && ParamsOf(raw) == Defaults(rs);
    var none: Option<string> := None;
    assert seq(|rs|, k requires 0 <= k < |rs| => (rs[k], none)) == [(a, none), (b, none)];
  }

  lemma PiecesTwo(a: string, b: string)
    requires '(' !in a && ')' !in a && ',' !in a && ',' !in b
    ensures Pieces(CLOSED, a + "," + b, ParensOnly) == [a, b]
  {
    NoCommaNoCut(CLOSED, a, ParensOnly);
    SinglePiece(CLOSED, a, ParensOnly);
    PiecesAppend(CLOSED, a, "," + b, ParensOnly);
    ParenFree(CLOSED, a);
    var st := Scan(CLOSED, a);
    assert ("," + b)[0] == ',' && ("," + b)[1..] == b;
    NoCommaNoCut(Splitter.Step(st, ','), b, ParensOnly);
    SinglePiece(Splitter.Step(st, ','), b, ParensOnly);
    assert Pieces(st, "," + b, ParensOnly) == [""] + [b];
    MergeSingle(a, [b]);
    assert a + ("," + b) == a + "," + b;
  }

  /** Text without parentheses leaves the parenthesis depth alone. */
  lemma {:induction false} ParenFree(st: Depths, a: string)
    requires '(' !in a && ')' !in a
    ensures Scan(st, a).paren == st.paren
    decreases |a|
  {
    if a != [] {
      assert a[0] != '(' && a[0] != ')';
      assert forall i :: 0 <= i < |a| - 1 ==> a[1..][i] == a[i + 1];
      ParenFree(Splitter.Step(st, a[0]), a[1..]);
    }
  }

  /** `p.split('=', 1)` of a name, `=` and a default gives them back. */
  lemma DefaultOf(n: string, d: string)
    requires '=' !in n && Trimmed(n) && Trimmed(d)
    ensures SplitDefault(n + "=" + d) == (n, Some(d))
  {
    var p := n + "=" + d;
    assert p[|n|] == '=';
    FindCharAt(n, '=', d);
    assert p[..|n|] == n && p[|n| + 1..] == d;
  }

  /** Empty parts are dropped. */
  lemma EmptyPartDropped(xs: seq<string>, ys: seq<string>)
    ensures Defaults(xs + [""] + ys) == Defaults(xs + ys)
  {
    DropEmpty(xs, ys);
  }

  lemma DropEmpty(xs: seq<string>, ys: seq<string>)
    ensures NonEmpty(xs + [""] + ys) == NonEmpty(xs + ys)
  {
    NonEmptyAppend(xs + [""], ys);
    NonEmptySnoc(xs, "");
    NonEmptyAppend(xs, ys);
  }
}
