/** `parse_params_block`: the Parameters block of a RhinoScriptSyntax entry, one
    `name[, name] (type)` line per parameter, read into a name -> (type, optional) map. */
module ParamsBlock {
  import opened Wrappers
  import opened Text

  /** One entry of the mapping, `{'type': ..., 'optional': ...}`. */
  datatype ParamInfo = ParamInfo(typ: string, optional: bool)

  type Mapping = map<string, ParamInfo>

  // ---------- one line ----------

  /** The characters of `[\w,\s]`. */
  predicate IsNameListChar(c: char) { IsWordChar(c) || c == ',' || IsSpace(c) }

  /** `[n.strip() for n in pieces if n.strip()]` */
  function Names(pieces: seq<string>): (names: seq<string>)
    ensures forall k :: 0 <= k < |names| ==> names[k] != [] && Trimmed(names[k])
  {
    if pieces == [] then []
    else
      var p := Strip(pieces[0]);
      if p == [] then Names(pieces[1..]) else [p] + Names(pieces[1..])
  }

  /** The names of a names part: its comma pieces, stripped, empty ones dropped. */
  function NamesOf(part: string): (names: seq<string>)
    ensures forall k :: 0 <= k < |names| ==> names[k] != [] && Trimmed(names[k])
  {
    Names(SplitOn(part, ","))
  }

  /** `PARAM_LINE_RE = ^\s*([A-Za-z_][\w,\s]*)\s*\(([^)]*)\)\s*:?` matched at the start of a
      stripped line: the length of the names group and the text of the parenthesised
      group. The names group takes the longest run of `[\w,\s]`, which can only be
      followed by the `(`; the type group runs to the first `)`. */
  function ParamLine(s: string): (r: Option<(nat, string)>)
    ensures r.Some? ==> r.value.0 < |s| && s[r.value.0] == '(' && ')' !in r.value.1
    ensures r.Some? ==> ')' in s
  {
    if s == [] || !(IsLetter(s[0]) || s[0] == '_') then None
    else
      var n := RunLength(s, IsNameListChar);
      var rest := if n < |s| then s[n + 1..] else [];
      if n < |s| && s[n] == '(' && ')' in rest then
        var j := IndexOf(rest, ')');
        Some((n, rest[..j]))
      else None
  }

  /** Python's `s[i:j]` for `i >= 0` and `j >= -1`: a negative `j` counts from the end,
      both ends are clamped, and crossed ends give the empty string. */
  function Slice(s: string, i: nat, j: int): (r: string)
    ensures |r| <= |s|
  {
    var e := if j < 0 then (if |s| + j < 0 then 0 else |s| + j) else if j > |s| then |s| else j;
    var b := if i > |s| then |s| else i;
    if b >= e then [] else s[b..e]
  }

  /** The fallback for a line with both parentheses that the pattern misses: the names
      before the first `(` of the text before the first `:`, and the first comma piece
      of what lies between that `(` and the last `)` of the same text. */
  function FallbackParts(line: string): (r: (seq<string>, string))
  {
    var left := Before(line, ":");
    var namesPart := Strip(Before(left, "("));
    var inner := Slice(left, IndexOf(left, '(') + 1, LastIndexOf(left, ')'));
    (NamesOf(namesPart), Strip(Before(inner, ",")))
  }

  /** What one right-stripped, non-blank line contributes: the names it declares and
      their shared entry, or nothing. `optional` is the whole word, in any case. */
  function Entry(mapType: string -> string, line: string): (r: Option<(seq<string>, ParamInfo)>)
    ensures r.Some? ==> r.value.1.optional == HasWord(line, "optional")
    ensures r.Some? ==> forall k :: 0 <= k < |r.value.0| ==> r.value.0[k] != [] && Trimmed(r.value.0[k])
  {
    var s := Strip(line);
    var optional := HasWord(line, "optional");
    match ParamLine(s)
    case Some(g) =>
      Some((NamesOf(s[..g.0]), ParamInfo(mapType(Strip(Before(g.1, ","))), optional)))
    case None =>
      if '(' in line && ')' in line then
        var f := FallbackParts(line);
        Some((f.0, ParamInfo(mapType(f.1), optional)))
      else None
  }

  /** The loop `for nm in names: mapping[nm] = info`. */
  function Assign(m: Mapping, names: seq<string>, info: ParamInfo): (r: Mapping)
    ensures forall n :: n in r <==> n in m || n in names
    ensures forall n :: n in names ==> r[n] == info
    ensures forall n :: n in m && n !in names ==> r[n] == m[n]
    decreases |names|
  {
    if names == [] then m
    else
      var r := Assign(m, names[..|names| - 1], info);
      assert forall n :: n in names <==> n in names[..|names| - 1] || n == names[|names| - 1];
      r[names[|names| - 1] := info]
  }

  /** `(line.startswith('  ') or line.startswith('\t'))` */
  predicate Indented(line: string) { StartsWith(line, "  ") || StartsWith(line, "\t") }

  /** Whether the loop skips a right-stripped line: blank, or indented once the mapping
      is non-empty. */
  predicate Skipped(m: Mapping, line: string) {
    AllSpace(line) || (Indented(line) && m != map[])
  }

  /** What one raw line of the block contributes to the mapping `m` built so far. */
  function Contribution(mapType: string -> string, m: Mapping, raw: string): Option<(seq<string>, ParamInfo)> {
    var line := TrimRight(raw);
    if Skipped(m, line) then None else Entry(mapType, line)
  }

  /** Apply a contribution. */
  function Apply(m: Mapping, c: Option<(seq<string>, ParamInfo)>): Mapping {
    match c
    case None => m
    case Some(e) => Assign(m, e.0, e.1)
  }

  /** The mapping after the given lines. */
  function Run(mapType: string -> string, lines: seq<string>): (r: Mapping)
    decreases |lines|
  {
    if lines == [] then map[]
    else
      var m := Run(mapType, lines[..|lines| - 1]);
      Apply(m, Contribution(mapType, m, lines[|lines| - 1]))
  }

  /** `parse_params_block(pre_text, map_type)` */
  function ParamsBlockOf(mapType: string -> string, text: string): Mapping {
    Run(mapType, SplitLines(text))
  }

  /** The line loop of `parse_params_block`, with its inner loop over the names. */
  method ParseParamsBlock(mapType: string -> string, text: string) returns (mapping: Mapping)
    ensures mapping == ParamsBlockOf(mapType, text)
  {
    var lines := SplitLines(text);
    mapping := map[];
    for i := 0 to |lines|
      invariant mapping == Run(mapType, lines[..i])
    {
      RunSnoc(mapType, lines, i);
      var line := TrimRight(lines[i]);
      if Skipped(mapping, line) {
        continue;
      }
      var e := Entry(mapType, line);
      if e.Some? {
        mapping := AssignEach(mapping, e.value.0, e.value.1);
      }
    }
    assert lines[..|lines|] == lines;
  }

  lemma RunSnoc(mapType: string -> string, lines: seq<string>, i: nat)
    requires i < |lines|
    ensures var m := Run(mapType, lines[..i]);
      Run(mapType, lines[..i + 1]) == Apply(m, Contribution(mapType, m, lines[i]))
  {
    assert lines[..i + 1][..i] == lines[..i];
  }

  /** `for nm in names: mapping[nm] = info` */
  method AssignEach(m: Mapping, names: seq<string>, info: ParamInfo) returns (mapping: Mapping)
    ensures mapping == Assign(m, names, info)
  {
    mapping := m;
    for j := 0 to |names|
      invariant mapping == Assign(m, names[..j], info)
    {
      AssignSnoc(m, names, j, info);
      mapping := mapping[names[j] := info];
    }
    assert names[..|names|] == names;
  }

  lemma AssignSnoc(m: Mapping, names: seq<string>, j: nat, info: ParamInfo)
    requires j < |names|
    ensures Assign(m, names[..j + 1], info) == Assign(m, names[..j], info)[names[j] := info]
  {
    assert names[..j + 1][..j] == names[..j];
  }

  // ---------- properties ----------

  /** A blank line changes nothing. */
  lemma BlankLineSkipped(mapType: string -> string, m: Mapping, raw: string)
    requires AllSpace(raw)
    ensures Apply(m, Contribution(mapType, m, raw)) == m
  {}

  /** Once the mapping is non-empty, an indented line changes nothing. */
  lemma IndentedLineSkipped(mapType: string -> string, m: Mapping, raw: string)
    requires m != map[] && Indented(TrimRight(raw))
    ensures Apply(m, Contribution(mapType, m, raw)) == m
  {}

  /** A line that declares names gives each of them the line's one entry, replacing any
      earlier entry, and leaves every other name as it was. */
  lemma LineAssigns(mapType: string -> string, m: Mapping, raw: string, names: seq<string>, info: ParamInfo)
    requires !Skipped(m, TrimRight(raw)) && Entry(mapType, TrimRight(raw)) == Some((names, info))
    ensures var r := Apply(m, Contribution(mapType, m, raw));
      (forall n :: n in r <==> n in m || n in names)
      && (forall n :: n in names ==> r[n] == info)
      && (forall n :: n in m && n !in names ==> r[n] == m[n])
  {}

  /** A line without both parentheses declares nothing. */
  lemma NoParensNoEntry(mapType: string -> string, line: string)
    requires '(' !in line || ')' !in line
    ensures Entry(mapType, line) == None
  {
    StripChars(line);
  }

  /** Each character of `strip(s)` is a character of `s`. */
  lemma StripChars(s: string)
    ensures forall c :: c in Strip(s) ==> c in s
  {
    var l := TrimLeft(s);
    SuffixChars(l, s);
    PrefixChars(TrimRight(l), l);
  }

  lemma PrefixChars(r: string, l: string)
    requires r <= l
    ensures forall c :: c in r ==> c in l
  {
    forall c | c in r ensures c in l {
      var i :| 0 <= i < |r| && r[i] == c;
      assert l[i] == c;
    }
  }

  lemma SuffixChars(l: string, s: string)
    requires |l| <= |s| && l == s[|s| - |l|..]
    ensures forall c :: c in l ==> c in s
  {
    forall c | c in l ensures c in s {
      var i :| 0 <= i < |l| && l[i] == c;
      assert s[|s| - |l| + i] == c;
    }
  }

  /** Every key of the mapping is a stripped, non-empty name. */
  lemma {:induction false} KeysAreNames(mapType: string -> string, lines: seq<string>)
    ensures forall n :: n in Run(mapType, lines) ==> n != [] && Trimmed(n)
    decreases |lines|
  {
    if lines != [] {
      KeysAreNames(mapType, lines[..|lines| - 1]);
      var m := Run(mapType, lines[..|lines| - 1]);
      var c := Contribution(mapType, m, lines[|lines| - 1]);
      assert Run(mapType, lines) == Apply(m, c);
    }
  }

  // ---------- a grouped line ----------

  /** `width, height (number)`: a line listing identifiers separated by `, `, then a space
      and the type in parentheses, declares exactly those names with the map of the type
      text before its first comma. */
  lemma GroupedLine(mapType: string -> string, names: seq<string>, typeText: string, tail: string)
    requires |names| >= 1 && forall k :: 0 <= k < |names| ==> IsIdentifier(names[k])
    requires ')' !in typeText && (tail == [] || !IsSpace(tail[|tail| - 1]))
    ensures var line := Join(", ", names) + " (" + typeText + ")" + tail;
      Entry(mapType, line)
      == Some((names, ParamInfo(mapType(Strip(Before(typeText, ","))), HasWord(line, "optional"))))
  {
    var joined := Join(", ", names);
    var line := joined + " (" + typeText + ")" + tail;
    var n := |joined| + 1;
    GroupedShape(names, typeText, tail, joined, line);
    GroupedEnds(names, typeText, tail, joined, line);
    ParamLineOf(line, n, typeText, tail);
    EntryOfMatch(mapType, line, n, typeText);
    NamesOfJoin(names, "");
  }

  /** The characters of a grouped line: a `[\w,\s]` run, then the parenthesised type. */
  lemma GroupedShape(names: seq<string>, typeText: string, tail: string, joined: string, line: string)
    requires |names| >= 1 && forall k :: 0 <= k < |names| ==> IsIdentifier(names[k])
    requires joined == Join(", ", names) && line == joined + " (" + typeText + ")" + tail
    ensures |joined| + 1 < |line|
    ensures forall i :: 0 <= i < |joined| + 1 ==> IsNameListChar(line[i])
    ensures line[|joined| + 1] == '(' && line[|joined| + 2..] == typeText + (")" + tail)
    ensures line[..|joined| + 1] == "" + joined + " "
  {
    JoinChars(names);
    JoinStart(names);
    LayoutOf(joined, ' ', '(', typeText, ')', tail, line);
    EmptyLead(joined, ' ', "");
    assert IsNameListChar(' ');
  }

  /** A grouped line is stripped and starts with a name character. */
  lemma GroupedEnds(names: seq<string>, typeText: string, tail: string, joined: string, line: string)
    requires |names| >= 1 && IsIdentifier(names[0])
    requires tail == [] || !IsSpace(tail[|tail| - 1])
    requires joined == Join(", ", names) && line == joined + " (" + typeText + ")" + tail
    ensures Trimmed(line) && (IsLetter(line[0]) || line[0] == '_')
  {
    JoinStart(names);
    LayoutOf(joined, ' ', '(', typeText, ')', tail, line);
    assert !IsSpace(')');
  }

  lemma EmptyLead<T>(j: seq<T>, sp: T, e: seq<T>)
    requires e == []
    ensures e + j + [sp] == j + [sp]
  {}

  lemma HeadTail<T>(s: seq<T>)
    requires s != []
    ensures s == [s[0]] + s[1..]
  {}

  /** Where the parts of `j + [sp, op] + t + [cp] + tail` sit. */
  lemma LayoutOf<T>(j: seq<T>, sp: T, op: T, t: seq<T>, cp: T, tail: seq<T>, line: seq<T>)
    requires j != [] && line == j + [sp, op] + t + [cp] + tail
    ensures |line| == |j| + 3 + |t| + |tail|
    ensures forall i :: 0 <= i < |j| ==> line[i] == j[i]
    ensures line[|j|] == sp && line[|j| + 1] == op
    ensures line[|j| + 2..] == t + ([cp] + tail)
    ensures line[..|j| + 1] == j + [sp]
    ensures line[|line| - 1] == if tail == [] then cp else tail[|tail| - 1]
  {
    assert line[|j| + 2..] == t + ([cp] + tail);
    assert line[..|j| + 1] == j + [sp];
  }

  /** A stripped line starting with a name character, a run of `[\w,\s]` up to a `(`, then
      text without `)` up to a `)`, matches the parameter pattern. */
  lemma ParamLineOf(line: string, n: nat, typeText: string, tail: string)
    requires Trimmed(line) && n < |line| && (IsLetter(line[0]) || line[0] == '_')
    requires (forall i :: 0 <= i < n ==> IsNameListChar(line[i])) && line[n] == '('
    requires line[n + 1..] == typeText + (")" + tail) && ')' !in typeText
    ensures Strip(line) == line && ParamLine(line) == Some((n, typeText))
  {
    RunLengthIs(line, IsNameListChar, n);
    FirstClose(typeText, tail);
    ParamLineIs(line, n, |typeText|);
    var rest := line[n + 1..];
    assert rest[..|typeText|] == typeText;
  }

  /** What `ParamLine` computes, given the names run and the first `)` after the `(`. */
  lemma ParamLineIs(line: string, n: nat, j: nat)
    requires n < |line| && (IsLetter(line[0]) || line[0] == '_')
    requires RunLength(line, IsNameListChar) == n && line[n] == '('
    requires IndexOf(line[n + 1..], ')') == j && ')' in line[n + 1..]
    ensures ParamLine(line) == Some((n, line[n + 1..][..j]))
  {}

  /** The first `)` of `typeText + ")" + tail`, for `typeText` without one, closes it. */
  lemma FirstClose(typeText: string, tail: string)
    requires ')' !in typeText
    ensures IndexOf(typeText + (")" + tail), ')') == |typeText|
    ensures ')' in typeText + (")" + tail)
  {
    IndexOfPrefix(typeText, ")" + tail, ')');
    assert (")" + tail)[0] == ')';
    assert (typeText + (")" + tail))[|typeText|] == ')';
  }

  /** A line whose stripped text matches the pattern declares the names of the matched
      names part. */
  lemma EntryOfMatch(mapType: string -> string, line: string, n: nat, typeText: string)
    requires ParamLine(Strip(line)) == Some((n, typeText))
    ensures Entry(mapType, line)
      == Some((NamesOf(Strip(line)[..n]), ParamInfo(mapType(Strip(Before(typeText, ","))), HasWord(line, "optional"))))
  {}

  /** The characters of a `, `-joined run of identifiers are `[\w,\s]` characters. */
  lemma {:induction false} JoinChars(names: seq<string>)
    requires forall k :: 0 <= k < |names| ==> IsIdentifier(names[k])
    ensures forall i :: 0 <= i < |Join(", ", names)| ==> IsNameListChar(Join(", ", names)[i])
    decreases |names|
  {
    if |names| > 1 {
      JoinChars(names[1..]);
      var x := names[0];
      var j := Join(", ", names);
      var rest := Join(", ", names[1..]);
      assert j == x + ", " + rest;
      forall i | 0 <= i < |j| ensures IsNameListChar(j[i]) {
        if i < |x| {
          assert j[i] == x[i];
          assert IsIdentifier(x) && IsWordChar(x[i]);
        } else if i >= |x| + 2 {
          assert j[i] == rest[i - |x| - 2];
          assert IsNameListChar(rest[i - |x| - 2]);
        } else {
          assert j[i] == ", "[i - |x|];
          assert j[i] == ',' || j[i] == ' ';
        }
      }
    } else if |names| == 1 {
      assert Join(", ", names) == names[0];
    }
  }

  /** A `, `-joined run of identifiers starts with the first one's first character. */
  lemma JoinStart(names: seq<string>)
    requires |names| >= 1 && IsIdentifier(names[0])
    ensures Join(", ", names) != [] && Join(", ", names)[0] == names[0][0]
  {
    if |names| > 1 {
      assert Join(", ", names) == names[0] + ", " + Join(", ", names[1..]);
    }
  }

  /** A comma-free text then a comma: the first `,` is the one after the text. */
  lemma FindComma(p: string, q: string)
    requires ',' !in p
    ensures Find(p + "," + q, ",") == |p|
  {
    var s := p + "," + q;
    assert s[|p|..|p| + 1] == ",";
    FindFirst(s, ",", |p|);
    var f := Find(s, ",");
    OccursChar(s, ',', f);
    PrefixChar(p, s, f);
  }

  /** `split(',')` of a comma-free text then a comma. */
  lemma SplitComma(p: string, q: string)
    requires ',' !in p
    ensures SplitOn(p + "," + q, ",") == [p] + SplitOn(q, ",")
  {
    var s := p + "," + q;
    FindComma(p, q);
    assert s[..|p|] == p && s[|p| + 1..] == q;
  }

  /** No comma, no split. */
  lemma NoComma(s: string)
    requires ',' !in s
    ensures SplitOn(s, ",") == [s]
  {
    OccursChar(s, ',', Find(s, ","));
  }

  /** A leading piece that strips to a name contributes that name. */
  lemma NamesCons(p: string, rest: seq<string>)
    requires Strip(p) != []
    ensures Names([p] + rest) == [Strip(p)] + Names(rest)
  {
    assert ([p] + rest)[1..] == rest;
  }

  /** An identifier holds no blank at either end and no comma. */
  lemma IdentifierShape(x: string)
    requires IsIdentifier(x)
    ensures Trimmed(x) && ',' !in x && x != []
  {
    assert forall i :: 0 < i < |x| ==> IsWordChar(x[i]);
  }

  /** A blank lead then an identifier holds no comma. */
  lemma LeadNoComma(lead: string, x: string, b: string)
    requires AllSpace(lead) && AllSpace(b) && ',' !in x
    ensures ',' !in lead + x + b
  {
    var s := lead + x + b;
    forall i | 0 <= i < |s| ensures s[i] != ',' {
      if i < |lead| { assert s[i] == lead[i]; }
      else if i < |lead| + |x| { assert s[i] == x[i - |lead|]; }
      else { assert s[i] == b[i - |lead| - |x|]; }
    }
  }

  /** Splitting a `, `-joined run of identifiers (after a blank lead, with one trailing
      blank) at commas and stripping gives the identifiers back. */
  lemma {:induction false} NamesOfJoin(names: seq<string>, lead: string)
    requires |names| >= 1 && forall k :: 0 <= k < |names| ==> IsIdentifier(names[k])
    requires AllSpace(lead)
    ensures Names(SplitOn(lead + Join(", ", names) + " ", ",")) == names
    decreases |names|
  {
    var x := names[0];
    assert Trimmed(x) && ',' !in x && x != [] by { IdentifierShape(x); }
    if |names| == 1 {
      assert Join(", ", names) == x;
      NamesOfOne(lead, x);
    } else {
      var rest := Join(", ", names[1..]);
      assert Join(", ", names) == x + ", " + rest;
      assert Names(SplitOn(" " + rest + " ", ",")) == names[1..] by {
        NamesOfJoin(names[1..], " ");
      }
      NamesOfCons(lead, x, rest, names[1..]);
      HeadTail(names);
    }
  }

  lemma NamesOfOne(lead: string, x: string)
    requires AllSpace(lead) && Trimmed(x) && ',' !in x && x != []
    ensures Names(SplitOn(lead + x + " ", ",")) == [x]
  {
    var s := lead + x + " ";
    LeadNoComma(lead, x, " ");
    NoComma(s);
    StripPadded(lead, x, " ");
    NamesCons(s, []);
  }

  lemma NamesOfCons(lead: string, x: string, rest: string, more: seq<string>)
    requires AllSpace(lead) && Trimmed(x) && ',' !in x && x != []
    requires Names(SplitOn(" " + rest + " ", ",")) == more
    ensures Names(SplitOn(lead + (x + ", " + rest) + " ", ",")) == [x] + more
  {
    var tail := " " + rest + " ";
    var lx := lead + x;
    assert lead + (x + ", " + rest) + " " == lx + "," + tail by {
      CommaLayout(lead, x, rest, ',', ' ');
    }
    assert SplitOn(lx + "," + tail, ",") == [lx] + SplitOn(tail, ",") by {
      LeadNoComma(lead, x, "");
      assert lead + x + "" == lx;
      SplitComma(lx, tail);
    }
    assert Strip(lx) == x by {
      StripPadded(lead, x, "");
      assert lead + x + "" == lx;
    }
    NamesCons(lx, SplitOn(tail, ","));
  }

  /** `lead + (x + ", " + rest) + " "` regrouped around its first comma. */
  lemma CommaLayout<T>(lead: seq<T>, x: seq<T>, rest: seq<T>, comma: T, blank: T)
    ensures lead + (x + [comma, blank] + rest) + [blank]
         == lead + x + [comma] + ([blank] + rest + [blank])
  {}
}
