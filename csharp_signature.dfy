/** `parse_csharp_signature`: return type, method name, parameter names and the static flag
    read off the C# declaration shown on a method page. */
module CSharpSignature {
  import opened Wrappers
  import opened Text
  import opened Splitter

  /** What the C# declaration yields: `(return_type, method_name, param_names, is_static)`. */
  datatype CsSignature = CsSignature(
    returnType: Option<string>,
    name: Option<string>,
    paramNames: seq<string>,
    isStatic: bool)

  const ACCESS_KWS: set<string> := {"public", "private", "protected", "internal"}
  const MODIFIER_KWS: set<string> :=
    {"static", "virtual", "override", "sealed", "extern", "unsafe", "abstract", "new",
     "readonly", "partial", "async"}

  /** The qualifiers the parameter clean-up drops, in the order of the alternation. */
  const QUALIFIERS: seq<string> := ["this", "ref", "out", "params", "in"]

  /** The words the declaration head drops. */
  const KEYWORDS: set<string> := ACCESS_KWS + MODIFIER_KWS

  // ---------- the declaration text ----------

  /** Everything up to and including the first `)`, or all of `text`. */
  function Truncate(text: string): (r: string)
    ensures r <= text
    ensures ')' in text ==> r != [] && r[|r| - 1] == ')' && ')' !in r[..|r| - 1]
    ensures ')' !in text ==> r == text
  {
    var i := IndexOf(text, ')');
    if i < 0 then text else text[..i + 1]
  }

  /** The declaration that is parsed: the stripped text cut after its first `)`. */
  function Declaration(cs: string): string { Truncate(Strip(cs)) }

  /** The declaration on one line, its words joined by single blanks. Line breaks are
      blanks to `split()`, so turning them into blanks first changes nothing. */
  function OneLine(cs: string): string { Join(" ", SplitWs(Declaration(cs))) }

  /** The text before the first `(` when the line has both parentheses, else the whole line. */
  function DeclHead(line: string): (r: string)
    ensures r <= line
  {
    if '(' in line && ')' in line then line[..IndexOf(line, '(')] else line
  }

  /** The stripped text between the first `(` and the last `)` after it, or empty. */
  function DeclParams(line: string): string {
    if '(' in line && ')' in line then Strip(BeforeLast(line[IndexOf(line, '(') + 1..], ')'))
    else []
  }

  /** The parameter segments: the bracket-aware split of the parameter text. */
  function ParamSegments(params: string): seq<string> {
    if params != [] then SplitTypes(params) else []
  }

  /** The head words that are neither access keywords nor modifiers, in order. */
  function HeadTokens(words: seq<string>, kws: set<string>): (r: seq<string>)
    ensures |r| <= |words|
    decreases |words|
  {
    if words == [] then []
    else
      var r := HeadTokens(words[..|words| - 1], kws);
      if words[|words| - 1] in kws then r else r + [words[|words| - 1]]
  }

  // ---------- parameter names ----------

  /** The fallback name `arg{k}`. */
  function ArgName(k: nat): string { "arg" + NatToString(k) }

  /** Where `re.sub(r'\s*=\s*[^,]+$', '', s)` finds its `=`: the first `=` after the last
      comma, provided at least one character follows it; `-1` when there is no match. */
  function DefaultStart(s: string): (r: int)
    ensures -1 <= r < |s|
    ensures r >= 0 ==> s[r] == '=' && r < |s| - 1 && ',' !in s[r..]
  {
    var c := LastIndexOf(s, ',');
    var e := IndexOf(s[c + 1..], '=');
    if e < 0 || c + 1 + e >= |s| - 1 then -1 else c + 1 + e
  }

  /** The substitution itself: the match runs from the blanks before that `=` to the end. */
  function DropDefault(s: string): (r: string)
    ensures r <= s
  {
    var i := DefaultStart(s);
    if i < 0 then s else TrimRight(s[..i])
  }

  /** The first qualifier of `qs` that starts `s` and is followed by a blank. */
  function LeadingQualifier(s: string, qs: seq<string>): (r: Option<string>)
    ensures r.Some? ==> r.value in qs && r.value <= s && |r.value| < |s| && IsSpace(s[|r.value|])
    decreases |qs|
  {
    if qs == [] then None
    else if qs[0] <= s && |qs[0]| < |s| && IsSpace(s[|qs[0]|]) then Some(qs[0])
    else LeadingQualifier(s, qs[1..])
  }

  /** No qualifier is found only when none starts `s` followed by a blank. */
  lemma {:induction false} NoLeadingQualifier(s: string, qs: seq<string>)
    requires LeadingQualifier(s, qs).None?
    ensures forall q :: q in qs ==> !(q <= s && |q| < |s| && IsSpace(s[|q|]))
    decreases |qs|
  {
    if qs != [] {
      NoLeadingQualifier(s, qs[1..]);
      assert forall q :: q in qs ==> q == qs[0] || q in qs[1..];
    }
  }

  /** `re.sub(r'^(this|ref|out|params|in)\s+', '', s)` */
  function DropQualifier(s: string, qs: seq<string>): (r: string)
    ensures |r| <= |s|
  {
    match LeadingQualifier(s, qs)
    case None => s
    case Some(q) => TrimLeft(s[|q|..])
  }

  /** The cleaned last token of one parameter segment: the `k`-th parameter's name. */
  function ParamName(p: string, k: nat): (r: string)
    ensures r == ArgName(k) || IsIdentifier(r)
  {
    var tokens := ParamTokens(p);
    if tokens == [] then ArgName(k)
    else
      var name := CleanToken(tokens[|tokens| - 1]);
      if IsIdentifier(name) then name else ArgName(k)
  }

  /** The words of a segment once stripped and rid of its default and its qualifier. */
  function ParamTokens(p: string): seq<string> {
    SplitWs(DropQualifier(DropDefault(Strip(p)), QUALIFIERS))
  }

  /** The last word without trailing commas, `[]` pairs and leading `@`s. */
  function CleanToken(t: string): string {
    TrimLeftChar(Replace(TrimRightChar(t, ','), "[]", ""), '@')
  }

  /** `[f(xs[0], 1), f(xs[1], 2), ...]`: each element with its 1-based position. */
  function MapNumbered<T, U>(f: (T, nat) -> U, xs: seq<T>): (r: seq<U>)
    ensures |r| == |xs|
    decreases |xs|
  {
    if xs == [] then [] else MapNumbered(f, xs[..|xs| - 1]) + [f(xs[|xs| - 1], |xs|)]
  }

  lemma {:induction false} MapNumberedAt<T, U>(f: (T, nat) -> U, xs: seq<T>, k: nat)
    requires k < |xs|
    ensures MapNumbered(f, xs)[k] == f(xs[k], k + 1)
    decreases |xs|
  {
    if k < |xs| - 1 {
      MapNumberedAt(f, xs[..|xs| - 1], k);
    }
  }

  lemma MapNumberedSnoc<T, U>(f: (T, nat) -> U, xs: seq<T>, i: nat)
    requires i < |xs|
    ensures MapNumbered(f, xs[..i + 1]) == MapNumbered(f, xs[..i]) + [f(xs[i], i + 1)]
  {
    assert xs[..i + 1][..i] == xs[..i];
  }

  /** One name per segment, the `k`-th (1-based) falling back to `arg{k}`. */
  function ParamNames(parts: seq<string>): (r: seq<string>)
    ensures |r| == |parts|
  {
    MapNumbered(ParamName, parts)
  }

  // ---------- the whole declaration ----------

  /** The words before `(` that are not access or modifier keywords. */
  function HeadWords(line: string): seq<string> {
    HeadTokens(SplitWs(Strip(DeclHead(line))), KEYWORDS)
  }

  /** The last but one head word is the return type. */
  function ReturnTypeOf(toks: seq<string>): (r: Option<string>)
    ensures r.Some? <==> |toks| >= 2
  {
    if |toks| >= 2 then Some(toks[|toks| - 2]) else None
  }

  /** The last head word is the method name. */
  function NameOf(toks: seq<string>): (r: Option<string>)
    ensures r.Some? <==> |toks| >= 1
  {
    if |toks| >= 1 then Some(toks[|toks| - 1]) else None
  }

  /** `parse_csharp_signature(cs_text, _)`: nothing from an empty text; otherwise the
      signature read off the one-line declaration. */
  function ParseCSharp(cs: string): (r: CsSignature)
    ensures cs == [] ==> r == CsSignature(None, None, [], false)
  {
    if cs == [] then CsSignature(None, None, [], false) else ParseLine(OneLine(cs))
  }

  /** The signature of a one-line declaration. */
  function ParseLine(line: string): (r: CsSignature)
    ensures |r.paramNames| == |ParamSegments(DeclParams(line))|
  {
    var toks := HeadWords(line);
    CsSignature(ReturnTypeOf(toks), NameOf(toks),
      ParamNames(ParamSegments(DeclParams(line))),
      Contains(" " + line + " ", " static "))
  }

  /** The parameter-name loop of `parse_csharp_signature`, with everything before it. */
  method ParseCSharpSignature(cs: string) returns (sig: CsSignature)
    ensures sig == ParseCSharp(cs)
  {
    if cs == [] {
      return CsSignature(None, None, [], false);
    }
    var line := OneLine(cs);
    var isStatic := Contains(" " + line + " ", " static ");
    var returnType, name := HeadFields(HeadWords(line));
    var names := NameEach(ParamName, ParamSegments(DeclParams(line)));
    sig := CsSignature(returnType, name, names, isStatic);
    assert ParseCSharp(cs) == ParseLine(line);
  }

  /** One head word is a constructor's name; with two or more, the last two are the
      return type and the name. */
  method HeadFields(toks: seq<string>) returns (returnType: Option<string>, name: Option<string>)
    ensures returnType == ReturnTypeOf(toks) && name == NameOf(toks)
  {
    returnType := None;
    name := None;
    if |toks| == 1 {
      name := Some(toks[0]);
    } else if |toks| >= 2 {
      returnType := Some(toks[|toks| - 2]);
      name := Some(toks[|toks| - 1]);
    }
  }

  /** The loop over the parameter segments: the `k`-th segment (1-based) gets
      `name(segment, k)`, `k` being one more than the number of names so far. */
  method NameEach(name: (string, nat) -> string, parts: seq<string>) returns (names: seq<string>)
    ensures names == MapNumbered(name, parts)
  {
    names := [];
    var i := 0;
    while i < |parts|
      invariant 0 <= i <= |parts|
      invariant names == MapNumbered(name, parts[..i])
    {
      MapNumberedSnoc(name, parts, i);
      names := names + [name(parts[i], |names| + 1)];
      i := i + 1;
    }
    assert parts[..|parts|] == parts;
  }

  // ---------- properties ----------

  /** `static` is padded-found in the one-line declaration exactly when it is one of the
      declaration's words; the empty declaration has no words. */
  lemma StaticFlag(cs: string)
    ensures ParseCSharp(cs).isStatic <==> "static" in SplitWs(Declaration(cs))
  {
    StaticWord(cs);
    if cs != [] {
      assert ParseCSharp(cs).isStatic == Contains(" " + OneLine(cs) + " ", " static ");
    }
  }

  lemma StaticWord(cs: string)
    ensures cs == [] ==> "static" !in SplitWs(Declaration(cs))
    ensures Contains(" " + OneLine(cs) + " ", " static ") <==> "static" in SplitWs(Declaration(cs))
  {
    if cs == [] {
      NoWordsInEmpty();
    }
    var ws := SplitWs(Declaration(cs));
    SplitWsWords(Declaration(cs));
    StaticIsWord();
    PaddedWord(ws, "static", " static ");
    assert OneLine(cs) == Join(" ", ws);
  }

  lemma NoWordsInEmpty()
    ensures SplitWs(Declaration("")) == []
  {
    assert Strip("") == [];
  }

  lemma StaticIsWord()
    ensures "static" != [] && NoSpace("static") && " static " == " " + "static" + " "
  {}

  lemma PaddedWord(ws: seq<string>, word: string, pat: string)
    requires Words(ws) && word != [] && NoSpace(word) && pat == " " + word + " "
    ensures Contains(" " + Join(" ", ws) + " ", pat) <==> word in ws
  {
    ContainsExists(" " + Join(" ", ws) + " ", pat);
    OccursPadded(ws, word);
  }

  ghost predicate Occurs(s: string, pat: string) {
    exists j :: OccursAt(s, pat, j)
  }

  lemma ContainsExists(s: string, pat: string)
    ensures Contains(s, pat) <==> Occurs(s, pat)
  {
    if Occurs(s, pat) {
      var j :| OccursAt(s, pat, j);
      FindFirst(s, pat, j);
    }
    if Contains(s, pat) {
      assert OccursAt(s, pat, Find(s, pat));
    }
  }

  /** ` word ` occurs in the blank-padded, blank-joined words exactly when `word` is one of them. */
  lemma {:induction false} OccursPadded(ws: seq<string>, word: string)
    requires Words(ws) && word != [] && NoSpace(word)
    ensures Occurs(" " + Join(" ", ws) + " ", " " + word + " ") <==> word in ws
    decreases |ws|
  {
    var pat := " " + word + " ";
    if ws == [] {
      assert !Occurs("  ", pat);
      assert " " + Join(" ", ws) + " " == "  ";
    } else if |ws| == 1 {
      assert " " + Join(" ", ws) + " " == " " + ws[0] + " ";
      OccursCons(ws[0], " ", word);
      assert !Occurs(" ", pat);
    } else {
      var rest := ws[1..];
      var x := " " + Join(" ", rest) + " ";
      assert " " + Join(" ", ws) + " " == " " + ws[0] + x;
      assert Words(rest) by {
        forall i | 0 <= i < |rest| ensures rest[i] != [] && NoSpace(rest[i]) {
          assert rest[i] == ws[i + 1];
        }
      }
      OccursCons(ws[0], x, word);
      OccursPadded(rest, word);
      assert word in ws <==> word == ws[0] || word in rest by {
        assert ws == [ws[0]] + rest;
      }
    }
  }

  /** A padded pattern found in ` w x`, where `x` starts with a blank, is either `w` itself
      or found in `x`. */
  lemma OccursCons(w: string, x: string, word: string)
    requires w != [] && NoSpace(w) && word != [] && NoSpace(word) && x != [] && x[0] == ' '
    ensures Occurs(" " + w + x, " " + word + " ") <==> (w == word || Occurs(x, " " + word + " "))
  {
    var s := " " + w + x;
    var pat := " " + word + " ";
    if w == word {
      OccursHead(w, x);
    }
    if Occurs(x, pat) {
      OccursShift(w, x, pat);
    }
    if Occurs(s, pat) {
      OccursBack(w, x, word);
    }
  }

  lemma OccursHead(w: string, x: string)
    requires x != [] && x[0] == ' '
    ensures OccursAt(" " + w + x, " " + w + " ", 0)
  {
    var s := " " + w + x;
    assert s[..|w| + 2] == " " + w + " ";
  }

  lemma OccursShift(w: string, x: string, pat: string)
    requires Occurs(x, pat)
    ensures Occurs(" " + w + x, pat)
  {
    var s := " " + w + x;
    var j :| OccursAt(x, pat, j);
    SliceRight(" " + w, x, j + 1 + |w|, |pat|);
    assert OccursAt(s, pat, j + 1 + |w|);
  }

  lemma OccursBack(w: string, x: string, word: string)
    requires w != [] && NoSpace(w) && word != [] && NoSpace(word) && x != [] && x[0] == ' '
    requires Occurs(" " + w + x, " " + word + " ")
    ensures w == word || Occurs(x, " " + word + " ")
  {
    var s := " " + w + x;
    var pat := " " + word + " ";
    var j :| OccursAt(s, pat, j);
    if j == 0 {
      AlignedWord(w, x, word);
    } else {
      assert IsSpace(s[j]) by { assert s[j] == pat[0]; }
      assert j > |w|;
      SliceRight(" " + w, x, j, |pat|);
      assert OccursAt(x, pat, j - 1 - |w|);
    }
  }

  /** A slice lying wholly in the right operand of a concatenation. */
  lemma SliceRight<T>(a: seq<T>, x: seq<T>, i: nat, n: nat)
    requires |a| <= i && i + n <= |a| + |x|
    ensures (a + x)[i..i + n] == x[i - |a|..i - |a| + n]
  {}

  lemma AlignedWord(w: string, x: string, word: string)
    requires w != [] && NoSpace(w) && word != [] && NoSpace(word) && x != [] && x[0] == ' '
    requires OccursAt(" " + w + x, " " + word + " ", 0)
    ensures w == word
  {
    var s := " " + w + x;
    var p := " " + word + " ";
    var k := |word|;
    assert s[..|p|] == p;
    assert forall i :: 0 <= i < |w| ==> s[i + 1] == w[i];
    assert forall i :: 0 <= i < |p| ==> s[i] == p[i];
    assert s[|w| + 1] == x[0];
    assert p[k + 1] == ' ';
    assert forall i :: 0 <= i < k ==> p[i + 1] == word[i];
    assert |w| == k;
    assert w == word;
  }

  // ---------- the head ----------

  /** The kept head words are exactly the words that are not keywords. */
  lemma {:induction false} HeadTokensMembers(words: seq<string>, kws: set<string>, t: string)
    ensures t in HeadTokens(words, kws) <==> t in words && t !in kws
    decreases |words|
  {
    if words != [] {
      var init := words[..|words| - 1];
      HeadTokensMembers(init, kws, t);
      assert words == init + [words[|words| - 1]];
    }
  }

  /** Keyword filtering distributes over concatenation. */
  lemma {:induction false} HeadTokensAppend(a: seq<string>, b: seq<string>, kws: set<string>)
    ensures HeadTokens(a + b, kws) == HeadTokens(a, kws) + HeadTokens(b, kws)
    decreases |b|
  {
    if b == [] {
      assert a + b == a;
    } else {
      var init := b[..|b| - 1];
      var last := b[|b| - 1];
      assert (a + b)[..|a + b| - 1] == a + init && (a + b)[|a + b| - 1] == last;
      HeadTokensAppend(a, init, kws);
      ConcatAssoc(HeadTokens(a, kws), HeadTokens(init, kws), [last]);
    }
  }

  lemma {:induction false} AllKeywords(mods: seq<string>, kws: set<string>)
    requires forall m :: m in mods ==> m in kws
    ensures HeadTokens(mods, kws) == []
    decreases |mods|
  {
    if mods != [] {
      AllKeywords(mods[..|mods| - 1], kws);
    }
  }

  /** Keywords in front of at most two non-keywords are dropped, the rest kept. */
  lemma KeywordsThen(mods: seq<string>, rest: seq<string>, kws: set<string>)
    requires forall m :: m in mods ==> m in kws
    requires |rest| <= 2 && forall t :: t in rest ==> t !in kws
    ensures HeadTokens(mods + rest, kws) == rest
  {
    AllKeywords(mods, kws);
    HeadTokensAppend(mods, rest, kws);
    if |rest| == 2 {
      assert rest[..1] == [rest[0]] && [rest[0]][..0] == [];
      assert rest == [rest[0]] + [rest[1]];
    } else if |rest| == 1 {
      assert rest[..0] == [];
    }
  }

  lemma HeadOfMethod(ws: seq<string>, mods: seq<string>, ret: string, name: string, kws: set<string>)
    requires ws == mods + [ret, name]
    requires forall m :: m in mods ==> m in kws
    requires ret !in kws && name !in kws
    ensures HeadTokens(ws, kws) == [ret, name]
  {
    KeywordsThen(mods, [ret, name], kws);
  }

  lemma HeadOfConstructor(ws: seq<string>, mods: seq<string>, name: string, kws: set<string>)
    requires ws == mods + [name]
    requires forall m :: m in mods ==> m in kws
    requires name !in kws
    ensures HeadTokens(ws, kws) == [name]
  {
    KeywordsThen(mods, [name], kws);
  }

  /** Keywords, then two more words: the declaration of a method returning `ret`. */
  lemma MethodHead(cs: string, mods: seq<string>, ret: string, name: string)
    requires cs != []
    requires SplitWs(Strip(DeclHead(OneLine(cs)))) == mods + [ret, name]
    requires forall m :: m in mods ==> m in KEYWORDS
    requires ret !in KEYWORDS && name !in KEYWORDS
    ensures ParseCSharp(cs).returnType == Some(ret) && ParseCSharp(cs).name == Some(name)
  {
    HeadOfMethod(SplitWs(Strip(DeclHead(OneLine(cs)))), mods, ret, name, KEYWORDS);
  }

  /** Keywords, then one more word: a constructor, which has no return type. */
  lemma ConstructorHead(cs: string, mods: seq<string>, name: string)
    requires cs != []
    requires SplitWs(Strip(DeclHead(OneLine(cs)))) == mods + [name]
    requires forall m :: m in mods ==> m in KEYWORDS
    requires name !in KEYWORDS
    ensures ParseCSharp(cs).returnType == None && ParseCSharp(cs).name == Some(name)
  {
    HeadOfConstructor(SplitWs(Strip(DeclHead(OneLine(cs)))), mods, name, KEYWORDS);
  }

  // ---------- the parameter names ----------

  /** One name per parameter segment, each an identifier or its positional fallback. */
  lemma ParamNamesShape(cs: string)
    requires cs != []
    ensures var names := ParseCSharp(cs).paramNames;
      var parts := ParamSegments(DeclParams(OneLine(cs)));
      |names| == |parts|
      && forall k :: 0 <= k < |names| ==>
           names[k] == ParamName(parts[k], k + 1)
           && (names[k] == ArgName(k + 1) || IsIdentifier(names[k]))
  {
    var parts := ParamSegments(DeclParams(OneLine(cs)));
    forall k | 0 <= k < |parts|
      ensures ParamNames(parts)[k] == ParamName(parts[k], k + 1)
    {
      MapNumberedAt(ParamName, parts, k);
    }
  }

  /** A parameter declared as `<type> <name>`: its name is read back. */
  lemma ParamNameOfDecl(p: string, pre: string, nm: string, k: nat)
    requires p == pre + " " + nm
    requires pre != [] && Trimmed(pre) && '=' !in pre
    requires IsIdentifier(nm)
    ensures ParamName(p, k) == nm
  {
    IdentifierWord(nm);
    DeclTokens(p, pre, nm);
    CleanIdentifier(nm);
    ParamNameIs(p, k, nm);
  }

  /** A parameter declared as `<type> <name> = <default>`: its name is read back. */
  lemma ParamNameOfDefaulted(p: string, pre: string, nm: string, d: string, k: nat)
    requires p == pre + " " + nm + " = " + d
    requires pre != [] && Trimmed(pre) && '=' !in pre
    requires IsIdentifier(nm)
    requires d != [] && Trimmed(d) && ',' !in d
    ensures ParamName(p, k) == nm
  {
    IdentifierWord(nm);
    DefaultedTokens(p, pre, nm, d);
    CleanIdentifier(nm);
    ParamNameIs(p, k, nm);
  }

  lemma DeclTokens(p: string, pre: string, nm: string)
    requires p == pre + " " + nm
    requires pre != [] && Trimmed(pre) && '=' !in pre
    requires nm != [] && NoSpace(nm) && '=' !in nm
    ensures EndsWithWord(ParamTokens(p), nm)
  {
    assert Trimmed(p) by { TrimmedDecl(pre, nm); }
    assert DropDefault(p) == p by {
      NoEqualsInDecl(pre, nm);
      DropDefaultNone(p);
    }
    assert ParamTokens(p) == SplitWs(DropQualifier(p, QUALIFIERS)) by { ParamTokensOf(p, p); }
    assert EndsWithWord(SplitWs(DropQualifier(p, QUALIFIERS)), nm) by {
      QualifiersNoSpace();
      NameAfterQualifier(pre, nm, QUALIFIERS);
    }
  }

  lemma DefaultedTokens(p: string, pre: string, nm: string, d: string)
    requires p == pre + " " + nm + " = " + d
    requires pre != [] && Trimmed(pre) && '=' !in pre
    requires nm != [] && NoSpace(nm) && '=' !in nm
    requires d != [] && Trimmed(d) && ',' !in d
    ensures EndsWithWord(ParamTokens(p), nm)
  {
    var x := pre + " " + nm;
    assert ParamTokens(p) == SplitWs(DropQualifier(x, QUALIFIERS)) by {
      TrimmedDecl(pre, nm);
      NoEqualsInDecl(pre, nm);
      DefaultedDrop(p, x, d);
    }
    assert EndsWithWord(SplitWs(DropQualifier(x, QUALIFIERS)), nm) by {
      QualifiersNoSpace();
      NameAfterQualifier(pre, nm, QUALIFIERS);
    }
  }

  lemma DefaultedDrop(p: string, x: string, d: string)
    requires p == x + " = " + d
    requires x != [] && Trimmed(x) && '=' !in x
    requires d != [] && Trimmed(d) && ',' !in d
    ensures ParamTokens(p) == SplitWs(DropQualifier(x, QUALIFIERS))
  {
    TrimmedDefaulted(x, d);
    DropDefaultOf(x, d);
    ParamTokensOf(p, x);
  }

  lemma ParamTokensOf(p: string, v: string)
    requires Trimmed(p) && DropDefault(p) == v
    ensures ParamTokens(p) == SplitWs(DropQualifier(v, QUALIFIERS))
  {}

  lemma ParamNameIs(p: string, k: nat, nm: string)
    requires EndsWithWord(ParamTokens(p), nm)
    requires CleanToken(nm) == nm && IsIdentifier(nm)
    ensures ParamName(p, k) == nm
  {}

  lemma TrimmedDecl(pre: string, nm: string)
    requires pre != [] && Trimmed(pre) && nm != [] && NoSpace(nm)
    ensures Trimmed(pre + " " + nm)
  {
    assert (pre + " " + nm)[0] == pre[0];
    assert (pre + " " + nm)[|pre + " " + nm| - 1] == nm[|nm| - 1];
  }

  lemma TrimmedDefaulted(x: string, d: string)
    requires x != [] && Trimmed(x) && d != [] && Trimmed(d)
    ensures Trimmed(x + " = " + d)
  {
    assert (x + " = " + d)[0] == x[0];
    assert (x + " = " + d)[|x + " = " + d| - 1] == d[|d| - 1];
  }

  lemma NoEqualsInDecl(pre: string, nm: string)
    requires '=' !in pre && '=' !in nm
    ensures '=' !in pre + " " + nm
  {}

  lemma IdentifierWord(nm: string)
    requires IsIdentifier(nm)
    ensures nm != [] && NoSpace(nm) && '=' !in nm && ',' !in nm && '[' !in nm
    ensures nm[0] != '@' && nm[|nm| - 1] != ','
  {}

  /** Text without `=` has no default clause to drop. */
  lemma DropDefaultNone(s: string)
    requires '=' !in s
    ensures DropDefault(s) == s
  {
    DefaultStartNone(s);
  }

  lemma DefaultStartNone(s: string)
    requires '=' !in s
    ensures DefaultStart(s) == -1
  {
    NotInSuffix(s, LastIndexOf(s, ',') + 1, '=');
  }

  lemma NotInSuffix(s: string, i: nat, c: char)
    requires c !in s && i <= |s|
    ensures c !in s[i..]
  {
    assert s == s[..i] + s[i..];
  }

  /** ` = <default>` after text without `=` is dropped together with the blank before it. */
  lemma DropDefaultOf(x: string, d: string)
    requires x != [] && Trimmed(x) && '=' !in x
    requires d != [] && ',' !in d
    ensures DropDefault(x + " = " + d) == x
  {
    DefaultStartOf(x, d);
    DropDefaultAt(x + " = " + d, |x| + 1);
    CutAtDefault(x, d);
    TrimRightBlank(x);
  }

  lemma DropDefaultAt(s: string, i: int)
    requires DefaultStart(s) == i && i >= 0
    ensures DropDefault(s) == TrimRight(s[..i])
  {}

  lemma CutAtDefault(x: string, d: string)
    ensures (x + " = " + d)[..|x| + 1] == x + " "
  {
    assert x + " = " + d == (x + " ") + ("= " + d);
  }

  lemma DefaultStartOf(x: string, d: string)
    requires '=' !in x
    requires d != [] && ',' !in d
    ensures DefaultStart(x + " = " + d) == |x| + 1
  {
    var c := LastIndexOf(x, ',');
    LastCommaOf(x, d);
    NotInSuffix(x, c + 1, '=');
    SuffixOfDefaulted(x, d, c + 1);
    EqualsAfter(x[c + 1..], d);
    DefaultStartIs(x + " = " + d, c, IndexOf((x + " = " + d)[c + 1..], '='));
  }

  lemma DefaultStartIs(s: string, c: int, e: int)
    requires c == LastIndexOf(s, ',') && e == IndexOf(s[c + 1..], '=')
    requires e >= 0 && c + 1 + e < |s| - 1
    ensures DefaultStart(s) == c + 1 + e
  {}

  lemma SuffixOfDefaulted(x: string, d: string, i: nat)
    requires i <= |x|
    ensures (x + " = " + d)[i..] == x[i..] + (" = " + d)
  {}

  lemma LastCommaOf(x: string, d: string)
    requires ',' !in d
    ensures LastIndexOf(x + " = " + d, ',') == LastIndexOf(x, ',')
  {
    assert x + " = " + d == x + (" = " + d);
    LastIndexOfSuffix(x, " = " + d, ',');
  }

  lemma EqualsAfter(y: string, d: string)
    requires '=' !in y
    ensures IndexOf(y + (" = " + d), '=') == |y| + 1
  {
    IndexOfPrefix(y, " = " + d, '=');
    assert IndexOf(" = " + d, '=') == 1;
  }

  lemma TrimRightBlank(x: string)
    requires x != [] && Trimmed(x)
    ensures TrimRight(x + " ") == x
  {
    assert (x + " ")[..|x|] == x;
  }

  /** The qualifier clean-up leaves the last word of `<text> <name>` alone. */
  lemma NameAfterQualifier(pre: string, nm: string, qs: seq<string>)
    requires pre != [] && nm != [] && NoSpace(nm)
    requires forall q :: q in qs ==> NoSpace(q)
    ensures EndsWithWord(SplitWs(DropQualifier(pre + " " + nm, qs)), nm)
  {
    var x := pre + " " + nm;
    match LeadingQualifier(x, qs)
    case None =>
      DropQualifierNone(x, qs);
      SplitWsSnoc(pre, nm);
    case Some(q) =>
      DropQualifierSome(x, qs, q);
      QualifiedLastWord(x, pre, nm, q, qs);
  }

  predicate EndsWithWord(ws: seq<string>, w: string) { |ws| >= 1 && ws[|ws| - 1] == w }

  lemma QualifiedLastWord(x: string, pre: string, nm: string, q: string, qs: seq<string>)
    requires x == pre + " " + nm && nm != [] && NoSpace(nm) && NoSpace(q)
    requires q <= x && |q| < |x| && IsSpace(x[|q|])
    requires DropQualifier(x, qs) == TrimLeft(x[|q|..])
    ensures EndsWithWord(SplitWs(DropQualifier(x, qs)), nm)
  {
    QualifierWithin(x, pre, nm, q);
    LastWordAfterBlank(pre[|q|..], nm);
  }

  lemma DropQualifierNone(s: string, qs: seq<string>)
    requires LeadingQualifier(s, qs) == None
    ensures DropQualifier(s, qs) == s
  {}

  lemma DropQualifierSome(s: string, qs: seq<string>, q: string)
    requires LeadingQualifier(s, qs) == Some(q)
    ensures q in qs && |q| <= |s| && IsSpace(s[|q|]) && q <= s
    ensures DropQualifier(s, qs) == TrimLeft(s[|q|..])
  {}

  /** A blank-free qualifier followed by a blank ends inside the type text. */
  lemma QualifierWithin(x: string, pre: string, nm: string, q: string)
    requires x == pre + " " + nm && NoSpace(q)
    requires q <= x && |q| < |x| && IsSpace(x[|q|])
    ensures |q| <= |pre| && x[|q|..] == pre[|q|..] + (" " + nm)
  {
    assert x[|pre|] == ' ';
    PrefixChar(q, x, |pre|);
    assert x == pre + (" " + nm);
    DropOfConcat(pre, " " + nm, |q|);
  }

  lemma LastWordAfterBlank(a: string, nm: string)
    requires nm != [] && NoSpace(nm)
    ensures EndsWithWord(SplitWs(TrimLeft(a + (" " + nm))), nm)
  {
    TrimLeftAppend(a, " " + nm);
    if TrimLeft(a) == [] {
      BlankThenWord([], nm);
      assert [] + (" " + nm) == " " + nm;
    } else {
      SnocAssoc(TrimLeft(a), nm);
      SplitWsSnoc(TrimLeft(a), nm);
    }
  }

  lemma QualifiersNoSpace()
    ensures forall q :: q in QUALIFIERS ==> NoSpace(q)
  {}

  /** The `,`, `[]` and `@` clean-up leaves an identifier unchanged. */
  lemma CleanIdentifier(nm: string)
    requires IsIdentifier(nm)
    ensures CleanToken(nm) == nm
  {
    IdentifierWord(nm);
    CleanWord(nm);
  }

  lemma CleanWord(nm: string)
    requires nm != [] && nm[|nm| - 1] != ',' && '[' !in nm && nm[0] != '@'
    ensures CleanToken(nm) == nm
  {
    TrimRightCharKeeps(nm, ',');
    ReplaceAbsent(nm, "[]", "");
    TrimLeftCharKeeps(nm, '@');
  }

}
