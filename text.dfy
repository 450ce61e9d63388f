/** Character classes and the Python string operations both extractors are built from.
    Strings are `seq<char>`; each operation below is the Python `str` method of the same
    meaning, restricted where noted to ASCII (`\w`, digits and `lower()`). */
module Text {

  /** Python's `str.isspace()`: the characters that `\s`, `split()` and `strip()` treat as blank. */
  predicate IsSpace(c: char) {
    var n := c as int;
    (9 <= n <= 13) || (28 <= n <= 32) || n == 0x85 || n == 0xA0 || n == 0x1680
    || (0x2000 <= n <= 0x200A) || n == 0x2028 || n == 0x2029 || n == 0x202F
    || n == 0x205F || n == 0x3000
  }

  /** The characters at which `str.splitlines()` ends a line (`\r\n` counts as one break). */
  predicate IsLineBreak(c: char) {
    var n := c as int;
    (10 <= n <= 13) || (28 <= n <= 30) || n == 0x85 || n == 0x2028 || n == 0x2029
  }

  predicate IsLetter(c: char) { 'a' <= c <= 'z' || 'A' <= c <= 'Z' }

  predicate IsDigit(c: char) { '0' <= c <= '9' }

  /** The ASCII reading of the regular-expression class `\w`. */
  predicate IsWordChar(c: char) { IsLetter(c) || IsDigit(c) || c == '_' }

  /** Matches `^[A-Za-z_]\w*$`. */
  predicate IsIdentifier(s: string) {
    |s| > 0 && (IsLetter(s[0]) || s[0] == '_') && forall i :: 0 < i < |s| ==> IsWordChar(s[i])
  }

  predicate NoSpace(s: string) { forall i :: 0 <= i < |s| ==> !IsSpace(s[i]) }

  predicate AllSpace(s: string) { forall i :: 0 <= i < |s| ==> IsSpace(s[i]) }

  /** Neither end of `s` is blank: what `strip()` leaves. */
  predicate Trimmed(s: string) { s == [] || (!IsSpace(s[0]) && !IsSpace(s[|s| - 1])) }

  // ---------- strip ----------

  function TrimLeft(s: string): (r: string)
    ensures |r| <= |s| && r == s[|s| - |r|..]
    ensures r == [] || !IsSpace(r[0])
    ensures AllSpace(s[..|s| - |r|])
    decreases |s|
  {
    if s != [] && IsSpace(s[0]) then
      var r := TrimLeft(s[1..]);
      assert s[1..][..|s| - 1 - |r|] == s[1..|s| - |r|];
      r
    else s
  }

  /** `str.rstrip()` */
  function TrimRight(s: string): (r: string)
    ensures |r| <= |s| && r == s[..|r|]
    ensures r == [] || !IsSpace(r[|r| - 1])
    ensures AllSpace(s[|r|..])
    decreases |s|
  {
    if s != [] && IsSpace(s[|s| - 1]) then
      var r := TrimRight(s[..|s| - 1]);
      assert s[..|s| - 1][|r|..] + [s[|s| - 1]] == s[|r|..];
      r
    else s
  }

  /** Trailing blanks of a concatenation come from its end when that end is not blank. */
  lemma {:induction false} TrimRightKeep(p: string, b: string)
    requires !AllSpace(b)
    ensures TrimRight(p + b) == p + TrimRight(b)
    decreases |b|
  {
    var s := p + b;
    assert s[|s| - 1] == b[|b| - 1];
    if IsSpace(b[|b| - 1]) {
      var b' := b[..|b| - 1];
      assert TrimRight(s) == TrimRight(p + b') by {
        assert s[..|s| - 1] == p + b';
      }
      assert !AllSpace(b') by {
        var i :| 0 <= i < |b| && !IsSpace(b[i]);
        assert b'[i] == b[i];
      }
      TrimRightKeep(p, b');
    }
  }

  /** `str.strip()` */
  function Strip(s: string): (r: string)
    ensures |r| <= |s| && Trimmed(r)
    ensures Trimmed(s) ==> r == s
  {
    TrimRight(TrimLeft(s))
  }

  /** `strip()` leaves nothing exactly of an all-blank text. */
  lemma StripBlank(s: string)
    ensures Strip(s) == [] <==> AllSpace(s)
  {
    var l := TrimLeft(s);
    var r := TrimRight(l);
    assert r == [] ==> s == s[..|s| - |l|] + l[..|r|] + l[|r|..];
  }

  /** Blanks after a text that does not end blank are what `rstrip()` removes. */
  lemma {:induction false} TrimRightPadded(x: string, b: string)
    requires AllSpace(b) && (x == [] || !IsSpace(x[|x| - 1]))
    ensures TrimRight(x + b) == x
    decreases |b|
  {
    if b == [] {
      assert x + b == x;
    } else {
      var s := x + b;
      assert s[..|s| - 1] == x + b[..|b| - 1];
      assert IsSpace(s[|s| - 1]);
      TrimRightPadded(x, b[..|b| - 1]);
    }
  }

  /** Blanks around a stripped text are what `strip()` removes. */
  lemma StripPadded(a: string, x: string, b: string)
    requires AllSpace(a) && AllSpace(b) && Trimmed(x)
    ensures Strip(a + x + b) == x
  {
    assert a + x + b == a + (x + b);
    TrimLeftAppend(a, x + b);
    if x == [] {
      assert AllSpace(a + x + b);
    } else {
      assert TrimLeft(x + b) == x + b;
      TrimRightPadded(x, b);
    }
  }

  lemma StripOfAllSpace(s: string)
    ensures AllSpace(s) ==> Strip(s) == []
  {}

  /** `s.rstrip(c)`: drop every copy of `c` at the end. */
  function TrimRightChar(s: string, c: char): (r: string)
    ensures |r| <= |s| && r == s[..|r|]
    ensures r == [] || r[|r| - 1] != c
    ensures forall i :: |r| <= i < |s| ==> s[i] == c
    decreases |s|
  {
    if s != [] && s[|s| - 1] == c then TrimRightChar(s[..|s| - 1], c) else s
  }

  lemma TrimRightCharKeeps(s: string, c: char)
    requires s != [] && s[|s| - 1] != c
    ensures TrimRightChar(s, c) == s
  {}

  /** `s.lstrip(c)`: drop every copy of `c` at the start. */
  function TrimLeftChar(s: string, c: char): (r: string)
    ensures |r| <= |s| && r == s[|s| - |r|..]
    ensures r == [] || r[0] != c
    ensures forall i :: 0 <= i < |s| - |r| ==> s[i] == c
    decreases |s|
  {
    if s != [] && s[0] == c then TrimLeftChar(s[1..], c) else s
  }
  lemma TrimLeftCharKeeps(s: string, c: char)
    requires s != [] && s[0] != c
    ensures TrimLeftChar(s, c) == s
  {}


  // ---------- searching ----------

  predicate OccursAt(s: string, pat: string, i: int) {
    0 <= i && i + |pat| <= |s| && s[i..i + |pat|] == pat
  }

  /** `s.find(pat)`: the first index at which `pat` occurs, or -1 (see `FindFirst`). */
  function Find(s: string, pat: string): (r: int)
    ensures r == -1 || OccursAt(s, pat, r)
    decreases |s|
  {
    if |s| < |pat| then -1
    else if s[..|pat|] == pat then 0
    else
      var k := Find(s[1..], pat);
      if k < 0 then -1
      else
        assert s[1..][k..k + |pat|] == s[k + 1..k + 1 + |pat|];
        k + 1
  }

  /** No occurrence comes before the one `Find` reports. */
  lemma {:induction false} FindFirst(s: string, pat: string, j: int)
    requires OccursAt(s, pat, j)
    ensures 0 <= Find(s, pat) <= j
    decreases |s|
  {
    if s[..|pat|] != pat {
      assert j >= 1;
      assert s[1..][j - 1..j - 1 + |pat|] == s[j..j + |pat|];
      FindFirst(s[1..], pat, j - 1);
    }
  }

  /** `pat in s` */
  predicate Contains(s: string, pat: string) { Find(s, pat) >= 0 }

  lemma ContainsAt(s: string, pat: string, i: int)
    requires OccursAt(s, pat, i)
    ensures Contains(s, pat)
  {
    FindFirst(s, pat, i);
  }

  /** A character of `s` is found as a one-character pattern. */
  lemma CharContains(s: string, c: char)
    requires c in s
    ensures Contains(s, [c])
  {
    var i :| 0 <= i < |s| && s[i] == c;
    assert s[i..i + 1] == [c];
    ContainsAt(s, [c], i);
  }

  /** A pattern occurring in a prefix of `s` is found in `s`. */
  lemma ContainsInPrefix(s: string, pre: string, pat: string, i: int)
    requires pre <= s && OccursAt(pre, pat, i)
    ensures Contains(s, pat)
  {
    assert s[i..i + |pat|] == pre[i..i + |pat|];
    ContainsAt(s, pat, i);
  }

  /** `s.index(c)` / `s.find(c)` for one character. */
  function IndexOf(s: string, c: char): (r: int)
    ensures -1 <= r < |s|
    ensures r >= 0 ==> s[r] == c && c !in s[..r]
    ensures r < 0 <==> c !in s
    decreases |s|
  {
    if s == [] then -1
    else if s[0] == c then 0
    else
      var k := IndexOf(s[1..], c);
      if k < 0 then -1
      else
        assert s[..k + 1] == [s[0]] + s[1..][..k];
        k + 1
  }

  /** `s.rfind(c)` */
  function LastIndexOf(s: string, c: char): (r: int)
    ensures -1 <= r < |s|
    ensures r >= 0 ==> s[r] == c && c !in s[r + 1..]
    ensures r < 0 <==> c !in s
    decreases |s|
  {
    if s == [] then -1
    else if s[|s| - 1] == c then |s| - 1
    else
      var k := LastIndexOf(s[..|s| - 1], c);
      if k >= 0 then assert s[k + 1..] == s[..|s| - 1][k + 1..] + [s[|s| - 1]]; k
      else assert s == s[..|s| - 1] + [s[|s| - 1]]; k
  }

  /** With no `c` in `a`, the first `c` of `a + b` is the first `c` of `b`, shifted. */
  lemma {:induction false} IndexOfPrefix(a: string, b: string, c: char)
    requires c !in a
    ensures IndexOf(a + b, c) == if IndexOf(b, c) < 0 then -1 else |a| + IndexOf(b, c)
    decreases |a|
  {
    if a == [] {
      assert a + b == b;
    } else {
      assert (a + b)[0] == a[0] && (a + b)[1..] == a[1..] + b;
      IndexOfPrefix(a[1..], b, c);
    }
  }

  /** With no `c` in `b`, the last `c` of `a + b` is the last `c` of `a`. */
  lemma {:induction false} LastIndexOfSuffix(a: string, b: string, c: char)
    requires c !in b
    ensures LastIndexOf(a + b, c) == LastIndexOf(a, c)
    decreases |b|
  {
    if b == [] {
      assert a + b == a;
    } else {
      var s := a + b;
      assert s[|s| - 1] == b[|b| - 1] && s[..|s| - 1] == a + b[..|b| - 1];
      LastIndexOfSuffix(a, b[..|b| - 1], c);
    }
  }

  /** `s.split(pat, 1)[0]`: the text before the first `pat`, or all of `s`. */
  function Before(s: string, pat: string): (r: string)
    ensures r <= s
  {
    var i := Find(s, pat);
    if i < 0 then s else s[..i]
  }

  /** The text before a character of `s` is shorter than `s`. */
  lemma BeforeCharShorter(s: string, c: char)
    requires c in s
    ensures |Before(s, [c])| < |s|
  {
    CharContains(s, c);
    var i := Find(s, [c]);
    assert Before(s, [c]) == s[..i];
  }

  /** `s.split(pat, 1)[1]` when `pat in s`: the text after the first `pat`. */
  function After(s: string, pat: string): (r: string)
    requires Contains(s, pat)
    ensures s == Before(s, pat) + pat + r
  {
    var i := Find(s, pat);
    assert s == s[..i] + s[i..i + |pat|] + s[i + |pat|..];
    s[i + |pat|..]
  }

  /** `s.rsplit(c, 1)[0]`: the text before the last `c`, or all of `s`. */
  function BeforeLast(s: string, c: char): (r: string)
    ensures r <= s
  {
    var i := LastIndexOf(s, c);
    if i < 0 then s else s[..i]
  }

  /** `s.rsplit(c, 1)[-1]`: the text after the last `c`, or all of `s`. */
  function AfterLast(s: string, c: char): (r: string)
    ensures c !in r
  {
    var i := LastIndexOf(s, c);
    if i < 0 then s else s[i + 1..]
  }

  function StartsWith(s: string, pre: string): bool { pre <= s }

  function EndsWith(s: string, suf: string): bool {
    |suf| <= |s| && s[|s| - |suf|..] == suf
  }

  // ---------- splitting and joining ----------

  /** `s.split(sep)` for a non-empty separator. */
  function SplitOn(s: string, sep: string): (r: seq<string>)
    requires sep != []
    ensures |r| >= 1
    decreases |s|
  {
    var i := Find(s, sep);
    if i < 0 then [s] else [s[..i]] + SplitOn(s[i + |sep|..], sep)
  }

  /** `sep.join(xs)` */
  function Join(sep: string, xs: seq<string>): string {
    if |xs| == 0 then ""
    else if |xs| == 1 then xs[0]
    else xs[0] + sep + Join(sep, xs[1..])
  }

  lemma {:induction false} JoinSnoc(sep: string, xs: seq<string>, y: string)
    requires |xs| >= 1
    ensures Join(sep, xs + [y]) == Join(sep, xs) + sep + y
    decreases |xs|
  {
    if |xs| == 1 {
      assert xs + [y] == [xs[0], y];
    } else {
      assert (xs + [y])[1..] == xs[1..] + [y];
      JoinSnoc(sep, xs[1..], y);
    }
  }

  /** The index of the first blank character of `s`, or `|s|`. */
  function SpaceIndex(s: string): (k: nat)
    ensures k <= |s| && NoSpace(s[..k]) && (k < |s| ==> IsSpace(s[k]))
    decreases |s|
  {
    if s == [] || IsSpace(s[0]) then 0
    else
      var k := SpaceIndex(s[1..]);
      assert s[..k + 1] == [s[0]] + s[1..][..k];
      k + 1
  }

  /** `s.split()`: the maximal runs of non-blank characters. */
  function SplitWs(s: string): (r: seq<string>)
    decreases |s|
  {
    var t := TrimLeft(s);
    if t == [] then []
    else
      var k := SpaceIndex(t);
      [t[..k]] + SplitWs(t[k..])
  }

  /** The index at which the first line of `s` ends, or `|s|`. */
  function LineEnd(s: string): (k: nat)
    ensures k <= |s| && (k < |s| ==> IsLineBreak(s[k]))
    ensures forall i :: 0 <= i < k ==> !IsLineBreak(s[i])
    decreases |s|
  {
    if s == [] || IsLineBreak(s[0]) then 0 else LineEnd(s[1..]) + 1
  }

  /** Leading blanks of a concatenation come from `a` unless `a` is all blank. */
  lemma {:induction false} TrimLeftAppend(a: string, b: string)
    ensures TrimLeft(a + b) == if TrimLeft(a) == [] then TrimLeft(b) else TrimLeft(a) + b
    decreases |a|
  {
    if a == [] {
      assert a + b == b;
    } else {
      assert (a + b)[0] == a[0] && (a + b)[1..] == a[1..] + b;
      if IsSpace(a[0]) {
        TrimLeftAppend(a[1..], b);
      }
    }
  }

  lemma {:induction false} SpaceIndexAppend(a: string, b: string)
    ensures SpaceIndex(a + b) == if SpaceIndex(a) < |a| then SpaceIndex(a) else |a| + SpaceIndex(b)
    decreases |a|
  {
    if a == [] {
      assert a + b == b;
    } else {
      assert (a + b)[0] == a[0] && (a + b)[1..] == a[1..] + b;
      if !IsSpace(a[0]) {
        SpaceIndexAppend(a[1..], b);
      }
    }
  }

  /** Non-empty, blank-free words. */
  predicate Words(ws: seq<string>) {
    forall i :: 0 <= i < |ws| ==> ws[i] != [] && NoSpace(ws[i])
  }

  /** Every word of `split()` is non-empty and blank-free. */
  lemma {:induction false} SplitWsWords(s: string)
    ensures Words(SplitWs(s))
    decreases |s|
  {
    var t := TrimLeft(s);
    if t != [] {
      var k := SpaceIndex(t);
      var rest := SplitWs(t[k..]);
      SplitWsWords(t[k..]);
      WordsCons(t[..k], rest);
    }
  }

  lemma WordsCons(w: string, ws: seq<string>)
    requires w != [] && NoSpace(w) && Words(ws)
    ensures Words([w] + ws)
  {
    forall i | 0 <= i < |[w] + ws| ensures ([w] + ws)[i] != [] && NoSpace(([w] + ws)[i]) {
      if i > 0 { assert ([w] + ws)[i] == ws[i - 1]; }
    }
  }

  /** A single blank-free word splits into itself. */
  lemma SplitWsWord(w: string)
    requires w != [] && NoSpace(w)
    ensures SplitWs(w) == [w]
  {
    OnlyWord(w, w);
  }

  lemma OnlyWord(x: string, w: string)
    requires w != [] && NoSpace(w) && TrimLeft(x) == w
    ensures SplitWs(x) == [w]
  {
    assert SpaceIndex(w) == |w|;
    assert w[..|w|] == w && w[|w|..] == [];
  }

  /** A blank and a word after any text add exactly that word to its `split()`. */
  lemma {:induction false} SplitWsSnoc(s: string, w: string)
    requires w != [] && NoSpace(w)
    ensures SplitWs(s + " " + w) == SplitWs(s) + [w]
    decreases |s|
  {
    SnocAssoc(s, w);
    if TrimLeft(s) == [] {
      BlankThenWord(s, w);
    } else {
      var u := TrimLeft(s)[SpaceIndex(TrimLeft(s))..];
      SplitWsSnoc(u, w);
      SnocAssoc(u, w);
      SnocStep(s, " " + w, [w], u);
    }
  }

  lemma SnocStep(s: string, b: string, tail: seq<string>, u: string)
    requires TrimLeft(s) != [] && b != [] && IsSpace(b[0])
    requires u == TrimLeft(s)[SpaceIndex(TrimLeft(s))..]
    requires SplitWs(u + b) == SplitWs(u) + tail
    ensures SplitWs(s + b) == SplitWs(s) + tail
    ensures |u| < |s|
  {
    WordThenRest(s, b);
    var t := TrimLeft(s);
    var x := t[..SpaceIndex(t)];
    var a := SplitWs(u);
    ConcatAssoc([x], a, tail);
  }

  lemma PrefixChar<T>(q: seq<T>, x: seq<T>, i: int)
    ensures q <= x && 0 <= i < |q| ==> q[i] == x[i]
  {}

  lemma DropOfConcat<T>(x: seq<T>, y: seq<T>, i: nat)
    requires i <= |x|
    ensures (x + y)[i..] == x[i..] + y
  {}

  lemma SnocEq<T>(l: seq<T>, xs: seq<T>, x: T)
    requires |l| == |xs| + 1 && l[|xs|] == x && forall k :: 0 <= k < |xs| ==> l[k] == xs[k]
    ensures l == xs + [x]
  {}

  lemma ConcatAssoc<T>(x: seq<T>, y: seq<T>, z: seq<T>)
    ensures x + (y + z) == (x + y) + z
  {}

  lemma SnocAssoc(s: string, w: string)
    ensures s + " " + w == s + (" " + w)
  {}

  lemma BlankThenWord(s: string, w: string)
    requires w != [] && NoSpace(w) && TrimLeft(s) == []
    ensures SplitWs(s + (" " + w)) == [w] && SplitWs(s) == []
  {
    var sw := " " + w;
    TrimLeftAppend(s, sw);
    BlankWord(w);
    OnlyWord(s + sw, w);
    assert SplitWs(s) == [];
  }

  /** A blank before a word is trimmed away. */
  lemma BlankWord(w: string)
    requires w != [] && NoSpace(w)
    ensures TrimLeft(" " + w) == w
  {
    var sw := " " + w;
    assert sw[0] == ' ' && sw[1..] == w && !IsSpace(w[0]);
  }

  /** The first word of `s` is also the first word of `s + b` when `b` starts blank. */
  lemma WordThenRest(s: string, b: string)
    requires TrimLeft(s) != [] && b != [] && IsSpace(b[0])
    ensures var t := TrimLeft(s); var k := SpaceIndex(t);
      1 <= k <= |t| <= |s|
      && SplitWs(s) == [t[..k]] + SplitWs(t[k..])
      && SplitWs(s + b) == [t[..k]] + SplitWs(t[k..] + b)
  {
    var t := TrimLeft(s);
    TrimLeftAppend(s, b);
    var k := SpaceIndex(t);
    SpaceIndexAppend(t, b);
    FirstWordOfAppend(t, b, k);
  }

  lemma FirstWordOfAppend(t: string, b: string, k: nat)
    requires k <= |t|
    ensures (t + b)[..k] == t[..k] && (t + b)[k..] == t[k..] + b
  {}

  /** `s.splitlines()` */
  function SplitLines(s: string): (r: seq<string>)
    ensures forall i, j :: 0 <= i < |r| && 0 <= j < |r[i]| ==> !IsLineBreak(r[i][j])
    ensures s != [] ==> |r| >= 1
    decreases |s|
  {
    if s == [] then []
    else
      var k := LineEnd(s);
      if k == |s| then [s]
      else
        var w := if s[k] == '\r' && k + 1 < |s| && s[k + 1] == '\n' then 2 else 1;
        [s[..k]] + SplitLines(s[k + w..])
  }

  /** The line end is the one position where the first break stands. */
  lemma LineEndIs(s: string, k: nat)
    requires k <= |s| && (forall i :: 0 <= i < k ==> !IsLineBreak(s[i])) && (k < |s| ==> IsLineBreak(s[k]))
    ensures LineEnd(s) == k
  {}

  /** The first line of a break-free text followed by a break is that text. */
  lemma FirstLineOf(a: string, c: char, b: string)
    requires (forall i :: 0 <= i < |a| ==> !IsLineBreak(a[i])) && IsLineBreak(c)
    ensures SplitLines(a + [c] + b)[0] == a
  {
    var s := a + [c] + b;
    LineEndIs(s, |a|);
    assert s[..|a|] == a;
  }

  /** A break-free text is one line. */
  lemma OneLine(a: string)
    requires a != [] && forall i :: 0 <= i < |a| ==> !IsLineBreak(a[i])
    ensures SplitLines(a) == [a]
  {
    LineEndIs(a, |a|);
  }

  // ---------- rewriting ----------

  /** `s.replace(pat, sub)`: every non-overlapping occurrence, left to right. */
  function Replace(s: string, pat: string, sub: string): string
    requires pat != []
    decreases |s|
  {
    var i := Find(s, pat);
    if i < 0 then s else s[..i] + sub + Replace(s[i + |pat|..], pat, sub)
  }
  /** A one-character pattern absent from `x` is found in `x + y` only inside `y`. */
  lemma {:induction false} FindCharAfter(x: string, y: string, c: char)
    requires c !in x
    ensures Find(x + y, [c]) == if Find(y, [c]) < 0 then -1 else |x| + Find(y, [c])
    decreases |x|
  {
    if x == [] {
      assert x + y == y;
    } else {
      var s := x + y;
      assert s[..1] == [x[0]] && s[1..] == x[1..] + y;
      FindCharAfter(x[1..], y, c);
    }
  }

  /** The first `c` of `p + [c] + q`, for `c` not in `p`, is the one after `p`. */
  lemma FindCharAt(p: string, c: char, q: string)
    requires c !in p
    ensures Find(p + [c] + q, [c]) == |p|
  {
    FindCharAfter(p, [c] + q, c);
    assert ([c] + q)[..1] == [c];
    assert p + [c] + q == p + ([c] + q);
  }

  /** `s.replace(c, '')`: every `c` removed. */
  function RemoveChar(s: string, c: char): (r: string)
    ensures c !in r
    decreases |s|
  {
    if s == [] then []
    else RemoveChar(s[..|s| - 1], c) + (if s[|s| - 1] == c then [] else [s[|s| - 1]])
  }

  /** Removing a character commutes with concatenation. */
  lemma {:induction false} RemoveCharAppend(x: string, y: string, c: char)
    ensures RemoveChar(x + y, c) == RemoveChar(x, c) + RemoveChar(y, c)
    decreases |y|
  {
    if y == [] {
      assert x + y == x;
    } else {
      var s := x + y;
      var y' := y[..|y| - 1];
      var t := if y[|y| - 1] == c then [] else [y[|y| - 1]];
      assert RemoveChar(s, c) == RemoveChar(x + y', c) + t by {
        assert s[..|s| - 1] == x + y' && s[|s| - 1] == y[|y| - 1];
      }
      RemoveCharAppend(x, y', c);
      ConcatAssoc(RemoveChar(x, c), RemoveChar(y', c), t);
    }
  }

  /** Text without `c` is left alone. */
  lemma {:induction false} RemoveCharAbsent(x: string, c: char)
    requires c !in x
    ensures RemoveChar(x, c) == x
    decreases |x|
  {
    if x != [] {
      assert x == x[..|x| - 1] + [x[|x| - 1]];
      RemoveCharAbsent(x[..|x| - 1], c);
    }
  }

  /** Text without the first character of `pat` holds nothing to replace. */
  lemma ReplaceAbsent(s: string, pat: string, sub: string)
    requires pat != [] && pat[0] !in s
    ensures Replace(s, pat, sub) == s
  {}


  function LowerChar(c: char): char {
    if 'A' <= c <= 'Z' then (c as int + 32) as char else c
  }

  /** `s.lower()` on ASCII letters. */
  function Lower(s: string): (r: string)
    ensures |r| == |s| && forall i :: 0 <= i < |s| ==> r[i] == LowerChar(s[i])
  {
    seq(|s|, i requires 0 <= i < |s| => LowerChar(s[i]))
  }

  // ---------- numbers ----------

  function DigitChar(d: nat): char
    requires d < 10
  {
    ('0' as int + d) as char
  }

  /** `str(n)` */
  function NatToString(n: nat): (r: string)
    ensures r != [] && forall i :: 0 <= i < |r| ==> IsDigit(r[i])
  {
    if n < 10 then [DigitChar(n)] else NatToString(n / 10) + [DigitChar(n % 10)]
  }

  /** `int(s)` for a string of ASCII digits. */
  function DigitsValue(s: string): nat
    requires forall i :: 0 <= i < |s| ==> IsDigit(s[i])
  {
    if s == [] then 0
    else
      assert IsDigit(s[|s| - 1]);
      DigitsValue(s[..|s| - 1]) * 10 + (s[|s| - 1] as int - '0' as int)
  }

  lemma {:induction false} DigitsValueOfNatToString(n: nat)
    ensures DigitsValue(NatToString(n)) == n
  {
    if n >= 10 {
      var s := NatToString(n);
      assert s[..|s| - 1] == NatToString(n / 10);
      DigitsValueOfNatToString(n / 10);
    }
  }

  /** The length of the leading run of `s` whose characters satisfy `p`. */
  function RunLength(s: string, p: char -> bool): (k: nat)
    ensures k <= |s| && (forall i :: 0 <= i < k ==> p(s[i])) && (k < |s| ==> !p(s[k]))
    decreases |s|
  {
    if s == [] || !p(s[0]) then 0 else RunLength(s[1..], p) + 1
  }

  /** The run length is the one position where `p` first fails. */
  lemma RunLengthIs(s: string, p: char -> bool, k: nat)
    requires k <= |s| && (forall i :: 0 <= i < k ==> p(s[i])) && (k < |s| ==> !p(s[k]))
    ensures RunLength(s, p) == k
  {}

  /** A one-character pattern occurring at `i` is that character. */
  lemma OccursChar(s: string, c: char, i: int)
    ensures OccursAt(s, [c], i) ==> s[i] == c
  {
    if OccursAt(s, [c], i) {
      assert s[i..i + 1][0] == s[i];
    }
  }

  // ---------- whole words ----------

  /** The regular expression `\bword\b` with IGNORECASE finds a match in `s`, for a
      lower-case `word` that begins and ends with a word character. */
  predicate HasWord(s: string, word: string) {
    exists i :: 0 <= i && i + |word| <= |s| && WordAt(s, word, i)
  }

  predicate WordAt(s: string, word: string, i: int)
    requires 0 <= i && i + |word| <= |s|
  {
    Lower(s[i..i + |word|]) == word
    && (i == 0 || !IsWordChar(s[i - 1]))
    && (i + |word| == |s| || !IsWordChar(s[i + |word|]))
  }
}
