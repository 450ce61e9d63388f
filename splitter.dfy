/** The bracket-aware comma splitter (`split_types_list`, and the paren-only splitter
    inside `parse_signature`). */
module Splitter {
  import opened Text

  /** Which bracket kinds keep a comma from cutting: `split_types_list` tracks `<>`,
      `{}` and `()`; the loop in `parse_signature` tracks `()` only. */
  datatype Scopes = AllScopes | ParensOnly

  /** The three depth counters. */
  datatype Depths = Depths(angle: nat, curly: nat, paren: nat)

  const CLOSED := Depths(0, 0, 0)

  /** `max(0, d - 1)`: a closer never drives a counter below zero. */
  function Dec(d: nat): nat { if d > 0 then d - 1 else 0 }

  /** How reading one character changes the counters. */
  function Step(st: Depths, c: char): Depths {
    if c == '<' then st.(angle := st.angle + 1)
    else if c == '>' then st.(angle := Dec(st.angle))
    else if c == '{' then st.(curly := st.curly + 1)
    else if c == '}' then st.(curly := Dec(st.curly))
    else if c == '(' then st.(paren := st.paren + 1)
    else if c == ')' then st.(paren := Dec(st.paren))
    else st
  }

  /** The counters after reading `s` starting from `st`. */
  function Scan(st: Depths, s: string): Depths
    decreases |s|
  {
    if s == [] then st else Scan(Step(st, s[0]), s[1..])
  }

  /** Reading `c` in state `st` ends the current segment. */
  predicate IsCut(st: Depths, c: char, scopes: Scopes) {
    c == ',' && st.paren == 0 && (scopes == ParensOnly || (st.angle == 0 && st.curly == 0))
  }

  /** The raw segments of `s` read from `st`: a cut at every comma read at depth zero;
      the last segment is whatever is left at the end, inside an open scope or not. */
  function Pieces(st: Depths, s: string, scopes: Scopes): (r: seq<string>)
    ensures |r| >= 1
    decreases |s|
  {
    if s == [] then [""]
    else
      var rest := Pieces(Step(st, s[0]), s[1..], scopes);
      if IsCut(st, s[0], scopes) then [""] + rest
      else [[s[0]] + rest[0]] + rest[1..]
  }

  /** The number of cuts made while reading `s` from `st`. */
  function CutCount(st: Depths, s: string, scopes: Scopes): nat
    decreases |s|
  {
    if s == [] then 0
    else (if IsCut(st, s[0], scopes) then 1 else 0) + CutCount(Step(st, s[0]), s[1..], scopes)
  }

  /** A piece that opens no scope it does not close and holds no cutting comma. */
  predicate Sealed(r: string, scopes: Scopes) {
    Scan(CLOSED, r) == CLOSED && CutCount(CLOSED, r, scopes) == 0
  }

  function StripAll(xs: seq<string>): (r: seq<string>)
    ensures |r| == |xs| && forall k :: 0 <= k < |xs| ==> r[k] == Strip(xs[k])
  {
    seq(|xs|, k requires 0 <= k < |xs| => Strip(xs[k]))
  }

  /** `[p for p in xs if p]` */
  function NonEmpty(xs: seq<string>): (r: seq<string>)
    ensures forall x :: x in r ==> x in xs && x != []
    ensures (forall k :: 0 <= k < |xs| ==> xs[k] != []) ==> r == xs
  {
    if xs == [] then []
    else if xs[0] == [] then NonEmpty(xs[1..])
    else [xs[0]] + NonEmpty(xs[1..])
  }

  /** `split_types_list(s)`: the trimmed, non-empty segments between the commas that
      `s` has at depth zero in all three bracket kinds. */
  function SplitTypes(s: string): seq<string> {
    NonEmpty(StripAll(Pieces(CLOSED, s, AllScopes)))
  }

  /** Every segment is non-empty, trimmed and no longer than the input. */
  lemma SplitTypesShape(s: string)
    ensures var r := SplitTypes(s);
      forall k :: 0 <= k < |r| ==> r[k] != [] && Trimmed(r[k]) && |r[k]| <= |s|
  {
    var raw := Pieces(CLOSED, s, AllScopes);
    PiecesNoLongerThanInput(CLOSED, s, AllScopes);
    assert forall j :: 0 <= j < |raw| ==> |raw[j]| <= |s|;
    KeptStripped(raw, |s|);
    assert SplitTypes(s) == NonEmpty(StripAll(raw));
  }

  lemma PiecesNoLongerThanInput(st: Depths, s: string, scopes: Scopes)
    ensures forall j :: 0 <= j < |Pieces(st, s, scopes)| ==> |Pieces(st, s, scopes)[j]| <= |s|
  {
    var raw := Pieces(st, s, scopes);
    JoinPieces(st, s, scopes);
    forall j | 0 <= j < |raw| ensures |raw[j]| <= |s| {
      PieceNoLongerThanJoin(",", raw, j);
    }
  }

  lemma KeptStripped(xs: seq<string>, n: nat)
    requires forall j :: 0 <= j < |xs| ==> |xs[j]| <= n
    ensures var r := NonEmpty(StripAll(xs));
      forall k :: 0 <= k < |r| ==> r[k] != [] && Trimmed(r[k]) && |r[k]| <= n
  {
    var stripped := StripAll(xs);
    var r := NonEmpty(stripped);
    forall k | 0 <= k < |r| ensures r[k] != [] && Trimmed(r[k]) && |r[k]| <= n {
      assert r[k] in r;
      var j :| 0 <= j < |stripped| && stripped[j] == r[k];
      assert r[k] == Strip(xs[j]);
    }
  }

  // ---------- the loop of split_types_list ----------

  /** `split_types_list`: one pass over `s` with three depth counters and a buffer. */
  method SplitTypesList(s: string) returns (parts: seq<string>)
    ensures parts == SplitTypes(s)
  {
    parts := [];
    var buf: string := [];
    var depthAngle, depthCurly, depthParen := 0, 0, 0;
    ghost var raw: seq<string> := [];
    for i := 0 to |s|
      invariant depthAngle >= 0 && depthCurly >= 0 && depthParen >= 0
      invariant Depths(depthAngle, depthCurly, depthParen) == Scan(CLOSED, s[..i])
      invariant raw + [buf] == Pieces(CLOSED, s[..i], AllScopes)
      invariant parts == StripAll(raw)
    {
      var ch := s[i];
      ReadOne(s, i, raw, buf, AllScopes);
      StepOfCounters(depthAngle, depthCurly, depthParen, ch);
      if ch == '<' {
        depthAngle := depthAngle + 1;
        buf := buf + [ch];
      } else if ch == '>' {
        depthAngle := if depthAngle - 1 > 0 then depthAngle - 1 else 0;
        buf := buf + [ch];
      } else if ch == '{' {
        depthCurly := depthCurly + 1;
        buf := buf + [ch];
      } else if ch == '}' {
        depthCurly := if depthCurly - 1 > 0 then depthCurly - 1 else 0;
        buf := buf + [ch];
      } else if ch == '(' {
        depthParen := depthParen + 1;
        buf := buf + [ch];
      } else if ch == ')' {
        depthParen := if depthParen - 1 > 0 then depthParen - 1 else 0;
        buf := buf + [ch];
      } else if ch == ',' && depthAngle == 0 && depthCurly == 0 && depthParen == 0 {
        StripAllSnoc(raw, buf);
        PushPiece(raw, buf, "");
        parts := parts + [Strip(buf)];
        raw := raw + [buf];
        buf := [];
      } else {
        buf := buf + [ch];
      }
    }
    assert s[..|s|] == s;
    FinishSplit(s, raw, buf);
    if buf != [] {
      parts := parts + [Strip(buf)];
    }
    parts := NonEmpty(parts);
  }

  // ---------- properties ----------

  /** The counter updates of the loop body are `Step`, and a comma cuts exactly when all
      three counters are zero. */
  lemma StepOfCounters(a: nat, c: nat, p: nat, ch: char)
    ensures Step(Depths(a, c, p), ch)
         == if ch == '<' then Depths(a + 1, c, p)
            else if ch == '>' then Depths(if a - 1 > 0 then a - 1 else 0, c, p)
            else if ch == '{' then Depths(a, c + 1, p)
            else if ch == '}' then Depths(a, if c - 1 > 0 then c - 1 else 0, p)
            else if ch == '(' then Depths(a, c, p + 1)
            else if ch == ')' then Depths(a, c, if p - 1 > 0 then p - 1 else 0)
            else Depths(a, c, p)
    ensures IsCut(Depths(a, c, p), ch, AllScopes) <==> ch == ',' && a == 0 && c == 0 && p == 0
  {}

  lemma PushPiece<T>(raw: seq<T>, buf: T, e: T)
    ensures raw + [buf] + [e] == raw + [buf, e]
  {}

  lemma StripAllSnoc(xs: seq<string>, x: string)
    ensures StripAll(xs + [x]) == StripAll(xs) + [Strip(x)]
  {
    var l := StripAll(xs + [x]);
    var r := StripAll(xs);
    forall k | 0 <= k < |xs| ensures l[k] == r[k] {
      assert (xs + [x])[k] == xs[k];
    }
    assert (xs + [x])[|xs|] == x;
    SnocEq(l, r, Strip(x));
  }

  /** At the end of the loop, keeping or dropping the final buffer gives the same result. */
  lemma FinishSplit(s: string, raw: seq<string>, buf: string)
    requires raw + [buf] == Pieces(CLOSED, s, AllScopes)
    ensures SplitTypes(s) == NonEmpty(if buf != [] then StripAll(raw) + [Strip(buf)] else StripAll(raw))
  {
    StripAllSnoc(raw, buf);
    NonEmptySnoc(StripAll(raw), Strip(buf));
    if buf == [] {
      assert Strip(buf) == [];
    }
  }

  /** What reading `s[i]` does to the counters and to the pieces read so far. */
  lemma ReadOne(s: string, i: nat, raw: seq<string>, buf: string, scopes: Scopes)
    requires i < |s| && raw + [buf] == Pieces(CLOSED, s[..i], scopes)
    ensures Scan(CLOSED, s[..i + 1]) == Step(Scan(CLOSED, s[..i]), s[i])
    ensures Pieces(CLOSED, s[..i + 1], scopes)
         == if IsCut(Scan(CLOSED, s[..i]), s[i], scopes) then raw + [buf, ""] else raw + [buf + [s[i]]]
  {
    var ch, st := s[i], Scan(CLOSED, s[..i]);
    assert s[..i + 1] == s[..i] + [ch];
    ScanAppend(CLOSED, s[..i], [ch]);
    assert Scan(st, [ch]) == Scan(Step(st, ch), []);
    PiecesAppend(CLOSED, s[..i], [ch], scopes);
    PiecesOfChar(st, ch, scopes);
    var q := Pieces(st, [ch], scopes);
    MergeSnoc(raw, buf, q);
    if IsCut(st, ch, scopes) {
      assert buf + q[0] == buf;
      PushPiece(raw, buf, "");
    } else {
      assert q[1..] == [];
      AppendNone(raw + [buf + [ch]], q[1..]);
    }
  }

  lemma MergeSnoc(raw: seq<string>, buf: string, q: seq<string>)
    requires |q| >= 1
    ensures Merge(raw + [buf], q) == raw + [buf + q[0]] + q[1..]
  {
    DropLast(raw, buf);
  }

  lemma DropLast<T>(xs: seq<T>, x: T)
    ensures (xs + [x])[..|xs|] == xs && (xs + [x])[|xs|] == x
  {}

  lemma AppendNone<T>(xs: seq<T>, e: seq<T>)
    requires e == []
    ensures xs + e == xs
  {}

  lemma PiecesOfChar(st: Depths, c: char, scopes: Scopes)
    ensures Pieces(st, [c], scopes) == if IsCut(st, c, scopes) then ["", ""] else [[c]]
  {
    assert [c] != [] && [c][0] == c && [c][1..] == [];
    assert Pieces(Step(st, c), [], scopes) == [""];
    assert [c] + "" == [c];
  }

  lemma {:induction false} ScanAppend(st: Depths, a: string, b: string)
    ensures Scan(st, a + b) == Scan(Scan(st, a), b)
    decreases |a|
  {
    if a == [] {
      assert a + b == b;
    } else {
      assert (a + b)[0] == a[0] && (a + b)[1..] == a[1..] + b;
      ScanAppend(Step(st, a[0]), a[1..], b);
    }
  }

  function Merge(a: seq<string>, b: seq<string>): seq<string>
    requires |a| >= 1 && |b| >= 1
  {
    a[..|a| - 1] + [a[|a| - 1] + b[0]] + b[1..]
  }

  /** Splitting a concatenation: the last piece of `a` runs on into the first piece of `b`,
      which is read in the state `a` leaves behind. */
  lemma {:induction false} PiecesAppend(st: Depths, a: string, b: string, scopes: Scopes)
    ensures Pieces(st, a + b, scopes)
         == Merge(Pieces(st, a, scopes), Pieces(Scan(st, a), b, scopes))
    decreases |a|
  {
    if a == [] {
      assert a + b == b;
      assert Pieces(st, a, scopes) == [""];
      MergeEmpty(Pieces(st, b, scopes));
    } else {
      var c, st' := a[0], Step(st, a[0]);
      var p := Pieces(st', a[1..], scopes);
      var q := Pieces(Scan(st', a[1..]), b, scopes);
      var m := Merge(p, q);
      assert Pieces(st', (a + b)[1..], scopes) == m by {
        assert (a + b)[1..] == a[1..] + b;
        PiecesAppend(st', a[1..], b, scopes);
      }
      assert (a + b)[0] == c;
      assert Scan(st, a) == Scan(st', a[1..]);
      if IsCut(st, c, scopes) {
        MergeCons([""], p, q);
      } else {
        MergeExtendHead(c, p, q);
      }
    }
  }

  lemma MergeEmpty(q: seq<string>)
    requires |q| >= 1
    ensures Merge([""], q) == q
  {
    assert [""][..0] == [];
    assert "" + q[0] == q[0];
    assert [q[0]] + q[1..] == q;
  }

  lemma MergeCons(x: seq<string>, p: seq<string>, q: seq<string>)
    requires |p| >= 1 && |q| >= 1
    ensures Merge(x + p, q) == x + Merge(p, q)
  {
    assert (x + p)[..|x + p| - 1] == x + p[..|p| - 1];
  }

  lemma MergeExtendHead(c: char, p: seq<string>, q: seq<string>)
    requires |p| >= 1 && |q| >= 1
    ensures Merge([[c] + p[0]] + p[1..], q) == [[c] + Merge(p, q)[0]] + Merge(p, q)[1..]
  {
    var hd := [[c] + p[0]] + p[1..];
    if |p| == 1 {
      assert hd == [[c] + p[0]];
      assert p[..0] == [] && hd[..0] == [];
      assert Merge(p, q) == [p[0] + q[0]] + q[1..];
      assert [c] + p[0] + q[0] == [c] + (p[0] + q[0]);
      assert Merge(hd, q) == [[c] + p[0] + q[0]] + q[1..];
    } else {
      assert hd[..|hd| - 1] == [[c] + p[0]] + p[1..|p| - 1];
      assert Merge(p, q)[0] == p[0];
      assert Merge(p, q)[1..] == p[1..|p| - 1] + [p[|p| - 1] + q[0]] + q[1..];
    }
  }

  /** Every piece is at most as long as the whole joined text. */
  lemma {:induction false} PieceNoLongerThanJoin(sep: string, xs: seq<string>, k: nat)
    requires k < |xs|
    ensures |xs[k]| <= |Join(sep, xs)|
    decreases |xs|
  {
    if |xs| > 1 && k > 0 {
      PieceNoLongerThanJoin(sep, xs[1..], k - 1);
    }
  }

  /** There is one more piece than there are cuts. */
  lemma {:induction false} PieceCount(st: Depths, s: string, scopes: Scopes)
    ensures |Pieces(st, s, scopes)| == CutCount(st, s, scopes) + 1
    decreases |s|
  {
    if s != [] {
      PieceCount(Step(st, s[0]), s[1..], scopes);
    }
  }

  /** Nothing is lost: rejoining the raw pieces with commas gives back the input. */
  lemma {:induction false} JoinPieces(st: Depths, s: string, scopes: Scopes)
    ensures Join(",", Pieces(st, s, scopes)) == s
    decreases |s|
  {
    if s != [] {
      var rest := Pieces(Step(st, s[0]), s[1..], scopes);
      JoinPieces(Step(st, s[0]), s[1..], scopes);
      if IsCut(st, s[0], scopes) {
        assert ([""] + rest)[1..] == rest;
      } else if |rest| > 1 {
        assert ([[s[0]] + rest[0]] + rest[1..])[1..] == rest[1..];
      }
    }
  }

  /** A string read with no cut is a single piece. */
  lemma SinglePiece(st: Depths, s: string, scopes: Scopes)
    requires CutCount(st, s, scopes) == 0
    ensures Pieces(st, s, scopes) == [s]
  {
    PieceCount(st, s, scopes);
    JoinPieces(st, s, scopes);
  }

  lemma NonEmptySnoc(xs: seq<string>, x: string)
    ensures NonEmpty(xs + [x]) == if x == [] then NonEmpty(xs) else NonEmpty(xs) + [x]
  {
    NonEmptyAppend(xs, [x]);
    assert [x][1..] == [];
  }

  lemma {:induction false} NonEmptyAppend(xs: seq<string>, ys: seq<string>)
    ensures NonEmpty(xs + ys) == NonEmpty(xs) + NonEmpty(ys)
    decreases |xs|
  {
    if xs != [] {
      var x := xs[0];
      assert (xs + ys)[0] == x && (xs + ys)[1..] == xs[1..] + ys;
      NonEmptyAppend(xs[1..], ys);
      if x != [] {
        ConcatAssoc([x], NonEmpty(xs[1..]), NonEmpty(ys));
      }
    } else {
      assert xs + ys == ys;
    }
  }

  /** Splitting never breaks inside a scope: joining sealed pieces with commas and
      splitting again gives back exactly those pieces. */
  lemma {:induction false} SplitJoined(rs: seq<string>, scopes: Scopes)
    requires |rs| >= 1
    requires forall k :: 0 <= k < |rs| ==> Sealed(rs[k], scopes)
    ensures Pieces(CLOSED, Join(",", rs), scopes) == rs
    decreases |rs|
  {
    var r := rs[0];
    if |rs| == 1 {
      SinglePiece(CLOSED, r, scopes);
    } else {
      var tail := Join(",", rs[1..]);
      SplitJoined(rs[1..], scopes);
      assert Join(",", rs) == r + ("," + tail);
      SealedThenComma(r, tail, rs[1..], scopes);
      assert [r] + rs[1..] == rs;
    }
  }

  /** A sealed piece, a top-level comma, then text that splits into `rest`. */
  lemma SealedThenComma(r: string, tail: string, rest: seq<string>, scopes: Scopes)
    requires Sealed(r, scopes)
    requires Pieces(CLOSED, tail, scopes) == rest
    ensures Pieces(CLOSED, r + ("," + tail), scopes) == [r] + rest
  {
    SinglePiece(CLOSED, r, scopes);
    PiecesAppend(CLOSED, r, "," + tail, scopes);
    CommaCut(tail, rest, scopes);
    MergeSingle(r, rest);
  }

  /** A top-level comma in front of `tail` adds one empty piece in front of its pieces. */
  lemma CommaCut(tail: string, rest: seq<string>, scopes: Scopes)
    requires Pieces(CLOSED, tail, scopes) == rest
    ensures Pieces(CLOSED, "," + tail, scopes) == [""] + rest
  {
    assert ("," + tail)[0] == ',' && ("," + tail)[1..] == tail;
    assert IsCut(CLOSED, ',', scopes) && Step(CLOSED, ',') == CLOSED;
  }

  lemma MergeSingle(r: string, rest: seq<string>)
    ensures Merge([r], [""] + rest) == [r] + rest
  {
    var q := [""] + rest;
    assert q[0] == "" && q[1..] == rest && [r][..0] == [] && r + "" == r;
  }

  /** `split_types_list` of sealed, trimmed, non-empty types joined by commas returns them. */
  lemma SplitTypesOfJoin(rs: seq<string>)
    requires |rs| >= 1
    requires forall k :: 0 <= k < |rs| ==> Sealed(rs[k], AllScopes) && rs[k] != [] && Trimmed(rs[k])
    ensures SplitTypes(Join(",", rs)) == rs
  {
    SplitJoined(rs, AllScopes);
    assert StripAll(rs) == rs;
  }

  /** Comma-free input is one segment: `[s.strip()]`, or nothing when `s` is blank. */
  lemma {:induction false} SplitTypesNoComma(s: string)
    requires ',' !in s
    ensures SplitTypes(s) == if Strip(s) == [] then [] else [Strip(s)]
  {
    NoCommaNoCut(CLOSED, s, AllScopes);
    SinglePiece(CLOSED, s, AllScopes);
    var l := StripAll([s]);
    assert l[0] == Strip(s);
    assert l == [Strip(s)];
    assert [Strip(s)][1..] == [];
  }

  lemma {:induction false} NoCommaNoCut(st: Depths, s: string, scopes: Scopes)
    requires ',' !in s
    ensures CutCount(st, s, scopes) == 0
    decreases |s|
  {
    if s != [] {
      assert s[0] in s;
      assert forall c :: c in s[1..] ==> c in s;
      NoCommaNoCut(Step(st, s[0]), s[1..], scopes);
    }
  }

  /** Inside an open `{` scope that is never closed no comma cuts, so everything after the
      opener stays in the last segment. */
  lemma {:induction false} OpenCurlyNeverCuts(st: Depths, s: string)
    requires st.curly > 0 && '}' !in s
    ensures CutCount(st, s, AllScopes) == 0
    decreases |s|
  {
    if s != [] {
      assert s[0] in s;
      assert forall c :: c in s[1..] ==> c in s;
      OpenCurlyNeverCuts(Step(st, s[0]), s[1..]);
    }
  }

  /** An unterminated scope flushes as the last segment. */
  lemma UnterminatedScopeIsLast(a: string, b: string)
    requires Scan(CLOSED, a).curly > 0 && '}' !in b
    ensures Pieces(CLOSED, a + b, AllScopes)
         == Merge(Pieces(CLOSED, a, AllScopes), [b])
  {
    PiecesAppend(CLOSED, a, b, AllScopes);
    OpenCurlyNeverCuts(Scan(CLOSED, a), b);
    SinglePiece(Scan(CLOSED, a), b, AllScopes);
  }

  // ---------- balanced text ----------

  /** A character the splitter looks at: a bracket or a comma. */
  predicate IsMarker(c: char) {
    c == '<' || c == '>' || c == '{' || c == '}' || c == '(' || c == ')' || c == ','
  }

  /** Text the splitter passes over without changing state (names, `[]`, `?`, blanks). */
  predicate Plain(x: string) { forall i :: 0 <= i < |x| ==> !IsMarker(x[i]) }

  /** Text that leaves every state as it found it and never cuts: every scope it opens
      it closes again, and its commas all sit inside such a scope. */
  ghost predicate Balanced(x: string) {
    forall st :: Scan(st, x) == st && CutCount(st, x, AllScopes) == 0
  }

  lemma {:induction false} CutCountAppend(st: Depths, a: string, b: string, scopes: Scopes)
    ensures CutCount(st, a + b, scopes) == CutCount(st, a, scopes) + CutCount(Scan(st, a), b, scopes)
    decreases |a|
  {
    if a == [] {
      assert a + b == b;
    } else {
      assert (a + b)[0] == a[0] && (a + b)[1..] == a[1..] + b;
      CutCountAppend(Step(st, a[0]), a[1..], b, scopes);
    }
  }

  lemma {:induction false} PlainIsBalanced(x: string)
    requires Plain(x)
    ensures Balanced(x)
    decreases |x|
  {
    if x != [] {
      assert !IsMarker(x[0]);
      assert Plain(x[1..]) by {
        assert forall i :: 0 <= i < |x| - 1 ==> x[1..][i] == x[i + 1];
      }
      PlainIsBalanced(x[1..]);
      forall st ensures Scan(st, x) == st && CutCount(st, x, AllScopes) == 0 {
        assert Step(st, x[0]) == st && !IsCut(st, x[0], AllScopes);
        assert Scan(st, x) == Scan(st, x[1..]);
        assert CutCount(st, x, AllScopes) == CutCount(st, x[1..], AllScopes);
      }
    }
  }

  lemma BalancedConcat(a: string, b: string)
    requires Balanced(a) && Balanced(b)
    ensures Balanced(a + b)
  {
    forall st ensures Scan(st, a + b) == st && CutCount(st, a + b, AllScopes) == 0 {
      ScanAppend(st, a, b);
      CutCountAppend(st, a, b, AllScopes);
    }
  }

  /** Inside an open `{` scope, balanced text joined by commas changes nothing and never cuts. */
  lemma {:induction false} JoinInsideCurly(st: Depths, xs: seq<string>)
    requires st.curly > 0
    requires forall k :: 0 <= k < |xs| ==> Balanced(xs[k])
    ensures Scan(st, Join(",", xs)) == st && CutCount(st, Join(",", xs), AllScopes) == 0
    decreases |xs|
  {
    if |xs| == 1 {
      assert Balanced(xs[0]);
    } else if |xs| > 1 {
      var tail := Join(",", xs[1..]);
      JoinInsideCurly(st, xs[1..]);
      assert Balanced(xs[0]);
      assert Join(",", xs) == xs[0] + ("," + tail);
      ScanAppend(st, xs[0], "," + tail);
      CutCountAppend(st, xs[0], "," + tail, AllScopes);
      assert ("," + tail)[0] == ',' && ("," + tail)[1..] == tail;
      assert !IsCut(st, ',', AllScopes) && Step(st, ',') == st;
    }
  }

  /** A brace group of balanced, comma-separated text is balanced. */
  lemma CurlyGroupIsBalanced(xs: seq<string>)
    requires forall k :: 0 <= k < |xs| ==> Balanced(xs[k])
    ensures Balanced("{" + Join(",", xs) + "}")
  {
    var inner := Join(",", xs);
    forall st ensures Scan(st, "{" + inner + "}") == st
                   && CutCount(st, "{" + inner + "}", AllScopes) == 0 {
      var st1 := Step(st, '{');
      assert st1.curly > 0;
      JoinInsideCurly(st1, xs);
      assert "{" + inner + "}" == "{" + (inner + "}");
      ScanAppend(st1, inner, "}");
      CutCountAppend(st1, inner, "}", AllScopes);
      assert Scan(st1, "}") == Step(st1, '}') == st;
      assert CutCount(st1, "}", AllScopes) == 0;
    }
  }

  /** The bracket-aware splitter separates `Dict{K,V}, T` into the generic and `T`:
      the comma inside the braces does not cut. */
  lemma GenericPairSplit(base: string, k: string, v: string, t: string)
    requires Plain(base) && Plain(k) && Plain(v) && Plain(t)
    requires base != [] && Trimmed(base) && t != [] && Trimmed(t)
    ensures SplitTypes(base + "{" + k + "," + v + "}, " + t) == [base + "{" + k + "," + v + "}", t]
  {
    var g := base + "{" + k + "," + v + "}";
    var rs := [g, " " + t];
    PlainIsBalanced(base);
    PlainIsBalanced(k);
    PlainIsBalanced(v);
    assert [k, v][1..] == [v];
    assert Join(",", [k, v]) == k + "," + v;
    CurlyGroupIsBalanced([k, v]);
    assert g == base + ("{" + Join(",", [k, v]) + "}");
    BalancedConcat(base, "{" + Join(",", [k, v]) + "}");
    assert Plain(" " + t) by {
      assert forall i :: 1 <= i < |" " + t| ==> (" " + t)[i] == t[i - 1];
    }
    PlainIsBalanced(" " + t);
    assert rs[1..] == [" " + t];
    assert Join(",", rs) == g + "," + (" " + t);
    assert g + "," + (" " + t) == base + "{" + k + "," + v + "}, " + t;
    SplitJoined(rs, AllScopes);
    assert g != [] && g[0] == base[0] && g[|g| - 1] == '}';
    assert !IsSpace('}');
    StripLeadingBlank(t);
    StripAllPair(g, " " + t);
    NonEmptyPair(g, t);
  }

  lemma StripLeadingBlank(t: string)
    requires t != [] && Trimmed(t)
    ensures Strip(" " + t) == t
  {
    assert (" " + t)[1..] == t;
    assert IsSpace(' ');
    assert TrimLeft(" " + t) == TrimLeft(t) == t;
  }

  lemma StripAllPair(a: string, b: string)
    ensures StripAll([a, b]) == [Strip(a), Strip(b)]
  {
    var l := StripAll([a, b]);
    assert l[0] == Strip(a) && l[1] == Strip(b);
    PairEq(l, Strip(a), Strip(b));
  }

  lemma PairEq<T>(l: seq<T>, x: T, y: T)
    requires |l| == 2 && l[0] == x && l[1] == y
    ensures l == [x, y]
  {}

  lemma NonEmptyPair(a: string, b: string)
    requires a != [] && b != []
    ensures NonEmpty([a, b]) == [a, b]
  {}

  /** An unmatched closer is clamped: `>` before any `<` leaves the next comma cutting. */
  lemma ClampExample()
    ensures SplitTypes("a>,b") == ["a>", "b"]
  {
    var rs := ["a>", "b"];
    assert Join(",", rs) == "a>,b";
    assert Sealed("a>", AllScopes);
    assert Sealed("b", AllScopes);
    SplitTypesOfJoin(rs);
  }
}
