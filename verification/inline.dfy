/**
 The inline markdown tokenisers of scripts/markdown_to_ppt.py.

 `parse_markdown_formatting` runs `re.finditer` with the notes pattern
   (\*\*[^*]+\*\*|_[^_]+_|\*[^*]+\*|`[^`]+`|~~[^~]+~~|\[[^\]]+\]\([^)]+\)|[^*_`~\[](?:[^*_`~\[]*[^*_`~\[\s])?)
 over each line, and `format_focal_points_text` runs `re.split` with its
 first five alternatives (the focal pattern).  Both are modelled by one
 left-to-right scanner: at each position the alternatives are tried in order,
 a match is emitted as a token and scanning resumes after it; positions where
 nothing matches accumulate into gap text.  Text frames and runs become
 paragraphs of spans.
 */
module Inline {
  import opened Optional
  import opened Text

  /** The characters the plain-run alternative refuses. */
  predicate Special(c: char) {
    c == '*' || c == '_' || c == '`' || c == '~' || c == '['
  }

  predicate NoSpecial(t: string) {
    forall k :: 0 <= k < |t| ==> !Special(t[k])
  }

  /** The notes pattern (seven alternatives) or the focal pattern (five). */
  datatype Pattern = Notes | Focal

  // ---------------------------------------------------------------------
  // Token shapes

  /** `m[^d]+m` for a marker m made of the character d. */
  predicate Fenced(t: string, m: string)
    requires |m| >= 1
  {
    |t| > 2 * |m| && OccursAt(t, m, 0) && EndsWith(t, m)
    && forall k :: |m| <= k < |t| - |m| ==> t[k] != m[0]
  }

  /** `\[[^\]]+\]\([^)]+\)` split at the "](" at j. */
  predicate LinkSplitAt(t: string, j: nat) {
    1 < j && j + 3 < |t| && t[0] == '[' && t[j] == ']' && t[j + 1] == '(' && t[|t| - 1] == ')'
    && (forall k :: 1 <= k < j ==> t[k] != ']')
    && (forall k :: j + 2 <= k < |t| - 1 ==> t[k] != ')')
  }

  predicate LinkToken(t: string) {
    exists j :: 0 <= j < |t| && LinkSplitAt(t, j)
  }

  /** What the plain-run alternative matches: non-special characters only. */
  predicate PlainRun(t: string) {
    t != [] && NoSpecial(t)
  }

  predicate TokenShape(t: string, pat: Pattern) {
    Fenced(t, "**") || Fenced(t, "_") || Fenced(t, "*") || Fenced(t, "`") || Fenced(t, "~~")
    || (pat == Notes && (LinkToken(t) || PlainRun(t)))
  }

  // ---------------------------------------------------------------------
  // The alternatives at one position: each gives the end of its match, or i

  function FencedEnd(l: string, i: nat, m: string): (e: nat)
    requires i <= |l| && 1 <= |m|
    ensures e == i || (i < e <= |l| && Fenced(l[i..e], m))
  {
    if OccursAt(l, m, i) then
      var j := IndexOf(l, m[0], i + |m|);
      if j > i + |m| && OccursAt(l, m, j) then
        var t := l[i..j + |m|];
        assert t[..|m|] == l[i..i + |m|];
        assert t[|t| - |m|..] == l[j..j + |m|];
        assert forall k :: |m| <= k < |t| - |m| ==> t[k] == l[i + k];
        j + |m|
      else i
    else i
  }

  function LinkEnd(l: string, i: nat): (e: nat)
    requires i <= |l|
    ensures e == i || (i < e <= |l| && LinkToken(l[i..e]))
  {
    if i < |l| && l[i] == '[' then
      var j := IndexOf(l, ']', i + 1);
      if j > i + 1 && j + 1 < |l| && l[j + 1] == '(' then
        var k := IndexOf(l, ')', j + 2);
        if k > j + 2 && k < |l| then
          var t := l[i..k + 1];
          assert LinkSplitAt(t, j - i) by {
            assert forall x :: 0 <= x < |t| ==> t[x] == l[i + x];
          }
          k + 1
        else i
      else i
    else i
  }

  /** The first special character at or after i, or |l|. */
  function SpecialFrom(l: string, i: nat): (r: nat)
    requires i <= |l|
    ensures i <= r <= |l|
    ensures r < |l| ==> Special(l[r])
    ensures forall k :: i <= k < r ==> !Special(l[k])
    decreases |l| - i
  {
    if i == |l| || Special(l[i]) then i else SpecialFrom(l, i + 1)
  }

  /** `[^*_`~\[](?:[^*_`~\[]*[^*_`~\[\s])?`: a non-special character, then as
      much of the following non-special run as ends in a non-space. */
  function PlainEnd(l: string, i: nat): (e: nat)
    requires i < |l|
    ensures Special(l[i]) ==> e == i
    ensures !Special(l[i]) ==> i < e <= |l| && PlainRun(l[i..e])
    ensures !Special(l[i]) ==> e == i + 1 || !IsSpace(l[e - 1])
    ensures !Special(l[i]) ==> forall k :: e <= k < SpecialFrom(l, i + 1) ==> IsSpace(l[k])
  {
    if Special(l[i]) then i
    else
      var r := SpecialFrom(l, i + 1);
      var keep := (k: nat) => k < |l| && !IsSpace(l[k]);
      var k := LastWhere(i + 1, r, keep);
      var e := if k == r then i + 1 else k + 1;
      assert forall x :: e <= x < r ==> IsSpace(l[x]) by {
        forall x | e <= x < r ensures IsSpace(l[x]) { assert !keep(x); }
      }
      assert forall x :: 0 <= x < e - i ==> l[i..e][x] == l[i + x];
      e
  }

  /** The end of the pattern's match at i, trying the alternatives in order;
      i when none matches. */
  function MatchEnd(l: string, i: nat, pat: Pattern): (e: nat)
    requires i < |l|
    ensures i <= e <= |l|
    ensures e > i ==> TokenShape(l[i..e], pat)
    ensures pat == Notes && !Special(l[i]) ==> e > i
  {
    var bold := FencedEnd(l, i, "**");
    if bold > i then bold else
    var under := FencedEnd(l, i, "_");
    if under > i then under else
    var star := FencedEnd(l, i, "*");
    if star > i then star else
    var code := FencedEnd(l, i, "`");
    if code > i then code else
    var strike := FencedEnd(l, i, "~~");
    if strike > i then strike else
    if pat == Focal then i else
    var link := LinkEnd(l, i);
    if link > i then link else PlainEnd(l, i)
  }

  /** The regex engine tries the alternatives in order: a token of any shape
      at i is the match `MatchEnd` finds, with "**" winning over "*", and an
      unmatched position admits no token at all. */
  lemma MatchEndPriority(l: string, i: nat, pat: Pattern)
    requires i < |l|
    ensures forall e :: i < e <= |l| && Fenced(l[i..e], "**") ==> MatchEnd(l, i, pat) == e
    ensures forall e :: i < e <= |l| && Fenced(l[i..e], "_") ==> MatchEnd(l, i, pat) == e
    ensures forall e :: i < e <= |l| && Fenced(l[i..e], "*") ==> MatchEnd(l, i, pat) == e
    ensures forall e :: i < e <= |l| && Fenced(l[i..e], "`") ==> MatchEnd(l, i, pat) == e
    ensures forall e :: i < e <= |l| && Fenced(l[i..e], "~~") ==> MatchEnd(l, i, pat) == e
    ensures pat == Notes ==> forall e :: i < e <= |l| && LinkToken(l[i..e]) ==> MatchEnd(l, i, pat) == e
    ensures pat == Notes && !Special(l[i]) ==> MatchEnd(l, i, pat) == PlainEnd(l, i)
    ensures pat == Focal && !Special(l[i]) ==> MatchEnd(l, i, pat) == i
    ensures forall e :: i < e <= |l| && TokenShape(l[i..e], pat) ==> MatchEnd(l, i, pat) > i
  {
    forall e | i < e <= |l|
      ensures Fenced(l[i..e], "**") ==> MatchEnd(l, i, pat) == e
      ensures Fenced(l[i..e], "_") ==> MatchEnd(l, i, pat) == e
      ensures Fenced(l[i..e], "*") ==> MatchEnd(l, i, pat) == e
      ensures Fenced(l[i..e], "`") ==> MatchEnd(l, i, pat) == e
      ensures Fenced(l[i..e], "~~") ==> MatchEnd(l, i, pat) == e
      ensures pat == Notes && LinkToken(l[i..e]) ==> MatchEnd(l, i, pat) == e
      ensures TokenShape(l[i..e], pat) ==> MatchEnd(l, i, pat) > i
    {
      MatchEndAt(l, i, pat, e);
    }
    if !Special(l[i]) {
      MissesFenced(l, i);
      assert LinkEnd(l, i) == i;
    }
  }

  /** `MatchEndPriority` for one candidate end e. */
  lemma MatchEndAt(l: string, i: nat, pat: Pattern, e: nat)
    requires i < e <= |l|
    ensures Fenced(l[i..e], "**") ==> MatchEnd(l, i, pat) == e
    ensures Fenced(l[i..e], "_") ==> MatchEnd(l, i, pat) == e
    ensures Fenced(l[i..e], "*") ==> MatchEnd(l, i, pat) == e
    ensures Fenced(l[i..e], "`") ==> MatchEnd(l, i, pat) == e
    ensures Fenced(l[i..e], "~~") ==> MatchEnd(l, i, pat) == e
    ensures pat == Notes && LinkToken(l[i..e]) ==> MatchEnd(l, i, pat) == e
    ensures TokenShape(l[i..e], pat) ==> MatchEnd(l, i, pat) > i
  {
    var t := l[i..e];
    assert t[0] == l[i];
    if Fenced(t, "**") {
      FencedUnique(l, i, "**", e);
    } else if Fenced(t, "_") {
      FencedMiss(l, i, "**");
      FencedUnique(l, i, "_", e);
    } else if Fenced(t, "*") {
      StarWins(l, i, e);
    } else if Fenced(t, "`") {
      FencedMiss(l, i, "**");
      FencedMiss(l, i, "_");
      FencedMiss(l, i, "*");
      FencedUnique(l, i, "`", e);
    } else if Fenced(t, "~~") {
      TildeWins(l, i, e);
    } else if pat == Notes && LinkToken(t) {
      MissesFenced(l, i);
      LinkUnique(l, i, e);
    }
  }

  /** "*x*" is not the start of a "**" match, so the italic alternative wins. */
  lemma StarWins(l: string, i: nat, e: nat)
    requires i < e <= |l| && Fenced(l[i..e], "*")
    ensures FencedEnd(l, i, "**") == i && FencedEnd(l, i, "_") == i && FencedEnd(l, i, "*") == e
  {
    var t := l[i..e];
    assert t[0] == l[i] && t[1] == l[i + 1] && t[1] != '*';
    assert i + 2 <= |l| ==> l[i..i + 2][1] == l[i + 1];
    FencedMiss(l, i, "_");
    FencedUnique(l, i, "*", e);
  }

  lemma TildeWins(l: string, i: nat, e: nat)
    requires i < e <= |l| && Fenced(l[i..e], "~~")
    ensures FencedEnd(l, i, "**") == i && FencedEnd(l, i, "_") == i && FencedEnd(l, i, "*") == i
    ensures FencedEnd(l, i, "`") == i && FencedEnd(l, i, "~~") == e
  {
    assert l[i..e][0] == l[i];
    FencedMiss(l, i, "**");
    FencedMiss(l, i, "_");
    FencedMiss(l, i, "*");
    FencedMiss(l, i, "`");
    FencedUnique(l, i, "~~", e);
  }

  /** None of the five fenced alternatives matches at a non-fence character. */
  lemma MissesFenced(l: string, i: nat)
    requires i < |l| && l[i] != '*' && l[i] != '_' && l[i] != '`' && l[i] != '~'
    ensures FencedEnd(l, i, "**") == i && FencedEnd(l, i, "_") == i && FencedEnd(l, i, "*") == i
    ensures FencedEnd(l, i, "`") == i && FencedEnd(l, i, "~~") == i
  {
    FencedMiss(l, i, "**");
    FencedMiss(l, i, "_");
    FencedMiss(l, i, "*");
    FencedMiss(l, i, "`");
    FencedMiss(l, i, "~~");
  }

  /** A fence that does not start with l[i] cannot match at i. */
  lemma FencedMiss(l: string, i: nat, m: string)
    requires i < |l| && 1 <= |m| && l[i] != m[0]
    ensures FencedEnd(l, i, m) == i
  {
    assert i + |m| <= |l| ==> l[i..i + |m|][0] == l[i];
  }

  /** A fenced token at i is exactly the one `FencedEnd` finds. */
  lemma FencedUnique(l: string, i: nat, m: string, e: nat)
    requires i < e <= |l| && 1 <= |m| && Fenced(l[i..e], m)
    ensures FencedEnd(l, i, m) == e
  {
    var t := l[i..e];
    var j := e - |m|;
    assert forall k :: i + |m| <= k < j ==> l[k] != m[0] by {
      forall k | i + |m| <= k < j ensures l[k] != m[0] { assert l[k] == t[k - i]; }
    }
    assert l[i..i + |m|] == t[..|m|];
    assert l[j..e] == t[|t| - |m|..];
    assert l[j] == t[|t| - |m|] == m[0];
    IndexOfSkips(l, m[0], i + |m|, j);
    assert OccursAt(l, m, i) && OccursAt(l, m, j) && j > i + |m|;
  }

  /** A link token at i is exactly the one `LinkEnd` finds. */
  lemma LinkUnique(l: string, i: nat, e: nat)
    requires i < e <= |l| && LinkToken(l[i..e])
    ensures LinkEnd(l, i) == e
  {
    var t := l[i..e];
    var j :| 0 <= j < |t| && LinkSplitAt(t, j);
    assert forall k :: i + 1 <= k < i + j ==> l[k] != ']' by {
      forall k | i + 1 <= k < i + j ensures l[k] != ']' { assert l[k] == t[k - i]; }
    }
    assert l[i + j] == t[j];
    IndexOfSkips(l, ']', i + 1, i + j);
    assert l[i + j + 1] == t[j + 1];
    assert forall k :: i + j + 2 <= k < e - 1 ==> l[k] != ')' by {
      forall k | i + j + 2 <= k < e - 1 ensures l[k] != ')' { assert l[k] == t[k - i]; }
    }
    assert l[e - 1] == t[|t| - 1];
    IndexOfSkips(l, ')', i + j + 2, e - 1);
  }

  // ---------------------------------------------------------------------
  // Scanning a line into gaps and tokens

  /** Unmatched text between matches, or one match. */
  datatype Piece = Gap(text: string) | Token(text: string)

  function Texts(pieces: seq<Piece>): string {
    if pieces == [] then [] else pieces[0].text + Texts(pieces[1..])
  }

  lemma {:induction false} TextsAppend(a: seq<Piece>, b: seq<Piece>)
    ensures Texts(a + b) == Texts(a) + Texts(b)
    decreases |a|
  {
    if a == [] {
      assert a + b == b;
    } else {
      assert (a + b)[1..] == a[1..] + b;
      TextsAppend(a[1..], b);
    }
  }

  predicate AllSpecial(t: string) {
    forall k :: 0 <= k < |t| ==> Special(t[k])
  }

  /** The properties every scan result has. */
  predicate Scanned(l: string, pat: Pattern, pieces: seq<Piece>) {
    && Texts(pieces) == l
    && (forall k :: 0 <= k < |pieces| ==> pieces[k].text != [])
    && (forall k :: 0 <= k < |pieces| && pieces[k].Token? ==> TokenShape(pieces[k].text, pat))
    && (pat == Notes ==> forall k :: 0 <= k < |pieces| && pieces[k].Gap? ==> AllSpecial(pieces[k].text))
    && (forall k :: 0 <= k < |pieces| - 1 ==> pieces[k].Token? || pieces[k + 1].Token?)
  }

  /** Positions start .. i-1 have been passed over without a match (under the
      notes pattern only special characters can be); scanning continues at i. */
  function ScanFrom(l: string, pat: Pattern, start: nat, i: nat): (pieces: seq<Piece>)
    requires start <= i <= |l|
    requires pat == Notes ==> AllSpecial(l[start..i])
    ensures Scanned(l[start..], pat, pieces)
    decreases |l| - i
  {
    if i == |l| then
      TailGap(l, pat, start);
      if start < i then [Gap(l[start..])] else []
    else
      var e := MatchEnd(l, i, pat);
      if e > i then
        var rest := ScanFrom(l, pat, e, e);
        Emit(l, pat, start, i, e, rest);
        (if start < i then [Gap(l[start..i])] else []) + [Token(l[i..e])] + rest
      else
        SpecialSnoc(l, pat, start, i);
        ScanFrom(l, pat, start, i + 1)
  }

  /** Unmatched text up to the end of the line is its last piece. */
  lemma TailGap(l: string, pat: Pattern, start: nat)
    requires start <= |l|
    requires pat == Notes ==> AllSpecial(l[start..|l|])
    ensures Scanned(l[start..], pat, if start < |l| then [Gap(l[start..])] else [])
  {
    assert l[start..|l|] == l[start..];
    if start < |l| {
      assert Texts([Gap(l[start..])]) == l[start..] + [];
    }
  }

  /** One more passed-over character keeps the gap special: a character
      where nothing matches under the notes pattern is special. */
  lemma SpecialSnoc(l: string, pat: Pattern, start: nat, i: nat)
    requires start <= i < |l|
    requires pat == Notes ==> AllSpecial(l[start..i])
    requires MatchEnd(l, i, pat) == i
    ensures pat == Notes ==> AllSpecial(l[start..i + 1])
  {
    if pat == Notes {
      assert Special(l[i]);
      assert l[start..i + 1] == l[start..i] + [l[i]];
    }
  }

  /** A gap, a token and the scan of the rest make a scan of the whole. */
  lemma Emit(l: string, pat: Pattern, start: nat, i: nat, e: nat, rest: seq<Piece>)
    requires start <= i < e <= |l|
    requires TokenShape(l[i..e], pat)
    requires pat == Notes ==> AllSpecial(l[start..i])
    requires Scanned(l[e..], pat, rest)
    ensures Scanned(l[start..], pat, (if start < i then [Gap(l[start..i])] else []) + [Token(l[i..e])] + rest)
  {
    var g, t, r := l[start..i], l[i..e], l[e..];
    assert l[start..e] == g + t;
    assert l[start..] == l[start..e] + r;
    var gap := if start < i then [Gap(g)] else [];
    GapToken(g, t, pat);
    ScannedAppend(g + t, r, pat, gap + [Token(t)], rest);
  }

  /** An optional gap followed by a token. */
  lemma GapToken(g: string, t: string, pat: Pattern)
    requires TokenShape(t, pat) && t != []
    requires pat == Notes ==> AllSpecial(g)
    ensures Scanned(g + t, pat, (if g != [] then [Gap(g)] else []) + [Token(t)])
  {
    var gap := if g != [] then [Gap(g)] else [];
    assert Scanned(g, pat, gap) by {
      if g != [] { assert Texts(gap) == g + []; }
    }
    assert Scanned(t, pat, [Token(t)]) by {
      assert Texts([Token(t)]) == t + [];
    }
    ScannedAppend(g, t, pat, gap, [Token(t)]);
  }

  /** Scans of two texts join into a scan of the joined text, provided no two
      gaps meet at the seam. */
  lemma ScannedAppend(a: string, b: string, pat: Pattern, p: seq<Piece>, q: seq<Piece>)
    requires Scanned(a, pat, p) && Scanned(b, pat, q)
    requires p == [] || q == [] || p[|p| - 1].Token? || q[0].Token?
    ensures Scanned(a + b, pat, p + q)
  {
    TextsAppend(p, q);
    var pq := p + q;
    assert forall k :: |p| <= k < |pq| ==> pq[k] == q[k - |p|];
    assert forall k :: 0 <= k < |p| ==> pq[k] == p[k];
  }

  /** The pieces of a whole line. */
  function Scan(l: string, pat: Pattern): (pieces: seq<Piece>)
    ensures Scanned(l, pat, pieces)
  {
    assert l[0..] == l;
    ScanFrom(l, pat, 0, 0)
  }

  // ---------------------------------------------------------------------
  // Classifying a token into a styled span (lines 311-332 and 419-434)

  /** A run of text with the formatting python-pptx would give it. */
  datatype Span = Span(text: string, bold: bool, italic: bool, code: bool, strike: bool, link: Option<string>)

  function Unstyled(t: string): Span {
    Span(t, false, false, false, false, None)
  }

  /** `t.startswith(m) and t.endswith(m)`. */
  predicate Wrapped(t: string, m: string) {
    StartsWith(t, m) && EndsWith(t, m)
  }

  /** Python's `t[n:-n]` for n >= 1: empty when t is too short. */
  function Inner(t: string, n: nat): string {
    if |t| >= 2 * n then t[n..|t| - n] else []
  }

  /** `re.match(r'\[([^\]]+)\]\(([^)]+)\)', t)`: link text and target. */
  function LinkParts(t: string): (parts: Option<(string, string)>)
    ensures forall j :: 0 <= j < |t| && LinkSplitAt(t, j) ==> parts == Some((t[1..j], t[j + 2..|t| - 1]))
  {
    var e := LinkEnd(t, 0);
    if e > 0 then
      var j := IndexOf(t, ']', 1);
      var k := IndexOf(t, ')', j + 2);
      forall j' | 0 <= j' < |t| ensures LinkSplitAt(t, j') ==> j' == j && k == |t| - 1 {
        LinkFound(t, j');
      }
      Some((t[1..j], t[j + 2..k]))
    else
      forall j | 0 <= j < |t| ensures LinkSplitAt(t, j) ==> LinkEnd(t, 0) == |t| {
        LinkFound(t, j);
      }
      None
  }

  /** A link split at j is where the scanner's link search stops. */
  lemma LinkFound(t: string, j: nat)
    ensures LinkSplitAt(t, j) ==>
              && IndexOf(t, ']', 1) == j && IndexOf(t, ')', j + 2) == |t| - 1
              && LinkEnd(t, 0) == |t|
  {
    if LinkSplitAt(t, j) {
      IndexOfSkips(t, ']', 1, j);
      IndexOfSkips(t, ')', j + 2, |t| - 1);
    }
  }

  /** The formatting flags are computed independently, as the source does;
      the text loses its markers by the first flag that holds.  `links` is
      false for focal points, whose loop has no link test. */
  function Style(t: string, links: bool): (sp: Span)
    ensures sp.link.Some? <==> links && StartsWith(t, "[") && Contains(t, "](")
  {
    var bold := Wrapped(t, "**");
    var italic := Wrapped(t, "_") || (Wrapped(t, "*") && !StartsWith(t, "**"));
    var code := Wrapped(t, "`");
    var strike := Wrapped(t, "~~");
    var link := links && StartsWith(t, "[") && Contains(t, "](");
    var parts := LinkParts(t);
    var text :=
      if bold then Inner(t, 2)
      else if italic || code then Inner(t, 1)
      else if strike then Inner(t, 2)
      else if link then (if parts.Some? then parts.value.0 else t)
      else t;
    var target := if parts.Some? then parts.value.1 else "";
    Span(text, bold, italic, code, strike, if link then Some(target) else None)
  }

  /** A token with its markers taken off: the span the source builds for it. */
  predicate Strips(t: string, sp: Span) {
    || (Fenced(t, "**") && sp == Span(t[2..|t| - 2], true, false, false, false, None))
    || ((Fenced(t, "_") || Fenced(t, "*")) && sp == Span(t[1..|t| - 1], false, true, false, false, None))
    || (Fenced(t, "`") && sp == Span(t[1..|t| - 1], false, false, true, false, None))
    || (Fenced(t, "~~") && sp == Span(t[2..|t| - 2], false, false, false, true, None))
    || (exists j :: 0 <= j < |t| && LinkSplitAt(t, j)
          && sp == Span(t[1..j], false, false, false, false, Some(t[j + 2..|t| - 1])))
    || (PlainRun(t) && sp == Unstyled(t))
  }

  /** Bold and strikethrough tokens lose two characters on each side, italic
      and code tokens one, a link keeps its text and target, and a plain run
      carries no style. */
  lemma StyleStrips(t: string, pat: Pattern)
    requires TokenShape(t, pat)
    ensures Strips(t, Style(t, pat == Notes))
  {
    var links := pat == Notes;
    if Fenced(t, "**") {
      BoldStrips(t, links);
    } else if Fenced(t, "_") || Fenced(t, "*") {
      ItalicStrips(t, links);
    } else if Fenced(t, "`") {
      CodeStrips(t, links);
    } else if Fenced(t, "~~") {
      StrikeStrips(t, links);
    } else if LinkToken(t) {
      LinkStrips(t);
    } else {
      PlainStrips(t);
    }
  }

  lemma BoldStrips(t: string, links: bool)
    requires Fenced(t, "**")
    ensures Strips(t, Style(t, links))
  {
    assert t[1] == '*';
    NotLink(t, links);
  }

  lemma ItalicStrips(t: string, links: bool)
    requires !Fenced(t, "**") && (Fenced(t, "_") || Fenced(t, "*"))
    ensures Strips(t, Style(t, links))
  {
    if Fenced(t, "*") {
      assert t[1] != '*';
    }
    NotLink(t, links);
  }

  lemma CodeStrips(t: string, links: bool)
    requires Fenced(t, "`")
    ensures Strips(t, Style(t, links))
  {
    NotLink(t, links);
  }

  lemma StrikeStrips(t: string, links: bool)
    requires Fenced(t, "~~") && !Fenced(t, "`")
    ensures Strips(t, Style(t, links))
  {
    NotLink(t, links);
  }

  lemma LinkStrips(t: string)
    requires LinkToken(t)
    ensures Strips(t, Style(t, true))
  {
    var j :| 0 <= j < |t| && LinkSplitAt(t, j);
    assert OccursAt(t, "](", j);
  }

  lemma PlainStrips(t: string)
    requires PlainRun(t)
    ensures Strips(t, Style(t, true))
  {
    assert !Special(t[0]);
    assert !StartsWith(t, "[");
  }

  lemma NotLink(t: string, links: bool)
    requires t != [] && t[0] != '['
    ensures !(links && StartsWith(t, "[") && Contains(t, "]("))
  {
  }

  // ---------------------------------------------------------------------
  // parse_markdown_formatting: lines to paragraphs

  type Paragraph = seq<Span>

  /** The spans of one non-blank line: a plain gap that is blank is skipped,
      every other piece becomes one span. */
  function LineSpans(l: string): (spans: Paragraph)
    requires !AllSpace(l)
  {
    var pieces := Scan(l, Notes);
    Runs(if pieces == [] then [Gap(l)] else pieces)
  }

  function Runs(pieces: seq<Piece>): (spans: seq<Span>)
    ensures |spans| <= |pieces|
  {
    if pieces == [] then [] else RunOf(pieces[0]) + Runs(pieces[1..])
  }

  /** The run a piece adds: a blank gap adds none. */
  function RunOf(p: Piece): (spans: seq<Span>)
    ensures |spans| <= 1
  {
    match p
    case Gap(t) => if AllSpace(t) then [] else [Unstyled(t)]
    case Token(t) => [Style(t, true)]
  }

  /** Every piece of a non-blank line gives exactly one span: a gap keeps its
      characters unstyled, a token loses its markers. */
  lemma {:induction false} LineSpansStrip(l: string)
    requires !AllSpace(l)
    ensures |LineSpans(l)| == |Scan(l, Notes)|
    ensures forall k :: 0 <= k < |LineSpans(l)| ==> SpanOf(Scan(l, Notes)[k], LineSpans(l)[k])
  {
    var pieces := Scan(l, Notes);
    assert l != [];
    assert pieces != [];
    assert forall k :: 0 <= k < |pieces| ==> PieceShape(pieces[k]);
    RunsStrip(pieces);
  }

  lemma {:induction false} RunsStrip(pieces: seq<Piece>)
    requires forall k :: 0 <= k < |pieces| ==> PieceShape(pieces[k])
    ensures |Runs(pieces)| == |pieces|
    ensures forall k :: 0 <= k < |pieces| ==> SpanOf(pieces[k], Runs(pieces)[k])
    decreases |pieces|
  {
    if pieces != [] {
      var rest := pieces[1..];
      RunsStrip(rest);
      RunOfOne(pieces[0]);
      var spans := Runs(pieces);
      assert spans == RunOf(pieces[0]) + Runs(rest);
      forall k | 0 <= k < |pieces| ensures SpanOf(pieces[k], spans[k]) {
        if k > 0 {
          assert pieces[k] == rest[k - 1] && spans[k] == Runs(rest)[k - 1];
        }
      }
    }
  }

  /** A piece the notes scanner can produce. */
  predicate PieceShape(p: Piece) {
    match p
    case Gap(t) => AllSpecial(t) && t != []
    case Token(t) => TokenShape(t, Notes)
  }

  /** The span a piece yields: a gap unstyled, a token without its markers. */
  predicate SpanOf(p: Piece, sp: Span) {
    match p
    case Gap(t) => sp == Unstyled(t)
    case Token(t) => Strips(t, sp)
  }

  lemma RunOfOne(p: Piece)
    requires PieceShape(p)
    ensures |RunOf(p)| == 1 && SpanOf(p, RunOf(p)[0])
  {
    match p
    case Gap(t) =>
      assert !IsSpace(t[0]);
    case Token(t) =>
      StyleStrips(t, Notes);
  }

  /** A paragraph per line: blank lines before the first non-blank one make
      none, later blank lines make an empty one. A frame whose lines are all
      blank keeps the one empty paragraph `clear()` leaves. A line is blank
      when `line.strip()` is empty, which `Text.StripBlank` shows is exactly
      when it is all whitespace. */
  function Layout(lines: seq<string>, first: bool): (ps: seq<Paragraph>)
    ensures first ==> |ps| >= 1
    ensures |ps| <= |lines| + 1
  {
    if lines == [] then (if first then [[]] else [])
    else if AllSpace(lines[0]) then
      if first then Layout(lines[1..], true) else [[]] + Layout(lines[1..], false)
    else [LineSpans(lines[0])] + Layout(lines[1..], false)
  }

  /** `parse_markdown_formatting(text_frame, text)`, as the frame's paragraphs. */
  function FormatNotes(text: string): (ps: seq<Paragraph>)
    ensures |ps| >= 1
  {
    Layout(Split(text, '\n'), true)
  }

  /** What one line contributes once the first non-blank line has been seen. */
  function ParagraphOf(l: string): Paragraph {
    if AllSpace(l) then [] else LineSpans(l)
  }

  /** A line that yields a paragraph of its own: `line.strip()` is non-empty,
      that is, the line is not all whitespace (`Text.StripBlank`). */
  predicate Filled(l: string) {
    !AllSpace(l)
  }

  /** The index of the first non-blank line, or |lines|. */
  function FirstFilled(lines: seq<string>): (f: nat)
    ensures f <= |lines|
    ensures forall k :: 0 <= k < f ==> !Filled(lines[k])
    ensures f < |lines| ==> Filled(lines[f])
  {
    FirstIndex(lines, Filled)
  }

  /** The index of the first element satisfying p, or |xs|. */
  function FirstIndex<T>(xs: seq<T>, p: T -> bool): (f: nat)
    ensures f <= |xs|
    ensures forall k :: 0 <= k < f ==> !p(xs[k])
    ensures f < |xs| ==> p(xs[f])
    decreases |xs|
  {
    if xs == [] || p(xs[0]) then 0
    else
      var f := FirstIndex(xs[1..], p);
      assert forall k :: 1 <= k < f + 1 ==> xs[k] == xs[1..][k - 1];
      f + 1
  }

  /** Skipping a first element that fails p moves the first index by one. */
  lemma FirstIndexCons<T>(xs: seq<T>, p: T -> bool)
    requires xs != [] && !p(xs[0])
    ensures FirstIndex(xs, p) == FirstIndex(xs[1..], p) + 1
  {
  }

  /** The paragraphs are the lines from the first non-blank one on, blank
      lines becoming empty paragraphs; with no non-blank line, one empty
      paragraph. */
  lemma {:induction false} LayoutShape(lines: seq<string>)
    ensures FirstFilled(lines) == |lines| ==> Layout(lines, true) == [[]]
    ensures FirstFilled(lines) < |lines| ==>
              Layout(lines, true) == Later(lines[FirstFilled(lines)..])
    decreases |lines|, 1
  {
    if lines != [] && !Filled(lines[0]) {
      LayoutSkip(lines);
    } else if lines != [] {
      assert FirstFilled(lines) == 0;
      LaterLayout(lines);
      assert lines[0..] == lines;
    }
  }

  /** A leading blank line adds nothing and moves the first filled line by one. */
  lemma {:induction false} LayoutSkip(lines: seq<string>)
    requires lines != [] && !Filled(lines[0])
    ensures FirstFilled(lines) == |lines| ==> Layout(lines, true) == [[]]
    ensures FirstFilled(lines) < |lines| ==>
              Layout(lines, true) == Later(lines[FirstFilled(lines)..])
    decreases |lines|, 0
  {
    var f := FirstFilled(lines[1..]);
    FirstIndexCons(lines, Filled);
    LayoutShape(lines[1..]);
    if f < |lines| - 1 {
      assert lines[1..][f..] == lines[f + 1..];
    }
  }

  /** The reference reading of the lines after the first non-blank one. */
  function Later(lines: seq<string>): (ps: seq<Paragraph>)
    ensures |ps| == |lines|
  {
    Map(lines, ParagraphOf)
  }

  /** f applied to every element. */
  function Map<A, B>(xs: seq<A>, f: A -> B): (ys: seq<B>)
    ensures |ys| == |xs|
    ensures forall k :: 0 <= k < |xs| ==> ys[k] == f(xs[k])
  {
    seq(|xs|, k requires 0 <= k < |xs| => f(xs[k]))
  }

  lemma {:induction false} LaterLayout(lines: seq<string>)
    requires lines != [] && !AllSpace(lines[0])
    ensures Layout(lines, true) == Later(lines)
  {
    LayoutLater(lines[1..]);
    LaterLayoutCons(lines);
  }

  lemma LaterLayoutCons(lines: seq<string>)
    requires lines != []
    ensures Later(lines) == [ParagraphOf(lines[0])] + Later(lines[1..])
  {
    MapCons(lines, ParagraphOf);
  }

  lemma MapCons<A, B>(xs: seq<A>, f: A -> B)
    requires xs != []
    ensures Map(xs, f) == [f(xs[0])] + Map(xs[1..], f)
  {
    var a := Map(xs, f);
    var b := [f(xs[0])] + Map(xs[1..], f);
    forall k | 0 <= k < |a| ensures a[k] == b[k] {
      if k > 0 {
        assert xs[1..][k - 1] == xs[k];
      }
    }
  }

  lemma {:induction false} LayoutLater(lines: seq<string>)
    ensures Layout(lines, false) == Later(lines)
    decreases |lines|
  {
    if lines != [] {
      LayoutLater(lines[1..]);
      LaterLayoutCons(lines);
    }
  }

  // ---------------------------------------------------------------------
  // format_focal_points_text

  /** The bullet text each focal-point paragraph starts with. */
  const BulletMark := "\U{2022} "

  /** The bullet run, then one run per non-empty `re.split` part, each
      classified without the link test. */
  function FocalParagraph(point: string): (p: Paragraph)
    ensures |p| == 1 + |Scan(point, Focal)|
    ensures p[0] == Unstyled(BulletMark)
    ensures forall k :: 0 <= k < |Scan(point, Focal)| ==>
              p[k + 1] == Style(Scan(point, Focal)[k].text, false)
  {
    var parts := Scan(point, Focal);
    [Unstyled(BulletMark)] + seq(|parts|, k requires 0 <= k < |parts| => Style(parts[k].text, false))
  }

  /** One paragraph per point; with no points the cleared frame keeps its
      single empty paragraph. */
  function FormatFocalPoints(points: seq<string>): (ps: seq<Paragraph>)
    ensures points == [] ==> ps == [[]]
    ensures points != [] ==> |ps| == |points| && forall k :: 0 <= k < |points| ==> ps[k] == FocalParagraph(points[k])
  {
    if points == [] then [[]]
    else seq(|points|, k requires 0 <= k < |points| => FocalParagraph(points[k]))
  }

  /** The emphasis tokens of a focal point lose their markers, as in notes. */
  lemma FocalTokensStrip(point: string)
    ensures forall k :: 0 <= k < |Scan(point, Focal)| && Scan(point, Focal)[k].Token? ==>
              Strips(Scan(point, Focal)[k].text, FocalParagraph(point)[k + 1])
  {
    var parts := Scan(point, Focal);
    forall k | 0 <= k < |parts| && parts[k].Token?
      ensures Strips(parts[k].text, FocalParagraph(point)[k + 1])
    {
      StyleStrips(parts[k].text, Focal);
    }
  }

  /** A leftover part that is just "*", "_" or "**" still counts as emphasis
      and becomes an empty run. */
  lemma BareMarkersEmpty()
    ensures Style("*", false) == Span("", false, true, false, false, None)
    ensures Style("_", false) == Span("", false, true, false, false, None)
    ensures Style("**", false) == Span("", true, false, false, false, None)
  {
    assert EndsWith("*", "*") && EndsWith("_", "_") && EndsWith("**", "**");
    assert !StartsWith("*", "**") && !StartsWith("*", "~~") && !StartsWith("_", "~~");
  }

  // ---------------------------------------------------------------------
  // convert_markdown_to_pptx_format: text.replace('**', '')

  /** The characters other than '*', in order. */
  function NonStars(s: string): string {
    if s == [] then [] else (if s[0] == '*' then [] else [s[0]]) + NonStars(s[1..])
  }

  /** No two adjacent '*' characters. */
  predicate NoBold(s: string) {
    forall k :: 0 <= k < |s| - 1 ==> !(s[k] == '*' && s[k + 1] == '*')
  }

  /** Removes "**" pairs left to right. No "**" is left behind and an even
      number of '*' goes; `RemoveBoldNonStars` shows nothing else does. */
  function RemoveBold(s: string): (r: string)
    ensures NoBold(r)
    ensures |r| <= |s| && (|s| - |r|) % 2 == 0
    ensures s != [] && s[0] != '*' ==> r != [] && r[0] == s[0]
    ensures s != [] && s[0] == '*' && (|s| == 1 || s[1] != '*') ==> r != [] && r[0] == '*'
  {
    if |s| >= 2 && s[0] == '*' && s[1] == '*' then RemoveBold(s[2..])
    else if s == [] then []
    else
      var tail := RemoveBold(s[1..]);
      NoBoldCons(s[0], tail);
      [s[0]] + tail
  }

  /** Every character other than '*' survives the removal, in order. */
  lemma {:induction false} RemoveBoldNonStars(s: string)
    ensures NonStars(RemoveBold(s)) == NonStars(s)
    decreases |s|
  {
    if |s| >= 2 && s[0] == '*' && s[1] == '*' {
      RemoveBoldNonStars(s[2..]);
      assert NonStars(s) == NonStars(s[1..]) == NonStars(s[2..]);
    } else if s != [] {
      RemoveBoldNonStars(s[1..]);
      NonStarsCons(s[0], RemoveBold(s[1..]));
      assert s == [s[0]] + s[1..];
      NonStarsCons(s[0], s[1..]);
    }
  }

  /** Putting a character in front keeps "**" out unless it makes one. */
  lemma NoBoldCons(c: char, t: string)
    requires NoBold(t) && (c == '*' ==> t == [] || t[0] != '*')
    ensures NoBold([c] + t)
  {
    var r := [c] + t;
    forall k | 0 <= k < |r| - 1 ensures !(r[k] == '*' && r[k + 1] == '*') {
      assert r[k + 1] == t[k];
      if k > 0 {
        assert r[k] == t[k - 1];
      }
    }
  }

  lemma NonStarsCons(c: char, s: string)
    ensures NonStars([c] + s) == (if c == '*' then [] else [c]) + NonStars(s)
  {
    assert ([c] + s)[1..] == s;
  }

  /** Text without "**" passes through unchanged, so the removal is idempotent. */
  lemma {:induction false} RemoveBoldKeeps(s: string)
    requires NoBold(s)
    ensures RemoveBold(s) == s
    decreases |s|
  {
    if s != [] {
      RemoveBoldKeeps(s[1..]);
    }
  }

  lemma RemoveBoldIdempotent(s: string)
    ensures RemoveBold(RemoveBold(s)) == RemoveBold(s)
  {
    RemoveBoldKeeps(RemoveBold(s));
  }

  /** A character other than '*' is copied and the rest is treated on its own. */
  lemma RemoveBoldCons(c: char, t: string)
    requires c != '*'
    ensures RemoveBold([c] + t) == [c] + RemoveBold(t)
  {
    assert ([c] + t)[1..] == t;
  }

  /** A run of k stars. */
  function Stars(k: nat): (s: string)
    ensures |s| == k && forall i :: 0 <= i < k ==> s[i] == '*'
  {
    if k == 0 then [] else ['*'] + Stars(k - 1)
  }

  /** `str.replace('**', '')` scans left to right without overlap: a run of
      k stars leaves k % 2 of them. */
  lemma {:induction false} RemoveBoldStars(k: nat, t: string)
    requires t == [] || t[0] != '*'
    ensures RemoveBold(Stars(k) + t) == Stars(k % 2) + RemoveBold(t)
    decreases k
  {
    if k >= 2 {
      calc {
        RemoveBold(Stars(k) + t);
        == { StarsPair(k, t); }
        RemoveBold("**" + (Stars(k - 2) + t));
        == { RemoveBoldPair(Stars(k - 2) + t); }
        RemoveBold(Stars(k - 2) + t);
        == { RemoveBoldStars(k - 2, t); }
        Stars((k - 2) % 2) + RemoveBold(t);
      }
      assert (k - 2) % 2 == k % 2;
    } else if k == 1 {
      assert Stars(k) == "*";
      RemoveBoldStar(t);
    } else {
      assert Stars(k) + t == t;
    }
  }

  /** Two leading stars split off a run. */
  lemma StarsPair(k: nat, t: string)
    requires k >= 2
    ensures Stars(k) + t == "**" + (Stars(k - 2) + t)
  {
  }

  /** A lone leading star is kept. */
  lemma RemoveBoldStar(t: string)
    requires t == [] || t[0] != '*'
    ensures RemoveBold("*" + t) == "*" + RemoveBold(t)
  {
    assert ("*" + t)[1..] == t;
  }

  /** A leading "**" is dropped. */
  lemma RemoveBoldPair(rest: string)
    ensures RemoveBold("**" + rest) == RemoveBold(rest)
  {
    assert ("**" + rest)[2..] == rest;
  }

  // ---------------------------------------------------------------------
  // Lines and points without markup

  /** A line with none of `*_`~[` becomes unstyled runs that spell the line. */
  lemma PlainLine(l: string)
    requires !AllSpace(l) && NoSpecial(l)
    ensures forall k :: 0 <= k < |LineSpans(l)| ==> LineSpans(l)[k] == Unstyled(LineSpans(l)[k].text)
    ensures SpanTexts(LineSpans(l)) == l
  {
    var pieces := Scan(l, Notes);
    LineSpansStrip(l);
    PlainLinePieces(l);
    assert forall k :: 0 <= k < |pieces| ==> Strips(pieces[k].text, LineSpans(l)[k]);
    SpanTextsTokens(pieces, LineSpans(l));
  }

  /** Such a line scans into plain-run tokens only. */
  lemma PlainLinePieces(l: string)
    requires NoSpecial(l)
    ensures forall k :: 0 <= k < |Scan(l, Notes)| ==> Scan(l, Notes)[k].Token? && PlainRun(Scan(l, Notes)[k].text)
  {
    var pieces := Scan(l, Notes);
    forall k | 0 <= k < |pieces|
      ensures pieces[k].Token? && PlainRun(pieces[k].text)
    {
      PieceNoSpecial(pieces, k);
      NoSpecialToken(pieces[k].text);
    }
  }

  /** Every piece of a text without special characters has none either. */
  lemma PieceNoSpecial(pieces: seq<Piece>, k: nat)
    requires k < |pieces| && NoSpecial(Texts(pieces))
    ensures NoSpecial(pieces[k].text)
  {
    var t := pieces[k].text;
    var off := |Texts(pieces[..k])|;
    PieceInside(pieces, k);
    forall x | 0 <= x < |t| ensures !Special(t[x]) {
      assert t[x] == Texts(pieces)[off + x];
    }
  }

  /** The only notes token without special characters is a plain run. */
  lemma NoSpecialToken(t: string)
    requires t != [] && NoSpecial(t)
    ensures !AllSpecial(t)
    ensures TokenShape(t, Notes) ==> PlainRun(t)
  {
    assert !Special(t[0]);
    OtherHead(t, "**");
    OtherHead(t, "*");
    OtherHead(t, "_");
    OtherHead(t, "`");
    OtherHead(t, "~~");
  }

  /** The texts of the spans, run together. */
  function SpanTexts(spans: seq<Span>): string {
    if spans == [] then [] else spans[0].text + SpanTexts(spans[1..])
  }

  /** Where piece k sits inside the text of all pieces. */
  lemma {:induction false} PieceInside(pieces: seq<Piece>, k: nat)
    requires k < |pieces|
    ensures |Texts(pieces[..k])| + |pieces[k].text| <= |Texts(pieces)|
    ensures Texts(pieces)[|Texts(pieces[..k])|..|Texts(pieces[..k])| + |pieces[k].text|] == pieces[k].text
  {
    assert pieces == pieces[..k] + [pieces[k]] + pieces[k + 1..];
    TextsAppend(pieces[..k] + [pieces[k]], pieces[k + 1..]);
    TextsAppend(pieces[..k], [pieces[k]]);
    assert Texts([pieces[k]]) == pieces[k].text + [];
  }

  lemma {:induction false} SpanTextsTokens(pieces: seq<Piece>, spans: seq<Span>)
    requires |spans| == |pieces|
    requires forall k :: 0 <= k < |pieces| ==> pieces[k].Token? && PlainRun(pieces[k].text)
    requires forall k :: 0 <= k < |pieces| ==> Strips(pieces[k].text, spans[k])
    ensures SpanTexts(spans) == Texts(pieces)
    ensures forall k :: 0 <= k < |spans| ==> spans[k] == Unstyled(spans[k].text)
    decreases |pieces|
  {
    if pieces != [] {
      var t := pieces[0].text;
      assert !Special(t[0]);
      assert spans[0] == Unstyled(t);
      SpanTextsTokens(pieces[1..], spans[1..]);
    }
  }

  /** A focal point with none of `*_`~ is one unstyled run after the bullet. */
  lemma PlainPoint(point: string)
    requires point != []
    requires forall k :: 0 <= k < |point| ==> point[k] !in "*_`~"
    ensures FocalParagraph(point) == [Unstyled(BulletMark), Unstyled(point)]
  {
    PlainPointScan(point);
    MarkerFreeStyle(point);
    var p := FocalParagraph(point);
    assert |p| == 2 && p[0] == Unstyled(BulletMark);
    assert p[1] == Style(Scan(point, Focal)[0].text, false);
  }

  lemma PlainPointScan(point: string)
    requires point != []
    requires forall k :: 0 <= k < |point| ==> point[k] !in "*_`~"
    ensures Scan(point, Focal) == [Gap(point)]
  {
    var parts := Scan(point, Focal);
    forall k | 0 <= k < |parts| ensures parts[k].Gap? {
      var t := parts[k].text;
      PieceInside(parts, k);
      assert t[0] == point[|Texts(parts[..k])|];
      MarkerFreeStyle(t);
    }
    assert parts != [];
    assert Texts(parts) == parts[0].text + [];
    assert parts[0].Gap? && parts[0].text == point;
    assert parts[0] == Gap(point);
    assert parts == [parts[0]];
  }

  /** Text not starting with a marker character is no focal token, and
      classifies as unstyled. */
  lemma MarkerFreeStyle(t: string)
    requires t != [] && t[0] !in "*_`~"
    ensures !TokenShape(t, Focal)
    ensures Style(t, false) == Unstyled(t)
  {
    OtherHead(t, "**");
    OtherHead(t, "*");
    OtherHead(t, "_");
    OtherHead(t, "`");
    OtherHead(t, "~~");
  }

  lemma OtherHead(t: string, m: string)
    requires t != [] && m != [] && t[0] != m[0]
    ensures !StartsWith(t, m)
  {
    assert |m| > |t| || t[..|m|][0] == t[0];
  }
}
