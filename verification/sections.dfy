/**
 The section patterns of `parse_markdown_file`, shared by both scripts.

 Each regular expression is modelled as a predicate saying where it matches
 and a search for the first such place, which is what `re.search` returns.
 The regex semantics are spelled out on each predicate:
 `.` never matches a newline, `^` and `$` are line anchors (`re.MULTILINE`),
 `\Z` is the end of the text, and `\s` is `Text.IsSpace`.
 */
module Sections {
  import opened Optional
  import opened Text

  const Untitled := "Untitled"
  const DateHeader := "## Article Date\n"
  const UrlHeader := "## Article Url\n"
  const ImageHeader := "## Article Image\n"
  const ContentHeader := "## Article Content\n"
  const ImageLabel := "**Image:**"

  /** The changelog index page, which both scripts refuse to show as an image. */
  const Placeholder := "https://github.blog/changelog/"

  /** `if image_url and image_url != "https://github.blog/changelog/"`. */
  predicate ShowsImage(url: string) {
    url != "" && url != Placeholder
  }

  // ---------------------------------------------------------------------
  // Title: re.search(r'^# (.+?)$', content, re.MULTILINE)

  /** A line starting with "# " followed by at least one character on that line. */
  predicate TitleAt(s: string, i: nat) {
    LineStart(s, i) && i + 2 < |s| && s[i..i + 2] == "# " && s[i + 2] != '\n'
  }

  predicate FirstTitleAt(s: string, i: nat) {
    TitleAt(s, i) && forall j :: 0 <= j < i ==> !TitleAt(s, j)
  }

  /** The rest of the first qualifying line, verbatim, or "Untitled". */
  function Title(s: string): (t: string)
    ensures t != [] && '\n' !in t
    ensures (forall i :: 0 <= i <= |s| ==> !TitleAt(s, i)) ==> t == Untitled
    ensures forall i: nat :: FirstTitleAt(s, i) ==> t == s[i + 2..LineEnd(s, i + 2)]
  {
    var p := (k: nat) => TitleAt(s, k);
    var i := FirstWhere(0, |s|, p);
    assert forall j :: 0 <= j < i ==> !TitleAt(s, j) by {
      forall j | 0 <= j < i ensures !TitleAt(s, j) { assert !p(j); }
    }
    assert forall j: nat :: FirstTitleAt(s, j) ==> j == i by {
      forall j: nat | FirstTitleAt(s, j) ensures j == i {
        if i < |s| { assert p(i); }
      }
    }
    if i == |s| then Untitled else s[i + 2..LineEnd(s, i + 2)]
  }

  /** A level-2 heading line never yields the title. */
  lemma SubheadingIsNotTitle(s: string, i: nat)
    requires OccursAt(s, "## ", i)
    ensures !TitleAt(s, i)
  {
    assert s[i + 1] == "## "[1];
  }

  // ---------------------------------------------------------------------
  // Date, link and image line: re.search(header + r'(.+?)$', content, re.MULTILINE)
  // with header ending in "\n"; the header need not start a line.

  predicate FieldAt(s: string, header: string, i: nat) {
    OccursAt(s, header, i) && i + |header| < |s| && s[i + |header|] != '\n'
  }

  /** i is the first place where the header pattern matches. */
  predicate FirstFieldAt(s: string, header: string, i: nat) {
    FieldAt(s, header, i) && forall j :: 0 <= j < i ==> !FieldAt(s, header, j)
  }

  /** The stripped line after the first header occurrence whose next line is
      non-empty, or "" when there is none. */
  function Field(s: string, header: string): (v: string)
    ensures Stripped(v) && '\n' !in v
    ensures (forall i :: 0 <= i <= |s| ==> !FieldAt(s, header, i)) ==> v == ""
    ensures forall i: nat :: FirstFieldAt(s, header, i) ==> v == Strip(s[i + |header|..LineEnd(s, i + |header|)])
  {
    var p := (k: nat) => FieldAt(s, header, k);
    var i := FirstWhere(0, |s|, p);
    assert forall j :: 0 <= j < i ==> !FieldAt(s, header, j) by {
      forall j | 0 <= j < i ensures !FieldAt(s, header, j) { assert !p(j); }
    }
    assert forall j: nat :: FirstFieldAt(s, header, j) ==> j == i by {
      forall j | FirstFieldAt(s, header, j) ensures j == i {
        if i < |s| { assert p(i); }
      }
    }
    if i == |s| then "" else StripLine(s, i + |header|)
  }

  /** The stripped rest of the line starting at i. */
  function StripLine(s: string, i: nat): (v: string)
    requires i <= |s|
    ensures v == Strip(s[i..LineEnd(s, i)])
    ensures Stripped(v) && '\n' !in v
  {
    var line := s[i..LineEnd(s, i)];
    StripKeeps(line);
    Strip(line)
  }

  // ---------------------------------------------------------------------
  // Image label: re.search(r'^\*\*Image:\*\*\s*(.+?)$', content, re.MULTILINE)
  //
  // `\s*` is greedy and may cross newlines; it backs off until `.+?` can take
  // at least one non-newline character.  So the value starts at the last
  // position r in [p, q] that holds a non-newline character, where p follows
  // the label and q ends the whitespace run after it.

  /** The end of the whitespace run starting at p. */
  function SpaceRunEnd(s: string, p: nat): (q: nat)
    requires p <= |s|
    ensures p <= q <= |s|
    ensures AllSpace(s[p..q])
    ensures q < |s| ==> !IsSpace(s[q])
    decreases |s| - p
  {
    if p == |s| || !IsSpace(s[p]) then p else SpaceRunEnd(s, p + 1)
  }

  /** Where the captured value starts once `\s*` has backed off, or q + 1 when
      no position in [p, q] holds a non-newline character. */
  function LabelValueStart(s: string, p: nat): (r: nat)
    requires p <= |s|
    ensures p <= r <= SpaceRunEnd(s, p) + 1
    ensures r <= SpaceRunEnd(s, p) ==> r < |s| && s[r] != '\n'
  {
    BackOff(s, p, SpaceRunEnd(s, p))
  }

  /** The greatest r in [p, q] with a non-newline character at r, or q + 1. */
  function BackOff(s: string, p: nat, q: nat): (r: nat)
    requires p <= q <= |s|
    ensures p <= r <= q + 1
    ensures r <= q ==> r < |s| && s[r] != '\n'
    ensures forall k :: r < k <= q && k < |s| ==> s[k] == '\n'
    decreases q - p
  {
    if q < |s| && s[q] != '\n' then q
    else if q == p then q + 1
    else
      var r := BackOff(s, p, q - 1);
      if r == q then q + 1 else r
  }

  predicate ImageLabelAt(s: string, i: nat) {
    LineStart(s, i) && OccursAt(s, ImageLabel, i)
    && LabelValueStart(s, i + |ImageLabel|) <= SpaceRunEnd(s, i + |ImageLabel|)
  }

  predicate FirstImageLabelAt(s: string, i: nat) {
    ImageLabelAt(s, i) && forall j :: 0 <= j < i ==> !ImageLabelAt(s, j)
  }

  /** The stripped value of the first matching image label, or "". */
  function ImageLabelValue(s: string): (v: string)
    ensures Stripped(v)
    ensures (forall i :: 0 <= i <= |s| ==> !ImageLabelAt(s, i)) ==> v == ""
    ensures forall i: nat :: FirstImageLabelAt(s, i) ==>
              v == StripLine(s, LabelValueStart(s, i + |ImageLabel|))
  {
    var p := (k: nat) => ImageLabelAt(s, k);
    var i := FirstWhere(0, |s|, p);
    assert forall j :: 0 <= j < i ==> !ImageLabelAt(s, j) by {
      forall j | 0 <= j < i ensures !ImageLabelAt(s, j) { assert !p(j); }
    }
    assert forall j: nat :: FirstImageLabelAt(s, j) ==> j == i by {
      forall j: nat | FirstImageLabelAt(s, j) ensures j == i {
        if i < |s| { assert p(i); }
      }
    }
    if i == |s| then "" else StripLine(s, LabelValueStart(s, i + |ImageLabel|))
  }

  /** The value is the first non-blank text after the label, even on a later
      line; a label followed only by whitespace to the end of the text gives "". */
  lemma LabelValueSkipsBlank(s: string, i: nat)
    requires ImageLabelAt(s, i)
    ensures var q := SpaceRunEnd(s, i + |ImageLabel|);
            Strip(s[LabelValueStart(s, i + |ImageLabel|)..LineEnd(s, LabelValueStart(s, i + |ImageLabel|))])
            == (if q < |s| then Strip(s[q..LineEnd(s, q)]) else "")
  {
    var p := i + |ImageLabel|;
    var q := SpaceRunEnd(s, p);
    var r := LabelValueStart(s, p);
    if q < |s| {
      assert s[q] != '\n';
      assert r == q;
    } else {
      var line := s[r..LineEnd(s, r)];
      assert AllSpace(line) by {
        forall k | 0 <= k < |line| ensures IsSpace(line[k]) {
          assert line[k] == s[p..q][r - p + k];
        }
      }
      StripPadded(line, [], []);
      assert line + [] + [] == line;
    }
  }

  // ---------------------------------------------------------------------
  // Image clean-up (PowerPoint script only)

  /** `re.search(r'\]\(([^)]+)\)', v)`: "](" followed by a non-empty run
      without ')' and then ')'. */
  predicate TargetAt(v: string, k: nat) {
    OccursAt(v, "](", k) && k + 2 < IndexOf(v, ')', k + 2) < |v|
  }

  predicate FirstTargetAt(v: string, k: nat) {
    TargetAt(v, k) && forall j :: 0 <= j < k ==> !TargetAt(v, j)
  }

  /** The first position at or after k where a link target starts, or |v|. */
  function TargetFrom(v: string, k: nat): (j: nat)
    requires k <= |v|
    ensures k <= j <= |v|
    ensures j < |v| ==> TargetAt(v, j)
    ensures forall i :: k <= i < j ==> !TargetAt(v, i)
    decreases |v| - k
  {
    if k == |v| || TargetAt(v, k) then k else TargetFrom(v, k + 1)
  }

  /** The first link target in v, if any. */
  function LinkTarget(v: string): (t: Option<string>)
    ensures t.None? <==> forall k :: 0 <= k <= |v| ==> !TargetAt(v, k)
    ensures t.Some? ==> t.value != [] && ')' !in t.value
    ensures forall k: nat :: FirstTargetAt(v, k) ==> t == Some(v[k + 2..IndexOf(v, ')', k + 2)])
    ensures t.Some? ==> Contains(v, t.value)
  {
    var k := TargetFrom(v, 0);
    if k == |v| then None
    else
      var e := IndexOf(v, ')', k + 2);
      var t := v[k + 2..e];
      assert forall j :: 0 <= j < |t| ==> t[j] != ')' by {
        forall j | 0 <= j < |t| ensures t[j] != ')' { assert t[j] == v[k + 2 + j]; }
      }
      ContainsSlice(v, k + 2, e);
      FirstTargetUnique(v, k);
      Some(t)
  }

  lemma FirstTargetUnique(v: string, k: nat)
    requires FirstTargetAt(v, k)
    ensures forall j: nat :: FirstTargetAt(v, j) ==> j == k
  {
  }

  /** The end of the run of characters that are neither whitespace nor ']'. */
  function UrlRunEnd(v: string, i: nat): (e: nat)
    requires i <= |v|
    ensures i <= e <= |v|
    ensures forall j :: i <= j < e ==> !IsSpace(v[j]) && v[j] != ']'
    ensures e < |v| ==> IsSpace(v[e]) || v[e] == ']'
    decreases |v| - i
  {
    if i == |v| || IsSpace(v[i]) || v[i] == ']' then i else UrlRunEnd(v, i + 1)
  }

  /** `re.search(r'(https?://[^\s\]]+)', v)` matches at k: either scheme
      followed by at least one character of the run. */
  predicate UrlAt(v: string, k: nat) {
    (OccursAt(v, "https://", k) && UrlRunEnd(v, k + 8) > k + 8)
    || (OccursAt(v, "http://", k) && UrlRunEnd(v, k + 7) > k + 7)
  }

  predicate FirstUrlAt(v: string, k: nat) {
    UrlAt(v, k) && forall j :: 0 <= j < k ==> !UrlAt(v, j)
  }

  /** The first position at or after i where a URL starts, if any. */
  function FindUrl(v: string, i: nat): (k: Option<nat>)
    requires i <= |v|
    ensures k.None? ==> forall j :: i <= j <= |v| ==> !UrlAt(v, j)
    ensures k.Some? ==> i <= k.value < |v| && UrlAt(v, k.value)
    ensures k.Some? ==> forall j :: i <= j < k.value ==> !UrlAt(v, j)
    decreases |v| - i
  {
    if i == |v| then None
    else if UrlAt(v, i) then Some(i)
    else FindUrl(v, i + 1)
  }

  /** The first http(s) URL in v, running to whitespace, ']' or the end. */
  function BareUrl(v: string): (u: Option<string>)
    ensures u.None? <==> forall k :: 0 <= k <= |v| ==> !UrlAt(v, k)
    ensures forall k: nat :: FirstUrlAt(v, k) ==> u == Some(v[k..UrlRunEnd(v, k + 7)])
    ensures u.Some? ==> Contains(v, u.value)
  {
    match FindUrl(v, 0)
    case None => None
    case Some(k) =>
      FirstUrlUnique(v, k);
      ContainsSlice(v, k, UrlRunEnd(v, k + 7));
      Some(v[k..UrlRunEnd(v, k + 7)])
  }

  lemma FirstUrlUnique(v: string, k: nat)
    requires FirstUrlAt(v, k)
    ensures forall j: nat :: FirstUrlAt(v, j) ==> j == k
  {
  }

  // ---------------------------------------------------------------------
  // Heading-delimited blocks:
  //   re.search(header + r'((?:.|\n)+?)(?:' + stop + ')', content, re.MULTILINE)
  // The lazy group takes at least one character, so the block ends at the
  // first stop strictly after its start.

  /** How a block ends, besides the end of the text (`\Z`). */
  datatype Stop =
    | Level3Line   // ^###
    | Level2Line   // ^##[^#] or ^##$  ([^#] also matches a newline)

  predicate StopsAt(s: string, stop: Stop, e: nat) {
    e == |s|
    || (LineStart(s, e) &&
        match stop
        case Level3Line => OccursAt(s, "###", e)
        case Level2Line => OccursAt(s, "##", e) && (e + 2 == |s| || s[e + 2] != '#'))
  }

  /** The header occurs at i with at least one character after it. */
  predicate BlockAt(s: string, header: string, i: nat) {
    OccursAt(s, header, i) && i + |header| < |s|
  }

  predicate FirstBlockAt(s: string, header: string, i: nat) {
    BlockAt(s, header, i) && forall j :: 0 <= j < i ==> !BlockAt(s, header, j)
  }

  /** e is the first stop at or after lo. */
  predicate FirstStop(s: string, stop: Stop, lo: nat, e: nat) {
    lo <= e && StopsAt(s, stop, e) && forall j :: lo <= j < e ==> !StopsAt(s, stop, j)
  }

  /** The block starts after the header at i and ends at e. */
  predicate BlockSpan(s: string, header: string, stop: Stop, i: nat, e: nat) {
    FirstBlockAt(s, header, i) && FirstStop(s, stop, i + |header| + 1, e)
  }

  /** The text between the first matching header and the first later stop. */
  function Block(s: string, header: string, stop: Stop): (b: Option<string>)
    ensures b.None? <==> forall i :: 0 <= i <= |s| ==> !BlockAt(s, header, i)
    ensures forall i: nat, e: nat :: BlockSpan(s, header, stop, i, e) ==>
              e <= |s| && b == Some(s[i + |header|..e])
  {
    var p := (k: nat) => BlockAt(s, header, k);
    var i := FirstWhere(0, |s|, p);
    assert forall j :: 0 <= j < i ==> !BlockAt(s, header, j) by {
      forall j | 0 <= j < i ensures !BlockAt(s, header, j) { assert !p(j); }
    }
    assert forall j: nat :: FirstBlockAt(s, header, j) ==> j == i by {
      forall j: nat | FirstBlockAt(s, header, j) ensures j == i {
        if i < |s| { assert p(i); }
      }
    }
    if i == |s| then None
    else
      var a := i + |header|;
      var e := BlockEnd(s, stop, a + 1);
      Some(s[a..e])
  }

  /** The first stop at or after lo; the end of the text always is one. */
  function BlockEnd(s: string, stop: Stop, lo: nat): (e: nat)
    requires lo <= |s|
    ensures e <= |s| && FirstStop(s, stop, lo, e)
    ensures forall e': nat :: FirstStop(s, stop, lo, e') ==> e' == e
  {
    var q := (k: nat) => StopsAt(s, stop, k);
    var e := FirstWhere(lo, |s|, q);
    assert forall j :: lo <= j < e ==> !StopsAt(s, stop, j) by {
      forall j | lo <= j < e ensures !StopsAt(s, stop, j) { assert !q(j); }
    }
    assert StopsAt(s, stop, e) by {
      if e < |s| { assert q(e); }
    }
    e
  }

  // ---------------------------------------------------------------------
  // Focal points: the lines of the "## Article Content" block

  /** Which of the two scripts a variant belongs to. */
  datatype Script = PowerPoint | Pandoc

  /** The bullet literal each script tests: U+2022 and a space in the
      PowerPoint script, and in the Pandoc script the three characters
      U+201A U+00C4 U+00A2 and a space: the UTF-8 bytes of U+2022 read as
      Mac Roman. Both scripts strip only two characters after a match. */
  function Bullet(script: Script): (b: string)
    ensures |b| >= 2 && b[|b| - 1] == ' '
  {
    match script
    case PowerPoint => "\U{2022} "
    case Pandoc => "\U{201A}\U{C4}\U{A2} "
  }

  /** One line of the block: a bullet or "- " line gives its text after two
      characters, stripped; a line starting "**" with another "**" later is
      kept whole; anything else is dropped. */
  function Classify(line: string, script: Script): (r: Option<string>)
    ensures r.Some? ==> r.value != [] && Stripped(r.value)
  {
    var l := Strip(line);
    if l == "" then None
    else if StartsWith(l, Bullet(script)) || StartsWith(l, "- ") then
      var point := Strip(l[2..]);
      assert l[2..][|l| - 3] == l[|l| - 1];
      StripBlank(l[2..]);
      Some(point)
    else if StartsWith(l, "**") && Contains(l[2..], "**") then Some(l)
    else None
  }

  /** The focal points of a block, in line order. */
  function Collect(lines: seq<string>, script: Script): (points: seq<string>)
    ensures |points| <= |lines|
    ensures forall k :: 0 <= k < |points| ==> points[k] != [] && Stripped(points[k])
  {
    if lines == [] then []
    else
      match Classify(lines[0], script)
      case Some(p) => [p] + Collect(lines[1..], script)
      case None => Collect(lines[1..], script)
  }

  /** Collecting is line by line: the points of `a + b` are those of `a`, then those of `b`. */
  lemma {:induction false} CollectAppend(a: seq<string>, b: seq<string>, script: Script)
    ensures Collect(a + b, script) == Collect(a, script) + Collect(b, script)
    decreases |a|
  {
    if a == [] {
      assert a + b == b;
    } else {
      assert (a + b)[0] == a[0];
      assert (a + b)[1..] == a[1..] + b;
      CollectAppend(a[1..], b, script);
    }
  }

  /** A single line contributes its classification, or nothing. */
  lemma CollectOne(line: string, script: Script)
    ensures Collect([line], script) == (if Classify(line, script).Some? then [Classify(line, script).value] else [])
  {
    assert [line][1..] == [];
  }

  function FocalPoints(s: string, script: Script): (points: seq<string>)
    ensures forall k :: 0 <= k < |points| ==> points[k] != [] && Stripped(points[k])
  {
    match Block(s, ContentHeader, Level3Line)
    case None => []
    case Some(b) => Collect(Split(Strip(b), '\n'), script)
  }

  // ---------------------------------------------------------------------
  // The record both `parse_markdown_file` functions return

  datatype Document = Document(
    title: string,
    date: string,
    link: string,
    image: string,
    focalPoints: seq<string>,
    speakerNotes: string)

  /** `if article_link: fetched = fetch_og_image_from_url(article_link); if fetched: ...`:
      a non-empty fetched value replaces the literal image, whatever it was. */
  function ResolveImage(literal: string, link: string, fetched: Option<string>): (image: string)
    ensures link != "" && fetched.Some? && fetched.value != "" ==> image == fetched.value
    ensures link == "" || fetched.None? || fetched.value == "" ==> image == literal
  {
    if link != "" && fetched.Some? && fetched.value != "" then fetched.value else literal
  }
}
