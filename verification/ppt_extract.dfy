/**
 `parse_markdown_file` of scripts/markdown_to_ppt.py, everything except `open`.
 The value `fetch_og_image_from_url` returned for the article link is a
 parameter; `ParseWithNetwork` feeds it from the retry model instead.
 */
module PptExtract {
  import opened Optional
  import opened Text
  import opened Sections
  import Retry

  // ---------------------------------------------------------------------
  // Literal image: "## Article Image" line, else the "**Image:**" label,
  // then markdown unwrapping and URL extraction.

  /** `if '[' in article_image and '](http' in article_image`. */
  predicate LinkBranch(v: string) {
    Contains(v, "[") && Contains(v, "](http")
  }

  /** `elif '![' in article_image and '](http' in article_image`. */
  predicate ImageBranch(v: string) {
    !LinkBranch(v) && Contains(v, "![") && Contains(v, "](http")
  }

  /** The `elif` can never be taken: "![" contains "[". */
  lemma ImageBranchUnreachable(v: string)
    ensures !ImageBranch(v)
  {
    if Contains(v, "![") {
      var k :| 0 <= k <= |v| && OccursAt(v, "![", k);
      assert v[k + 1..k + 2] == "[";
      assert OccursAt(v, "[", k + 1);
    }
  }

  /** A bare http(s) URL: a scheme, at least one more character, and none of
      whitespace, ']' or ')'. */
  predicate PlainUrl(u: string) {
    ((OccursAt(u, "https://", 0) && |u| > 8) || (OccursAt(u, "http://", 0) && |u| > 7))
    && forall k :: 0 <= k < |u| ==> !IsSpace(u[k]) && u[k] != ']' && u[k] != ')'
  }

  /** The clean-up chain applied to a non-empty literal image. */
  function CleanImage(v: string): (r: string)
    ensures r == "" <==> v == ""
    ensures Contains(v, r)
    ensures !LinkBranch(v) ==> r == (if BareUrl(v).Some? then BareUrl(v).value else v)
    ensures LinkBranch(v) && LinkTarget(v).None? ==> r == (if BareUrl(v).Some? then BareUrl(v).value else v)
    ensures LinkBranch(v) && LinkTarget(v).Some? ==> Contains(LinkTarget(v).value, r)
    ensures LinkBranch(v) && LinkTarget(v).Some? ==>
      r == (if BareUrl(LinkTarget(v).value).Some? then BareUrl(LinkTarget(v).value).value else LinkTarget(v).value)
  {
    if v == "" then assert OccursAt(v, "", 0); ""
    else
      ImageBranchUnreachable(v);
      ContainsSlice(v, 0, |v|);
      assert v[0..|v|] == v;
      var w := if LinkBranch(v) || ImageBranch(v) then
                 (match LinkTarget(v) case Some(t) => t case None => v)
               else v;
      ContainsSlice(w, 0, |w|);
      assert w[0..|w|] == w;
      match BareUrl(w)
      case Some(u) => ContainsTrans(v, w, u); u
      case None => w
  }

  /** A plain URL passes the clean-up unchanged. */
  lemma PlainUrlKept(u: string)
    requires PlainUrl(u)
    ensures CleanImage(u) == u
  {
    assert !LinkBranch(u) by {
      forall k | 0 <= k <= |u| ensures !OccursAt(u, "](http", k) {
        if k < |u| {
          assert u[k] != ']';
        }
      }
    }
    ImageBranchUnreachable(u);
    PlainUrlFound(u);
    assert u != "";
  }

  /** The URL search finds the whole of a plain URL at its start. */
  lemma PlainUrlFound(u: string)
    requires PlainUrl(u)
    ensures BareUrl(u) == Some(u)
  {
    RunToEnd(u, 7);
    if OccursAt(u, "https://", 0) {
      RunToEnd(u, 8);
    }
    assert UrlAt(u, 0);
    assert FirstUrlAt(u, 0);
    assert u[0..|u|] == u;
  }

  lemma {:induction false} RunToEnd(u: string, i: nat)
    requires i <= |u|
    requires forall k :: 0 <= k < |u| ==> !IsSpace(u[k]) && u[k] != ']'
    ensures UrlRunEnd(u, i) == |u|
    decreases |u| - i
  {
    if i < |u| {
      RunToEnd(u, i + 1);
    }
  }

  /** A markdown image or link around a plain URL yields the URL. */
  lemma MarkupUnwrapped(open: string, text: string, u: string)
    requires open == "![" || open == "["
    requires ']' !in text && PlainUrl(u)
    ensures CleanImage(open + text + "](" + u + ")") == u
  {
    var v := open + text + "](" + u + ")";
    MarkupIsLink(open, text, u);
    MarkupTarget(open, text, u);
    PlainUrlFound(u);
  }

  lemma MarkupIsLink(open: string, text: string, u: string)
    requires open == "![" || open == "["
    requires PlainUrl(u)
    ensures LinkBranch(open + text + "](" + u + ")")
  {
    HttpPrefix(u);
    LinkShape(open, text, u);
  }

  lemma HttpPrefix(u: string)
    requires PlainUrl(u)
    ensures OccursAt(u, "http", 0)
  {
    if OccursAt(u, "https://", 0) {
      assert u[..4] == u[..8][..4];
    } else {
      assert u[..4] == u[..7][..4];
    }
  }

  /** Markup around a target starting with "http" takes the link branch. */
  lemma LinkShape(open: string, text: string, u: string)
    requires open == "![" || open == "["
    requires OccursAt(u, "http", 0)
    ensures LinkBranch(open + text + "](" + u + ")")
  {
    var a := open + text;
    var b := a + "](";
    var c := b + u;
    var k := |a|;
    assert OccursAt(open, "[", |open| - 1);
    OccursExtend(open, text, "[", |open| - 1);
    OccursExtend(a, "](", "[", |open| - 1);
    OccursExtend(b, u, "[", |open| - 1);
    OccursExtend(c, ")", "[", |open| - 1);
    OccursShift(a, "](", "](", 0);
    OccursExtend(b, u, "](", k);
    OccursExtend(c, ")", "](", k);
    OccursShift(b, u, "http", 0);
    OccursExtend(c, ")", "http", k + 2);
    OccursConcat(c + ")", "](", "http", k);
    assert "](" + "http" == "](http";
  }

  lemma MarkupTarget(open: string, text: string, u: string)
    requires open == "![" || open == "["
    requires ']' !in text && PlainUrl(u)
    ensures LinkTarget(open + text + "](" + u + ")") == Some(u)
  {
    var pre := open + text;
    assert forall j :: 0 <= j < |pre| ==> pre[j] != ']' by {
      forall j | 0 <= j < |pre| ensures pre[j] != ']' {
        if j < |open| {
          assert pre[j] == open[j];
        } else {
          assert pre[j] == text[j - |open|];
        }
      }
    }
    assert ')' !in u by {
      forall j | 0 <= j < |u| ensures u[j] != ')' { }
    }
    TargetShape(pre, u);
  }

  /** In pre + "](" + u + ")" with no ']' in pre, the first target is u. */
  lemma TargetShape(pre: string, u: string)
    requires forall j :: 0 <= j < |pre| ==> pre[j] != ']'
    requires u != [] && ')' !in u
    ensures LinkTarget(pre + "](" + u + ")") == Some(u)
  {
    var v := pre + "](" + u + ")";
    var k := |pre|;
    forall j | 0 <= j < k ensures !TargetAt(v, j) {
      assert v[j] == pre[j];
      if j + 2 <= |v| {
        assert v[j..j + 2][0] == v[j];
      }
    }
    assert v[k..k + 2] == "](";
    forall j | k + 2 <= j < k + 2 + |u| ensures v[j] != ')' {
      assert v[j] == u[j - k - 2];
    }
    assert v[k + 2 + |u|] == ')';
    IndexOfSkips(v, ')', k + 2, k + 2 + |u|);
    assert FirstTargetAt(v, k);
    assert v[k + 2..k + 2 + |u|] == u;
  }

  /** The literal image before any fetch. */
  function LiteralImage(s: string): (image: string)
    ensures Field(s, ImageHeader) != "" ==> image == CleanImage(Field(s, ImageHeader))
    ensures Field(s, ImageHeader) == "" ==> image == CleanImage(ImageLabelValue(s))
  {
    var fromSection := Field(s, ImageHeader);
    CleanImage(if fromSection != "" then fromSection else ImageLabelValue(s))
  }

  // ---------------------------------------------------------------------
  // Speaker notes from the Italian and English headers

  const ItalianHeader := "### **Speaker Notes (Italian)**:"
  const EnglishHeader := "### **Speaker Notes (English)**:"
  const ItalianLabel := "**Italian Notes:**\n"
  const EnglishLabel := "**English Notes:**\n"

  /** Python's `s[a:b]` for in-range bounds: empty when b <= a. */
  function Slice(s: string, a: nat, b: nat): (r: string)
    requires a <= |s| && b <= |s|
    ensures |r| == (if a <= b then b - a else 0)
  {
    if a <= b then s[a..b] else []
  }

  /** `content.find("\n## ", start)`, or the end of the text. */
  function SectionEnd(s: string, start: nat): (e: nat)
    requires start <= |s|
    ensures start <= e <= |s|
    ensures e < |s| ==> OccursAt(s, "\n## ", e)
    ensures forall k :: start <= k < e ==> !OccursAt(s, "\n## ", k)
  {
    var n := Find(s, "\n## ", start);
    if n == -1 then |s| else n
  }

  /** The Italian body ends at the English header wherever that is, else at
      the next level-2 heading. */
  function ItalianNotes(s: string): (body: string)
    ensures Stripped(body)
    ensures Find(s, ItalianHeader, 0) == -1 ==> body == ""
  {
    var ip := Find(s, ItalianHeader, 0);
    if ip == -1 then ""
    else
      var start := ip + |ItalianHeader|;
      var ep := Find(s, EnglishHeader, 0);
      var end := if ep != -1 then ep else SectionEnd(s, start);
      Strip(Slice(s, start, end))
  }

  /** If the English header comes first, the Italian body is empty. */
  lemma EnglishFirstEmptiesItalian(s: string)
    requires Find(s, EnglishHeader, 0) != -1
    requires Find(s, ItalianHeader, 0) != -1
    requires Find(s, EnglishHeader, 0) < Find(s, ItalianHeader, 0)
    ensures ItalianNotes(s) == ""
  {
    StripPadded([], [], []);
  }

  function EnglishNotes(s: string): (body: string)
    ensures Stripped(body)
    ensures Find(s, EnglishHeader, 0) == -1 ==> body == ""
  {
    var ep := Find(s, EnglishHeader, 0);
    if ep == -1 then ""
    else
      var start := ep + |EnglishHeader|;
      Strip(s[start..SectionEnd(s, start)])
  }

  /** `speaker_notes = "\n\n".join` of the labelled bodies, stripped. */
  function SpeakerNotes(s: string): (notes: string)
  {
    CombineNotes(ItalianNotes(s), EnglishNotes(s))
  }

  /** The labelled bodies, joined by a blank line, with the whole stripped:
      the strip only removes the blank line left after a lone Italian body. */
  function CombineNotes(it: string, en: string): (notes: string)
    requires Stripped(it) && Stripped(en)
    ensures it == "" && en == "" ==> notes == ""
    ensures it != "" && en == "" ==> notes == ItalianLabel + it
    ensures it == "" && en != "" ==> notes == EnglishLabel + en
    ensures it != "" && en != "" ==> notes == ItalianLabel + it + "\n\n" + EnglishLabel + en
  {
    var head := if it != "" then ItalianLabel + it + "\n\n" else "";
    var tail := if en != "" then EnglishLabel + en else "";
    if it == "" && en == "" then
      StripPadded([], [], []);
      assert head + tail == [] + [] + [];
      Strip(head + tail)
    else if en == "" then
      StripAfter(ItalianLabel + it, it, "\n\n");
      assert head + tail == ItalianLabel + it + "\n\n";
      Strip(head + tail)
    else if it == "" then
      StripAfter(EnglishLabel + en, en, []);
      assert head + tail == EnglishLabel + en + [];
      Strip(head + tail)
    else
      StripAfter(ItalianLabel + it + "\n\n" + EnglishLabel + en, en, []);
      assert head + tail == ItalianLabel + it + "\n\n" + EnglishLabel + en + [];
      Strip(head + tail)
  }

  /** A text ending in a stripped non-empty body and starting with a
      non-space character survives `strip` of trailing whitespace. */
  lemma StripAfter(x: string, body: string, w: string)
    requires Stripped(body) && body != [] && |x| >= |body| && x[|x| - |body|..] == body
    requires !IsSpace(x[0]) && AllSpace(w)
    ensures Strip(x + w) == x
  {
    assert x[|x| - 1] == body[|body| - 1];
    assert Stripped(x);
    var e: string := [];
    assert e + x + w == x + w;
    StripPadded(e, x, w);
  }

  // ---------------------------------------------------------------------
  // The whole record

  /** `parse_markdown_file(path)` on the file's text, given what the og:image
      fetch for the article link returned. */
  function Parse(s: string, fetched: Option<string>): (d: Document)
    ensures d.title == Title(s)
    ensures d.date == Field(s, DateHeader) && d.link == Field(s, UrlHeader)
    ensures Stripped(d.date) && Stripped(d.link)
    ensures d.link != "" && fetched.Some? && fetched.value != "" ==> d.image == fetched.value
    ensures d.link != "" && (fetched.None? || fetched.value == "") ==> d.image == LiteralImage(s)
    ensures d.link == "" ==> d.image == LiteralImage(s)
    ensures d.focalPoints == FocalPoints(s, PowerPoint)
    ensures forall k :: 0 <= k < |d.focalPoints| ==> d.focalPoints[k] != [] && Stripped(d.focalPoints[k])
    ensures d.speakerNotes == SpeakerNotes(s)
  {
    var link := Field(s, UrlHeader);
    Document(
      Title(s),
      Field(s, DateHeader),
      link,
      ResolveImage(LiteralImage(s), link, fetched),
      FocalPoints(s, PowerPoint),
      SpeakerNotes(s))
  }

  /** The extraction with the og:image fetch modelled by the retry policy:
      the fetch runs only when the link is non-empty. */
  function ParseWithNetwork(s: string, script: seq<Retry.Outcome<string>>): (d: Document)
    ensures Field(s, UrlHeader) == "" ==> d == Parse(s, None)
    ensures Field(s, UrlHeader) != "" ==> d == Parse(s, Retry.FetchPpt(script).result)
  {
    var link := Field(s, UrlHeader);
    Parse(s, if link != "" then Retry.FetchPpt(script).result else None)
  }

  /** Three failed fetches leave the literal image in place. */
  lemma FetchFailureKeepsLiteral(s: string, script: seq<Retry.Outcome<string>>)
    requires Field(s, UrlHeader) != ""
    requires forall j :: 0 <= j < 3 ==> Retry.OutcomeAt(script, j).Failed?
    ensures ParseWithNetwork(s, script).image == LiteralImage(s)
  {
    Retry.PptThreeFailures(script);
  }

  /** A page without og:image ends the fetch, so the literal image stays even
      when a later attempt would have found one. */
  lemma MissingImageKeepsLiteral(s: string, script: seq<Retry.Outcome<string>>, k: nat)
    requires Field(s, UrlHeader) != "" && k < 3
    requires forall j :: 0 <= j < k ==> Retry.OutcomeAt(script, j).Failed?
    requires Retry.OutcomeAt(script, k) == Retry.Answered(None)
    ensures ParseWithNetwork(s, script).image == LiteralImage(s)
  {
    Retry.PptMissingGivesUp(3, 1, script, k);
  }

  /** The first og:image found after failed attempts replaces the literal image. */
  lemma FetchedImageWins(s: string, script: seq<Retry.Outcome<string>>, k: nat, u: string)
    requires Field(s, UrlHeader) != "" && k < 3 && u != ""
    requires forall j :: 0 <= j < k ==> Retry.OutcomeAt(script, j).Failed?
    requires Retry.OutcomeAt(script, k) == Retry.Answered(Some(u))
    ensures ParseWithNetwork(s, script).image == u
  {
    var p := Retry.PptPolicy(3, 1);
    assert forall j :: 0 <= j < k ==> !Retry.Stops(p, Retry.OutcomeAt(script, j));
    Retry.FirstFindWins(p, script, k, u);
  }
}
