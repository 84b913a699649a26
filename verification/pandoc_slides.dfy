/**
 The slide serialisers of scripts/markdown_to_pandoc.py:
 `create_cover_slide_markdown` and `create_content_slide_markdown`.
 Both are pure string builders; `os.path.basename` is `Text.Basename`.
 */
module PandocSlides {
  import opened Optional
  import opened Text
  import opened Sections

  const Rule := "---\n\n"

  function Heading(title: string): string {
    "# " + title + "\n\n"
  }

  function BackgroundLine(imageUrl: string): string {
    "![](./media/" + Basename(imageUrl) + "){.background}\n\n"
  }

  /** The cover: the title heading, the background picture line when the
      image is shown, then a rule. The date argument is not used. */
  function CoverSlide(title: string, imageUrl: string, date: string): (md: string)
    ensures StartsWith(md, Heading(title)) && EndsWith(md, Rule)
    ensures |md| >= |Heading(title)| + |Rule|
    ensures ShowsImage(imageUrl) ==> md[|Heading(title)|..|md| - |Rule|] == BackgroundLine(imageUrl)
    ensures !ShowsImage(imageUrl) ==> |md| == |Heading(title)| + |Rule|
  {
    var middle := if ShowsImage(imageUrl) then BackgroundLine(imageUrl) else "";
    Parts(Heading(title), middle, Rule);
    Heading(title) + middle + Rule
  }

  /** The title extractor reads the cover's heading back. */
  lemma CoverTitleReadBack(title: string, imageUrl: string, date: string)
    requires title != [] && '\n' !in title
    ensures Title(CoverSlide(title, imageUrl, date)) == title
  {
    var md := CoverSlide(title, imageUrl, date);
    var h := Heading(title);
    assert md[..|h|] == h;
    assert forall k :: 0 <= k < |h| ==> md[k] == h[k];
    assert TitleAt(md, 0) by {
      assert md[0..2] == h[0..2] == "# ";
      assert md[2] == title[0];
    }
    assert FirstTitleAt(md, 0);
    assert md[2 + |title|] == '\n';
    assert forall k :: 2 <= k < 2 + |title| ==> md[k] == title[k - 2];
    IndexOfSkips(md, '\n', 2, 2 + |title|);
    assert md[2..2 + |title|] == title;
  }

  /** The three parts of a concatenation can be sliced back out. */
  lemma Parts(a: string, b: string, c: string)
    ensures StartsWith(a + b + c, a) && EndsWith(a + b + c, c)
    ensures (a + b + c)[|a|..|a| + |b|] == b
  {
    var s := a + b + c;
    assert s[..|a|] == a;
    assert s[|s| - |c|..] == c;
  }

  // ---------------------------------------------------------------------
  // create_content_slide_markdown

  /** One "- point" line per focal point, in order. */
  function Bullets(points: seq<string>): (md: string)
    ensures points == [] ==> md == []
    ensures points != [] ==> StartsWith(md, "- " + points[0] + "\n")
  {
    if points == [] then []
    else
      var md := ("- " + points[0] + "\n") + Bullets(points[1..]);
      assert md[..|"- " + points[0] + "\n"|] == "- " + points[0] + "\n";
      md
  }

  /** The Pandoc notes block, present when there are notes or a link; the
      link line is present when there is a link. */
  function NotesBlock(notes: string, link: string): (md: string)
    ensures md == [] <==> notes == [] && link == []
    ensures md != [] ==> StartsWith(md, "\n::: notes\n\n") && EndsWith(md, notes + "\n\n:::\n")
    ensures link != [] ==> OccursAt(md, "**Article Link**: " + link + "\n\n", 12)
    ensures link != [] ==> |md| == 12 + |"**Article Link**: " + link + "\n\n"| + |notes + "\n\n:::\n"|
    ensures md != [] && link == [] ==> md == "\n::: notes\n\n" + notes + "\n\n:::\n"
  {
    if notes != "" || link != "" then
      var linkLine := if link != "" then "**Article Link**: " + link + "\n\n" else "";
      var tail := notes + "\n\n:::\n";
      ThreeParts("\n::: notes\n\n", linkLine, tail);
      "\n::: notes\n\n" + linkLine + tail
    else ""
  }

  /** The three parts of a concatenation sit where they were put. */
  lemma ThreeParts(a: string, b: string, c: string)
    ensures |a + b + c| == |a| + |b| + |c|
    ensures (a + b + c)[..|a|] == a && (a + b + c)[|a|..|a| + |b|] == b
    ensures (a + b + c)[|a| + |b|..] == c
  {
  }

  function DateFooter(date: string): string {
    "\n<!-- Date: " + date + " -->\n" + "\n---\n\n"
  }

  /** The content slide: a level-2 title, the bullets, the notes block, and
      always the date comment and the closing rule. */
  function ContentSlide(title: string, points: seq<string>, date: string, notes: string, link: string): (md: string)
    ensures StartsWith(md, "## " + title + "\n\n")
    ensures EndsWith(md, DateFooter(date))
    ensures |md| == |"## " + title + "\n\n"| + |Bullets(points) + NotesBlock(notes, link)| + |DateFooter(date)|
    ensures md[|"## " + title + "\n\n"|..|md| - |DateFooter(date)|] == Bullets(points) + NotesBlock(notes, link)
  {
    var head := "## " + title + "\n\n";
    var body := Bullets(points) + NotesBlock(notes, link);
    Parts(head, body, DateFooter(date));
    head + body + DateFooter(date)
  }

  // ---------------------------------------------------------------------
  // Reading the bullets back

  /** The bullet lines, without their newlines. */
  function BulletLines(points: seq<string>): (lines: seq<string>)
    ensures |lines| == |points|
    ensures forall k :: 0 <= k < |points| ==> lines[k] == "- " + points[k]
  {
    if points == [] then [] else ["- " + points[0]] + BulletLines(points[1..])
  }

  lemma {:induction false} BulletsJoin(points: seq<string>)
    requires points != []
    ensures Bullets(points) == Join(BulletLines(points), '\n') + "\n"
    decreases |points|
  {
    if |points| > 1 {
      BulletsJoin(points[1..]);
      assert BulletLines(points)[1..] == BulletLines(points[1..]);
    } else {
      assert Bullets(points[1..]) == [];
    }
  }

  /** A focal point that is non-empty, stripped and on one line. */
  predicate Point(p: string) {
    p != [] && Stripped(p) && '\n' !in p
  }

  /** The focal-point classifier of either script recovers the points from
      the bullet lines this serialiser writes. */
  lemma {:induction false} BulletsReadBack(points: seq<string>, script: Script)
    requires points != []
    requires forall k :: 0 <= k < |points| ==> Point(points[k])
    ensures Collect(Split(Bullets(points), '\n'), script) == points
  {
    var lines := BulletLines(points);
    BulletsJoin(points);
    var all := lines + [""];
    JoinSnoc(lines, '\n');
    assert forall k :: 0 <= k < |all| ==> '\n' !in all[k] by {
      forall k | 0 <= k < |all| ensures '\n' !in all[k] {
        if k < |lines| {
          assert all[k] == "- " + points[k];
        }
      }
    }
    SplitJoin(all, '\n');
    CollectBullets(points, script);
  }

  lemma {:induction false} JoinSnoc(lines: seq<string>, sep: char)
    requires lines != []
    ensures Join(lines + [""], sep) == Join(lines, sep) + [sep]
    decreases |lines|
  {
    if |lines| == 1 {
      assert (lines + [""])[1..] == [""];
    } else {
      assert (lines + [""])[1..] == lines[1..] + [""];
      JoinSnoc(lines[1..], sep);
    }
  }

  lemma {:induction false} CollectBullets(points: seq<string>, script: Script)
    requires forall k :: 0 <= k < |points| ==> Point(points[k])
    ensures Collect(BulletLines(points) + [""], script) == points
    decreases |points|
  {
    if points == [] {
      assert BulletLines(points) + [""] == [""];
      CollectBlank(script);
    } else {
      var lines := BulletLines(points) + [""];
      DashLine(points[0], script);
      assert lines == ["- " + points[0]] + (BulletLines(points[1..]) + [""]);
      CollectBullets(points[1..], script);
      CollectCons("- " + points[0], BulletLines(points[1..]) + [""], points[0], script);
    }
  }

  lemma CollectBlank(script: Script)
    ensures Collect([""], script) == []
  {
    StripPadded([], [], []);
    assert [] + [] + [] == "";
  }

  lemma CollectCons(line: string, rest: seq<string>, p: string, script: Script)
    requires Classify(line, script) == Some(p)
    ensures Collect([line] + rest, script) == [p] + Collect(rest, script)
  {
    assert ([line] + rest)[1..] == rest;
  }

  /** "- " + p classifies as p. */
  lemma DashLine(p: string, script: Script)
    requires Point(p)
    ensures Classify("- " + p, script) == Some(p)
  {
    var l := "- " + p;
    assert Stripped(l) by { assert l[|l| - 1] == p[|p| - 1]; }
    StripPadded([], l, []);
    assert [] + l + [] == l;
    assert StartsWith(l, "- ");
    assert l[2..] == p;
    StripPadded([], p, []);
    assert [] + p + [] == p;
  }
}
