/**
 `parse_markdown_file` of scripts/markdown_to_pandoc.py, everything except
 `open`. This variant takes the image only from the "## Article Image" line,
 with no clean-up, and reads the notes from one "### Speaker Notes" block.
 */
module PandocExtract {
  import opened Optional
  import opened Text
  import opened Sections
  import Retry

  const NotesHeader := "### Speaker Notes\n"

  /** The block after "### Speaker Notes", up to the next level-2 heading
      line, stripped; "" when there is no such block. */
  function SpeakerNotes(s: string): (notes: string)
    ensures Stripped(notes)
    ensures Block(s, NotesHeader, Level2Line).None? ==> notes == ""
    ensures Block(s, NotesHeader, Level2Line).Some? ==> notes == Strip(Block(s, NotesHeader, Level2Line).value)
  {
    match Block(s, NotesHeader, Level2Line)
    case None => ""
    case Some(b) => Strip(b)
  }

  /** A level-3 heading does not end the notes block, a level-2 one does. */
  lemma NotesStopAtLevel2(s: string, e: nat)
    requires e + 2 <= |s| && LineStart(s, e) && s[e..e + 2] == "##"
    ensures StopsAt(s, Level2Line, e) <==> (e + 2 == |s| || s[e + 2] != '#')
    ensures StopsAt(s, Level3Line, e) <==> (e + 3 <= |s| && s[e + 2] == '#')
  {
    if e + 3 <= |s| && s[e + 2] == '#' {
      assert s[e..e + 3] == s[e..e + 2] + [s[e + 2]];
    }
  }

  /** `parse_markdown_file(path)` on the file's text, given what the og:image
      fetch for the article link returned. */
  function Parse(s: string, fetched: Option<string>): (d: Document)
    ensures d.title == Title(s)
    ensures d.date == Field(s, DateHeader) && d.link == Field(s, UrlHeader)
    ensures Stripped(d.date) && Stripped(d.link) && Stripped(d.speakerNotes)
    ensures d.link != "" && fetched.Some? && fetched.value != "" ==> d.image == fetched.value
    ensures d.link != "" && (fetched.None? || fetched.value == "") ==> d.image == Field(s, ImageHeader)
    ensures d.link == "" ==> d.image == Field(s, ImageHeader)
    ensures d.focalPoints == FocalPoints(s, Pandoc)
    ensures forall k :: 0 <= k < |d.focalPoints| ==> d.focalPoints[k] != [] && Stripped(d.focalPoints[k])
    ensures d.speakerNotes == SpeakerNotes(s)
  {
    var link := Field(s, UrlHeader);
    Document(
      Title(s),
      Field(s, DateHeader),
      link,
      ResolveImage(Field(s, ImageHeader), link, fetched),
      FocalPoints(s, Pandoc),
      SpeakerNotes(s))
  }

  /** The extraction with the og:image fetch modelled by the retry table. */
  function ParseWithNetwork(s: string, script: seq<Retry.Outcome<string>>): (d: Document)
    ensures Field(s, UrlHeader) == "" ==> d == Parse(s, None)
    ensures Field(s, UrlHeader) != "" ==> d == Parse(s, Retry.FetchPandoc(script).result)
  {
    var link := Field(s, UrlHeader);
    Parse(s, if link != "" then Retry.FetchPandoc(script).result else None)
  }

  /** Three failed fetches leave the "## Article Image" line in place. */
  lemma FetchFailureKeepsLiteral(s: string, script: seq<Retry.Outcome<string>>)
    requires Field(s, UrlHeader) != ""
    requires forall j :: 0 <= j < 3 ==> Retry.OutcomeAt(script, j).Failed?
    ensures ParseWithNetwork(s, script).image == Field(s, ImageHeader)
  {
    Retry.PandocThreeFailures(script);
  }

  /** Three pages without og:image also leave the literal image in place. */
  lemma MissingImageKeepsLiteral(s: string, script: seq<Retry.Outcome<string>>)
    requires Field(s, UrlHeader) != ""
    requires forall j :: 0 <= j < 3 ==> Retry.OutcomeAt(script, j) == Retry.Answered(None)
    ensures ParseWithNetwork(s, script).image == Field(s, ImageHeader)
  {
    Retry.PandocMissingTriesAgain(script);
  }

  /** The first og:image found replaces the literal image, even after pages
      without one: this fetcher retries those. */
  lemma FetchedImageWins(s: string, script: seq<Retry.Outcome<string>>, k: nat, u: string)
    requires Field(s, UrlHeader) != "" && k < 3 && u != ""
    requires forall j :: 0 <= j < k ==>
               Retry.OutcomeAt(script, j) == Retry.Failed || Retry.OutcomeAt(script, j) == Retry.Answered(None)
    requires Retry.OutcomeAt(script, k) == Retry.Answered(Some(u))
    ensures ParseWithNetwork(s, script).image == u
  {
    assert forall j :: 0 <= j < k ==> !Retry.Stops(Retry.PandocPolicy, Retry.OutcomeAt(script, j));
    Retry.FirstFindWins(Retry.PandocPolicy, script, k, u);
  }
}
