/**
 The text-level part of `create_single_slide` and `create_cover_slide` in
 scripts/markdown_to_ppt.py: the speaker-notes string both slides share,
 the paragraphs it becomes, whether the cover gets its background picture,
 and what each slide's text frames hold. Shapes, fonts, colours and
 positions are not modelled.
 */
module PptSlide {
  import opened Optional
  import opened Text
  import opened Sections
  import opened Inline
  import Retry

  /** The first line of the notes. */
  function NotesHeader(date: string, link: string): string {
    "Date: " + date + " - Link: " + link
  }

  /** The notes text of both slides: the date and link line, a blank line,
      then the parsed speaker notes. */
  function NotesText(date: string, link: string, notes: string): (t: string)
    ensures StartsWith(t, NotesHeader(date, link) + "\n\n")
    ensures |t| == |NotesHeader(date, link)| + 2 + |notes| && t[|NotesHeader(date, link)| + 2..] == notes
  {
    var head := NotesHeader(date, link) + "\n\n";
    var t := head + notes;
    assert t[..|head|] == head;
    assert t[|head|..] == notes;
    t
  }

  /** Splitting at the first separator: what precedes it is the first piece. */
  lemma SplitAfter(a: string, b: string, sep: char)
    requires sep !in a
    ensures Split(a + [sep] + b, sep) == [a] + Split(b, sep)
  {
    var s := a + [sep] + b;
    assert forall j :: 0 <= j < |a| ==> s[j] == a[j];
    IndexOfSkips(s, sep, 0, |a|);
    assert s[..|a|] == a;
    assert s[|a| + 1..] == b;
  }

  /** The notes frame holds the header line's runs, one empty paragraph for
      the blank line, and then one paragraph per line of the notes, blank
      lines becoming empty paragraphs. */
  lemma NotesParagraphs(date: string, link: string, notes: string)
    requires '\n' !in date && '\n' !in link
    ensures !AllSpace(NotesHeader(date, link))
    ensures FormatNotes(NotesText(date, link, notes))
            == [LineSpans(NotesHeader(date, link))] + [[]] + Later(Split(notes, '\n'))
  {
    HeaderLine(date, link);
    NotesLines(date, link, notes);
    LayoutAfterHeader(NotesHeader(date, link), Split(notes, '\n'));
  }

  lemma HeaderLine(date: string, link: string)
    requires '\n' !in date && '\n' !in link
    ensures '\n' !in NotesHeader(date, link) && !AllSpace(NotesHeader(date, link))
  {
    var h := NotesHeader(date, link);
    assert h == "Date: " + date + (" - Link: " + link);
    assert !IsSpace(h[0]);
  }

  lemma NotesLines(date: string, link: string, notes: string)
    requires '\n' !in NotesHeader(date, link)
    ensures Split(NotesText(date, link, notes), '\n') == [NotesHeader(date, link), ""] + Split(notes, '\n')
  {
    var h := NotesHeader(date, link);
    assert NotesText(date, link, notes) == h + "\n" + ("\n" + notes);
    SplitAfter(h, "\n" + notes, '\n');
    assert "\n" + notes == "" + ['\n'] + notes;
    SplitAfter("", notes, '\n');
  }

  lemma LayoutAfterHeader(h: string, rest: seq<string>)
    requires !AllSpace(h)
    ensures Layout([h, ""] + rest, true) == [LineSpans(h)] + [[]] + Later(rest)
  {
    var lines := [h, ""] + rest;
    assert lines[1..] == [""] + rest;
    assert Layout(lines, true) == [LineSpans(h)] + Layout([""] + rest, false);
    BlankLayout(rest);
    LayoutLater(rest);
  }

  lemma BlankLayout(rest: seq<string>)
    ensures Layout([""] + rest, false) == [[]] + Layout(rest, false)
  {
    assert ([""] + rest)[1..] == rest;
  }

  /** What the cover slide shows: its title, whether the article picture was
      added as background, and the notes frame when there are notes. */
  datatype CoverSlide = CoverSlide(title: string, background: bool, notes: Option<seq<Paragraph>>)

  /** What the content slide shows: its title, the focal-point frame, the
      date footer and the notes frame. */
  datatype ContentSlide = ContentSlide(title: string, body: seq<Paragraph>, footer: string, notes: seq<Paragraph>)

  /** `create_cover_slide`: downloads[k] says whether attempt k fetched the
      picture. */
  function Cover(title: string, imageUrl: string, speakerNotes: string,
                 maxRetries: int, retryDelay: int, downloads: seq<bool>): (c: CoverSlide)
    ensures c.title == title
    ensures c.background <==>
              ShowsImage(imageUrl) && exists k :: 0 <= k < maxRetries && k < |downloads| && downloads[k]
    ensures c.notes.Some? <==> speakerNotes != []
    ensures c.notes.Some? ==> c.notes.value == FormatNotes(speakerNotes)
  {
    Retry.CoverAddedIff(imageUrl, maxRetries, retryDelay, downloads);
    var added := Retry.CoverDownload(imageUrl, maxRetries, retryDelay, downloads).result.Some?;
    CoverSlide(title, added, if speakerNotes != [] then Some(FormatNotes(speakerNotes)) else None)
  }

  /** `create_single_slide` for a parsed document: the cover (three download
      attempts, one second base delay) and the content slide. */
  function SingleSlide(doc: Document, downloads: seq<bool>): (slides: (CoverSlide, ContentSlide))
    ensures slides.0.title == doc.title && slides.1.title == doc.title
    ensures slides.0.notes == Some(slides.1.notes)
    ensures slides.1.notes == FormatNotes(NotesText(doc.date, doc.link, doc.speakerNotes))
    ensures slides.1.body == FormatFocalPoints(doc.focalPoints) && slides.1.footer == doc.date
    ensures slides.0.background ==> ShowsImage(doc.image)
  {
    var notes := NotesText(doc.date, doc.link, doc.speakerNotes);
    var cover := Cover(doc.title, doc.image, notes, 3, 1, downloads);
    (cover, ContentSlide(doc.title, FormatFocalPoints(doc.focalPoints), doc.date, FormatNotes(notes)))
  }
}
