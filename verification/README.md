# Changelog markdown to slides: a Dafny model

The two converters `scripts/markdown_to_ppt.py` and `scripts/markdown_to_pandoc.py`
read one markdown file per changelog article and turn it into slides. Both
have the same core. It fetches the page's preview image (`og:image`), with
retries and back-off, and pulls a record out of loosely structured markdown.
The record holds the title, date, article link, image, focal points and
speaker notes. The PowerPoint script also tokenises inline markdown (bold,
italic, code, strikethrough, links) into styled text runs. Both scripts select
input files by the `YYYY-MM-DD` date in their names.

This project models that core as pure Dafny functions and proves properties
about them. It is laid out one module per part of the program:

- `optional.dfy`, module `Optional`: the `Option` type, standing for `None`
  or a regex match.
- `text.dfy`, module `Text`: Python's `str.strip`, `split('\n')`, `find`,
  the `re.MULTILINE` line anchors and `os.path.basename`.
- `retry.dfy`, module `Retry`: one retry engine with two policies.
  - The PowerPoint policy doubles the delay and gives up on a page without
    `og:image`.
  - The Pandoc policy takes delays from the table `[1, 2, 4]` and tries again.
  - The cover-image download is modelled here too.
- `sections.dfy`, module `Sections`: the section patterns both
  `parse_markdown_file` functions share (title, date/url/image lines, the
  `**Image:**` label, link targets, bare URLs, blocks ending at a heading) and
  the focal-point classification.
- `ppt_extract.dfy` and `pandoc_extract.dfy`: the two `parse_markdown_file`
  functions, including the two ways each finds speaker notes.
- `inline.dfy`, module `Inline`: the `re.finditer` tokenizer of
  `parse_markdown_formatting` and the `re.split` tokenizer of
  `format_focal_points_text`, the spans they yield, the paragraph layout of a
  text frame, and `convert_markdown_to_pptx_format`.
- `ppt_slide.dfy`, module `PptSlide`: the cover slide and content slide that
  `create_single_slide` builds, as records.
- `pandoc_slides.dfy`, module `PandocSlides`: the markdown text of the Pandoc
  cover and content slides.
- `date_filter.dfy`, module `DateFilter`: `filter_files_by_date`, with
  `datetime.strptime(s, '%Y-%m-%d')` modelled the way CPython's `_strptime`
  matches it.

Each regular expression becomes a predicate saying where it matches, plus a
search for the first such place, which is what `re.search` returns. The
network, the clock and file contents are parameters: a retry run is driven by
a script of per-attempt outcomes, and each `time.sleep` is recorded in a list.

## Model

| member | source | states |
|---|---|---|
| Sections.Title | scripts/markdown_to_ppt.py:88-89 | The title is the rest of the first line that starts with "# " and has at least one more character. It is never empty and holds no newline. It is "Untitled" when no line matches. |
| Sections.SubheadingIsNotTitle | scripts/markdown_to_pandoc.py:85-86 | A line starting "## " never counts as a title line, so a level-2 heading cannot become the title. |
| Sections.Field | scripts/markdown_to_ppt.py:92-97 | Date, link and image lines come from the first occurrence of the header whose next line is non-empty. The header may sit anywhere, not only at a line start. The value is that line, stripped. It is "" when there is no such occurrence. It never holds a newline. |
| Sections.ImageLabelValue | scripts/markdown_to_ppt.py:111-115 | The `**Image:**` fallback takes the first line-initial label whose value pattern matches. The value is the stripped line where the value starts. It is "" when no label matches. |
| Sections.LabelValueSkipsBlank | scripts/markdown_to_ppt.py:113 | Because `\s*` crosses newlines, the label's value is the first non-blank text after it, even on a later line. |
| Sections.LinkTarget | scripts/markdown_to_ppt.py:121-123 | The `](target)` search finds a value exactly when some "](" is followed by a non-empty run without ')' and then ')'. The value is that run at the first such place, so it is part of the input. |
| Sections.BareUrl | scripts/markdown_to_ppt.py:131-133 | The URL search finds a value exactly when some "http://" or "https://" begins a run. The value is that run from its first occurrence, ending before whitespace or ']', so it is part of the input. |
| Sections.FindUrl | scripts/markdown_to_ppt.py:131 | The search for the URL pattern returns the least matching position at or after its start, or nothing when no position matches. |
| Sections.Block | scripts/markdown_to_ppt.py:143-150 | A header-to-stop block exists exactly when the header occurs with at least one character after it. Its text runs from the header to the first stop at least one character later. |
| Sections.BlockEnd | scripts/markdown_to_ppt.py:144 | A block ends at the unique first stop, a `###` line or the end of the text, at or after the given position. |
| Sections.Classify | scripts/markdown_to_ppt.py:152-164 | A content line that yields a focal point yields a non-empty, stripped one. |
| Sections.Collect | scripts/markdown_to_pandoc.py:111-119 | The focal points are never more than the lines. Each point is non-empty and stripped. |
| Sections.CollectAppend | scripts/markdown_to_pandoc.py:111-119 | The lines are classified one by one: the points of two blocks of lines are the points of the first followed by those of the second. |
| Sections.CollectOne | scripts/markdown_to_pandoc.py:112-119 | A single line contributes its classified point when it has one, and nothing otherwise. |
| Sections.FocalPoints | scripts/markdown_to_ppt.py:143-164 | Every focal point from the content block is non-empty and stripped. |
| Sections.ResolveImage | scripts/markdown_to_ppt.py:136-139 | A non-empty fetched image replaces the literal image only when the article link is non-empty. Otherwise the literal is kept. |
| PptExtract.CleanImage | scripts/markdown_to_ppt.py:118-133 | Cleaning the image value empties it only when it was already empty, and the result is always part of the input. Without a markdown link the result is the first bare URL, or the value itself when there is none. With a link and no `](target)`, the same holds. With a `](target)`, the result is the first bare URL in that target, or the whole target when it holds none. |
| PptExtract.PlainUrlKept | scripts/markdown_to_ppt.py:131-133 | A plain http(s) URL with no whitespace, ']' or "](" passes through the clean-up unchanged. |
| PptExtract.MarkupUnwrapped | scripts/markdown_to_ppt.py:118-133 | `[text](url)` and `![alt](url)` around a plain URL both clean up to exactly that URL. |
| PptExtract.MarkupTarget | scripts/markdown_to_ppt.py:121-123 | The `](` search on link or image markup yields exactly the wrapped URL. |
| PptExtract.MarkupIsLink | scripts/markdown_to_ppt.py:120 | Image markup `![alt](url)` already passes the link-branch test. |
| PptExtract.ImageBranchUnreachable | scripts/markdown_to_ppt.py:125-128 | The `elif '!['` branch can never run: every value it accepts was already taken by the link branch. |
| PptExtract.LiteralImage | scripts/markdown_to_ppt.py:104-133 | The literal image is the cleaned "## Article Image" line when that line is non-empty, and the cleaned `**Image:**` value otherwise. |
| PptExtract.SectionEnd | scripts/markdown_to_ppt.py:181-183 | A notes section ends at the first "\n## " at or after its start, or at the end of the text. |
| PptExtract.ItalianNotes | scripts/markdown_to_ppt.py:174-186 | The Italian body is stripped. It is empty when the Italian header is absent. |
| PptExtract.EnglishFirstEmptiesItalian | scripts/markdown_to_ppt.py:179-184 | When the English header comes before the Italian one, the Italian slice runs backwards and the Italian body is empty. |
| PptExtract.EnglishNotes | scripts/markdown_to_ppt.py:188-197 | The English body is stripped. It is empty when the English header is absent. |
| PptExtract.CombineNotes | scripts/markdown_to_ppt.py:185-199 | The notes, by case: none when both bodies are empty; the labelled Italian body alone; the labelled English body alone; or both labelled bodies joined by one blank line. The final strip drops only the trailing blank line after a lone Italian body. |
| PptExtract.Parse | scripts/markdown_to_ppt.py:74-208 | The record's title is `Title`. The date and link are the stripped lines after the "## Article Date" and "## Article Url" headers. A non-empty fetched image wins when a link exists. Without a link, or when the fetch gave nothing, the cleaned literal image stands. The focal points and speaker notes are those the block extractors find, and every focal point is non-empty and stripped. |
| PptExtract.FetchFailureKeepsLiteral | scripts/markdown_to_ppt.py:135-139 | When all three fetch attempts fail, the record keeps the literal image. |
| PptExtract.MissingImageKeepsLiteral | scripts/markdown_to_ppt.py:57-60 | When a page without og:image answers before three failures, the record keeps the literal image. |
| PptExtract.FetchedImageWins | scripts/markdown_to_ppt.py:135-139 | When an attempt finds a non-empty og:image after earlier failures, that image replaces the literal one. |
| PptExtract.ParseWithNetwork | scripts/markdown_to_ppt.py:135-139 | The og:image fetch runs, with three attempts and a 1-second base delay, only when the link is non-empty. Its result feeds the record. |
| PandocExtract.SpeakerNotes | scripts/markdown_to_pandoc.py:121-128 | The notes are the stripped "### Speaker Notes" block, or "" without one. |
| PandocExtract.NotesStopAtLevel2 | scripts/markdown_to_pandoc.py:122 | A line-initial "##" ends the notes block exactly when no third '#' follows; a level-3 heading does not end it. |
| PandocExtract.Parse | scripts/markdown_to_pandoc.py:72-137 | The record has `Title` for its title. Its date and link are the stripped header fields. The image is the "## Article Image" line unless a link exists and a non-empty image was fetched. The focal points and speaker notes are those the block extractors find, and every focal point is non-empty and stripped. |
| PandocExtract.FetchFailureKeepsLiteral | scripts/markdown_to_pandoc.py:97-101 | When all three fetch attempts fail, the record keeps the "## Article Image" line. |
| PandocExtract.MissingImageKeepsLiteral | scripts/markdown_to_pandoc.py:47-60 | When three pages come back without og:image, the record keeps the "## Article Image" line. |
| PandocExtract.FetchedImageWins | scripts/markdown_to_pandoc.py:97-101 | When an attempt finds a non-empty og:image after failures or pages without one, that image replaces the literal one. |
| PandocExtract.ParseWithNetwork | scripts/markdown_to_pandoc.py:97-101 | The fetch runs under the table policy only when the link is non-empty. |
| Retry.RunFrom | scripts/markdown_to_ppt.py:38-72 | A retry run makes no attempt once the attempt number reaches `max_retries`, and otherwise between 1 and the remaining number of attempts. The sleeps are the pauses owed for the attempts made. |
| Retry.RunFromStops | scripts/markdown_to_ppt.py:38-72 | Every attempt but the last went on. The result is the last attempt's answer when it stopped the loop, and None when the attempts ran out. |
| Retry.AllFailFrom | scripts/markdown_to_ppt.py:62-72 | When every attempt fails, the run uses all attempts, returns None and sleeps the policy's delay after each attempt but the last. |
| Retry.NoSleepAfterLast | scripts/markdown_to_ppt.py:64-68 | A run never sleeps after its last attempt, so there are fewer sleeps than attempts. |
| Retry.PausesShort | scripts/markdown_to_ppt.py:64 | A span of attempts ending in a stop, or in the final attempt, has fewer pauses than attempts. |
| Retry.FirstFindWins | scripts/markdown_to_ppt.py:57-59 | The first attempt that finds an image returns it, with the attempt count one past its index. |
| Retry.PptThreeFailures | scripts/markdown_to_ppt.py:38-72 | With the defaults, three failures sleep 1 then 2 seconds and return None. |
| Retry.PptBackoffDoubles | scripts/markdown_to_ppt.py:64-68 | After the k-th failed attempt the PowerPoint fetch sleeps `retry_delay * 2^k`. There are `max_retries - 1` sleeps in all. |
| Retry.PptMissingGivesUp | scripts/markdown_to_ppt.py:57-60 | A page without og:image ends the PowerPoint fetch at once with None. |
| Retry.FetchPandoc | scripts/markdown_to_pandoc.py:37-70 | The Pandoc fetch makes at most three attempts. |
| Retry.PandocSleeps | scripts/markdown_to_pandoc.py:37-65 | The Pandoc fetch sleeps at most twice, and only 1 or 2 seconds: the table's 4 is never used. |
| Retry.PandocPausesSmall | scripts/markdown_to_pandoc.py:61-64 | Every pause the Pandoc policy takes between its three attempts is 1 or 2 seconds. |
| Retry.PandocMissingTriesAgain | scripts/markdown_to_pandoc.py:47-60 | Pages without og:image make the Pandoc fetch try three times, without sleeping, and return None. |
| Retry.PandocThreeFailures | scripts/markdown_to_pandoc.py:37-70 | Three failed Pandoc attempts sleep 1 then 2 seconds and return None. |
| Retry.DownloadOutcomes | scripts/markdown_to_ppt.py:483-505 | Each download attempt is a success or a failure, one outcome per attempt. |
| Retry.CoverDownload | scripts/markdown_to_ppt.py:481-505 | The cover image is downloaded only for a non-empty URL that is not the changelog index page. The download retries with doubling back-off. |
| Retry.CoverAddedIff | scripts/markdown_to_ppt.py:481-508 | The cover image is added exactly when it should be shown and one of the first `max_retries` downloads succeeds. |
| Retry.CoverFirstSuccess | scripts/markdown_to_ppt.py:483-498 | When the image is shown, the first successful download adds it and ends the loop after that many attempts. |
| Retry.FirstSuccess | scripts/markdown_to_ppt.py:483-496 | The loop stops at the first successful download. |
| Inline.Scan | scripts/markdown_to_ppt.py:285-301 | A scan splits the line into non-empty pieces that spell the line back. Tokens have one of the pattern's shapes, and no two gaps are adjacent. Under the notes pattern, gaps hold only `*_`~[` characters. |
| Inline.ScanFrom | scripts/markdown_to_ppt.py:288-301 | Scanning resumes after each match; text with no match becomes gap text. |
| Inline.Emit | scripts/markdown_to_ppt.py:289-292 | A gap before a match, the match and the rest scan the whole remainder. |
| Inline.GapToken | scripts/markdown_to_ppt.py:289-292 | A gap followed by one match is a well-formed scan. |
| Inline.ScannedAppend | scripts/markdown_to_ppt.py:288-297 | Well-formed scans of two texts concatenate into a scan of the joined text. |
| Inline.SpecialSnoc | scripts/markdown_to_ppt.py:265 | Under the notes pattern, a position where no alternative matches holds a special character, so every skipped gap is made of special characters. |
| Inline.TextsAppend | scripts/markdown_to_ppt.py:289-297 | The text of joined pieces is the joined text. |
| Inline.MatchEnd | scripts/markdown_to_ppt.py:265 | A match at a position has one of the pattern's token shapes. Under the notes pattern, every non-special character starts one. |
| Inline.MatchEndPriority | scripts/markdown_to_ppt.py:265 | The alternatives are tried in order. A bold, italic, code or strike token at a position is the match found there. So is a link under the notes pattern. "**" wins over "*". A non-special character starts a plain run under the notes pattern and no match under the focal one. A position where nothing is found starts no token. |
| Inline.PlainEnd | scripts/markdown_to_ppt.py:265 | The plain-run alternative takes non-special characters and ends on a non-space character, or after one character. Only whitespace lies between its end and the next special character. |
| Inline.LinkParts | scripts/markdown_to_ppt.py:328-330 | `re.match` on a link token splits it into its text and its URL at the first "](". |
| Inline.Style | scripts/markdown_to_ppt.py:315 | A run is a hyperlink exactly when links are on and the token starts with '[' and contains "](". |
| Inline.StyleStrips | scripts/markdown_to_ppt.py:311-332 | Every token loses exactly its markers. Bold and strikethrough lose two characters on each side, italic and code one. A link keeps its text and its URL, and a plain run is unstyled. |
| Inline.LinkStrips | scripts/markdown_to_ppt.py:326-330 | A link token becomes a run with its text and target URL. |
| Inline.LineSpansStrip | scripts/markdown_to_ppt.py:285-365 | A non-blank line yields one run per piece of its scan. A gap becomes an unstyled run of its text, and a token becomes a run stripped of its markers. |
| Inline.RunsStrip | scripts/markdown_to_ppt.py:303-365 | Runs for well-formed pieces correspond one to one with the pieces, each with its marker-free text and style. |
| Inline.RunOfOne | scripts/markdown_to_ppt.py:305-365 | One well-formed piece gives exactly one run. |
| Inline.FirstFilled | scripts/markdown_to_ppt.py:270-275 | This is the first non-blank line; all lines before it are blank. |
| Inline.LayoutShape | scripts/markdown_to_ppt.py:259-282 | Leading blank lines produce nothing. A text with no non-blank line leaves the frame's one empty paragraph. Otherwise there is one paragraph per line from the first non-blank one on. |
| Inline.LayoutLater | scripts/markdown_to_ppt.py:270-282 | After the first paragraph, every line, blank or not, becomes exactly one paragraph. |
| Inline.LaterLayout | scripts/markdown_to_ppt.py:277-282 | A text whose first line is non-blank gets one paragraph per line. |
| Inline.FormatNotes | scripts/markdown_to_ppt.py:259-282 | A formatted text frame always has at least one paragraph. |
| Inline.FocalParagraph | scripts/markdown_to_ppt.py:385-452 | A focal paragraph is the bullet mark followed by one run per non-empty part of the split, styled with links off. |
| Inline.FormatFocalPoints | scripts/markdown_to_ppt.py:376-382 | The frame has one paragraph per focal point, in order. With no points, the cleared frame keeps one empty paragraph. |
| Inline.FocalTokensStrip | scripts/markdown_to_ppt.py:419-434 | Every captured emphasis part of a focal point loses exactly its markers. |
| Inline.BareMarkersEmpty | scripts/markdown_to_ppt.py:419-434 | A lone "*" or "_" part becomes an empty italic run, and a lone "**" an empty bold run. |
| Inline.RemoveBold | scripts/markdown_to_ppt.py:241 | Removing "**" leaves no "**" behind. Stars are removed in pairs, and a leading character that does not start "**" stays in front. |
| Inline.RemoveBoldNonStars | scripts/markdown_to_ppt.py:241 | Every character other than '*' survives the removal, in the same order. |
| Inline.RemoveBoldKeeps | scripts/markdown_to_ppt.py:241 | Text without "**" is left unchanged. |
| Inline.RemoveBoldIdempotent | scripts/markdown_to_ppt.py:241 | Removing bold markers twice is the same as once. |
| Inline.RemoveBoldCons | scripts/markdown_to_ppt.py:241 | A character other than '*' is copied to the front and the rest is treated on its own. With `Inline.RemoveBoldStars`, this fixes the result on every input. |
| Inline.RemoveBoldStars | scripts/markdown_to_ppt.py:241 | The replacement scans left to right without overlap: a run of k stars leaves k mod 2 of them, and the rest of the text is treated on its own. |
| Inline.PlainLine | scripts/markdown_to_ppt.py:285-365 | A line without markup characters yields only unstyled runs whose texts spell the line back. |
| Inline.PlainLinePieces | scripts/markdown_to_ppt.py:285-301 | A line without markup characters scans into plain-run tokens only. |
| Inline.PlainPoint | scripts/markdown_to_ppt.py:385-438 | A focal point without emphasis characters becomes the bullet mark and one unstyled run of the whole point. |
| Inline.PlainPointScan | scripts/markdown_to_ppt.py:402-403 | Splitting a point without emphasis characters yields the point as its only part. |
| Inline.MarkerFreeStyle | scripts/markdown_to_ppt.py:419-434 | A part not starting with a marker carries no style. |
| Inline.SpanTextsTokens | scripts/markdown_to_ppt.py:359-365 | Runs built from plain tokens are unstyled and spell back the tokens' text. |
| PptSlide.NotesText | scripts/markdown_to_ppt.py:566 | The notes text is the "Date: … - Link: …" header, a blank line, then the speaker notes unchanged. |
| PptSlide.NotesParagraphs | scripts/markdown_to_ppt.py:566-627 | The content slide's notes frame has the header's runs, then an empty paragraph, then one paragraph per line of the speaker notes. |
| PptSlide.NotesLines | scripts/markdown_to_ppt.py:566 | The notes text splits into the header line, an empty line and the notes' own lines. |
| PptSlide.LayoutAfterHeader | scripts/markdown_to_ppt.py:267-282 | After a non-blank first line, a blank line becomes an empty paragraph and the remaining lines each become one paragraph. |
| PptSlide.Cover | scripts/markdown_to_ppt.py:454-534 | The cover shows the title. It has a background exactly when the image is shown and one download succeeds within the retries. It has notes exactly when the notes text is non-empty, formatted as the notes frame. |
| PptSlide.SingleSlide | scripts/markdown_to_ppt.py:536-629 | Both slides carry the title and the same formatted notes. The content body is the formatted focal points and the footer is the date. A background implies a showable image. |
| PandocSlides.CoverSlide | scripts/markdown_to_pandoc.py:139-163 | The cover markdown is the "# title" heading and a closing rule. Between them is the background image line, named by the URL's basename, when the image is shown, and nothing otherwise. |
| PandocSlides.CoverTitleReadBack | scripts/markdown_to_pandoc.py:156-159 | Parsing the title back out of a cover slide gives the original one-line title. |
| PandocSlides.Bullets | scripts/markdown_to_pandoc.py:185-186 | The bullet list is empty for no points and starts with the first point's "- " line otherwise. |
| PandocSlides.BulletLines | scripts/markdown_to_pandoc.py:185-186 | Each focal point becomes one "- " line, in order. |
| PandocSlides.BulletsJoin | scripts/markdown_to_pandoc.py:185-186 | The bullets are the "- " lines joined by newlines, with a trailing newline. |
| PandocSlides.NotesBlock | scripts/markdown_to_pandoc.py:189-196 | The notes block is absent exactly when both notes and link are empty. Otherwise it opens "::: notes", ends with the notes and the closing ":::", and carries the "**Article Link**:" line right after the opening when a link exists, with nothing else between that line and the notes. |
| PandocSlides.ContentSlide | scripts/markdown_to_pandoc.py:165-204 | The content markdown is the "## title" heading, then the bullets and the notes block, then the date comment and the closing rule. |
| PandocSlides.BulletsReadBack | scripts/markdown_to_pandoc.py:111-119 | Reading the focal points back from the bullets written for them, with either script's classifier, gives exactly those points, in order. |
| PandocSlides.CollectBullets | scripts/markdown_to_pandoc.py:111-117 | Classifying the "- " lines of stripped one-line points gives back the points. |
| PandocSlides.DashLine | scripts/markdown_to_pandoc.py:115-117 | A "- " line yields its stripped text as a focal point. |
| DateFilter.DaysInMonth | scripts/markdown_to_ppt.py:644 | A month has 28 to 31 days. It has 29 exactly for February in a Gregorian leap year. |
| DateFilter.Digit | scripts/markdown_to_ppt.py:644 | The digit character has the given value. |
| DateFilter.MonthAt | scripts/markdown_to_ppt.py:644 | A parsed month is between 1 and 12 and is followed by '-'. |
| DateFilter.DayAt | scripts/markdown_to_ppt.py:644 | A parsed day is between 1 and 31. |
| DateFilter.ParseDate | scripts/markdown_to_ppt.py:644 | A date that parses is a valid calendar date with its year between 1 and 9999. |
| DateFilter.Pad4 | scripts/markdown_to_ppt.py:644 | A year written as four digits reads back as the same year. |
| DateFilter.Format | scripts/markdown_to_ppt.py:637 | A formatted date is ten characters of the `YYYY-MM-DD` shape the file-name match takes. |
| DateFilter.ParseFormat | scripts/markdown_to_ppt.py:644-653 | Parsing a valid date's `YYYY-MM-DD` spelling gives the date back. |
| DateFilter.ParseShaped | scripts/markdown_to_ppt.py:637-644 | A ten-character `dddd-dd-dd` string parses exactly when the date it spells is valid, and then parses to that date. |
| DateFilter.MonthOfShape | scripts/markdown_to_ppt.py:644 | In a `dddd-dd-dd` string, the month is read from both of its digits. |
| DateFilter.DayOfShape | scripts/markdown_to_ppt.py:644 | In a `dddd-dd-dd` string, the day is read from both of its digits. |
| DateFilter.FileDate | scripts/markdown_to_ppt.py:637-644 | A file has a date exactly when its name starts with `dddd-dd-dd` spelling a valid date, and the date is the one spelled. |
| DateFilter.KeepIff | scripts/markdown_to_ppt.py:636-658 | A file is kept exactly when its name starts with a valid date and no set bound excludes it. A bound that is set must parse, with `from` no later than the date and `to` no earlier. |
| DateFilter.Select | scripts/markdown_to_ppt.py:634-661 | The selection keeps exactly the elements that pass, and nothing else. |
| DateFilter.Filter | scripts/markdown_to_ppt.py:634-661 | The loop appends exactly the passing elements, in order. |
| DateFilter.FilterFilesByDate | scripts/markdown_to_ppt.py:631-661 | Every kept file comes from the input and passes the date test. Every input file that passes the date test is kept. |
| DateFilter.KeptInOrder | scripts/markdown_to_pandoc.py:206-234 | The kept files are a subsequence of the input, in the input's order. |
| DateFilter.BadBoundDropsAll | scripts/markdown_to_pandoc.py:220-232 | An unparsable bound that is set raises on every dated file, so no file is kept. |
| DateFilter.InclusiveBounds | scripts/markdown_to_pandoc.py:220-228 | Both bounds are inclusive: a file dated d is kept when both bounds are d. |
| DateFilter.UndatedDropped | scripts/markdown_to_pandoc.py:211-218 | A file without a valid date prefix is never kept. |
| DateFilter.SelectSubsequence | scripts/markdown_to_ppt.py:634-656 | Filtering preserves the input order. |
| DateFilter.SelectNone | scripts/markdown_to_ppt.py:634-656 | When nothing passes, nothing is kept. |
| Text.Split | scripts/markdown_to_ppt.py:262 | `split('\n')` gives at least one piece. No piece holds a newline, and the pieces joined by newlines are the text. |
| Text.SplitJoin | scripts/markdown_to_ppt.py:262 | Splitting newline-joined lines gives back the lines. |
| Text.Strip | scripts/markdown_to_ppt.py:93 | `strip()` leaves no whitespace at either end and never lengthens the text. |
| Text.StripKeepsNonSpace | scripts/markdown_to_ppt.py:270 | A text holding a non-whitespace character does not strip to "". |
| Text.StripKeeps | scripts/markdown_to_ppt.py:93 | `strip()` only removes characters: everything in the result was in the input. |
| Text.StripBlank | scripts/markdown_to_ppt.py:270 | `strip()` gives "" exactly for all-whitespace text. |
| Text.StripPadded | scripts/markdown_to_ppt.py:93 | `strip()` recovers a stripped core from any whitespace padding. |
| Text.Find | scripts/markdown_to_ppt.py:174-175 | `find` returns the first occurrence at or after the start, or -1 when there is none. |
| Text.Basename | scripts/markdown_to_pandoc.py:157 | The base name is the part after the last '/': a suffix holding no '/'. |

## Left out

- File reading, writing and directory walks are left out: the model starts from a file's text and a list of paths.
- HTTP requests are left out. The `og:image` HTML regex is not modelled; each fetch attempt is an abstract outcome: failed, answered with an image, or answered without one.
- `time.sleep` is not performed; each sleep is recorded in the run's list of delays.
- python-pptx is left out: slide layouts, fonts, sizes, colours, the overlay and shape placement. Text frames and runs are modelled as paragraphs of styled spans.
- Both `main` functions are left out: command-line flags, the Pandoc subprocess and its retry without background images.
- Whitespace is the ASCII part of Python's `str.isspace()`, and `\d` is read as an ASCII digit only; non-ASCII whitespace and digits are out of scope.
- Paths are strings split on '/', standing for `pathlib`'s `name` and `os.path.basename`.
- The run-level `first_run` bookkeeping of `parse_markdown_formatting` is not modelled: both of its branches add one run, so it does not change the result.
- The `if not tokens` branch of `parse_markdown_formatting` is modelled: `LineSpans` returns the whole line as one gap when the scan yields no pieces. No proof relies on it, and the branch cannot run, because every non-blank line yields at least one piece.
- The comments at scripts/markdown_to_ppt.py:65 and scripts/markdown_to_pandoc.py:38 describe delays of 1, 2 and 4 seconds. The code sleeps only after a non-final attempt, so three failures sleep 1 then 2 seconds (`Retry.PptThreeFailures`, `Retry.PandocSleeps`). The model follows the code.
- The plain-run alternative of the notes pattern trims trailing whitespace from a run. So "Use **bold**" yields the runs "Use", " " and the bold run, not a single "Use " run. The model follows the code.
- The Pandoc script tests for the three characters U+201A U+00C4 U+00A2 followed by a space. These are the UTF-8 bytes of "•" read as Mac Roman. The model uses this literal as written, so a genuine "• " line is not a focal point in the Pandoc script.
- Retry.RunFrom: a negative `retry_delay` is recorded as a negative sleep. Python's `time.sleep` would raise `ValueError` inside the `except` handler (scripts/markdown_to_ppt.py:67, :502). Every caller in both scripts passes 1.
- Sections.Classify: the contract states only that an extracted point is non-empty and stripped. Which lines qualify is stated through `PandocSlides.DashLine` and `PandocSlides.BulletsReadBack` for "- " lines, not for every line shape.
- Inline.Scan: the contract states that the pieces partition the line into token-shaped matches and special-character gaps. It does not itself state that each match is the one the regex engine picks; `Inline.MatchEndPriority` states that order for each position.
- PptExtract.ItalianNotes: the contract does not state the slice bounds in terms of both header positions. Only the absent-header case and `PptExtract.EnglishFirstEmptiesItalian` are stated.
- PptExtract.EnglishNotes: the contract states the absent-header case and that the body is stripped, not where the slice ends.
- Sections.FocalPoints: the contract states the shape of every point, not the count per bullet line; the count is stated for "- " bullets by `PandocSlides.BulletsReadBack`.
