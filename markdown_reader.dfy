/**
 * Document body to markdown (the loop of `GoogleApi.extract_markdown_from_doc`).
 *
 * Each paragraph becomes one line: `# ` or `## ` for the two heading styles,
 * then `- ` for a bulleted paragraph, then its text runs, each with its
 * trailing newlines removed and wrapped `**…**` (bold, innermost), `_…_`
 * (italic), `[…](url)` (link, outermost).  Body elements that are not
 * paragraphs and paragraph elements without a text run are skipped.  Lines
 * are joined with '\n'.
 */
module MarkdownReader {
  import opened Strings
  import opened Options

  /** A `link` text-style entry; `url` is absent for links to headings or bookmarks. */
  datatype Link = Link(url: Option<string>)

  datatype TextRun = TextRun(content: string, bold: bool, italic: bool, link: Option<Link>)

  /** An element of a paragraph: a text run, or anything else (an inline object, …). */
  datatype ParagraphElement = Run(run: TextRun) | OtherElement

  datatype Paragraph = Paragraph(namedStyleType: Option<string>, bullet: bool, elements: seq<ParagraphElement>)

  /** An element of the document body: a paragraph, or anything else (a table, a section break, …). */
  datatype StructuralElement = ParagraphElem(paragraph: Paragraph) | OtherStructural

  function IsNewline(c: char): bool { c == '\n' }

  /** Python's rendering of the URL value in an f-string: `None` when absent. */
  function UrlText(url: Option<string>): string
  {
    if url.Some? then url.value else "None"
  }

  /** The markdown for one text run. */
  function RunMarkdown(run: TextRun): (md: string)
    ensures run.link.Some? ==> |md| >= 4 && md[0] == '[' && md[|md| - 1] == ')'
    ensures run.link.None? && run.italic ==> |md| >= 2 && md[0] == '_' && md[|md| - 1] == '_'
    ensures run.link.None? && !run.italic && run.bold ==> |md| >= 4 && md[..2] == "**" && md[|md| - 2..] == "**"
    ensures !run.bold && !run.italic && run.link.None? ==> md == TrimRight(run.content, IsNewline)
  {
    var text := TrimRight(run.content, IsNewline);
    var b := if run.bold then "**" + text + "**" else text;
    var i := if run.italic then "_" + b + "_" else b;
    if run.link.Some? then "[" + i + "](" + UrlText(run.link.value.url) + ")" else i
  }

  /** The prefix of a paragraph's line: heading marker then bullet marker. */
  function LinePrefix(p: Paragraph): string
  {
    (if p.namedStyleType == Some("HEADING_1") then "# "
     else if p.namedStyleType == Some("HEADING_2") then "## "
     else "")
    + (if p.bullet then "- " else "")
  }

  /** The runs' markdown, concatenated; elements without a text run contribute nothing. */
  function RunsMarkdown(elements: seq<ParagraphElement>): string
  {
    if elements == [] then ""
    else
      var last := elements[|elements| - 1];
      RunsMarkdown(elements[..|elements| - 1]) + (if last.Run? then RunMarkdown(last.run) else "")
  }

  function ParagraphLine(p: Paragraph): (line: string)
    ensures |LinePrefix(p)| <= |line| && line[..|LinePrefix(p)|] == LinePrefix(p)
  {
    LinePrefix(p) + RunsMarkdown(p.elements)
  }

  /** One line per paragraph, in document order. */
  function MarkdownLines(body: seq<StructuralElement>): (lines: seq<string>)
    ensures |lines| <= |body|
  {
    if body == [] then []
    else
      var last := body[|body| - 1];
      MarkdownLines(body[..|body| - 1]) + (if last.ParagraphElem? then [ParagraphLine(last.paragraph)] else [])
  }

  function ParagraphCount(body: seq<StructuralElement>): nat
  {
    if body == [] then 0
    else ParagraphCount(body[..|body| - 1]) + (if body[|body| - 1].ParagraphElem? then 1 else 0)
  }

  /** The markdown loop over the body, building `markdown_lines`. */
  method ExtractMarkdown(body: seq<StructuralElement>) returns (markdown: string)
    ensures markdown == Join(MarkdownLines(body), '\n')
  {
    var markdownLines: seq<string> := [];
    var k := 0;
    while k < |body|
      invariant 0 <= k <= |body|
      invariant markdownLines == MarkdownLines(body[..k])
    {
      assert body[..k + 1][..k] == body[..k];
      var element := body[k];
      if element.ParagraphElem? {
        var line := ParagraphToLine(element.paragraph);
        markdownLines := markdownLines + [line];
      }
      k := k + 1;
    }
    assert body[..k] == body;
    markdown := Join(markdownLines, '\n');
  }

  /** The body of the loop for one paragraph: prefixes, then the inner loop over
      its elements building `line`. */
  method ParagraphToLine(paragraph: Paragraph) returns (line: string)
    ensures line == ParagraphLine(paragraph)
  {
    line := "";
    if paragraph.namedStyleType == Some("HEADING_1") {
      line := line + "# ";
    } else if paragraph.namedStyleType == Some("HEADING_2") {
      line := line + "## ";
    }
    if paragraph.bullet {
      line := line + "- ";
    }
    assert line == LinePrefix(paragraph);
    var elements := paragraph.elements;
    var j := 0;
    while j < |elements|
      invariant 0 <= j <= |elements|
      invariant line == LinePrefix(paragraph) + RunsMarkdown(elements[..j])
    {
      RunsMarkdownStep(elements, j);
      if elements[j].Run? {
        var text := RunToMarkdown(elements[j].run);
        AppendAssoc(LinePrefix(paragraph), RunsMarkdown(elements[..j]), text);
        line := line + text;
      }
      j := j + 1;
    }
    assert elements[..j] == elements;
  }

  /** The wrapping of one text run, in the source's fixed order. */
  method RunToMarkdown(run: TextRun) returns (text: string)
    ensures text == RunMarkdown(run)
  {
    text := TrimRight(run.content, IsNewline);
    if run.bold {
      text := "**" + text + "**";
    }
    if run.italic {
      text := "_" + text + "_";
    }
    if run.link.Some? {
      text := "[" + text + "](" + UrlText(run.link.value.url) + ")";
    }
  }

  lemma RunsMarkdownStep(elements: seq<ParagraphElement>, j: nat)
    requires j < |elements|
    ensures RunsMarkdown(elements[..j + 1])
         == RunsMarkdown(elements[..j]) + (if elements[j].Run? then RunMarkdown(elements[j].run) else "")
  {
    assert elements[..j + 1][..j] == elements[..j];
  }

  // ---------------------------------------------------------------------
  // Properties of the extracted markdown

  lemma {:induction false} MarkdownLinesCount(body: seq<StructuralElement>)
    ensures |MarkdownLines(body)| == ParagraphCount(body)
  {
    if body != [] {
      MarkdownLinesCount(body[..|body| - 1]);
    }
  }

  /** A run whose text holds no newline before its trailing ones. */
  predicate SingleLineRun(e: ParagraphElement)
  {
    e.Run? ==>
      ('\n' !in TrimRight(e.run.content, IsNewline)
       && (e.run.link.Some? && e.run.link.value.url.Some? ==> '\n' !in e.run.link.value.url.value))
  }

  predicate SingleLineParagraph(p: Paragraph)
  {
    forall j :: 0 <= j < |p.elements| ==> SingleLineRun(p.elements[j])
  }

  lemma RunMarkdownSingleLine(run: TextRun)
    requires SingleLineRun(Run(run))
    ensures '\n' !in RunMarkdown(run)
  {
    var text := TrimRight(run.content, IsNewline);
    var b := if run.bold then "**" + text + "**" else text;
    assert '\n' !in b;
    var i := if run.italic then "_" + b + "_" else b;
    assert '\n' !in i;
    if run.link.Some? {
      var u := UrlText(run.link.value.url);
      assert '\n' !in u;
      assert RunMarkdown(run) == "[" + i + "](" + u + ")";
    }
  }

  lemma {:induction false} RunsMarkdownSingleLine(elements: seq<ParagraphElement>)
    requires forall j :: 0 <= j < |elements| ==> SingleLineRun(elements[j])
    ensures '\n' !in RunsMarkdown(elements)
  {
    if elements != [] {
      RunsMarkdownSingleLine(elements[..|elements| - 1]);
      var last := elements[|elements| - 1];
      if last.Run? {
        RunMarkdownSingleLine(last.run);
      }
    }
  }

  lemma {:induction false} MarkdownLinesSingle(body: seq<StructuralElement>)
    requires forall k :: 0 <= k < |body| && body[k].ParagraphElem? ==> SingleLineParagraph(body[k].paragraph)
    ensures forall i :: 0 <= i < |MarkdownLines(body)| ==> '\n' !in MarkdownLines(body)[i]
  {
    if body != [] {
      MarkdownLinesSingle(body[..|body| - 1]);
      var last := body[|body| - 1];
      if last.ParagraphElem? {
        RunsMarkdownSingleLine(last.paragraph.elements);
      }
    }
  }

  /** When no run text holds an inner newline, splitting the extracted markdown on
      '\n' gives back exactly one line per paragraph. */
  lemma ExtractedLinesSplit(body: seq<StructuralElement>)
    requires ParagraphCount(body) >= 1
    requires forall k :: 0 <= k < |body| && body[k].ParagraphElem? ==> SingleLineParagraph(body[k].paragraph)
    ensures Split(Join(MarkdownLines(body), '\n'), '\n') == MarkdownLines(body)
    ensures |Split(Join(MarkdownLines(body), '\n'), '\n')| == ParagraphCount(body)
  {
    MarkdownLinesCount(body);
    MarkdownLinesSingle(body);
    SplitJoin(MarkdownLines(body), '\n');
  }
}
