/**
 * The two markdown directions side by side.  A line written with
 * `parse_markdown` is read back by `extract_markdown_from_doc` through the
 * paragraph the document holds once the line's requests are applied; that
 * paragraph is modelled as the inserted text forming one text run that carries
 * the applied style (the document service itself is not part of this model).
 *
 * Bold, italic, link and plain lines come back unchanged.  Headings do not:
 * the writer styles them bold with a larger font instead of giving them a
 * heading paragraph style, so the reader returns them as bold text.
 */
module MarkdownRoundTrip {
  import opened Strings
  import opened Options
  import W = MarkdownWriter
  import R = MarkdownReader

  /** The paragraph produced by one line's requests: the inserted text as a
      single run, with bold, italic and link taken from the style update. */
  function AppliedParagraph(reqs: seq<W.Request>): (p: R.Paragraph)
    requires |reqs| >= 1 && reqs[0].InsertText?
    ensures |p.elements| == 1 && p.elements[0].Run? && p.elements[0].run.content == reqs[0].text
    ensures p.namedStyleType.None? && !p.bullet
  {
    var style := if |reqs| >= 2 && reqs[1].UpdateTextStyle? then Some(reqs[1].style) else None;
    var bold := style.Some? && style.value.Format? && W.Bold in style.value.entries;
    var italic := style.Some? && style.value.Format? && W.Italic in style.value.entries;
    var link := if style.Some? && style.value.LinkStyle? then Some(R.Link(Some(style.value.url))) else None;
    R.Paragraph(None, false, [R.Run(R.TextRun(reqs[0].text, bold, italic, link))])
  }

  /** The markdown read back from the paragraph written for `line`. */
  function ReadBack(line: string): string
  {
    R.ParagraphLine(AppliedParagraph(W.LineRequests(line, 1)))
  }

  lemma TrimNewline(x: string)
    requires '\n' !in x
    ensures TrimRight(x + "\n", R.IsNewline) == x
  {
    assert (x + "\n")[..|x|] == x;
    assert x == [] || x[|x| - 1] != '\n';
  }

  /** The line read back is the markdown of one run: the parsed content plus the
      newline, bold and italic as styled, and the link when one was applied. */
  lemma ReadBackParsed(line: string)
    ensures var p := W.ParseLine(line);
      ReadBack(line)
      == R.RunMarkdown(R.TextRun(p.content + "\n", W.Bold in p.style, W.Italic in p.style,
                                 if p.link.Some? && p.link.value != "" then Some(R.Link(Some(p.link.value))) else None))
  {
    var ap := AppliedParagraph(W.LineRequests(line, 1));
    assert ap.elements[..0] == [];
    assert ap.elements[..1] == ap.elements;
    assert R.LinePrefix(ap) == "";
    assert R.RunsMarkdown(ap.elements) == R.RunMarkdown(ap.elements[0].run);
  }

  /** `**x**` comes back as `**x**`. */
  lemma BoldRoundTrip(x: string)
    requires forall i :: 0 <= i < |x| ==> x[i] != '*' && x[i] != '[' && x[i] != '\n'
    ensures ReadBack("**" + x + "**") == "**" + x + "**"
  {
    BoldParsed(x);
    ReadBackParsed("**" + x + "**");
    TrimNewline(x);
  }

  /** `**x**` is classified as bold `x`. */
  lemma BoldParsed(x: string)
    requires forall i :: 0 <= i < |x| ==> x[i] != '*' && x[i] != '[' && x[i] != '\n'
    ensures W.ParseLine("**" + x + "**") == W.ParsedLine(x, [W.Bold], None)
  {
    var line := "**" + x + "**";
    assert !W.StartsWith(line, "## ") && !W.StartsWith(line, "# ") by {
      assert line[0] == '*';
    }
    assert W.FindLink(line).None? by { W.SearchLinkSkip(line, 0, |line|); }
    assert W.Contains(line, "**") by {
      assert line[0..2] == "**";
      W.ContainsIff(line, "**");
    }
    W.StripPairsWrapped(x, "**");
  }

  /** `_x_` comes back as `_x_`. */
  lemma ItalicRoundTrip(x: string)
    requires forall i :: 0 <= i < |x| ==> x[i] != '_' && x[i] != '*' && x[i] != '[' && x[i] != '\n'
    ensures ReadBack("_" + x + "_") == "_" + x + "_"
  {
    ItalicParsed(x);
    ReadBackParsed("_" + x + "_");
    TrimNewline(x);
  }

  /** `_x_` is classified as italic `x`. */
  lemma ItalicParsed(x: string)
    requires forall i :: 0 <= i < |x| ==> x[i] != '_' && x[i] != '*' && x[i] != '[' && x[i] != '\n'
    ensures W.ParseLine("_" + x + "_") == W.ParsedLine(x, [W.Italic], None)
  {
    var line := "_" + x + "_";
    assert !W.StartsWith(line, "## ") && !W.StartsWith(line, "# ") by {
      assert line[0] == '_';
    }
    assert W.FindLink(line).None? by { W.SearchLinkSkip(line, 0, |line|); }
    assert !W.Contains(line, "**") by {
      W.ContainsIff(line, "**");
      forall k: nat | W.OccursAt(line, "**", k) ensures false {
      }
    }
    assert W.Contains(line, "_") by {
      assert line[0..1] == "_";
      W.ContainsIff(line, "_");
    }
    W.StripPairsWrapped(x, "_");
  }

  /** `[t](u)` with a non-empty URL comes back as `[t](u)`. */
  lemma LinkRoundTrip(t: string, u: string)
    requires u != []
    requires forall i :: 0 <= i < |t| ==> t[i] != ']' && t[i] != '\n'
    requires forall i :: 0 <= i < |u| ==> u[i] != ')' && u[i] != '\n'
    ensures ReadBack("[" + t + "](" + u + ")") == "[" + t + "](" + u + ")"
  {
    var line := "[" + t + "](" + u + ")";
    assert !W.StartsWith(line, "## ") && !W.StartsWith(line, "# ") by {
      assert line[0] == '[';
    }
    LinkFound(t, u);
    assert W.ParseLine(line) == W.ParsedLine(t, [], Some(u));
    ReadBackParsed(line);
    TrimNewline(t);
  }

  lemma LinkFound(t: string, u: string)
    requires forall i :: 0 <= i < |t| ==> t[i] != ']'
    requires forall i :: 0 <= i < |u| ==> u[i] != ')'
    ensures W.FindLink("[" + t + "](" + u + ")") == Some((t, u))
  {
    var line := "[" + t + "](" + u + ")";
    var q := |t| + 1;
    var r := |t| + 3 + |u|;
    forall k | 0 < k < q ensures line[k] != ']' { assert line[k] == t[k - 1]; }
    forall k | q + 2 <= k < r ensures line[k] != ')' { assert line[k] == u[k - q - 2]; }
    W.LinkAt(line, 0, q, r);
    assert line[1..q] == t && line[q + 2..r] == u;
  }

  /** A line with no markup characters comes back verbatim. */
  lemma PlainRoundTrip(x: string)
    requires !W.StartsWith(x, "## ") && !W.StartsWith(x, "# ")
    requires forall i :: 0 <= i < |x| ==> x[i] != '_' && x[i] != '*' && x[i] != '[' && x[i] != '\n'
    ensures ReadBack(x) == x
  {
    assert W.FindLink(x).None? by { W.SearchLinkSkip(x, 0, |x|); }
    assert !W.Contains(x, "**") by {
      W.ContainsIff(x, "**");
      forall k: nat | W.OccursAt(x, "**", k) ensures false {
      }
    }
    assert !W.Contains(x, "_") by {
      W.ContainsIff(x, "_");
      forall k: nat | W.OccursAt(x, "_", k) ensures false {
      }
    }
    assert W.ParseLine(x) == W.ParsedLine(x, [], None);
    ReadBackParsed(x);
    TrimNewline(x);
  }

  /** A level-one heading `# x` comes back as bold text `**x**`, not as a heading. */
  lemma HeadingOneReadsBackBold(x: string)
    requires '\n' !in x
    ensures ReadBack("# " + x) == "**" + x + "**"
  {
    var line := "# " + x;
    assert !W.StartsWith(line, "## ") by { assert line[1] == ' '; }
    assert W.StartsWith(line, "# ") && line[2..] == x;
    assert W.ParseLine(line) == W.ParsedLine(x, [W.Bold, W.FontSize(W.HeadingOneSize)], None);
    ReadBackParsed(line);
    TrimNewline(x);
  }

  /** A level-two heading `## x` comes back as bold text `**x**`, not as a heading. */
  lemma HeadingTwoReadsBackBold(x: string)
    requires '\n' !in x
    ensures ReadBack("## " + x) == "**" + x + "**"
  {
    var line := "## " + x;
    assert W.StartsWith(line, "## ") && line[3..] == x;
    assert W.ParseLine(line) == W.ParsedLine(x, [W.Bold, W.FontSize(W.HeadingTwoSize)], None);
    ReadBackParsed(line);
    TrimNewline(x);
  }

  // ---------------------------------------------------------------------
  // Whole documents

  /** The applied paragraph does not depend on where the line starts. */
  lemma AppliedParagraphIndex(line: string, index: nat)
    ensures AppliedParagraph(W.LineRequests(line, index)) == AppliedParagraph(W.LineRequests(line, 1))
  {
  }

  /** The body holding one applied paragraph per line of the written text. */
  function AppliedBody(lines: seq<string>, index: nat): (body: seq<R.StructuralElement>)
    ensures |body| == |lines|
    ensures forall k :: 0 <= k < |body| ==> body[k].ParagraphElem?
    decreases |lines|
  {
    if lines == [] then []
    else
      var r := W.LineRequests(lines[0], index);
      [R.ParagraphElem(AppliedParagraph(r))] + AppliedBody(lines[1..], index + |r[0].text|)
  }

  /** Each line of the body reads back as its own line does alone. */
  lemma {:induction false} AppliedBodyLines(lines: seq<string>, index: nat)
    ensures R.MarkdownLines(AppliedBody(lines, index)) == ReadBacks(lines)
    decreases |lines|
  {
    if lines != [] {
      var r := W.LineRequests(lines[0], index);
      var next := index + |r[0].text|;
      var e := R.ParagraphElem(AppliedParagraph(r));
      var rest := AppliedBody(lines[1..], next);
      assert AppliedBody(lines, index) == [e] + rest;
      AppliedBodyLines(lines[1..], next);
      AppliedParagraphIndex(lines[0], index);
      assert R.ParagraphLine(e.paragraph) == ReadBack(lines[0]);
      MarkdownLinesPrepend(e, rest);
      assert ReadBacks(lines) == [ReadBack(lines[0])] + ReadBacks(lines[1..]);
    }
  }

  function ReadBacks(lines: seq<string>): (r: seq<string>)
    ensures |r| == |lines|
    ensures forall i :: 0 <= i < |lines| ==> r[i] == ReadBack(lines[i])
  {
    if lines == [] then [] else [ReadBack(lines[0])] + ReadBacks(lines[1..])
  }

  lemma {:induction false} MarkdownLinesPrepend(e: R.StructuralElement, body: seq<R.StructuralElement>)
    requires e.ParagraphElem?
    ensures R.MarkdownLines([e] + body) == [R.ParagraphLine(e.paragraph)] + R.MarkdownLines(body)
    decreases |body|
  {
    var all := [e] + body;
    if body == [] {
      assert all[..|all| - 1] == [];
    } else {
      assert all[..|all| - 1] == [e] + body[..|body| - 1];
      MarkdownLinesPrepend(e, body[..|body| - 1]);
    }
  }

  /** Writing a text whose every line reads back unchanged, and reading the
      resulting document, gives back the text. */
  lemma DocumentRoundTrip(text: string)
    requires forall i :: 0 <= i < |Split(text, '\n')| ==> ReadBack(Split(text, '\n')[i]) == Split(text, '\n')[i]
    ensures Join(R.MarkdownLines(AppliedBody(Split(text, '\n'), 1)), '\n') == text
  {
    var lines := Split(text, '\n');
    AppliedBodyLines(lines, 1);
    assert ReadBacks(lines) == lines;
    JoinSplit(text, '\n');
  }
}
