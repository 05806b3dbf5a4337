/**
 * Markdown to document edit requests (`GoogleApi.parse_markdown`).
 *
 * The text is split on '\n'; every line is classified by an ordered chain of
 * tests (heading 2, heading 1, first `[text](url)`, `**`, `_`, verbatim), and
 * yields one `insertText` request at a running cursor followed by at most one
 * `updateTextStyle` request over exactly the inserted range.  The cursor
 * starts at 1, the first writable index of a document body.
 */
module MarkdownWriter {
  import opened Strings
  import opened Options

  /** One entry of the `textStyle` dictionary built for a line, in insertion order. */
  datatype StyleEntry = Bold | Italic | FontSize(magnitude: nat)

  /** The `textStyle` of an update: formatting entries, or a link (which also sets
      underline and a blue foreground colour, kept as one value here). */
  datatype TextStyle = Format(entries: seq<StyleEntry>) | LinkStyle(url: string)

  datatype Request =
    | InsertText(index: nat, text: string)
    | UpdateTextStyle(startIndex: nat, endIndex: nat, style: TextStyle, fields: string)

  /** A line after classification: the text to insert (without its newline), the
      formatting entries, and the URL captured by the link pattern, if any. */
  datatype ParsedLine = ParsedLine(content: string, style: seq<StyleEntry>, link: Option<string>)

  /** A classified line is either formatted or a link, never both. */
  type Parsed = p: ParsedLine | p.link.Some? ==> p.style == [] witness ParsedLine("", [], None)

  const HeadingTwoSize: nat := 18
  const HeadingOneSize: nat := 24
  /** The three fields a link update sets. */
  const LinkFieldNames: seq<string> := ["link", "underline", "foregroundColor"]
  /** The `fields` mask of a link update: `link,underline,foregroundColor`. */
  const LinkFields: string := Join(LinkFieldNames, ',')

  // ---------------------------------------------------------------------
  // Substring search

  /** `m` occurs in `s` at position `i`. */
  predicate OccursAt(s: string, m: string, i: nat)
  {
    i + |m| <= |s| && s[i..i + |m|] == m
  }

  /** The first position at or after `i` where `m` occurs. */
  function FindFrom(s: string, m: string, i: nat): (r: Option<nat>)
    requires |m| > 0
    ensures r.Some? ==> i <= r.value && OccursAt(s, m, r.value)
    ensures forall k :: i <= k && (r.Some? ==> k < r.value) ==> !OccursAt(s, m, k)
    decreases |s| - i
  {
    if i + |m| > |s| then None
    else if s[i..i + |m|] == m then Some(i)
    else FindFrom(s, m, i + 1)
  }

  /** The search finds the first occurrence. */
  lemma {:induction false} FindFromFirst(s: string, m: string, i: nat, j: nat)
    requires |m| > 0 && i <= j && OccursAt(s, m, j)
    requires forall k: nat :: i <= k < j ==> !OccursAt(s, m, k)
    ensures FindFrom(s, m, i) == Some(j)
    decreases j - i
  {
    if i < j {
      assert !OccursAt(s, m, i);
      FindFromFirst(s, m, i + 1, j);
    }
  }

  /** Python's `m in s`. */
  predicate Contains(s: string, m: string)
    requires |m| > 0
  {
    FindFrom(s, m, 0).Some?
  }

  lemma ContainsIff(s: string, m: string)
    requires |m| > 0
    ensures Contains(s, m) <==> exists k :: OccursAt(s, m, k)
  {
    if !Contains(s, m) {
      forall k ensures !OccursAt(s, m, k) {
        assert 0 <= k;
      }
    }
  }

  // ---------------------------------------------------------------------
  // The link pattern `\[(.*?)\]\((.*?)\)`, searched leftmost-first.

  /** A link match at `p`: `[` at p, the first `](` after it at q, the first `)`
      after that at r.  The lazy groups make both the first possible. */
  ghost predicate LinkMatch(s: string, p: nat, q: nat, r: nat)
  {
    && p < q && q + 2 <= r < |s|
    && s[p] == '[' && OccursAt(s, "](", q) && s[r] == ')'
    && (forall k :: p + 1 <= k < q ==> !OccursAt(s, "](", k))
    && (forall k :: q + 2 <= k < r ==> s[k] != ')')
  }

  /** Some match can start at `p`. */
  ghost predicate CanMatchAt(s: string, p: nat)
  {
    p < |s| && s[p] == '[' &&
    exists q, r :: p + 1 <= q && q + 2 <= r < |s| && OccursAt(s, "](", q) && s[r] == ')'
  }

  datatype LinkSpan = LinkSpan(open: nat, close: nat, end: nat)

  /** Leftmost position at or after `p` where the pattern matches. */
  function SearchLink(s: string, p: nat): (m: Option<LinkSpan>)
    decreases |s| - p
  {
    if p >= |s| then None
    else if s[p] == '[' then
      match FindFrom(s, "](", p + 1)
      case None => None
      case Some(q) =>
        match FindFrom(s, ")", q + 2)
        case Some(r) => Some(LinkSpan(p, q, r))
        case None => None
    else SearchLink(s, p + 1)
  }

  /** `re.search(r'\[(.*?)\]\((.*?)\)', line)`: the captured text and URL. */
  function FindLink(line: string): (r: Option<(string, string)>)
  {
    match SearchLink(line, 0)
    case None => None
    case Some(m) =>
      if m.open < m.close && m.close + 2 <= m.end <= |line| then
        Some((line[m.open + 1..m.close], line[m.close + 2..m.end]))
      else None
  }

  lemma {:induction false} SearchLinkSound(s: string, p: nat)
    requires SearchLink(s, p).Some?
    ensures var m := SearchLink(s, p).value;
      p <= m.open && LinkMatch(s, m.open, m.close, m.end)
      && forall k :: p <= k < m.open ==> !CanMatchAt(s, k)
    decreases |s| - p
  {
    var m := SearchLink(s, p).value;
    if s[p] == '[' {
      assert m.open == p;
      var q := FindFrom(s, "](", p + 1).value;
      var r := FindFrom(s, ")", q + 2).value;
      assert OccursAt(s, ")", r);
      assert forall k :: q + 2 <= k < r ==> !OccursAt(s, ")", k);
      forall k | q + 2 <= k < r ensures s[k] != ')' {
        assert !OccursAt(s, ")", k);
        assert k + 1 <= |s|;
        assert s[k..k + 1] == [s[k]];
      }
      assert s[r..r + 1] == [s[r]];
    } else {
      SearchLinkSound(s, p + 1);
    }
  }

  /** A position where a match can start, at or after `p`, makes the search succeed. */
  lemma {:induction false} SearchLinkFinds(s: string, p: nat, k: nat)
    requires p <= k && CanMatchAt(s, k)
    ensures SearchLink(s, p).Some?
    decreases k - p
  {
    if s[p] == '[' {
      var q, r :| k + 1 <= q && q + 2 <= r < |s| && OccursAt(s, "](", q) && s[r] == ')';
      var q0 := FindFrom(s, "](", p + 1);
      assert q0.Some? && q0.value <= q;
      assert OccursAt(s, ")", r) by { assert s[r..r + 1] == [s[r]]; }
      assert FindFrom(s, ")", q0.value + 2).Some?;
    } else {
      SearchLinkFinds(s, p + 1, k);
    }
  }

  lemma SearchLinkComplete(s: string, p: nat)
    requires SearchLink(s, p).None?
    ensures forall k :: p <= k ==> !CanMatchAt(s, k)
  {
    forall k | p <= k ensures !CanMatchAt(s, k) {
      if CanMatchAt(s, k) {
        SearchLinkFinds(s, p, k);
      }
    }
  }

  /** The captured text and URL are those of the leftmost match, as the regular
      expression defines it, and there is no match at all when none is found. */
  lemma FindLinkSpec(line: string)
    ensures FindLink(line).Some? ==>
      exists p: nat, q: nat, r: nat :: LinkMatch(line, p, q, r)
        && (forall k: nat :: k < p ==> !CanMatchAt(line, k))
        && FindLink(line).value == (line[p + 1..q], line[q + 2..r])
    ensures FindLink(line).None? ==> forall k :: !CanMatchAt(line, k)
  {
    var m := SearchLink(line, 0);
    if m.Some? {
      SearchLinkSound(line, 0);
      var v := m.value;
      assert LinkMatch(line, v.open, v.close, v.end);
    } else {
      SearchLinkComplete(line, 0);
    }
  }

  /** Positions without an opening bracket are passed over: the search from
      `p` finds what the search from `o` finds. */
  lemma {:induction false} SearchLinkSkip(s: string, p: nat, o: nat)
    requires p <= o <= |s|
    requires forall k :: p <= k < o ==> s[k] != '['
    ensures SearchLink(s, p) == SearchLink(s, o)
    decreases o - p
  {
    if p < o {
      SearchLinkSkip(s, p + 1, o);
    }
  }

  /** The search for a one-character text finds its first occurrence. */
  lemma {:induction false} FindCharFirst(s: string, m: string, i: nat, j: nat)
    requires |m| == 1 && i <= j < |s| && s[j] == m[0]
    requires forall k :: i <= k < j ==> s[k] != m[0]
    ensures FindFrom(s, m, i) == Some(j)
    decreases j - i
  {
    assert s[i..i + 1] == [s[i]];
    assert m == [m[0]];
    if i < j {
      FindCharFirst(s, m, i + 1, j);
    }
  }

  /** The first `[` of the line, followed by text without `]`, then `](`, a URL
      without `)` and `)`: the pattern captures that text and URL, whatever
      comes after. */
  lemma LinkAt(s: string, o: nat, q: nat, r: nat)
    requires o < q && q + 2 <= r < |s|
    requires forall k :: 0 <= k < o ==> s[k] != '['
    requires s[o] == '[' && s[q] == ']' && s[q + 1] == '(' && s[r] == ')'
    requires forall k :: o < k < q ==> s[k] != ']'
    requires forall k :: q + 2 <= k < r ==> s[k] != ')'
    ensures FindLink(s) == Some((s[o + 1..q], s[q + 2..r]))
  {
    SearchLinkSkip(s, 0, o);
    CloseFirst(s, o, q);
    FindCharFirst(s, ")", q + 2, r);
    assert SearchLink(s, o) == Some(LinkSpan(o, q, r));
  }

  /** After `[` at `o`, text without `]` up to `](` at `q` closes at `q`. */
  lemma CloseFirst(s: string, o: nat, q: nat)
    requires o < q && q + 2 <= |s|
    requires s[q] == ']' && s[q + 1] == '('
    requires forall k :: o < k < q ==> s[k] != ']'
    ensures FindFrom(s, "](", o + 1) == Some(q)
  {
    assert OccursAt(s, "](", q) by { assert s[q..q + 2] == "]("; }
    forall k: nat | o + 1 <= k < q ensures !OccursAt(s, "](", k) {
      assert s[k..k + 2][0] == s[k];
    }
    FindFromFirst(s, "](", o + 1, q);
  }

  // ---------------------------------------------------------------------
  // `re.sub(r'M(.*?)M', r'\1', s)` for a marker M: each marker pair is
  // removed, scanning left to right, matches not overlapping.

  function StripPairs(s: string, m: string): (r: string)
    requires |m| > 0
    ensures |r| <= |s|
    decreases |s|
  {
    if s == [] then []
    else if OccursAt(s, m, 0) && FindFrom(s, m, |m|).Some? then
      var j := FindFrom(s, m, |m|).value;
      s[|m|..j] + StripPairs(s[j + |m|..], m)
    else [s[0]] + StripPairs(s[1..], m)
  }

  /** Text without the marker is left unchanged. */
  lemma {:induction false} StripPairsNoMarker(s: string, m: string)
    requires |m| > 0
    requires !Contains(s, m)
    ensures StripPairs(s, m) == s
  {
    ContainsIff(s, m);
    if s != [] {
      assert !OccursAt(s, m, 0);
      forall k: nat ensures !OccursAt(s[1..], m, k) {
        if OccursAt(s[1..], m, k) {
          assert s[1..][k..k + |m|] == s[k + 1..k + 1 + |m|];
          assert OccursAt(s, m, k + 1);
        }
      }
      ContainsIff(s[1..], m);
      StripPairsNoMarker(s[1..], m);
    }
  }

  /** None of the marker's characters occurs in `x`. */
  predicate MarkerFree(x: string, m: string)
  {
    forall i :: 0 <= i < |x| ==> x[i] !in m
  }

  /** Marker-free text in front is copied as it is. */
  lemma {:induction false} StripPlainPrefix(x: string, t: string, m: string)
    requires |m| > 0 && MarkerFree(x, m)
    ensures StripPairs(x + t, m) == x + StripPairs(t, m)
    decreases |x|
  {
    if x != [] {
      var s := x + t;
      assert !OccursAt(s, m, 0) by { assert s[0] == x[0] && s[0] !in m && m[0] in m; }
      assert s[1..] == x[1..] + t;
      assert StripPairs(s, m) == [s[0]] + StripPairs(s[1..], m);
      StripPlainPrefix(x[1..], t, m);
      assert [s[0]] + (x[1..] + StripPairs(t, m)) == x + StripPairs(t, m);
    } else {
      assert x + t == t;
    }
  }

  /** A marker pair around marker-free text in front is replaced by that text. */
  lemma StripPairFront(y: string, t: string, m: string)
    requires |m| > 0 && MarkerFree(y, m)
    ensures StripPairs(m + y + m + t, m) == y + StripPairs(t, m)
  {
    var s := m + y + m + t;
    PairCloses(y, t, m);
    StripPairsAt(s, m, |m| + |y|);
    PairSlices(y, t, m);
  }

  /** The unfolding of the removal at a closed pair in front. */
  lemma StripPairsAt(s: string, m: string, j: nat)
    requires |m| > 0 && OccursAt(s, m, 0) && FindFrom(s, m, |m|) == Some(j)
    ensures StripPairs(s, m) == s[|m|..j] + StripPairs(s[j + |m|..], m)
  {
  }

  lemma PairSlices(y: string, t: string, m: string)
    ensures (m + y + m + t)[|m|..|m| + |y|] == y
    ensures (m + y + m + t)[|m| + |y| + |m|..] == t
  {
  }

  /** After an opening marker, the first marker closes the marker-free text. */
  lemma PairCloses(y: string, t: string, m: string)
    requires |m| > 0 && MarkerFree(y, m)
    ensures OccursAt(m + y + m + t, m, 0)
    ensures FindFrom(m + y + m + t, m, |m|) == Some(|m| + |y|)
  {
    var s := m + y + m + t;
    assert s[..|m|] == m;
    forall k: nat | |m| <= k < |m| + |y| ensures !OccursAt(s, m, k) {
      assert s[k] == y[k - |m|];
      assert s[k] !in m;
    }
    assert s[|m| + |y|..|m| + |y| + |m|] == m;
    FindFromFirst(s, m, |m|, |m| + |y|);
  }

  /** Text made of marker-free pieces `x` each followed by a pair around a
      marker-free `y`. */
  function Wrapped(segs: seq<(string, string)>, m: string): string
  {
    if segs == [] then [] else segs[0].0 + m + segs[0].1 + m + Wrapped(segs[1..], m)
  }

  /** The same pieces with every marker dropped. */
  function Unwrapped(segs: seq<(string, string)>): string
  {
    if segs == [] then [] else segs[0].0 + segs[0].1 + Unwrapped(segs[1..])
  }

  /** Removing marker pairs, left to right: every pair around marker-free text
      is dropped and all other text is kept in order, whatever follows. */
  lemma {:induction false} StripPairsSegments(segs: seq<(string, string)>, t: string, m: string)
    requires |m| > 0
    requires forall i :: 0 <= i < |segs| ==> MarkerFree(segs[i].0, m) && MarkerFree(segs[i].1, m)
    ensures StripPairs(Wrapped(segs, m) + t, m) == Unwrapped(segs) + StripPairs(t, m)
    decreases |segs|
  {
    if segs != [] {
      var x, y := segs[0].0, segs[0].1;
      var rest := Wrapped(segs[1..], m) + t;
      WrappedCons(segs, t, m);
      StripPlainPrefix(x, m + y + m + rest, m);
      StripPairFront(y, rest, m);
      StripPairsSegments(segs[1..], t, m);
      AppendAssoc(x + y, Unwrapped(segs[1..]), StripPairs(t, m));
      AppendAssoc(x, y, Unwrapped(segs[1..]) + StripPairs(t, m));
    } else {
      assert Wrapped(segs, m) + t == t;
    }
  }

  lemma WrappedCons(segs: seq<(string, string)>, t: string, m: string)
    requires segs != []
    ensures Wrapped(segs, m) + t == segs[0].0 + (m + segs[0].1 + m + (Wrapped(segs[1..], m) + t))
  {
    var x, y, w := segs[0].0, segs[0].1, Wrapped(segs[1..], m);
    AppendAssoc(x + m + y + m, w, t);
    AppendAssoc(x + m + y, m, w + t);
    AppendAssoc(x + m, y, m + (w + t));
    AppendAssoc(x, m, y + (m + (w + t)));
    AppendAssoc(m, y, m + (w + t));
    AppendAssoc(m + y, m, w + t);
  }

  /** A marker that no second marker closes is kept. */
  lemma StripPairsUnclosed(z: string, m: string)
    requires |m| > 0 && MarkerFree(z, m)
    ensures StripPairs(m + z, m) == m + z
  {
    var s := m + z;
    assert OccursAt(s, m, 0) by { assert s[..|m|] == m; }
    forall k | |m| <= k ensures !OccursAt(s, m, k) {
      if k < |s| {
        assert s[k] == z[k - |m|];
        assert s[k] !in m;
      }
    }
    assert FindFrom(s, m, |m|).None?;
    assert s[1..] == m[1..] + z;
    TailNoMarker(z, m);
    StripPairsNoMarker(m[1..] + z, m);
  }

  /** Without its first character, a marker followed by marker-free text
      holds no marker. */
  lemma TailNoMarker(z: string, m: string)
    requires |m| > 0 && MarkerFree(z, m)
    ensures !Contains(m[1..] + z, m)
  {
    forall k: nat ensures !OccursAt(m[1..] + z, m, k) {
      var u := m[1..] + z;
      if k + |m| <= |u| {
        var e := k + |m| - 1;
        assert u[e] == z[e - (|m| - 1)] && u[e] !in m;
        assert u[k..k + |m|][|m| - 1] == u[e];
      }
    }
    ContainsIff(m[1..] + z, m);
  }

  /** A text wrapped in one marker pair loses exactly that pair, provided the
      text uses none of the marker's characters. */
  lemma StripPairsWrapped(x: string, m: string)
    requires |m| > 0
    requires MarkerFree(x, m)
    ensures StripPairs(m + x + m, m) == x
  {
    StripPairFront(x, [], m);
    assert m + x + m + [] == m + x + m;
  }

  // ---------------------------------------------------------------------
  // Line classification

  function StartsWith(s: string, p: string): bool
  {
    |p| <= |s| && s[..|p|] == p
  }

  /** Ordered classification of one line; the first matching test wins. */
  function ParseLine(line: string): (p: Parsed)
    ensures |p.content| <= |line|
    ensures p.style != [] ==> Bold in p.style || Italic in p.style
    ensures StartsWith(line, "## ") ==> p.content == line[3..] && p.style == [Bold, FontSize(HeadingTwoSize)]
  {
    if StartsWith(line, "## ") then
      ParsedLine(line[3..], [Bold, FontSize(HeadingTwoSize)], None)
    else if StartsWith(line, "# ") then
      ParsedLine(line[2..], [Bold, FontSize(HeadingOneSize)], None)
    else if FindLink(line).Some? then
      var (text, url) := FindLink(line).value;
      ParsedLine(text, [], Some(url))
    else if Contains(line, "**") then
      ParsedLine(StripPairs(line, "**"), [Bold], None)
    else if Contains(line, "_") then
      ParsedLine(StripPairs(line, "_"), [Italic], None)
    else
      ParsedLine(line, [], None)
  }

  /** A line the first two tests of the classification take as a heading. */
  predicate Heading(line: string)
  {
    StartsWith(line, "## ") || StartsWith(line, "# ")
  }

  /** Each branch of the classification in the terms of what its pattern
      means: a level-one heading loses `# `; otherwise the leftmost link match
      gives its text and URL; otherwise a line holding `**` is bold and loses
      its pairs, whether or not any pair closes; otherwise a line holding `_`
      is italic; anything else is kept verbatim. */
  lemma ParseLineCases(line: string)
    ensures !StartsWith(line, "## ") && StartsWith(line, "# ") ==>
      ParseLine(line) == ParsedLine(line[2..], [Bold, FontSize(HeadingOneSize)], None)
    ensures !Heading(line) ==> (ParseLine(line).link.Some? <==> exists k :: CanMatchAt(line, k))
    ensures !Heading(line) && ParseLine(line).link.Some? ==>
      ParseLine(line).style == [] &&
      exists o: nat, q: nat, r: nat :: LinkMatch(line, o, q, r)
        && (forall k: nat :: k < o ==> !CanMatchAt(line, k))
        && ParseLine(line).content == line[o + 1..q] && ParseLine(line).link.value == line[q + 2..r]
    ensures !Heading(line) && (forall k :: !CanMatchAt(line, k)) && Contains(line, "**") ==>
      ParseLine(line) == ParsedLine(StripPairs(line, "**"), [Bold], None)
    ensures !Heading(line) && (forall k :: !CanMatchAt(line, k)) && !Contains(line, "**") && Contains(line, "_") ==>
      ParseLine(line) == ParsedLine(StripPairs(line, "_"), [Italic], None)
    ensures !Heading(line) && (forall k :: !CanMatchAt(line, k)) && !Contains(line, "**") && !Contains(line, "_") ==>
      ParseLine(line) == ParsedLine(line, [], None)
  {
    FindLinkSpec(line);
    if SearchLink(line, 0).Some? {
      var m := SearchLink(line, 0).value;
      SearchLinkSound(line, 0);
      assert CanMatchAt(line, m.open);
    }
  }

  /** A link anywhere on a line that has no `[` before it gives the link's
      text and URL, whatever surrounds it. */
  lemma ParseLineLink(pre: string, t: string, u: string, post: string)
    requires forall i :: 0 <= i < |pre| ==> pre[i] != '['
    requires forall i :: 0 <= i < |t| ==> t[i] != ']'
    requires forall i :: 0 <= i < |u| ==> u[i] != ')'
    requires !Heading(pre + "[" + t + "](" + u + ")" + post)
    ensures ParseLine(pre + "[" + t + "](" + u + ")" + post) == ParsedLine(t, [], Some(u))
  {
    var line := pre + "[" + t + "](" + u + ")" + post;
    var o := |pre|;
    var q := o + 1 + |t|;
    var r := q + 2 + |u|;
    forall k | 0 <= k < o ensures line[k] != '[' { assert line[k] == pre[k]; }
    forall k | o < k < q ensures line[k] != ']' { assert line[k] == t[k - o - 1]; }
    forall k | q + 2 <= k < r ensures line[k] != ')' { assert line[k] == u[k - q - 2]; }
    assert line[o] == '[' && line[q] == ']' && line[q + 1] == '(' && line[r] == ')';
    LinkAt(line, o, q, r);
    assert line[o + 1..q] == t && line[q + 2..r] == u;
  }

  /** A line holding a lone `**` that nothing closes is still bold, with its
      text unchanged. */
  lemma ParseLineLoneBold(x: string, y: string)
    requires forall i :: 0 <= i < |x| ==> x[i] != '*' && x[i] != '['
    requires forall i :: 0 <= i < |y| ==> y[i] != '*' && y[i] != '['
    requires !Heading(x + "**" + y)
    ensures ParseLine(x + "**" + y) == ParsedLine(x + "**" + y, [Bold], None)
  {
    var line := x + "**" + y;
    forall k | 0 <= k < |line| ensures line[k] != '[' {
      if k < |x| { assert line[k] == x[k]; } else if k >= |x| + 2 { assert line[k] == y[k - |x| - 2]; }
    }
    SearchLinkSkip(line, 0, |line|);
    assert OccursAt(line, "**", |x|) by { assert line[|x|..|x| + 2] == "**"; }
    ContainsIff(line, "**");
    assert MarkerFree(x, "**") && MarkerFree(y, "**");
    StripPlainPrefix(x, "**" + y, "**");
    StripPairsUnclosed(y, "**");
    AppendAssoc(x, "**", y);
  }

  function EntryKey(e: StyleEntry): string
  {
    match e
    case Bold => "bold"
    case Italic => "italic"
    case FontSize(_) => "fontSize"
  }

  function Keys(entries: seq<StyleEntry>): (r: seq<string>)
    ensures |r| == |entries|
  {
    if entries == [] then [] else [EntryKey(entries[0])] + Keys(entries[1..])
  }

  /** The requests for a classified line whose text starts at `index`. */
  function Requests(p: Parsed, index: nat): (r: seq<Request>)
    ensures 1 <= |r| <= 2
    ensures r[0] == InsertText(index, p.content + "\n")
    ensures |r| == 2 <==> p.style != [] || (p.link.Some? && p.link.value != "")
    ensures |r| == 2 ==>
      (r[1].UpdateTextStyle? && r[1].startIndex == index && r[1].endIndex == index + |r[0].text|)
    ensures |r| == 2 && p.style != [] ==> r[1].style == Format(p.style) && r[1].fields == Join(Keys(p.style), ',')
    ensures |r| == 2 && p.link.Some? ==> r[1].style == LinkStyle(p.link.value) && r[1].fields == LinkFields
  {
    var content := p.content + "\n";
    var insert := [InsertText(index, content)];
    var styled :=
      if p.style != [] then [UpdateTextStyle(index, index + |content|, Format(p.style), Join(Keys(p.style), ','))]
      else [];
    var linked :=
      if p.link.Some? && p.link.value != "" then [UpdateTextStyle(index, index + |content|, LinkStyle(p.link.value), LinkFields)]
      else [];
    insert + styled + linked
  }

  /** The `fields` mask of a line's update names exactly the keys of its text
      style, in order: the formatting entries, or the three link fields. */
  lemma RequestFields(p: Parsed, index: nat)
    requires |Requests(p, index)| == 2
    ensures var u := Requests(p, index)[1];
      && (u.style.Format? ==> Split(u.fields, ',') == Keys(u.style.entries))
      && (u.style.LinkStyle? ==> Split(u.fields, ',') == LinkFieldNames)
  {
    if p.style != [] {
      FormatFields(p.style);
    } else {
      LinkFieldsSplit();
    }
  }

  lemma FormatFields(entries: seq<StyleEntry>)
    requires entries != []
    ensures Split(Join(Keys(entries), ','), ',') == Keys(entries)
  {
    var ks := Keys(entries);
    forall i | 0 <= i < |ks| ensures ',' !in ks[i] {
      KeysAt(entries, i);
    }
    SplitJoin(ks, ',');
  }

  lemma LinkFieldsSplit()
    ensures Split(LinkFields, ',') == LinkFieldNames
  {
    SplitJoin(LinkFieldNames, ',');
  }

  lemma {:induction false} KeysAt(entries: seq<StyleEntry>, i: nat)
    requires i < |entries|
    ensures Keys(entries)[i] == EntryKey(entries[i])
    decreases i
  {
    if i > 0 {
      KeysAt(entries[1..], i - 1);
    }
  }

  /** The requests for one line whose text starts at `index`. */
  function LineRequests(line: string, index: nat): (r: seq<Request>)
    ensures 1 <= |r| <= 2 && r[0] == InsertText(index, ParseLine(line).content + "\n")
    ensures |r| == 2 ==> r[1].UpdateTextStyle? && r[1].startIndex == index && r[1].endIndex == index + |r[0].text|
  {
    Requests(ParseLine(line), index)
  }

  /** Every line of the text, classified. */
  function ParseLines(lines: seq<string>): (ps: seq<Parsed>)
    ensures |ps| == |lines| && forall i :: 0 <= i < |lines| ==> ps[i] == ParseLine(lines[i])
  {
    if lines == [] then []
    else
      var rest := ParseLines(lines[1..]);
      assert forall i :: 1 <= i < |lines| ==> rest[i - 1] == ParseLine(lines[i]) by {
        forall i | 1 <= i < |lines| ensures rest[i - 1] == ParseLine(lines[i]) {
          assert lines[1..][i - 1] == lines[i];
        }
      }
      [ParseLine(lines[0])] + rest
  }

  /** The requests for consecutive classified lines, the first starting at `index`. */
  function RequestsFrom(ps: seq<Parsed>, index: nat): seq<Request>
    decreases |ps|
  {
    if ps == [] then []
    else
      var r := Requests(ps[0], index);
      r + RequestsFrom(ps[1..], index + |r[0].text|)
  }

  /** `parse_markdown`: the loop over `text.split('\n')` with a running cursor. */
  method ParseMarkdown(text: string) returns (requests: seq<Request>)
    ensures requests == RequestsFrom(ParseLines(Split(text, '\n')), 1)
    ensures InsertCount(requests) == Count(text, '\n') + 1
  {
    var lines := Split(text, '\n');
    requests := LinesToRequests(lines);
    SplitLength(text, '\n');
    InsertCountFrom(ParseLines(lines), 1);
  }

  /** The loop over the lines, with the cursor starting at 1. */
  method LinesToRequests(lines: seq<string>) returns (requests: seq<Request>)
    ensures requests == RequestsFrom(ParseLines(lines), 1)
  {
    ghost var ps := ParseLines(lines);
    requests := [];
    var index: nat := 1;
    assert ps[0..] == ps;
    for i := 0 to |lines|
      invariant requests + RequestsFrom(ps[i..], index) == RequestsFrom(ps, 1)
      invariant index == 1 + InsertedLength(requests)
    {
      requests, index := LineStep(lines, i, index, requests, ps, RequestsFrom(ps, 1));
    }
    assert ps[|lines|..] == [];
    assert requests + [] == requests;
  }

  /** One turn of the loop: the line's requests appended, the cursor moved
      past the inserted text; `all` is what the whole loop produces. */
  method LineStep(lines: seq<string>, i: nat, index: nat, done: seq<Request>,
                  ghost ps: seq<Parsed>, ghost all: seq<Request>)
    returns (requests: seq<Request>, next: nat)
    requires i < |lines| == |ps| && ps[i] == ParseLine(lines[i])
    requires done + RequestsFrom(ps[i..], index) == all
    requires index == 1 + InsertedLength(done)
    ensures requests + RequestsFrom(ps[i + 1..], next) == all
    ensures next == 1 + InsertedLength(requests)
  {
    var r := Requests(ParseLine(lines[i]), index);
    next := index + |r[0].text|;
    ParseStep(ps, i, index, done, all, r, next);
    requests := done + r;
  }

  /** The invariants of the loop are kept by one turn. */
  lemma ParseStep(ps: seq<Parsed>, i: nat, index: nat, done: seq<Request>, all: seq<Request>,
                  r: seq<Request>, next: nat)
    requires i < |ps|
    requires done + RequestsFrom(ps[i..], index) == all
    requires index == 1 + InsertedLength(done)
    requires r == Requests(ps[i], index) && next == index + |r[0].text|
    ensures (done + r) + RequestsFrom(ps[i + 1..], next) == all
    ensures next == 1 + InsertedLength(done + r)
  {
    RequestsFromStep(ps, i, index);
    InsertedLengthAppend(done, r);
    RequestsOneInsert(ps[i], index);
    AppendAssoc(done, r, RequestsFrom(ps[i + 1..], next));
  }

  lemma RequestsFromStep(ps: seq<Parsed>, i: nat, index: nat)
    requires i < |ps|
    ensures var r := Requests(ps[i], index);
      RequestsFrom(ps[i..], index) == r + RequestsFrom(ps[i + 1..], index + |r[0].text|)
  {
    assert ps[i..][0] == ps[i];
    assert ps[i..][1..] == ps[i + 1..];
  }

  // ---------------------------------------------------------------------
  // Cursor accounting

  /** Total length of the inserted texts. */
  function InsertedLength(rs: seq<Request>): nat
  {
    if rs == [] then 0
    else (if rs[0].InsertText? then |rs[0].text| else 0) + InsertedLength(rs[1..])
  }

  function InsertCount(rs: seq<Request>): nat
  {
    if rs == [] then 0 else (if rs[0].InsertText? then 1 else 0) + InsertCount(rs[1..])
  }

  lemma {:induction false} InsertedLengthAppend(a: seq<Request>, b: seq<Request>)
    ensures InsertedLength(a + b) == InsertedLength(a) + InsertedLength(b)
    ensures InsertCount(a + b) == InsertCount(a) + InsertCount(b)
  {
    if a != [] {
      assert (a + b)[0] == a[0];
      assert (a + b)[1..] == a[1..] + b;
      InsertedLengthAppend(a[1..], b);
    } else {
      assert a + b == b;
    }
  }

  lemma RequestsOneInsert(p: Parsed, index: nat)
    ensures InsertCount(Requests(p, index)) == 1
    ensures InsertedLength(Requests(p, index)) == |p.content| + 1
  {
    var r := Requests(p, index);
    assert InsertCount(r) == 1 + InsertCount(r[1..]);
    assert InsertedLength(r) == |r[0].text| + InsertedLength(r[1..]);
    if |r| == 2 {
      assert r[1..][1..] == [];
      assert InsertCount(r[1..]) == 0 + InsertCount(r[1..][1..]);
      assert InsertedLength(r[1..]) == 0 + InsertedLength(r[1..][1..]);
    } else {
      assert r[1..] == [];
    }
  }

  /** One insert per line. */
  lemma {:induction false} InsertCountFrom(ps: seq<Parsed>, index: nat)
    ensures InsertCount(RequestsFrom(ps, index)) == |ps|
  {
    if ps != [] {
      var r := Requests(ps[0], index);
      RequestsOneInsert(ps[0], index);
      InsertCountFrom(ps[1..], index + |r[0].text|);
      InsertedLengthAppend(r, RequestsFrom(ps[1..], index + |r[0].text|));
    }
  }

  /** Every insert sits at the starting cursor plus the length inserted before it,
      and every style update covers exactly the text inserted just before it. */
  lemma {:induction false} CursorAccounting(ps: seq<Parsed>, index: nat, k: nat)
    requires k < |RequestsFrom(ps, index)|
    ensures var rs := RequestsFrom(ps, index);
      (rs[k].InsertText? ==> rs[k].index == index + InsertedLength(rs[..k]))
      && (rs[k].UpdateTextStyle? ==>
            (0 < k && rs[k - 1].InsertText?
             && rs[k].startIndex == rs[k - 1].index
             && rs[k].endIndex == rs[k - 1].index + |rs[k - 1].text|))
    decreases |ps|
  {
    var rs := RequestsFrom(ps, index);
    var r := Requests(ps[0], index);
    var next := index + |r[0].text|;
    var rest := RequestsFrom(ps[1..], next);
    assert rs == r + rest;
    if k < |r| {
      assert rs[..k] == r[..k];
      if k == 1 { assert r[..1][1..] == []; }
      if k == 0 { assert rs[..0] == []; }
    } else {
      CursorAccounting(ps[1..], next, k - |r|);
      assert rs[..k] == r + rest[..k - |r|];
      InsertedLengthAppend(r, rest[..k - |r|]);
      RequestsOneInsert(ps[0], index);
      if rest[k - |r|].UpdateTextStyle? {
        assert rs[k - 1] == rest[k - |r| - 1];
      }
    }
  }

  /** After all lines the cursor has advanced by the total inserted length. */
  lemma {:induction false} FinalCursor(ps: seq<Parsed>, index: nat)
    ensures InsertedLength(RequestsFrom(ps, index)) == TotalLength(ps)
    decreases |ps|
  {
    if ps != [] {
      var r := Requests(ps[0], index);
      RequestsOneInsert(ps[0], index);
      FinalCursor(ps[1..], index + |r[0].text|);
      InsertedLengthAppend(r, RequestsFrom(ps[1..], index + |r[0].text|));
    }
  }

  /** Sum over the lines of the inserted text length, newline included. */
  function TotalLength(ps: seq<Parsed>): nat
  {
    if ps == [] then 0 else |ps[0].content| + 1 + TotalLength(ps[1..])
  }
}
