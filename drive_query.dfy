/**
 * Drive search queries (`get_gdrive_folder_explorer`): escaping a search term
 * for a single-quoted query literal, normalising the MIME-type argument,
 * assembling the `q` string, and draining a paginated listing.  Also the
 * parents bookkeeping of `move_file_to_gdrive_folder`.
 */
module DriveQuery {
  import opened Strings
  import opened Options

  const FolderMime: string := "application/vnd.google-apps.folder"

  // ---------------------------------------------------------------------
  // Escaping

  /** `s.replace(c, r)` for a one-character pattern. */
  function Replace(s: string, c: char, r: string): (t: string)
    ensures c !in s ==> t == s
  {
    if s == [] then [] else (if s[0] == c then r else [s[0]]) + Replace(s[1..], c, r)
  }

  /** `_escape_term`: backslashes doubled first, then quotes backslash-escaped. */
  function EscapeTerm(s: string): (r: string)
    ensures '\\' !in s && '\'' !in s ==> r == s
  {
    Replace(Replace(s, '\\', "\\\\"), '\'', "\\'")
  }

  /** The escape of one character. */
  function EscapeChar(c: char): string
  {
    if c == '\\' then "\\\\" else if c == '\'' then "\\'" else [c]
  }

  /** Escaping character by character. */
  function EscapeEach(s: string): string
  {
    if s == [] then [] else EscapeChar(s[0]) + EscapeEach(s[1..])
  }

  lemma {:induction false} ReplaceAppend(a: string, b: string, c: char, r: string)
    ensures Replace(a + b, c, r) == Replace(a, c, r) + Replace(b, c, r)
  {
    if a != [] {
      assert (a + b)[1..] == a[1..] + b;
      ReplaceAppend(a[1..], b, c, r);
      AppendAssoc(if a[0] == c then r else [a[0]], Replace(a[1..], c, r), Replace(b, c, r));
    } else {
      assert a + b == b;
    }
  }

  /** The two chained replacements escape each character independently:
      the second never touches what the first produced. */
  lemma {:induction false} EscapeTermEach(s: string)
    ensures EscapeTerm(s) == EscapeEach(s)
  {
    if s != [] {
      var first := if s[0] == '\\' then "\\\\" else [s[0]];
      assert Replace(s, '\\', "\\\\") == first + Replace(s[1..], '\\', "\\\\");
      ReplaceAppend(first, Replace(s[1..], '\\', "\\\\"), '\'', "\\'");
      EscapeTermEach(s[1..]);
      if s[0] == '\\' {
        assert Replace(first, '\'', "\\'") == "\\\\" by {
          assert first == ['\\'] + ['\\'];
          ReplaceAppend(['\\'], ['\\'], '\'', "\\'");
        }
      }
    }
  }

  /** Reads the body of a single-quoted query literal, the opening quote
      already consumed: a backslash takes the next character literally, an
      unescaped quote ends the literal.  Gives the value and what follows. */
  function ReadQuoted(t: string): Option<(string, string)>
  {
    if t == [] then None
    else if t[0] == '\'' then Some(("", t[1..]))
    else if t[0] == '\\' then
      if |t| < 2 then None
      else match ReadQuoted(t[2..])
        case None => None
        case Some(r) => Some(([t[1]] + r.0, r.1))
    else
      match ReadQuoted(t[1..])
      case None => None
      case Some(r) => Some(([t[0]] + r.0, r.1))
  }

  /** An escaped term inside quotes reads back as the term, and the literal
      ends exactly at the closing quote: the term cannot end it early. */
  lemma {:induction false} QuotedRoundTrip(s: string, rest: string)
    ensures ReadQuoted(EscapeTerm(s) + "'" + rest) == Some((s, rest))
  {
    EscapeTermEach(s);
    EachRoundTrip(s, rest);
  }

  lemma {:induction false} EachRoundTrip(s: string, rest: string)
    ensures ReadQuoted(EscapeEach(s) + "'" + rest) == Some((s, rest))
  {
    if s == [] {
      assert EscapeEach(s) + "'" + rest == ['\''] + rest;
    } else {
      var tail := EscapeEach(s[1..]) + "'" + rest;
      EachRoundTrip(s[1..], rest);
      assert EscapeEach(s) + "'" + rest == EscapeChar(s[0]) + tail;
      ReadQuotedStep(s[0], tail, s[1..], rest);
      assert [s[0]] + s[1..] == s;
    }
  }

  /** One escaped character in front of a literal's body is read back as itself. */
  lemma ReadQuotedStep(c: char, tail: string, v: string, rest: string)
    requires ReadQuoted(tail) == Some((v, rest))
    ensures ReadQuoted(EscapeChar(c) + tail) == Some(([c] + v, rest))
  {
    var t := EscapeChar(c) + tail;
    if c == '\\' || c == '\'' {
      assert t[0] == '\\' && t[1] == c && t[2..] == tail;
    } else {
      assert t[0] == c && t[1..] == tail;
    }
  }

  /** `name='<name>'` as the copy operations build it, without escaping. */
  function NameClauseAsWritten(name: string): (r: string)
    ensures '\\' !in name && '\'' !in name ==> r == NameClause(name)
  {
    "name='" + name + "'"
  }

  /** The name clause with the term escaped. */
  function NameClause(name: string): (r: string)
    ensures |r| >= 6 && ReadQuoted(r[6..]) == Some((name, ""))
  {
    var r := "name='" + EscapeTerm(name) + "'";
    QuotedRoundTrip(name, "");
    assert r[6..] == EscapeTerm(name) + "'" + "";
    r
  }

  /** With escaping, the literal in the clause is exactly the name. */
  lemma NameClauseReadsName(name: string, rest: string)
    ensures ReadQuoted((NameClause(name) + rest)[6..]) == Some((name, rest))
  {
    assert (NameClause(name) + rest)[6..] == EscapeTerm(name) + "'" + rest;
    QuotedRoundTrip(name, rest);
  }

  /** Without escaping, a name holding a quote ends the literal early: for
      `a'b` the query compares against `a` and leaves `b'` as stray text. */
  lemma NameClauseAsWrittenBreaks()
    ensures ReadQuoted(NameClauseAsWritten("a'b")[6..]) == Some(("a", "b'"))
    ensures ReadQuoted(NameClauseAsWritten("a'b")[6..]) != Some(("a'b", ""))
  {
    assert NameClauseAsWritten("a'b")[6..] == "a'b'";
    assert "a'b'"[0] == 'a' && "a'b'"[1..] == "'b'";
    assert "'b'"[0] == '\'' && "'b'"[1..] == "b'";
    assert ReadQuoted("'b'") == Some(("", "b'"));
    assert ['a'] + "" == "a";
    assert ReadQuoted("a'b'") == Some((['a'] + "", "b'"));
  }

  // ---------------------------------------------------------------------
  // MIME types and the query string

  /** The `mime_types` argument: `None`, a string, a list or tuple, or any
      other value, which is truthy or not. */
  datatype MimeArg = MimeNone | MimeStr(s: string) | MimeList(items: seq<string>) | MimeOther(truthy: bool)

  predicate Truthy(m: MimeArg)
  {
    match m
    case MimeNone => false
    case MimeStr(s) => s != ""
    case MimeList(items) => items != []
    case MimeOther(t) => t
  }

  /** `_normalize_mimes`: `None` when it raises `TypeError`. */
  function NormalizeMimes(m: MimeArg): (r: Option<seq<string>>)
    ensures r.None? <==> m.MimeOther?
    ensures m.MimeStr? ==> r == Some([m.s])
    ensures m.MimeList? ==> r == Some(m.items)
    ensures m.MimeNone? ==> r == Some([])
  {
    match m
    case MimeNone => Some([])
    case MimeList(items) => Some(items)
    case MimeStr(s) => Some([s])
    case MimeOther(_) => None
  }

  /** `sep.join(parts)` for a separator of any length. */
  function JoinWith(parts: seq<string>, sep: string): string
  {
    if |parts| == 0 then ""
    else if |parts| == 1 then parts[0]
    else parts[0] + sep + JoinWith(parts[1..], sep)
  }

  function MimeClause(mt: string): string
  {
    "mimeType = '" + EscapeTerm(mt) + "'"
  }

  function MimeClauses(mts: seq<string>): (r: seq<string>)
    ensures |r| == |mts| && forall i :: 0 <= i < |mts| ==> r[i] == MimeClause(mts[i])
  {
    if mts == [] then [] else [MimeClause(mts[0])] + MimeClauses(mts[1..])
  }

  /** The parts of `q`, in order: a parent scope exactly for a folder other
      than the root, a name filter exactly for a non-empty term, always the
      trash filter, then the folder filter or the MIME alternatives; `None`,
      when normalising the MIME types raises, exactly for a truthy MIME
      argument of an unsupported type. */
  function QueryParts(folderId: string, query: Option<string>, onlyFolders: bool, mimes: MimeArg): (r: Option<seq<string>>)
    ensures r.None?
        <==> !onlyFolders && Truthy(mimes) && mimes.MimeOther?
    ensures
      var s := if folderId != "" && folderId != "root" then 1 else 0;
      var n := if query.Some? && query.value != "" then 1 else 0;
      r.Some? ==>
        && |r.value| >= s + n + 1
        && (s == 1 ==> r.value[0] == "'" + folderId + "' in parents")
        && (n == 1 ==> r.value[s] == "name contains '" + EscapeTerm(query.value) + "'")
        && r.value[s + n] == "trashed = false"
        && (onlyFolders ==> r.value[s + n + 1..] == ["mimeType = '" + FolderMime + "'"])
        && (!onlyFolders ==> (|r.value| > s + n + 1
              <==> Truthy(mimes) && NormalizeMimes(mimes).Some? && NormalizeMimes(mimes).value != []))
        && (!onlyFolders && |r.value| > s + n + 1 ==>
              Truthy(mimes) && NormalizeMimes(mimes).Some? && NormalizeMimes(mimes).value != []
              && r.value[s + n + 1..] == ["(" + JoinWith(MimeClauses(NormalizeMimes(mimes).value), " or ") + ")"])
  {
    var scope := if folderId != "" && folderId != "root" then ["'" + folderId + "' in parents"] else [];
    var name := if query.Some? && query.value != "" then ["name contains '" + EscapeTerm(query.value) + "'"] else [];
    var base := scope + name + ["trashed = false"];
    if onlyFolders then Some(base + ["mimeType = '" + FolderMime + "'"])
    else if !Truthy(mimes) then Some(base)
    else match NormalizeMimes(mimes)
      case None => None
      case Some(mts) =>
        if mts == [] then Some(base) else Some(base + ["(" + JoinWith(MimeClauses(mts), " or ") + ")"])
  }

  /** The `q` string, parts joined with ` and `. */
  function BuildQuery(folderId: string, query: Option<string>, onlyFolders: bool, mimes: MimeArg): (r: Option<string>)
    ensures r.None? <==> !onlyFolders && Truthy(mimes) && mimes.MimeOther?
    ensures r.Some? ==> r.value == JoinWith(QueryParts(folderId, query, onlyFolders, mimes).value, " and ")
  {
    match QueryParts(folderId, query, onlyFolders, mimes)
    case None => None
    case Some(parts) => Some(JoinWith(parts, " and "))
  }

  /** The name filter's literal reads back as the search term itself. */
  lemma NameFilterReadsBack(term: string)
    ensures var part := "name contains '" + EscapeTerm(term) + "'";
      ReadQuoted(part[15..]) == Some((term, ""))
  {
    var part := "name contains '" + EscapeTerm(term) + "'";
    assert part[15..] == EscapeTerm(term) + "'" + "";
    QuotedRoundTrip(term, "");
  }

  /** The explorer's outcome: the `_normalize_mimes` call in the response
      metadata raises for any unsupported MIME argument unless only folders
      are listed, so such a call fails even when the argument is falsy. */
  function ExplorerFails(onlyFolders: bool, mimes: MimeArg): (fails: bool)
    ensures fails <==> !onlyFolders && mimes.MimeOther?
    ensures QueryParts("root", None, onlyFolders, mimes).None? ==> fails
  {
    QueryParts("root", None, onlyFolders, mimes).None? || (!onlyFolders && NormalizeMimes(mimes).None?)
  }

  // ---------------------------------------------------------------------
  // Pagination

  /** One page of a listing; a missing or empty token ends the listing. */
  datatype Page<T> = Page(items: seq<T>, nextPageToken: Option<string>)

  predicate IsLast<T>(p: Page<T>)
  {
    p.nextPageToken.None? || p.nextPageToken.value == ""
  }

  /** The listing ends: some page carries no further token. */
  predicate Ends<T>(pages: seq<Page<T>>)
  {
    exists k :: 0 <= k < |pages| && IsLast(pages[k])
  }

  /** The index of the first page that ends the listing. */
  function LastPage<T>(pages: seq<Page<T>>, from: nat): (k: nat)
    requires from <= |pages|
    requires exists j :: from <= j < |pages| && IsLast(pages[j])
    ensures from <= k < |pages| && IsLast(pages[k])
    ensures forall j :: from <= j < k ==> !IsLast(pages[j])
    decreases |pages| - from
  {
    if IsLast(pages[from]) then from else LastPage(pages, from + 1)
  }

  /** The items of the first `n` pages, in order. */
  function Collected<T>(pages: seq<Page<T>>, n: nat): seq<T>
    requires n <= |pages|
  {
    if n == 0 then [] else Collected(pages, n - 1) + pages[n - 1].items
  }

  /** The listing loop: the server answers the request sent with the token
      of page `i - 1` (none for the first) with page `i`.  Fetches up to and
      including the first page with no next token. */
  method DrainPages<T>(pages: seq<Page<T>>) returns (records: seq<T>, tokensSent: seq<Option<string>>)
    requires Ends(pages)
    ensures records == Collected(pages, LastPage(pages, 0) + 1)
    ensures |tokensSent| == LastPage(pages, 0) + 1
    ensures tokensSent[0] == None
    ensures forall i :: 1 <= i < |tokensSent| ==> tokensSent[i] == pages[i - 1].nextPageToken && tokensSent[i] != Some("")
  {
    var last := LastPage(pages, 0);
    records := [];
    tokensSent := [];
    var pageToken: Option<string> := None;
    var i := 0;
    while true
      invariant 0 <= i <= last
      invariant records == Collected(pages, i)
      invariant |tokensSent| == i
      invariant i == 0 ==> pageToken == None
      invariant i > 0 ==> pageToken == pages[i - 1].nextPageToken && pageToken != Some("") && pageToken.Some?
      invariant forall j :: 0 <= j < i ==> tokensSent[j] == (if j == 0 then None else pages[j - 1].nextPageToken)
      decreases last - i
    {
      tokensSent := tokensSent + [pageToken];
      var resp := pages[i];
      records := records + resp.items;
      pageToken := resp.nextPageToken;
      if IsLast(resp) {
        assert i == last;
        break;
      }
      i := i + 1;
    }
  }

  // ---------------------------------------------------------------------
  // Parents of a moved file

  /** `",".join(parents)` and its reading back, `s.split(",") if s else []`. */
  function ReportedParents(parents: seq<string>): (r: seq<string>)
    ensures parents == [] ==> r == []
    ensures forall i :: 0 <= i < |r| ==> ',' !in r[i]
  {
    var joined := Join(parents, ',');
    SplitPiecesFree(joined, ',');
    if joined != "" then Split(joined, ',') else []
  }

  /** The reported previous parents are the parents, unless the only parent
      id is empty (ids never hold commas). */
  lemma ReportedParentsRoundTrip(parents: seq<string>)
    requires forall i :: 0 <= i < |parents| ==> ',' !in parents[i]
    requires parents != [""]
    ensures ReportedParents(parents) == parents
  {
    if parents != [] {
      if |parents| == 1 {
        assert Join(parents, ',') == parents[0];
      } else {
        assert ',' in Join(parents, ',') by {
          assert Join(parents, ',') == parents[0] + [','] + Join(parents[1..], ',');
          assert Join(parents, ',')[|parents[0]|] == ',';
        }
      }
      SplitJoin(parents, ',');
    }
  }

  /** A single empty parent id is reported as no parents. */
  lemma ReportedParentsEmptyId()
    ensures ReportedParents([""]) == []
  {
  }
}
