# google-api-python-wrapper, modelled in Dafny

`google-api-python-wrapper` wraps Google's Drive, Docs, Sheets, Calendar,
Tasks, Forms and Gmail clients in a single `GoogleApi` object. This project
models the parts of that object that hold logic of their own, and proves
properties about them. It also models the credential search in
`google_api.py` that the object relies on.

- **Credentials** (`oauth_flow.dfy`, `auth_state.dfy`). The credential search
  is an ordered decision: the saved token (refreshed when possible), then
  Colab's credentials, then the `interactive=False` guard, then the browser
  flow, configured from the environment or from a client file. Every effect
  is an input (`Environment`). `GoogleApi` is a class whose flag, error and
  seven service handles change together.
- **Markdown into a document** (`markdown_writer.dfy`). `parse_markdown` turns
  each line of the text into one `insertText` request at a running cursor,
  plus at most one `updateTextStyle` request.
- **A document back into markdown** (`markdown_reader.dfy`). This is the
  paragraph loop of `extract_markdown_from_doc`, over a document datatype.
- **The round trip between the two** (`markdown_roundtrip.dfy`).
- **Drive search queries and pagination** (`drive_query.dfy`). Term escaping,
  MIME normalisation, the `q` string, draining the pages of a listing, and the
  parents string of a moved file.
- **Download planning** (`downloads.dfy`). `_safe_filename`, `pathlib`'s stem
  and suffix, and the choice between export and download.
- **Calendar deletion** (`calendar_tally.dfy`). The deleted/failed partition
  of the event ids and the status rule.
- **Form responses** (`form_responses.dfy`, over `ordered_map.dfy` and
  `stable_sort.dfy`). The question map, ids that appear only in responses,
  distinct display keys, record shaping, and the stable sort by creation time.
- **Copying in Drive** (`drive_copy.dfy`). Drive is a class over a map from id
  to item. Every remote call is numbered, and whether a given call raises is
  an input. The class covers the single-file copy and the recursive folder
  copy.

Python's own operations that the code relies on are written out:
- `str.split` and `str.join` (`Strings.Split`, `Strings.Join`);
- `str` comparison (`Strings.LexLe`) and `strip`;
- dictionaries that keep insertion order, with `setdefault` (`OrderedMaps`);
- `list.sort`, which is stable (`StableSort`).

The code and its own documentation disagree in three places; the model
follows the code:
- **`copy_file_to_gdrive_folder` errors.** Its docstring says API errors are
  caught and returned. The function has no `try`, so a failing call raises
  (`CopyFile` returns `None`).
- **`mime_types` in the folder explorer.** The explorer's documentation
  accepts a string, a list or a tuple. The response metadata normalises the
  argument once more, outside the query's guard. So an unsupported argument
  fails the whole call even when it is falsy (`ExplorerFails`).
- **Several text answers to one Forms question.** The documentation of
  `get_form_responses` (core.py:2535-2536) says the first answer is kept.
  The code joins all of them with `", "` (core.py:2627), and the model does
  the same (`FormResponses.JoinValues`).

## Model

| member | source | states |
|---|---|---|
| OAuthFlow.Refreshed | google_api_python_wrapper/google_api.py:67-70 | a refreshed credential is valid and unexpired, keeping its scopes and refresh token |
| OAuthFlow.LoadToken | google_api_python_wrapper/google_api.py:54-74 | `_load_token` gives nothing exactly when there is no file or the refresh of an expired token fails; it raises exactly on an unreadable file; a refreshed token is valid |
| OAuthFlow.ValidTokenReturned | google_api_python_wrapper/google_api.py:136-146 | a saved token that has every required scope and is valid is returned as it is |
| OAuthFlow.InvalidTokenRefreshed | google_api_python_wrapper/google_api.py:138-142 | an invalid, scoped token with a refresh token is refreshed and returned, or the refresh error propagates |
| OAuthFlow.InvalidTokenFallsThrough | google_api_python_wrapper/google_api.py:143-146 | an invalid token without a refresh token leads to the same outcome as having no token at all |
| OAuthFlow.TokenResultScoped | google_api_python_wrapper/google_api.py:131-146 | credentials returned from the token always carry every required scope and come from a stored, scoped token |
| OAuthFlow.ColabResultConditions | google_api_python_wrapper/google_api.py:148-158 | Colab credentials are returned only in Colab, with no environment client and no client-file argument, and only when they carry every scope |
| OAuthFlow.NonInteractiveNeverRunsFlow | google_api_python_wrapper/google_api.py:160-165 | with `interactive=False` the browser flow never runs; past the token and Colab steps the call raises |
| OAuthFlow.InteractiveDefault | google_api_python_wrapper/google_api.py:161 | `interactive=None` behaves exactly like `interactive=True` |
| OAuthFlow.ChosenClientFile | google_api_python_wrapper/google_api.py:167-170 | the client file is the argument when given and non-empty, else the default name; never empty |
| OAuthFlow.FlowSource | google_api_python_wrapper/google_api.py:167-178 | the flow is configured from the environment exactly when the variable parses truthy, else from the chosen client file, which exists |
| OAuthFlow.MissingClientFile | google_api_python_wrapper/google_api.py:171-177 | once the flow is reached, a missing client file raises exactly when the environment has no truthy client configuration |
| OAuthFlow.BuildServices | google_api_python_wrapper/google_api.py:201-208 | the seven clients, in order, each of its own service and all sharing one set of credentials |
| OAuthFlow.TryGetGoogleServices | google_api_python_wrapper/google_api.py:217-243 | no services iff failed iff an error is attached; `ok` iff the credential search and the build both succeed; a raised failure is the attached error; the services use the credentials found |
| OAuthFlow.GetOAuthCredentials | google_api_python_wrapper/google_api.py:118-182 | credentials from the token or from Colab carry every required scope; token credentials are valid; Colab credentials come only from Colab; flow credentials never with `interactive=False` |
| OAuthFlow.AfterToken | google_api_python_wrapper/google_api.py:148-182 | past the token step nothing comes from the token; a malformed environment configuration raises first; Colab credentials are scoped and only in Colab; the flow never runs with `interactive=False` |
| AuthState.GoogleApi.constructor | google_api_python_wrapper/core.py:38-65 | config stored; the invariant holds; with `auto_init` the flag and error are those of the credential search, without it unauthenticated with no error |
| AuthState.GoogleApi.InitAuth | google_api_python_wrapper/core.py:67-89 | the flag and result equal `ok` of the search and the error is stored; success stores the built services; failure clears all seven handles, so `services_tuple` gives nothing |
| AuthState.GoogleApi.EnsureAuth | google_api_python_wrapper/core.py:92-97 | already authenticated: returns true and changes nothing (no new search); otherwise behaves as `init_auth`; the invariant is kept |
| AuthState.GoogleApi.ServicesTuple | google_api_python_wrapper/core.py:99-104 | nothing exactly when unauthenticated; otherwise seven present handles built with one set of credentials |
| MarkdownWriter.FindFrom | google_api_python_wrapper/core.py:1027 | the first occurrence of a marker at or after a position, or none at all |
| MarkdownWriter.FindFromFirst | google_api_python_wrapper/core.py:1027 | the search returns the first occurrence |
| MarkdownWriter.ContainsIff | google_api_python_wrapper/core.py:1027 | Python's `m in s` holds iff the marker occurs at some position |
| MarkdownWriter.SearchLinkSound | google_api_python_wrapper/core.py:1018-1022 | a found link span is a match of `\[(.*?)\]\((.*?)\)`, lazily minimal in both groups |
| MarkdownWriter.SearchLinkComplete | google_api_python_wrapper/core.py:1018 | when the search fails, no match starts anywhere after the position |
| MarkdownWriter.SearchLinkFinds | google_api_python_wrapper/core.py:1018 | when a match starts at or after the search position, the search finds a link |
| MarkdownWriter.FindLinkSpec | google_api_python_wrapper/core.py:1018-1024 | the captured text and URL are those of the leftmost lazy match; no capture iff the pattern matches nowhere |
| MarkdownWriter.SearchLinkSkip | google_api_python_wrapper/core.py:1018 | positions without `[` are passed over by the search |
| MarkdownWriter.FindCharFirst | google_api_python_wrapper/core.py:1018 | the search for `)` finds its first occurrence |
| MarkdownWriter.LinkAt | google_api_python_wrapper/core.py:1018-1024 | with the first `[` of the line followed by text without `]`, then `](`, a URL without `)` and `)`, the pattern captures that text and URL whatever follows |
| MarkdownWriter.StripPairs | google_api_python_wrapper/core.py:1028-1033 | removing marker pairs never lengthens the line; what is removed is stated by `StripPairsSegments` and the lemmas beside it |
| MarkdownWriter.StripPairsNoMarker | google_api_python_wrapper/core.py:1028-1033 | a line without the marker is left unchanged |
| MarkdownWriter.StripPlainPrefix | google_api_python_wrapper/core.py:1028-1033 | text free of the marker's characters in front is copied unchanged |
| MarkdownWriter.StripPairFront | google_api_python_wrapper/core.py:1028-1033 | a marker pair around marker-free text in front is replaced by that text |
| MarkdownWriter.PairCloses | google_api_python_wrapper/core.py:1028-1033 | after an opening marker the lazy group ends at the first marker |
| MarkdownWriter.StripPairsSegments | google_api_python_wrapper/core.py:1028-1033 | left to right, every pair around marker-free text is removed and all other text is kept in order, whatever follows |
| MarkdownWriter.StripPairsUnclosed | google_api_python_wrapper/core.py:1028-1033 | a marker that nothing closes is kept |
| MarkdownWriter.StripPairsWrapped | google_api_python_wrapper/core.py:1028-1033 | text wrapped in one marker pair loses exactly that pair |
| MarkdownWriter.ParseLine | google_api_python_wrapper/core.py:1005-1034 | the content is never longer than the line; a link excludes any style; any style includes bold or italic; `## ` wins over everything, with bold and 18pt |
| MarkdownWriter.ParseLineCases | google_api_python_wrapper/core.py:1005-1034 | `# ` gives the rest in bold at 24pt; otherwise a link is found exactly when the pattern matches somewhere, and gives the leftmost match's text and URL with no style; otherwise a line holding `**` is bold with its pairs removed; otherwise one holding `_` is italic; otherwise the line is kept verbatim |
| MarkdownWriter.ParseLineLink | google_api_python_wrapper/core.py:1017-1024 | a link after text without `[` gives its text and URL whatever surrounds it |
| MarkdownWriter.ParseLineLoneBold | google_api_python_wrapper/core.py:1026-1029 | a line with a lone `**` that nothing closes is bold and keeps its text |
| MarkdownWriter.ParseLines | google_api_python_wrapper/core.py:996-1034 | one classified line per line of the text, in order |
| MarkdownWriter.Requests | google_api_python_wrapper/core.py:1036-1083 | a classified line gives first the insert of its content plus a newline at the cursor, then a style update over exactly that text iff it has a style or a non-empty link; the update carries the style entries with their keys joined by commas as the field mask, or the link style with the mask `link,underline,foregroundColor` |
| MarkdownWriter.RequestFields | google_api_python_wrapper/core.py:1048-1082 | the field mask of a style update names exactly the keys of the style it carries |
| MarkdownWriter.FormatFields | google_api_python_wrapper/core.py:1056 | splitting the joined keys gives the keys back |
| MarkdownWriter.LinkFieldsSplit | google_api_python_wrapper/core.py:1081 | the link mask names `link`, `underline` and `foregroundColor` |
| MarkdownWriter.LineRequests | google_api_python_wrapper/core.py:1000-1083 | a line gives the insert of its classified content plus a newline at the cursor, and at most one style update over exactly that text |
| MarkdownWriter.ParseMarkdown | google_api_python_wrapper/core.py:995-1087 | the requests are those of the classified lines of `text.split('\n')` from cursor 1, with one insert per line, so one more insert than there are newlines |
| MarkdownWriter.LinesToRequests | google_api_python_wrapper/core.py:999-1085 | the line loop yields the requests of the classified lines from cursor 1 |
| MarkdownWriter.LineStep | google_api_python_wrapper/core.py:1000-1085 | one pass of the line loop appends that line's requests and advances the cursor to one past everything inserted so far |
| MarkdownWriter.RequestsOneInsert | google_api_python_wrapper/core.py:1037-1045 | each line contributes exactly one insert, of its content plus a newline |
| MarkdownWriter.InsertCountFrom | google_api_python_wrapper/core.py:996-1045 | one insert per classified line |
| MarkdownWriter.CursorAccounting | google_api_python_wrapper/core.py:1000-1045 | every insert sits at the starting cursor plus the length inserted before it; every update starts where its insert does (also line 1085) |
| MarkdownWriter.FinalCursor | google_api_python_wrapper/core.py:1085 | after all lines the cursor has advanced by the total inserted length, newlines included |
| MarkdownWriter.InsertedLengthAppend | google_api_python_wrapper/core.py:1085 | inserted length and insert count add up over concatenated request lists |
| MarkdownReader.RunMarkdown | google_api_python_wrapper/core.py:1149-1159 | a link is outermost `[..](..)`, then italic `_.._`, then bold `**..**`; an unstyled run is its text without trailing newlines |
| MarkdownReader.ParagraphLine | google_api_python_wrapper/core.py:1126-1163 | a paragraph's line starts with its heading and bullet prefixes |
| MarkdownReader.MarkdownLines | google_api_python_wrapper/core.py:1121-1163 | at most one line per body element |
| MarkdownReader.MarkdownLinesCount | google_api_python_wrapper/core.py:1121-1124 | exactly one line per paragraph; other elements are skipped (also line 1163) |
| MarkdownReader.ExtractMarkdown | google_api_python_wrapper/core.py:1119-1165 | the loop yields the paragraph lines joined by newlines |
| MarkdownReader.ParagraphToLine | google_api_python_wrapper/core.py:1126-1163 | the loop for one paragraph gives the heading and bullet prefixes followed by the runs' markdown |
| MarkdownReader.RunToMarkdown | google_api_python_wrapper/core.py:1149-1159 | the wrapping of one run, in the fixed order |
| MarkdownReader.RunsMarkdownStep | google_api_python_wrapper/core.py:1144-1161 | the markdown of one more element extends the runs' markdown by that element's text |
| MarkdownReader.RunMarkdownSingleLine | google_api_python_wrapper/core.py:1149 | a run with no inner newline gives markdown without a newline |
| MarkdownReader.RunsMarkdownSingleLine | google_api_python_wrapper/core.py:1144-1161 | runs with no inner newline give a line without a newline |
| MarkdownReader.MarkdownLinesSingle | google_api_python_wrapper/core.py:1121-1163 | such paragraphs give newline-free lines |
| MarkdownReader.ExtractedLinesSplit | google_api_python_wrapper/core.py:1165 | splitting the extracted markdown on newlines gives back one line per paragraph |
| MarkdownRoundTrip.AppliedParagraph | google_api_python_wrapper/core.py:1040-1083 | the paragraph a line's requests produce holds one run with exactly the inserted text, no named style and no bullet |
| MarkdownRoundTrip.ReadBackParsed | google_api_python_wrapper/core.py:1037-1083 | a written line reads back as the markdown of one run whose text is the parsed content (also lines 1149-1159) |
| MarkdownRoundTrip.BoldRoundTrip | google_api_python_wrapper/core.py:1026-1029 | `**x**` is written and read back as `**x**` (also lines 1153-1154) |
| MarkdownRoundTrip.BoldParsed | google_api_python_wrapper/core.py:1026-1029 | `**x**` is classified as bold `x` |
| MarkdownRoundTrip.ItalicRoundTrip | google_api_python_wrapper/core.py:1031-1034 | `_x_` is written and read back as `_x_` (also lines 1155-1156) |
| MarkdownRoundTrip.ItalicParsed | google_api_python_wrapper/core.py:1031-1034 | `_x_` is classified as italic `x` |
| MarkdownRoundTrip.LinkRoundTrip | google_api_python_wrapper/core.py:1017-1024 | `[t](u)` with a non-empty URL is written and read back unchanged (also lines 1157-1159) |
| MarkdownRoundTrip.LinkFound | google_api_python_wrapper/core.py:1018-1022 | the link pattern captures exactly the text and URL of `[t](u)` |
| MarkdownRoundTrip.PlainRoundTrip | google_api_python_wrapper/core.py:1036-1045 | a line without markup is written and read back verbatim (also line 1149) |
| MarkdownRoundTrip.HeadingOneReadsBackBold | google_api_python_wrapper/core.py:1012-1015 | `# x` reads back as `**x**`, not as a heading (also lines 1133-1136, 1153-1154) |
| MarkdownRoundTrip.HeadingTwoReadsBackBold | google_api_python_wrapper/core.py:1006-1009 | `## x` reads back as `**x**`, not as a heading (also lines 1133-1136, 1153-1154) |
| MarkdownRoundTrip.AppliedParagraphIndex | google_api_python_wrapper/core.py:1000-1045 | the applied paragraph does not depend on the cursor |
| MarkdownRoundTrip.AppliedBody | google_api_python_wrapper/core.py:996-1045 | one paragraph per written line |
| MarkdownRoundTrip.AppliedBodyLines | google_api_python_wrapper/core.py:1121-1163 | the written document reads back line by line as each line does alone |
| MarkdownRoundTrip.MarkdownLinesPrepend | google_api_python_wrapper/core.py:1121-1163 | a leading paragraph contributes its line first |
| MarkdownRoundTrip.ReadBacks | google_api_python_wrapper/core.py:1121-1163 | the read-back of each line, in order |
| MarkdownRoundTrip.DocumentRoundTrip | google_api_python_wrapper/core.py:996 | a text whose every line survives the round trip is written and read back unchanged as a whole (also line 1165) |
| Strings.Count | google_api_python_wrapper/core.py:996 | a character count is at most the length, and zero iff the character is absent |
| Strings.Split | google_api_python_wrapper/core.py:996 | `str.split` on one character gives at least one piece |
| Strings.SplitPiecesFree | google_api_python_wrapper/core.py:996 | no piece holds the separator |
| Strings.SplitLength | google_api_python_wrapper/core.py:996 | the number of pieces is one more than the number of separators |
| Strings.JoinSplit | google_api_python_wrapper/core.py:996 | joining the pieces gives the string back (also line 1165) |
| Strings.SplitPrefix | google_api_python_wrapper/core.py:636 | splitting `p + sep + t` gives `p` followed by the pieces of `t` |
| Strings.SplitNoSep | google_api_python_wrapper/core.py:636 | a string without the separator splits into itself |
| Strings.SplitJoin | google_api_python_wrapper/core.py:622-636 | splitting a join of separator-free parts gives the parts back |
| Strings.LexLeReflexive | google_api_python_wrapper/core.py:954 | `s <= s` on strings |
| Strings.LexLeAntisymmetric | google_api_python_wrapper/core.py:954 | strings mutually `<=` are equal |
| Strings.LexLeTransitive | google_api_python_wrapper/core.py:954 | the string order is transitive (also line 2632) |
| Strings.LexLeTotal | google_api_python_wrapper/core.py:954 | any two strings are comparable (also line 2632) |
| Strings.DigitChar | google_api_python_wrapper/core.py:2594 | a digit's character has that digit's value |
| Strings.NatToString | google_api_python_wrapper/core.py:2594 | the decimal form of `i` is non-empty and all digits |
| Strings.DigitsValueNatToString | google_api_python_wrapper/core.py:2594 | the decimal form reads back as the number |
| Strings.NatToStringInjective | google_api_python_wrapper/core.py:2594-2596 | distinct numbers have distinct decimal forms |
| Strings.TrimLeft | google_api_python_wrapper/core.py:1245 | the kept suffix starts with a kept character and only stripped characters were dropped (also line 2566) |
| Strings.TrimRight | google_api_python_wrapper/core.py:1245 | the kept prefix ends with a kept character and only stripped characters were dropped (also line 2566) |
| Strings.Trim | google_api_python_wrapper/core.py:1245 | the result is empty or starts and ends with kept characters (also line 2566) |
| Strings.TrimSlice | google_api_python_wrapper/core.py:1245 | the result of stripping both ends is a slice `s[a..b]` of the input, and every character cut before `a` or from `b` on is a stripped one (also line 2566) |
| Strings.TrimUnchanged | google_api_python_wrapper/core.py:1245 | a string already without strippable ends is unchanged (also line 2566) |
| DriveQuery.Replace | google_api_python_wrapper/core.py:222 | replacing a character that does not occur changes nothing |
| DriveQuery.EscapeTerm | google_api_python_wrapper/core.py:220-222 | a term without backslash or quote is unchanged; what escaping means is stated by `QuotedRoundTrip` |
| DriveQuery.ReplaceAppend | google_api_python_wrapper/core.py:222 | replacement distributes over concatenation |
| DriveQuery.EscapeTermEach | google_api_python_wrapper/core.py:220-222 | the two chained replacements escape each character independently |
| DriveQuery.QuotedRoundTrip | google_api_python_wrapper/core.py:220-243 | an escaped term inside quotes reads back as exactly the term, and the literal ends at the closing quote |
| DriveQuery.EachRoundTrip | google_api_python_wrapper/core.py:220-222 | the same for the per-character escape |
| DriveQuery.ReadQuotedStep | google_api_python_wrapper/core.py:220-222 | an escaped character in front of a quoted tail reads back as that character before the tail's text |
| DriveQuery.NameClauseAsWrittenBreaks | google_api_python_wrapper/core.py:736-739 | unescaped, the name `a'b` ends the literal early and is read as `a` with stray text |
| DriveQuery.NameClauseAsWritten | google_api_python_wrapper/core.py:736-739 | without backslash or quote in the name it agrees with the escaped clause |
| DriveQuery.NameClause | google_api_python_wrapper/core.py:220-222 | the literal of the escaped clause reads back as exactly the name |
| DriveQuery.NameClauseReadsName | google_api_python_wrapper/core.py:736-739 | escaped, the name clause's literal is exactly the name |
| DriveQuery.NormalizeMimes | google_api_python_wrapper/core.py:224-232 | `None` gives `[]`, a string a singleton, a list itself, anything else raises |
| DriveQuery.MimeClauses | google_api_python_wrapper/core.py:250-252 | one escaped `mimeType = '..'` clause per MIME type, in order |
| DriveQuery.QueryParts | google_api_python_wrapper/core.py:234-259 | parent scope iff a folder other than root; name filter iff a non-empty term; always the trash filter; then the folder filter when only folders are listed, else the MIME alternatives exactly when the argument is truthy and normalises to a non-empty list, and nothing after the trash filter otherwise; failure iff a truthy unsupported MIME argument |
| DriveQuery.BuildQuery | google_api_python_wrapper/core.py:234-261 | the query fails exactly for a truthy MIME argument of an unsupported type; otherwise it is the parts `QueryParts` states, joined with ` and ` |
| DriveQuery.NameFilterReadsBack | google_api_python_wrapper/core.py:242-243 | the name filter's literal reads back as the search term |
| DriveQuery.ExplorerFails | google_api_python_wrapper/core.py:224-232 | the explorer fails iff not folders-only and the MIME argument is of an unsupported type, even a falsy one (also lines 296-301) |
| DriveQuery.LastPage | google_api_python_wrapper/core.py:290-292 | the first page with no further token |
| DriveQuery.DrainPages | google_api_python_wrapper/core.py:274-292 | the records are the items of every page up to and including the first with no token, in order; the first request has no token and each later one carries the previous page's token, never empty |
| DriveQuery.ReportedParentsRoundTrip | google_api_python_wrapper/core.py:622-636 | the reported previous parents are the parents, unless the only parent id is empty |
| DriveQuery.ReportedParents | google_api_python_wrapper/core.py:622-636 | no parents give none; no reported parent holds a comma |
| DriveQuery.ReportedParentsEmptyId | google_api_python_wrapper/core.py:622-636 | a single empty parent id is reported as no parents |
| Downloads.ReplaceRuns | google_api_python_wrapper/core.py:1245 | the substitution leaves no forbidden character and never lengthens the name; the run rule itself is stated by `ReplaceRunsSpec` |
| Downloads.SafeFilename | google_api_python_wrapper/core.py:1243-1247 | a sanitised name is never empty, holds no forbidden character and has no dot at either end |
| Downloads.FallbackSafe | google_api_python_wrapper/core.py:1247 | the fallback name `download` is itself safe |
| Downloads.SafeFilenameKeepsSafe | google_api_python_wrapper/core.py:1243-1247 | a name that is already safe is kept as it is |
| Downloads.ReplaceRunsNone | google_api_python_wrapper/core.py:1245 | a name with no forbidden character is unchanged by the substitution |
| Downloads.ReplaceRunsPlain | google_api_python_wrapper/core.py:1245 | allowed text is copied as it is and ends any run |
| Downloads.ReplaceRunsRun | google_api_python_wrapper/core.py:1245 | a run of forbidden characters gives one underscore, or nothing inside a run already under way |
| Downloads.ReplaceRunsSegments | google_api_python_wrapper/core.py:1245 | runs each followed by allowed text become an underscore each, followed by that text |
| Downloads.ReplaceRunsSpec | google_api_python_wrapper/core.py:1245 | each maximal run of forbidden characters becomes one underscore and every other character is kept, in order |
| Downloads.TrimNoForbidden | google_api_python_wrapper/core.py:1246 | stripping adds no forbidden character |
| Downloads.SafeFilenameDotSpace | google_api_python_wrapper/core.py:1243-1247 | the first pass on `". a"` strips only the leading dot and keeps the space it exposes |
| Downloads.SafeFilenameNotIdempotent | google_api_python_wrapper/core.py:1243-1247 | sanitising `". a"` gives `" a"`, and a second pass gives `"a"` |
| Downloads.PathName | google_api_python_wrapper/core.py:1302 | a path's final component holds no slash and is the last piece between slashes other than empty and `.`, or empty when there is none |
| Downloads.LastComponent | google_api_python_wrapper/core.py:1302 | the last piece other than empty and `.`, with only such pieces after it, or empty when every piece is one of them |
| Downloads.LastDot | google_api_python_wrapper/core.py:1302-1308 | the position of the last dot, or no dot at all |
| Downloads.SuffixDot | google_api_python_wrapper/core.py:1307-1308 | a suffix dot is the last dot and is neither first nor last; there is none exactly when no dot strictly inside the name is the last one |
| Downloads.StemSuffix | google_api_python_wrapper/core.py:1302-1308 | stem and suffix together give the final component; a suffix is a dot followed by at least one character and no other dot, after a non-empty stem |
| Downloads.Stem | google_api_python_wrapper/core.py:1302 | the stem is a prefix of the final component |
| Downloads.Suffix | google_api_python_wrapper/core.py:1307-1308 | a suffix is empty or a dot followed by at least one character |
| Downloads.ChooseKind | google_api_python_wrapper/core.py:1284-1298 | export iff a Google file type; a given export type is used with the extension `guess_extension(type) or ""`; otherwise the default table, else PDF; a binary file downloads under its own type with the extension `guess_extension(type) or ""` |
| Downloads.BaseName | google_api_python_wrapper/core.py:1302-1303 | the base of the local name, from the given name or else the Drive name, is never empty, has no forbidden character and no dot at either end |
| Downloads.FileName | google_api_python_wrapper/core.py:1305-1320 | the local name is the safe base followed by the file's own suffix for a binary file with one, else by the kind's extension |
| Downloads.RealName | google_api_python_wrapper/core.py:1280 | the Drive name first, then the caller's name, then the id |
| Downloads.RealMime | google_api_python_wrapper/core.py:1281 | the Drive type first, then the caller's hint, then `application/octet-stream`; never empty |
| Downloads.PlanDownload | google_api_python_wrapper/core.py:1279-1320 | export iff the resolved type is a Google type; a binary file downloads under the resolved type; the local name is the safe base followed by the file's own suffix for a binary file with one, else by the kind's extension |
| CalendarTally.DeleteEvents | google_api_python_wrapper/core.py:2068-2085 | the loop collects exactly the ids whose deletion succeeded and exactly those whose deletion raised, then applies the status rule |
| CalendarTally.Partition | google_api_python_wrapper/core.py:2072-2080 | every id lands in exactly one of deleted and failed, counted with repetition |
| CalendarTally.StatusSpec | google_api_python_wrapper/core.py:2068-2085 | success iff ids were given and all were deleted; error iff ids were given and all failed; no ids give partial |
| CalendarTally.TallyStatus | google_api_python_wrapper/core.py:2081-2085 | success iff something was deleted and nothing failed; error iff nothing was deleted and something failed; partial otherwise |
| OrderedMaps.Keys | google_api_python_wrapper/core.py:2589-2602 | the keys of a dictionary, in insertion order |
| OrderedMaps.Values | google_api_python_wrapper/core.py:2589 | the values of a dictionary, in insertion order |
| OrderedMaps.Get | google_api_python_wrapper/core.py:2615 | `get` gives nothing iff the key is absent, and otherwise a stored entry's value |
| OrderedMaps.Put | google_api_python_wrapper/core.py:2567 | assignment keeps a present key's place and replaces only its value, or appends a new key (also line 2627) |
| OrderedMaps.SetDefault | google_api_python_wrapper/core.py:2584 | `setdefault` changes nothing for a present key and appends a missing one |
| OrderedMaps.KeysAppend | google_api_python_wrapper/core.py:2584 | appending an entry appends its key |
| OrderedMaps.ValuesAppend | google_api_python_wrapper/core.py:2597 | appending an entry appends its value |
| OrderedMaps.HasKeyIn | google_api_python_wrapper/core.py:2591 | a key is present iff it is among the keys |
| OrderedMaps.PutWellFormed | google_api_python_wrapper/core.py:2567 | assignment keeps the keys distinct |
| OrderedMaps.SetDefaultWellFormed | google_api_python_wrapper/core.py:2584 | `setdefault` keeps the keys distinct |
| OrderedMaps.GetPut | google_api_python_wrapper/core.py:2567 | reading back gives the assigned value for that key and the old value for any other (also line 2627) |
| OrderedMaps.FromKeys | google_api_python_wrapper/core.py:2608 | `{c: v for c in cs}` never repeats a key |
| OrderedMaps.FromKeysHas | google_api_python_wrapper/core.py:2608 | a key is present in `{c: v for c in cs}` iff it is one of `cs` |
| OrderedMaps.FromKeysDistinct | google_api_python_wrapper/core.py:2608 | with distinct columns, the record's keys are the columns in order |
| StableSort.Insert | google_api_python_wrapper/core.py:2632 | inserting adds exactly one element |
| StableSort.SortBy | google_api_python_wrapper/core.py:2632 | sorting keeps the length |
| StableSort.FilterAppend | google_api_python_wrapper/core.py:2632 | selecting one key distributes over concatenation |
| StableSort.FilterNone | google_api_python_wrapper/core.py:2632 | nothing is selected when no element has the key |
| StableSort.InsertLowerBound | google_api_python_wrapper/core.py:2632 | a common lower bound stays a lower bound after inserting |
| StableSort.InsertSorted | google_api_python_wrapper/core.py:2632 | inserting into a sorted sequence keeps it sorted |
| StableSort.InsertPermutes | google_api_python_wrapper/core.py:2632 | inserting adds exactly the element, counted with repetition |
| StableSort.InsertFilter | google_api_python_wrapper/core.py:2632 | the inserted element comes after every element with the same key |
| StableSort.SortBySorted | google_api_python_wrapper/core.py:2632 | the sorted records are ordered by key |
| StableSort.SortByPermutes | google_api_python_wrapper/core.py:2632 | sorting permutes the records |
| StableSort.SortByStable | google_api_python_wrapper/core.py:2632 | records with equal keys keep their relative order |
| FormResponses.BuildQuestionMap | google_api_python_wrapper/core.py:2559-2567 | the loop over the form items builds the question map |
| FormResponses.QuestionMapKeys | google_api_python_wrapper/core.py:2559-2567 | the question map has distinct ids, exactly the ids of the question items |
| FormResponses.QuestionMapTitle | google_api_python_wrapper/core.py:2566-2567 | an id's title is the stripped title of the last item with that id, or the id when the title is missing or empty |
| FormResponses.ExpandWithAnswers | google_api_python_wrapper/core.py:2582-2584 | the nested loop applies `setdefault(qid, qid)` to every answered id in response order |
| FormResponses.ExpandStep | google_api_python_wrapper/core.py:2582-2584 | one pass of the outer loop applies `setdefault` to one more response's answered ids |
| FormResponses.ExpandSnoc | google_api_python_wrapper/core.py:2584 | one more id is one more `setdefault` |
| FormResponses.ExpandSpec | google_api_python_wrapper/core.py:2581-2584 | the question map stays a prefix (form order first); the keys are exactly the questions and answered ids; new ids map to themselves; keys stay distinct |
| FormResponses.SuffixedInjective | google_api_python_wrapper/core.py:2594-2596 | distinct suffixes give distinct keys |
| FormResponses.FreeSuffixUnique | google_api_python_wrapper/core.py:2593-2596 | the smallest free suffix is unique |
| FormResponses.ResolvedDistinct | google_api_python_wrapper/core.py:2586-2598 | keys resolved by the rule never repeat |
| FormResponses.SuffixSetMembers | google_api_python_wrapper/core.py:2594 | a suffixed key in the set of tried suffixes has a smaller suffix |
| FormResponses.SuffixSetSize | google_api_python_wrapper/core.py:2594-2595 | the suffixes tried so far give that many distinct keys |
| FormResponses.SubsetSize | google_api_python_wrapper/core.py:2594-2595 | a subset is no larger, which bounds the suffix search by the keys seen |
| FormResponses.FirstFreeSuffix | google_api_python_wrapper/core.py:2593-2596 | the loop finds the smallest `i >= 2` whose ` (i)` key is not yet seen |
| FormResponses.ResolvedAtExtend | google_api_python_wrapper/core.py:2597-2598 | resolving one more key keeps the earlier keys resolved |
| FormResponses.NotYetResolved | google_api_python_wrapper/core.py:2589 | each question id is resolved only once |
| FormResponses.ResolveOne | google_api_python_wrapper/core.py:2590-2596 | with ids the key is the id; otherwise the key is resolved by the rule against the keys seen so far |
| FormResponses.KeyStep | google_api_python_wrapper/core.py:2589-2598 | one pass of the loop resolves the next question id and keeps the seen set equal to the keys so far |
| FormResponses.ResolveKeys | google_api_python_wrapper/core.py:2586-2598 | one key per question id in map order; with ids the key is the id; otherwise the title, or the smallest free ` (i)` suffix, i >= 2, for a title already seen; the keys are pairwise distinct |
| FormResponses.Columns | google_api_python_wrapper/core.py:2600-2603 | the three metadata names, then the resolved keys in question-map order |
| FormResponses.UploadValues | google_api_python_wrapper/core.py:2623-2624 | one `fileId or fileName` value per upload, in order |
| FormResponses.TextValues | google_api_python_wrapper/core.py:2619-2620 | one value per text answer, in order |
| FormResponses.JoinValues | google_api_python_wrapper/core.py:2627 | `", ".join` raises iff some value is missing |
| FormResponses.Collapse | google_api_python_wrapper/core.py:2626-2627 | nothing stored iff no values; a raise iff joining two or more values with one missing; the list as lists; a single value alone; otherwise the joined string |
| FormResponses.JoinLength | google_api_python_wrapper/core.py:2627 | a join of n values has at least the n-1 separators |
| FormResponses.ApplyAnswersNext | google_api_python_wrapper/core.py:2614-2627 | one more answer is one more step of the fold |
| FormResponses.BuildRecord | google_api_python_wrapper/core.py:2608-2627 | the loop over one response's answers yields the record specified, or the join's exception; what each cell then holds is stated by `ApplyAnswersCell` and `ApplyAnswersOther` |
| FormResponses.RaisedStays | google_api_python_wrapper/core.py:2627-2641 | once a join raises, later answers do not matter |
| FormResponses.AllOk | google_api_python_wrapper/core.py:2607-2641 | the records of all responses iff none raised, each in its place |
| FormResponses.AllOkRaised | google_api_python_wrapper/core.py:2640-2641 | one raising response ends the whole call |
| FormResponses.AllOkValues | google_api_python_wrapper/core.py:2629 | responses that all succeed give their records in order |
| FormResponses.AllOkSnoc | google_api_python_wrapper/core.py:2629 | one more successful record extends the collected records by that record |
| FormResponses.BuildRecords | google_api_python_wrapper/core.py:2606-2629 | the loop over the responses yields every response's record in order, or the exception |
| FormResponses.CollectRecords | google_api_python_wrapper/core.py:2606-2629 | either every response's record, in order, or the first point where a response's join raises |
| FormResponses.Records | google_api_python_wrapper/core.py:2606-2629 | the records iff no response raised, each response's record in its place |
| FormResponses.ApplyAnswersKeys | google_api_python_wrapper/core.py:2614-2627 | answers only write keys the record already has |
| FormResponses.ApplyAnswersOther | google_api_python_wrapper/core.py:2614-2627 | a cell is left alone when no answer that stores a value resolves to its key |
| FormResponses.ApplyAnswersCell | google_api_python_wrapper/core.py:2614-2627 | the cell under an answered question's resolved key holds that answer's collapsed values, when no later answer storing a value resolves to the same key |
| FormResponses.KeyForResolved | google_api_python_wrapper/core.py:2615 | a resolved id's key is one of the resolved keys |
| FormResponses.BaseRecordFacts | google_api_python_wrapper/core.py:2608-2611 | before the answers a record has exactly the columns and holds the three metadata fields |
| FormResponses.BaseRecordIs | google_api_python_wrapper/core.py:2608-2611 | the record before the answers is the columns set to `None`, then the three metadata assignments in order |
| FormResponses.BaseRecordKeys | google_api_python_wrapper/core.py:2608-2611 | before the answers a record has exactly the columns |
| FormResponses.RecordColumns | google_api_python_wrapper/core.py:2605-2629 | when every answered id is resolved, a record has exactly the columns |
| FormResponses.RecordMeta | google_api_python_wrapper/core.py:2609-2627 | a metadata cell keeps the response's own field unless a resolved key shares its name |
| FormResponses.RecordsHaveColumns | google_api_python_wrapper/core.py:2582-2629 | every record of the call has exactly the columns |
| FormResponses.SortedRecords | google_api_python_wrapper/core.py:2632 | the sorted records are ordered by creation time, are the same records, keep the order of equal times, and keep their columns |
| FormResponses.AnsweredIdsContain | google_api_python_wrapper/core.py:2582-2584 | every answered id of every response is collected |
| FormResponses.GetFormResponses | google_api_python_wrapper/core.py:2557-2632 | keys resolved for exactly the questions and answered ids; columns are metadata then the distinct keys; the result is the stable, permuting sort by creation time of exactly the responses' records, or the join's exception |
| DriveCopy.Listing | google_api_python_wrapper/core.py:894-895 | the matching items below the bound, each once, in ascending id order, and all of them (also lines 911-913, 943-945) |
| DriveCopy.Decide | google_api_python_wrapper/core.py:947-958 | copy when nothing has the name; skip exactly when the source is not newer than the first same-named item; otherwise replace exactly that first item |
| DriveCopy.Queued | google_api_python_wrapper/core.py:924-971 | at most one queued copy per listed item |
| DriveCopy.Batch | google_api_python_wrapper/core.py:915-922 | one entry per queued copy; one call each; the next id advances by the number of copies logged (also lines 961-972) |
| DriveCopy.BatchEntries | google_api_python_wrapper/core.py:961-971 | each queued copy is logged in queue order as copied into the folder under its name, or as failed |
| DriveCopy.BatchStore | google_api_python_wrapper/core.py:961-971 | the batch keeps every item and adds items only in the folder, under fresh ids |
| DriveCopy.BatchCopied | google_api_python_wrapper/core.py:961-971 | with every queued id present, a copy is logged exactly when its call does not raise |
| DriveCopy.CopiedCount | google_api_python_wrapper/core.py:966-967 | the copies counted are at most the entries |
| DriveCopy.StringOrderDecisions | google_api_python_wrapper/core.py:954-958 | under the string order an equal timestamp skips and a strictly later source replaces |
| DriveCopy.DecisionsAgree | google_api_python_wrapper/core.py:749-751 | the single-file and recursive copies decide alike whenever parsed and string order agree (also line 954) |
| DriveCopy.MixedOffsetsCompareAsStrings | google_api_python_wrapper/core.py:954 | with different UTC offsets the string order calls the earlier instant later |
| DriveCopy.LexLeCommonPrefix | google_api_python_wrapper/core.py:954 | comparison skips a common prefix |
| DriveCopy.LogShape | google_api_python_wrapper/core.py:879-977 | a level's log starts with the folder entry and ends with an error exactly when the level failed |
| DriveCopy.Drive.constructor | google_api_python_wrapper/core.py:818 | the store is as given and no call has been made |
| DriveCopy.Drive.GetItem | google_api_python_wrapper/core.py:885 | consumes one call; the item unless the call raises or the id is unknown (also lines 948-950) |
| DriveCopy.Drive.List | google_api_python_wrapper/core.py:894 | consumes one call; the matching items with their current state, in listing order, unless the call raises (also lines 912, 943-945) |
| DriveCopy.Drive.CreateFolder | google_api_python_wrapper/core.py:901-907 | consumes one call; adds exactly one folder under a fresh id, or nothing when it raises |
| DriveCopy.Drive.Delete | google_api_python_wrapper/core.py:958 | consumes one call; removes exactly that item, or nothing when it raises |
| DriveCopy.Drive.Copy | google_api_python_wrapper/core.py:961-971 | consumes one call; adds exactly one copy with the given name and parent under a fresh id, or nothing |
| DriveCopy.Drive.EnsureFolder | google_api_python_wrapper/core.py:888-908 | reuses the first listed same-named folder without changing the store, or creates exactly one when none exists |
| DriveCopy.Drive.HandleFile | google_api_python_wrapper/core.py:938-959 | the decision is the conflict rule on the first same-named item; only a replace deletes, and only that item; the next id is unchanged and the calls made are one per listing, source lookup and delete |
| DriveCopy.Drive.ProcessItem | google_api_python_wrapper/core.py:924-971 | a folder recurses and its whole log is nested, whatever its status; a file is queued iff not skipped, the store after it is `After` the store before it (only the replaced item is deleted, next id unchanged), and the log says skip or overwrite; when a call raises the items and next id are unchanged |
| DriveCopy.Drive.ProcessChildren | google_api_python_wrapper/core.py:924-971 | the loop over the listed items reports no error entry; it handles every item unless a call raises; the stores as each item was reached form a `Chain` from the store before the loop to the one it leaves, each file moving the store to `After` it; the queue is exactly the handled files whose decision, taken on its store, is not skip, in listing order |
| DriveCopy.Drive.ChildStep | google_api_python_wrapper/core.py:924-971 | one listed item: its decision is taken on the store it is reached with, the store it leaves extends the chain, and the queue grows by the item exactly when it is a file not skipped; when a call raises the items and next id are as it found them |
| DriveCopy.ChainSnoc | google_api_python_wrapper/core.py:924-971 | one more handled item extends the chain of stores: a file's decision is taken on the last store and leaves `After` it |
| DriveCopy.Drive.RunBatch | google_api_python_wrapper/core.py:915-922 | the log and the store after the batch are those `Batch` gives for the store before it (also lines 961-972) |
| DriveCopy.Drive.CopyContents | google_api_python_wrapper/core.py:910-973 | the item and batch entries never report an error; the chain of stores starts from the store before the copy (after its listing call) and, on success, the batch starts from its last store; the listing of the source folder is handled as `ProcessChildren` states and the log ends with the entries of `Batch` on the queue, which gives the final store; after a raised call no batch ran and the items are those the loop left |
| DriveCopy.Drive.CopyFolder | google_api_python_wrapper/core.py:818-991 | never skipped; failure iff the log ends with the error entry, which appears nowhere else; a failed level ran no batch; the log starts with the target folder |
| DriveCopy.Drive.Target | google_api_python_wrapper/core.py:884-908 | the folder name is the given one, else the source's; on success the entry names it and the id is the first listed same-named folder, store unchanged, or a new folder with that name in the parent; on failure the store is unchanged |
| DriveCopy.Drive.FolderName | google_api_python_wrapper/core.py:884-886 | the folder name is the given one when truthy, else the source folder's; it fails only when the name had to be read and the call raised or the folder is missing |
| DriveCopy.Drive.CopyFile | google_api_python_wrapper/core.py:729-816 | the name checked is the new name or the source's; skipped iff the conflict rule says skip, and then nothing changes and the source id is reported; otherwise only the first same-named item is gone and the copy is queued (batch, source id reported) or made under a fresh id |

## Notes

Two properties are proved in the negative. Headings do not survive the markdown round trip (`MarkdownRoundTrip.HeadingOneReadsBackBold`), because writing sets only bold and a font size, not a named heading style. Sanitising a file name is not idempotent (`Downloads.SafeFilenameNotIdempotent`).

## Left out

- I/O: token files are not written, and the clients are not really built. Files, environment variables, Colab and the browser are inputs.
- The network: every Drive, Docs, Forms and Calendar call is an input or a numbered call whose failure is an input. Responses other than those modelled are not interpreted.
- Concurrency, rate limits and retries are not modelled.
- Sending email, uploading, creating documents and forms, Sheets, tasks and calendar events are not part of this model. Neither are the rest of `core.py`'s operations and their message strings.
- Result dictionaries and message strings: outcomes are datatypes (`Status`, `Outcome`, log `Entry` values), not formatted text.
- `mimetypes.guess_extension` is a parameter.
- `pathlib` is modelled on POSIX paths only.
- The link style's fixed blue colour and underline are carried as one `LinkStyle` value.
- Parsed datetimes (`isoparse`) are an order `le` passed as a parameter to `CopyFile`.
- Drive listing order is ascending id; the server's order is not modelled.
- Each item has a single parent.
- Deleting a folder does not remove its contents; they become unreachable.
- Copies take the modification time `now`.
- A failure of the batch call itself is not modelled, only per-copy failures.
- The question map assumes every question carries a `questionId`. In the source, a question without one that has a title is stored under the key `None` (core.py:2565-2567); it gives a column that no answer fills, and a later such question overwrites it. When its title is also missing or empty, `.strip()` on `None` raises and the `except Exception` at core.py:2640-2641 returns `error`. Neither case is modelled.
- Forms remote errors (the form definition, the response pages) are not modelled; the only exception modelled is the join's `TypeError`.
- DriveQuery.DrainPages: requires that some page ends the listing; a server that never stops sending tokens makes the source loop forever.
- FormResponses.GetFormResponses: requires the same of the response pages.
- DriveCopy.Drive.CopyFolder: carries a `fuel` bound on recursion depth. When the bound runs out, that level fails with `DepthLimit` and logs an error entry. In the source, Python's recursion limit raises `RecursionError`, which the `except Exception` at core.py:975-977 turns into status `error` for that level. This matches the model's outcome, but the fuel is a parameter and not the interpreter's actual limit. Copying a folder into its own subtree therefore ends on both sides with an error at the deepest level.
- DriveCopy.Drive.CopyFolder: does not state the final store. `CopyContents` states the store after every file item through `Chain` and `After`, but after a sub-folder item the store is whatever the nested copy left.
- DriveCopy.Listing: returns every item that matches, in one answer. The source reads only the first page of each `files().list` (core.py:894, 912, 943-945) and never follows `nextPageToken`, so with a large folder it misses items. The model also compares names exactly, as an escaped query would. The source puts the name into the query unescaped (core.py:889-893, 939-942), which breaks on quotes; see Findings.
- DriveCopy.Drive.List: the same as `DriveCopy.Listing`: it returns every match in one answer, where the source reads only the first page, and it compares names exactly.
- DriveCopy.Drive.ProcessChildren: does not restate the log entries of a sub-folder copy, nor the store the nested copy leaves. The nested copy is described by `CopyFolder`'s own contract.
- DriveCopy.Drive.CopyContents: the same for the sub-folder entries inside its log and the store after a sub-folder item.
- MarkdownWriter.StripPairs: its own contract gives only that the result is no longer than the line. Which pairs are removed is stated by `StripPairsSegments`, `StripPairsWrapped` and `StripPairsUnclosed`.
- MarkdownWriter.ParseLine: Python's `.` in the link and emphasis patterns does not match a newline, but the model's groups match any character. The two agree on every line the writer sees, because `parse_markdown` splits the text at newlines first.
- Downloads.ReplaceRuns: the run rule is stated for a name given as alternating runs of forbidden characters and allowed text (`ReplaceRunsSpec`), not for an arbitrary name decomposed into such runs.
- MarkdownRoundTrip.AppliedParagraph: models the Docs service in an ideal form. A line's requests apply to an empty document, and the text keeps exactly the style the requests set. The document's existing content, its final empty paragraph and style inherited from neighbouring text are not modelled.
- MarkdownRoundTrip.DocumentRoundTrip: rests on the same idealised `AppliedParagraph`.
- `parse_markdown` called with `text=None` (core.py:993-996) raises `AttributeError` on `None.split`. This case is not modelled; the text is always a string.
- FormResponses.SortKey: a `createTime` cell that holds a list is treated as the empty key. Python would raise when comparing a list with a string.

## Findings

| source | as written | input that shows it | evidently intended | confidence | as-written member | corrected member |
|---|---|---|---|---|---|---|
| google_api_python_wrapper/core.py:736-739 | the copy queries put the file or folder name into `name='<name>'` without escaping (also 889-893, 939-942) | a file named `a'b` | the name escaped as the folder explorer's `_escape_term` does, so the query compares against the whole name | not executed | DriveQuery.NameClauseAsWrittenBreaks | DriveQuery.NameClauseReadsName |
