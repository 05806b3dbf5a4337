/**
 * The local file name chosen by `download_file_from_gdrive`: sanitising the
 * base name (`_safe_filename`), `pathlib`'s stem and suffix, and the choice
 * between exporting a Google file and downloading a binary one.
 * `mimetypes.guess_extension` is a parameter.
 */
module Downloads {
  import opened Strings
  import opened Options

  const GoogleAppsPrefix: string := "application/vnd.google-apps."
  const Fallback: string := "download"

  /** The characters of the class `[\\/:*?"<>|]`. */
  predicate Forbidden(c: char)
  {
    c == '\\' || c == '/' || c == ':' || c == '*' || c == '?' || c == '"' || c == '<' || c == '>' || c == '|'
  }

  function IsDot(c: char): bool { c == '.' }

  /** `re.sub(r'[\\/:*?"<>|]+', "_", s)`: every maximal run of forbidden
      characters becomes one underscore; `inRun` says the previous character
      was forbidden. */
  function ReplaceRuns(s: string, inRun: bool): (r: string)
    ensures forall i :: 0 <= i < |r| ==> !Forbidden(r[i])
    ensures |r| <= |s|
  {
    if s == [] then []
    else if Forbidden(s[0]) then (if inRun then "" else "_") + ReplaceRuns(s[1..], true)
    else [s[0]] + ReplaceRuns(s[1..], false)
  }

  predicate NoForbidden(s: string)
  {
    forall i :: 0 <= i < |s| ==> !Forbidden(s[i])
  }

  /** Every character of `f` is forbidden. */
  predicate AllForbidden(f: string)
  {
    forall i :: 0 <= i < |f| ==> Forbidden(f[i])
  }

  /** Allowed text is copied as it is, and ends any run. */
  lemma {:induction false} ReplaceRunsPlain(x: string, t: string, inRun: bool)
    requires NoForbidden(x) && (x != [] || !inRun)
    ensures ReplaceRuns(x + t, inRun) == x + ReplaceRuns(t, false)
    decreases |x|
  {
    if x != [] {
      var s := x + t;
      assert s[0] == x[0] && s[1..] == x[1..] + t;
      if x[1..] != [] {
        ReplaceRunsPlain(x[1..], t, false);
      } else {
        assert x[1..] + t == t;
      }
      assert [x[0]] + (x[1..] + ReplaceRuns(t, false)) == x + ReplaceRuns(t, false);
    } else {
      assert x + t == t;
    }
  }

  /** A run of forbidden characters gives one underscore, or nothing when a
      run is already under way. */
  lemma {:induction false} ReplaceRunsRun(f: string, t: string, inRun: bool)
    requires f != [] && AllForbidden(f)
    ensures ReplaceRuns(f + t, inRun) == (if inRun then "" else "_") + ReplaceRuns(t, true)
    decreases |f|
  {
    var s := f + t;
    assert s[0] == f[0] && s[1..] == f[1..] + t;
    if f[1..] != [] {
      ReplaceRunsRun(f[1..], t, true);
    } else {
      assert f[1..] + t == t;
    }
  }

  /** Text cut into pieces: a run of forbidden characters followed by allowed text. */
  function Runs(segs: seq<(string, string)>): string
  {
    if segs == [] then [] else segs[0].0 + (segs[0].1 + Runs(segs[1..]))
  }

  /** The same pieces with each run replaced by one underscore. */
  function Replaced(segs: seq<(string, string)>): string
  {
    if segs == [] then [] else "_" + (segs[0].1 + Replaced(segs[1..]))
  }

  /** Each maximal run of forbidden characters becomes one underscore and every
      other character is kept, in order: for a name cut into allowed text `x`
      and then runs each followed by allowed text (non-empty except perhaps the
      last, so that the runs are maximal). */
  lemma ReplaceRunsSpec(x: string, segs: seq<(string, string)>)
    requires NoForbidden(x)
    requires forall i :: 0 <= i < |segs| ==> segs[i].0 != [] && AllForbidden(segs[i].0) && NoForbidden(segs[i].1)
    requires forall i :: 0 <= i < |segs| - 1 ==> segs[i].1 != []
    ensures ReplaceRuns(x + Runs(segs), false) == x + Replaced(segs)
  {
    ReplaceRunsPlain(x, Runs(segs), false);
    ReplaceRunsSegments(segs);
  }

  lemma {:induction false} ReplaceRunsSegments(segs: seq<(string, string)>)
    requires forall i :: 0 <= i < |segs| ==> segs[i].0 != [] && AllForbidden(segs[i].0) && NoForbidden(segs[i].1)
    requires forall i :: 0 <= i < |segs| - 1 ==> segs[i].1 != []
    ensures ReplaceRuns(Runs(segs), false) == Replaced(segs)
    decreases |segs|
  {
    if segs != [] {
      var f, y, rest := segs[0].0, segs[0].1, segs[1..];
      ReplaceRunsRun(f, y + Runs(rest), false);
      if y != [] {
        ReplaceRunsPlain(y, Runs(rest), true);
        ReplaceRunsSegments(rest);
      } else {
        assert rest == [];
        assert y + Runs(rest) == [];
        assert Replaced(segs) == "_" + (y + Replaced(rest));
      }
    }
  }

  lemma TrimNoForbidden(s: string, cs: char -> bool)
    requires NoForbidden(s)
    ensures NoForbidden(Trim(s, cs))
  {
    var l := TrimLeft(s, cs);
    assert l == s[|s| - |l|..];
    forall i | 0 <= i < |l| ensures !Forbidden(l[i]) {
      assert l[i] == s[|s| - |l| + i];
    }
    var r := TrimRight(l, cs);
    assert r == l[..|r|];
  }

  /** `_safe_filename`.  The result is never empty, holds no forbidden
      character and neither starts nor ends with a dot. */
  function SafeFilename(s: string): (r: string)
    ensures r != "" && NoForbidden(r)
    ensures r[0] != '.' && r[|r| - 1] != '.'
  {
    var a := ReplaceRuns(s, false);
    var b := Trim(a, IsSpace);
    var t := Trim(b, IsDot);
    TrimNoForbidden(a, IsSpace);
    TrimNoForbidden(b, IsDot);
    FallbackSafe();
    if t == "" then Fallback else t
  }

  lemma FallbackSafe()
    ensures NoForbidden(Fallback) && Fallback[0] != '.' && Fallback[|Fallback| - 1] != '.'
  {
    forall i | 0 <= i < |Fallback| ensures !Forbidden(Fallback[i]) {
      assert Fallback[i] in "download";
    }
  }

  /** A name that is already safe is kept as it is. */
  lemma SafeFilenameKeepsSafe(s: string)
    requires s != ""
    requires forall i :: 0 <= i < |s| ==> !Forbidden(s[i])
    requires !IsSpace(s[0]) && !IsSpace(s[|s| - 1]) && s[0] != '.' && s[|s| - 1] != '.'
    ensures SafeFilename(s) == s
  {
    ReplaceRunsNone(s, false);
    TrimUnchanged(s, IsSpace);
    TrimUnchanged(s, IsDot);
  }

  lemma {:induction false} ReplaceRunsNone(s: string, inRun: bool)
    requires forall i :: 0 <= i < |s| ==> !Forbidden(s[i])
    ensures ReplaceRuns(s, inRun) == s
  {
    if s != [] {
      ReplaceRunsNone(s[1..], false);
      assert [s[0]] + s[1..] == s;
    }
  }

  /** Sanitising twice can differ from sanitising once: dots stripped after
      the whitespace expose a space, which only a second pass strips. */
  lemma SafeFilenameNotIdempotent()
    ensures SafeFilename(". a") == " a"
    ensures SafeFilename(SafeFilename(". a")) == "a"
  {
    SafeFilenameDotSpace();
    ReplaceRunsNone(" a", false);
    assert " a"[1..] == "a";
    assert TrimLeft(" a", IsSpace) == "a";
    assert TrimRight("a", IsSpace) == "a";
    assert TrimLeft("a", IsDot) == "a";
    assert TrimRight("a", IsDot) == "a";
  }

  /** The first pass on `. a` strips only the leading dot. */
  lemma SafeFilenameDotSpace()
    ensures SafeFilename(". a") == " a"
  {
    assert !IsSpace('.') && IsSpace(' ') && !IsSpace('a');
    ReplaceRunsNone(". a", false);
    assert TrimLeft(". a", IsSpace) == ". a";
    assert TrimRight(". a", IsSpace) == ". a";
    assert ". a"[1..] == " a";
    assert TrimLeft(". a", IsDot) == " a";
    assert TrimRight(" a", IsDot) == " a";
  }

  // ---------------------------------------------------------------------
  // `pathlib.PurePosixPath` name, stem and suffix

  /** Pieces that name no component: the empty one (from repeated or edge
      slashes) and `.`. */
  predicate Meaningless(piece: string)
  {
    piece == "" || piece == "."
  }

  /** `n` is the last piece that names a component, or empty when none does. */
  ghost predicate LastMeaningful(parts: seq<string>, n: string)
  {
    && (n != "" ==>
          !Meaningless(n) && exists i :: 0 <= i < |parts| && parts[i] == n && forall j :: i < j < |parts| ==> Meaningless(parts[j]))
    && (n == "" ==> forall j :: 0 <= j < |parts| ==> Meaningless(parts[j]))
  }

  /** The final component: the last non-empty piece between slashes other than `.`. */
  function PathName(p: string): (n: string)
    ensures '/' !in n
    ensures LastMeaningful(Split(p, '/'), n)
  {
    SplitPiecesFree(p, '/');
    LastComponent(Split(p, '/'))
  }

  function LastComponent(parts: seq<string>): (n: string)
    requires forall i :: 0 <= i < |parts| ==> '/' !in parts[i]
    ensures '/' !in n
    ensures LastMeaningful(parts, n)
  {
    if parts == [] then ""
    else
      var last := parts[|parts| - 1];
      if !Meaningless(last) then last else LastComponent(parts[..|parts| - 1])
  }

  /** The position of the last dot of `n`, if any. */
  function LastDot(n: string): (r: Option<nat>)
    ensures r.Some? ==> r.value < |n| && n[r.value] == '.' && forall j :: r.value < j < |n| ==> n[j] != '.'
    ensures r.None? ==> '.' !in n
  {
    if n == [] then None
    else if n[|n| - 1] == '.' then Some(|n| - 1)
    else LastDot(n[..|n| - 1])
  }

  /** The dot that starts a suffix: the last one, neither first nor last. */
  function SuffixDot(n: string): (r: Option<nat>)
    ensures r.Some? ==> 0 < r.value < |n| - 1 && n[r.value] == '.' && forall j :: r.value < j < |n| ==> n[j] != '.'
    ensures r.None? ==> forall i :: 0 < i < |n| - 1 && n[i] == '.' ==> exists j :: i < j < |n| && n[j] == '.'
  {
    var d := LastDot(n);
    if d.Some? && 0 < d.value < |n| - 1 then d else None
  }

  function Suffix(p: string): (s: string)
    ensures s != "" ==> |s| >= 2 && s[0] == '.'
  {
    var n := PathName(p);
    match SuffixDot(n)
    case Some(i) => n[i..]
    case None => ""
  }

  function Stem(p: string): (st: string)
    ensures |st| <= |PathName(p)| && st == PathName(p)[..|st|]
  {
    var n := PathName(p);
    match SuffixDot(n)
    case Some(i) => n[..i]
    case None => n
  }

  /** The stem and suffix together give the final component back; a suffix
      starts with a dot, has more after it, and holds no other dot. */
  lemma StemSuffix(p: string)
    ensures Stem(p) + Suffix(p) == PathName(p)
    ensures Suffix(p) != "" ==>
      (|Suffix(p)| >= 2 && Suffix(p)[0] == '.' && '.' !in Suffix(p)[1..] && Stem(p) != "")
  {
    var n := PathName(p);
    var d := SuffixDot(n);
    if d.Some? {
      assert n[..d.value] + n[d.value..] == n;
      forall k | 0 <= k < |n[d.value..][1..]| ensures n[d.value..][1..][k] != '.' {
        assert n[d.value..][1..][k] == n[d.value + 1 + k];
      }
    }
  }

  // ---------------------------------------------------------------------
  // Export or download

  /** `DEFAULT_EXPORTS`: Google file type to export type and extension. */
  const DefaultExports: map<string, (string, string)> := map[
    "application/vnd.google-apps.document" := ("application/pdf", ".pdf"),
    "application/vnd.google-apps.spreadsheet" := ("application/vnd.openxmlformats-officedocument.spreadsheetml.sheet", ".xlsx"),
    "application/vnd.google-apps.presentation" := ("application/pdf", ".pdf"),
    "application/vnd.google-apps.drawing" := ("image/png", ".png"),
    "application/vnd.google-apps.script" := ("application/vnd.google-apps.script+json", ".json"),
    "application/vnd.google-apps.jam" := ("application/pdf", ".pdf")
  ]

  datatype DownloadKind = Export(exportMime: string, ext: string) | Media(mime: string, ext: string)

  /** `a or b` on optional strings: the first unless it is absent or empty. */
  function Or(a: Option<string>, b: string): string
  {
    if a.Some? && a.value != "" then a.value else b
  }

  /** The download plan for a file: its kind and the local file name. */
  datatype Plan = Plan(kind: DownloadKind, filename: string)

  /** The Drive name first, then the caller's name, then the id. */
  function RealName(fileId: string, metaName: Option<string>, name: Option<string>): (r: string)
    ensures metaName.Some? && metaName.value != "" ==> r == metaName.value
    ensures (metaName.None? || metaName.value == "") && name.Some? && name.value != "" ==> r == name.value
    ensures (metaName.None? || metaName.value == "") && (name.None? || name.value == "") ==> r == fileId
  {
    Or(metaName, Or(name, fileId))
  }

  /** The Drive type first, then the caller's hint, then `application/octet-stream`;
      never empty. */
  function RealMime(metaMime: Option<string>, mimeType: Option<string>): (r: string)
    ensures r != ""
    ensures metaMime.Some? && metaMime.value != "" ==> r == metaMime.value
    ensures (metaMime.None? || metaMime.value == "") && mimeType.Some? && mimeType.value != "" ==> r == mimeType.value
  {
    Or(metaMime, Or(mimeType, "application/octet-stream"))
  }

  predicate IsGoogleFile(mime: string)
  {
    |GoogleAppsPrefix| <= |mime| && mime[..|GoogleAppsPrefix|] == GoogleAppsPrefix
  }

  /** Step 2: export a Google file, download anything else. */
  function ChooseKind(realMime: string, exportMime: Option<string>, guess: string -> Option<string>): (k: DownloadKind)
    ensures k.Export? <==> IsGoogleFile(realMime)
    ensures k.Export? && exportMime.Some? && exportMime.value != "" ==> k.exportMime == exportMime.value
    ensures k.Export? && (exportMime.None? || exportMime.value == "") ==>
      k == (if realMime in DefaultExports then Export(DefaultExports[realMime].0, DefaultExports[realMime].1)
            else Export("application/pdf", ".pdf"))
    ensures k.Export? && exportMime.Some? && exportMime.value != "" ==> k.ext == Or(guess(exportMime.value), "")
    ensures k.Media? ==> k.mime == realMime && k.ext == Or(guess(realMime), "")
  {
    if IsGoogleFile(realMime) then
      if exportMime.Some? && exportMime.value != "" then Export(exportMime.value, Or(guess(exportMime.value), ""))
      else if realMime in DefaultExports then Export(DefaultExports[realMime].0, DefaultExports[realMime].1)
      else Export("application/pdf", ".pdf")
    else Media(realMime, Or(guess(realMime), ""))
  }

  /** Step 3: the sanitised stem of the caller's name, else of the Drive name. */
  function BaseName(realName: string, name: Option<string>): (b: string)
    ensures b != "" && NoForbidden(b) && b[0] != '.' && b[|b| - 1] != '.'
  {
    SafeFilename(Stem(if name.Some? && name.value != "" then name.value else realName))
  }

  /** Step 3: the file's own suffix for a binary download that has one,
      otherwise the extension of the download kind. */
  function FileName(realName: string, realMime: string, name: Option<string>, kind: DownloadKind): (f: string)
    ensures |BaseName(realName, name)| <= |f| && f[..|BaseName(realName, name)|] == BaseName(realName, name)
    ensures !IsGoogleFile(realMime) && Suffix(realName) != "" ==> f == BaseName(realName, name) + Suffix(realName)
    ensures (IsGoogleFile(realMime) || Suffix(realName) == "") ==> f == BaseName(realName, name) + kind.ext
  {
    var base := BaseName(realName, name);
    var suffix := if !IsGoogleFile(realMime) && Suffix(realName) != "" then Suffix(realName) else kind.ext;
    assert (base + suffix)[..|base|] == base;
    base + suffix
  }

  /** Steps 1 to 3 of `download_file_from_gdrive`.  `metaName` and
      `metaMime` are what Drive reports; `name`, `mimeType` and
      `exportMime` are the caller's arguments. */
  function PlanDownload(fileId: string, metaName: Option<string>, metaMime: Option<string>,
                        name: Option<string>, mimeType: Option<string>, exportMime: Option<string>,
                        guess: string -> Option<string>): (pl: Plan)
    ensures pl.kind.Export? <==> IsGoogleFile(RealMime(metaMime, mimeType))
    ensures pl.kind.Media? ==> pl.kind.mime == RealMime(metaMime, mimeType)
    ensures var realName := RealName(fileId, metaName, name);
      pl.filename == BaseName(realName, name)
        + (if pl.kind.Media? && Suffix(realName) != "" then Suffix(realName) else pl.kind.ext)
  {
    var realName := RealName(fileId, metaName, name);
    var realMime := RealMime(metaMime, mimeType);
    var kind := ChooseKind(realMime, exportMime, guess);
    Plan(kind, FileName(realName, realMime, name, kind))
  }
}
