/**
 * `get_google_form_responses`: the question map built from the form
 * definition, question ids that only occur in responses, display keys made
 * distinct with ` (i)` suffixes, one record per response with the answer
 * values collapsed, and the records sorted stably by creation time.  The
 * form definition and the pages of responses are inputs.
 */
module FormResponses {
  import opened Options
  import opened Strings
  import opened OrderedMaps
  import opened StableSort
  import DriveQuery

  /** An item of the form definition: a question, with its id and optional
      title, or anything else (a section header, an image, ...). */
  datatype FormItem = Question(title: Option<string>, questionId: string) | NotQuestion

  /** A file upload answer: `fileId or fileName`. */
  datatype Upload = Upload(fileId: Option<string>, fileName: Option<string>)

  /** One answer: the text answers that carry a value, then the uploads. */
  datatype Answer = Answer(texts: seq<string>, uploads: seq<Upload>)

  datatype Response = Response(responseId: Option<string>, respondentEmail: Option<string>,
                               createTime: Option<string>, answers: OMap<string, Answer>)

  /** A JSON value of a record: null, a string, or a list of strings and nulls. */
  datatype Cell = Null | Str(value: string) | Items(values: seq<Option<string>>)

  type Record = OMap<string, Cell>

  /** The whole call: the records, or the exception that ends it. */
  datatype Outcome<T> = Ok(value: T) | Raised

  const MetaColumns: seq<string> := ["responseId", "respondentEmail", "createTime"]

  // ---------------------------------------------------------------------
  // Step 1: question id to title

  /** `(title or questionId).strip()` */
  function QuestionTitle(title: Option<string>, qid: string): string
  {
    Trim(if title.Some? && title.value != "" then title.value else qid, IsSpace)
  }

  /** The question map after the first `n` items: a later item with the same
      id replaces the title but keeps the id's place. */
  function QuestionMap(items: seq<FormItem>): OMap<string, string>
    decreases |items|
  {
    if items == [] then []
    else
      var prev := QuestionMap(items[..|items| - 1]);
      match items[|items| - 1]
      case NotQuestion => prev
      case Question(t, q) => Put(prev, q, QuestionTitle(t, q))
  }

  method BuildQuestionMap(items: seq<FormItem>) returns (qmap: OMap<string, string>)
    ensures qmap == QuestionMap(items)
  {
    qmap := [];
    for i := 0 to |items|
      invariant qmap == QuestionMap(items[..i])
    {
      assert items[..i + 1][..i] == items[..i];
      match items[i] {
        case NotQuestion =>
        case Question(t, q) =>
          qmap := Put(qmap, q, QuestionTitle(t, q));
      }
    }
    assert items[..|items|] == items;
  }

  predicate IsQuestionId(items: seq<FormItem>, q: string)
  {
    exists i :: 0 <= i < |items| && items[i].Question? && items[i].questionId == q
  }

  /** The map has distinct ids, exactly the ids of the question items. */
  lemma {:induction false} QuestionMapKeys(items: seq<FormItem>)
    ensures WellFormed(QuestionMap(items))
    ensures forall q :: HasKey(QuestionMap(items), q) <==> IsQuestionId(items, q)
    decreases |items|
  {
    if items != [] {
      var init := items[..|items| - 1];
      QuestionMapKeys(init);
      var prev := QuestionMap(init);
      forall q ensures IsQuestionId(items, q) <==> IsQuestionId(init, q) || (items[|items| - 1].Question? && items[|items| - 1].questionId == q) {
        if IsQuestionId(init, q) {
          var i :| 0 <= i < |init| && init[i].Question? && init[i].questionId == q;
          assert items[i] == init[i];
        }
        if IsQuestionId(items, q) {
          var i :| 0 <= i < |items| && items[i].Question? && items[i].questionId == q;
          if i < |init| {
            assert items[i] == init[i];
          }
        }
      }
      match items[|items| - 1] {
        case NotQuestion =>
        case Question(t, qid) =>
          PutWellFormed(prev, qid, QuestionTitle(t, qid));
          forall q ensures HasKey(QuestionMap(items), q) <==> HasKey(prev, q) || q == qid {
            HasKeyIn(prev, q);
            HasKeyIn(QuestionMap(items), q);
          }
      }
    }
  }

  /** A question's title comes from the last item carrying its id. */
  lemma {:induction false} QuestionMapTitle(items: seq<FormItem>, i: nat)
    requires i < |items| && items[i].Question?
    requires forall j :: i < j < |items| ==> !(items[j].Question? && items[j].questionId == items[i].questionId)
    ensures Get(QuestionMap(items), items[i].questionId) == Some(QuestionTitle(items[i].title, items[i].questionId))
    decreases |items|
  {
    var init := items[..|items| - 1];
    var q := items[i].questionId;
    if i == |items| - 1 {
      GetPut(QuestionMap(init), q, QuestionTitle(items[i].title, q), q);
    } else {
      QuestionMapTitle(init, i);
      match items[|items| - 1] {
        case NotQuestion =>
        case Question(t, qid) =>
          GetPut(QuestionMap(init), qid, QuestionTitle(t, qid), q);
      }
    }
  }

  // ---------------------------------------------------------------------
  // Ids that occur only in responses

  /** The answered ids of the responses, response by response. */
  function AnsweredIds(rs: seq<Response>): seq<string>
    decreases |rs|
  {
    if rs == [] then [] else AnsweredIds(rs[..|rs| - 1]) + Keys(rs[|rs| - 1].answers)
  }

  /** `qmap.setdefault(qid, qid)` for each id in turn. */
  function Expand(qmap: OMap<string, string>, ids: seq<string>): OMap<string, string>
    decreases |ids|
  {
    if ids == [] then qmap
    else SetDefault(Expand(qmap, ids[..|ids| - 1]), ids[|ids| - 1], ids[|ids| - 1])
  }

  method ExpandWithAnswers(qmap: OMap<string, string>, rs: seq<Response>) returns (expanded: OMap<string, string>)
    ensures expanded == Expand(qmap, AnsweredIds(rs))
  {
    expanded := qmap;
    for i := 0 to |rs|
      invariant expanded == Expand(qmap, AnsweredIds(rs[..i]))
    {
      expanded := ExpandStep(qmap, rs, i, expanded);
    }
    assert rs[..|rs|] == rs;
  }

  /** One response's answered ids, added in turn. */
  method ExpandStep(qmap: OMap<string, string>, rs: seq<Response>, i: nat, current: OMap<string, string>)
    returns (expanded: OMap<string, string>)
    requires i < |rs| && current == Expand(qmap, AnsweredIds(rs[..i]))
    ensures expanded == Expand(qmap, AnsweredIds(rs[..i + 1]))
  {
    expanded := current;
    var done := AnsweredIds(rs[..i]);
    var ids := Keys(rs[i].answers);
    assert rs[..i + 1][..i] == rs[..i];
    assert done + ids[..0] == done;
    for j := 0 to |ids|
      invariant expanded == Expand(qmap, done + ids[..j])
    {
      PrefixSnoc(done, ids, j);
      ExpandSnoc(qmap, done + ids[..j], ids[j]);
      expanded := SetDefault(expanded, ids[j], ids[j]);
    }
    assert ids[..|ids|] == ids;
  }

  lemma PrefixSnoc<T>(a: seq<T>, b: seq<T>, j: nat)
    requires j < |b|
    ensures a + b[..j + 1] == (a + b[..j]) + [b[j]]
  {
    assert b[..j + 1] == b[..j] + [b[j]];
  }

  lemma ExpandSnoc(qmap: OMap<string, string>, ids: seq<string>, id: string)
    ensures Expand(qmap, ids + [id]) == SetDefault(Expand(qmap, ids), id, id)
  {
    assert (ids + [id])[..|ids|] == ids;
  }

  /** Expansion keeps the question map as a prefix (form order first), keeps
      every title, keeps ids distinct, and adds exactly the new ids, each
      mapped to itself. */
  lemma {:induction false} ExpandSpec(qmap: OMap<string, string>, ids: seq<string>)
    requires WellFormed(qmap)
    ensures var e := Expand(qmap, ids);
      && WellFormed(e)
      && |qmap| <= |e| && e[..|qmap|] == qmap
      && (forall q :: HasKey(e, q) <==> HasKey(qmap, q) || q in ids)
      && (forall q :: !HasKey(qmap, q) && q in ids ==> Get(e, q) == Some(q))
    decreases |ids|
  {
    if ids != [] {
      var init := ids[..|ids| - 1];
      var last := ids[|ids| - 1];
      ExpandSpec(qmap, init);
      var prev := Expand(qmap, init);
      SetDefaultWellFormed(prev, last, last);
      var e := Expand(qmap, ids);
      assert ids == init + [last];
      forall q ensures HasKey(e, q) <==> HasKey(prev, q) || q == last {
        if !HasKey(prev, last) {
          HasKeyIn(prev, q);
          HasKeyIn(e, q);
          KeysAppend(prev, (last, last));
        }
      }
      if !HasKey(prev, last) {
        assert e[..|qmap|] == prev[..|qmap|];
        assert e[|prev|] == (last, last);
        forall q | !HasKey(qmap, q) && q in ids ensures Get(e, q) == Some(q) {
          if q == last {
            GetPut(prev, last, last, q);
          } else {
            GetPut(prev, last, last, q);
          }
        }
      }
    }
  }

  // ---------------------------------------------------------------------
  // Step 3: display keys

  function Suffixed(title: string, n: nat): string
  {
    title + " (" + NatToString(n) + ")"
  }

  lemma SuffixedInjective(title: string, a: nat, b: nat)
    requires Suffixed(title, a) == Suffixed(title, b)
    ensures a == b
  {
    var sa := Suffixed(title, a);
    assert sa[|title| + 2..|sa| - 1] == NatToString(a);
    assert Suffixed(title, b)[|title| + 2..|Suffixed(title, b)| - 1] == NatToString(b);
    NatToStringInjective(a, b);
  }

  /** `n` is the smallest suffix, from 2 on, whose key is not yet taken. */
  predicate FreeSuffix(taken: seq<string>, title: string, n: nat)
  {
    && n >= 2
    && Suffixed(title, n) !in taken
    && forall m :: 2 <= m < n ==> Suffixed(title, m) in taken
  }

  lemma FreeSuffixUnique(taken: seq<string>, title: string, a: nat, b: nat)
    requires FreeSuffix(taken, title, a) && FreeSuffix(taken, title, b)
    ensures a == b
  {
  }

  /** The key at position `i`: the title when no earlier key equals it, else
      the title with the smallest free suffix. */
  ghost predicate ResolvedAt(keys: seq<string>, i: nat, title: string)
    requires i < |keys|
  {
    if title !in keys[..i] then keys[i] == title
    else exists n :: FreeSuffix(keys[..i], title, n) && keys[i] == Suffixed(title, n)
  }

  /** Keys resolved this way never repeat. */
  lemma ResolvedDistinct(keys: seq<string>, titles: seq<string>)
    requires |titles| == |keys|
    requires forall i :: 0 <= i < |keys| ==> ResolvedAt(keys, i, titles[i])
    ensures Distinct(keys)
  {
    forall i, j | 0 <= i < j < |keys| ensures keys[i] != keys[j] {
      assert ResolvedAt(keys, j, titles[j]);
      assert keys[i] in keys[..j];
    }
  }

  /** The suffixed keys for 2 <= m < n. */
  function SuffixSet(title: string, n: nat): set<string>
  {
    if n <= 2 then {} else SuffixSet(title, n - 1) + {Suffixed(title, n - 1)}
  }

  lemma {:induction false} SuffixSetMembers(title: string, n: nat, k: nat)
    requires Suffixed(title, k) in SuffixSet(title, n)
    ensures k < n
  {
    if n > 2 && Suffixed(title, k) != Suffixed(title, n - 1) {
      SuffixSetMembers(title, n - 1, k);
    } else if n > 2 {
      SuffixedInjective(title, k, n - 1);
    }
  }

  lemma {:induction false} SuffixSetSize(title: string, n: nat)
    requires n >= 2
    ensures |SuffixSet(title, n)| == n - 2
  {
    if n > 2 {
      SuffixSetSize(title, n - 1);
      if Suffixed(title, n - 1) in SuffixSet(title, n - 1) {
        SuffixSetMembers(title, n - 1, n - 1);
      }
    }
  }

  lemma {:induction false} SubsetSize<X>(a: set<X>, b: set<X>)
    requires a <= b
    ensures |a| <= |b|
    decreases |a|
  {
    if a != {} {
      var x :| x in a;
      SubsetSize(a - {x}, b - {x});
    }
  }

  /** The suffix search: the first `i`, from 2 on, whose suffixed title is
      not in `seen`. */
  method FirstFreeSuffix(seen: set<string>, title: string) returns (n: nat)
    ensures n >= 2 && Suffixed(title, n) !in seen
    ensures forall m :: 2 <= m < n ==> Suffixed(title, m) in seen
  {
    n := 2;
    while Suffixed(title, n) in seen
      invariant n >= 2
      invariant forall m :: 2 <= m < n ==> Suffixed(title, m) in seen
      invariant SuffixSet(title, n) <= seen
      decreases |seen| - |SuffixSet(title, n)|
    {
      SuffixSetSize(title, n + 1);
      SuffixSetSize(title, n);
      SubsetSize(SuffixSet(title, n + 1), seen);
      n := n + 1;
    }
  }

  lemma ResolvedAtExtend(keys: seq<string>, key: string, titles: seq<string>)
    requires |keys| < |titles|
    requires forall j :: 0 <= j < |keys| ==> ResolvedAt(keys, j, titles[j])
    requires ResolvedAt(keys + [key], |keys|, titles[|keys|])
    ensures forall j :: 0 <= j < |keys| + 1 ==> ResolvedAt(keys + [key], j, titles[j])
  {
    forall j | 0 <= j < |keys| ensures ResolvedAt(keys + [key], j, titles[j]) {
      assert (keys + [key])[..j] == keys[..j];
      assert (keys + [key])[j] == keys[j];
    }
  }

  lemma NotYetResolved(qmap: OMap<string, string>, resolved: OMap<string, string>, i: nat)
    requires WellFormed(qmap) && i < |qmap| && |resolved| == i
    requires forall j :: 0 <= j < i ==> resolved[j].0 == qmap[j].0
    ensures !HasKey(resolved, qmap[i].0)
  {
  }

  /** The key loop: a repeated title gets the smallest free ` (i)`, i >= 2;
      with `useIds` the key is the question id itself. */
  method ResolveKeys(qmap: OMap<string, string>, useIds: bool) returns (resolved: OMap<string, string>)
    requires WellFormed(qmap)
    ensures Keys(resolved) == Keys(qmap)
    ensures useIds ==> Values(resolved) == Keys(qmap)
    ensures !useIds ==> forall i :: 0 <= i < |qmap| ==> ResolvedAt(Values(resolved), i, Values(qmap)[i])
    ensures Distinct(Values(resolved))
  {
    ghost var titles := Values(qmap);
    resolved := [];
    ghost var keys: seq<string> := [];
    var seen: set<string> := {};
    for i := 0 to |qmap|
      invariant |resolved| == i && keys == Values(resolved)
      invariant forall j :: 0 <= j < i ==> resolved[j].0 == qmap[j].0
      invariant forall x :: x in seen <==> x in keys
      invariant useIds ==> forall j :: 0 <= j < i ==> resolved[j].1 == qmap[j].0
      invariant !useIds ==> forall j :: 0 <= j < i ==> ResolvedAt(keys, j, titles[j])
    {
      resolved, keys, seen := KeyStep(qmap, useIds, i, resolved, keys, seen);
    }
    if useIds {
      assert Values(resolved) == Keys(qmap);
    } else {
      ResolvedDistinct(Values(resolved), Values(qmap));
    }
  }

  /** One turn of the key loop: question `i` gets its key, and the loop's
      invariants hold one question further. */
  method KeyStep(qmap: OMap<string, string>, useIds: bool, i: nat, done: OMap<string, string>,
                 ghost doneKeys: seq<string>, doneSeen: set<string>)
    returns (resolved: OMap<string, string>, ghost keys: seq<string>, seen: set<string>)
    requires WellFormed(qmap) && i < |qmap|
    requires |done| == i && doneKeys == Values(done)
    requires forall j :: 0 <= j < i ==> done[j].0 == qmap[j].0
    requires forall x :: x in doneSeen <==> x in doneKeys
    requires useIds ==> forall j :: 0 <= j < i ==> done[j].1 == qmap[j].0
    requires !useIds ==> forall j :: 0 <= j < i ==> ResolvedAt(doneKeys, j, Values(qmap)[j])
    ensures |resolved| == i + 1 && keys == Values(resolved)
    ensures forall j :: 0 <= j < i + 1 ==> resolved[j].0 == qmap[j].0
    ensures forall x :: x in seen <==> x in keys
    ensures useIds ==> forall j :: 0 <= j < i + 1 ==> resolved[j].1 == qmap[j].0
    ensures !useIds ==> forall j :: 0 <= j < i + 1 ==> ResolvedAt(keys, j, Values(qmap)[j])
  {
    var qid := qmap[i].0;
    var key := ResolveOne(doneSeen, doneKeys, qid, qmap[i].1, useIds);
    if !useIds {
      ResolvedAtExtend(doneKeys, key, Values(qmap));
    }
    // `qid` has no key yet, so the assignment appends
    NotYetResolved(qmap, done, i);
    ValuesAppend(done, (qid, key));
    resolved := done + [(qid, key)];
    keys := doneKeys + [key];
    seen := doneSeen + {key};
  }

  /** The key of one question: its id, its title, or the title with the
      smallest free suffix when the title is already taken. */
  method ResolveOne(seen: set<string>, ghost keys: seq<string>, qid: string, title: string, useIds: bool) returns (key: string)
    requires forall x :: x in seen <==> x in keys
    ensures useIds ==> key == qid
    ensures !useIds ==> ResolvedAt(keys + [key], |keys|, title)
  {
    key := if useIds then qid else title;
    if key in seen && !useIds {
      var n := FirstFreeSuffix(seen, title);
      key := Suffixed(title, n);
      assert FreeSuffix(keys, title, n);
    }
    assert (keys + [key])[..|keys|] == keys;
  }

  /** The columns: the metadata names, then the keys in question-map order. */
  function Columns(resolved: OMap<string, string>): (cs: seq<string>)
    ensures |cs| == 3 + |resolved| && cs[..3] == MetaColumns && cs[3..] == Values(resolved)
  {
    MetaColumns + Values(resolved)
  }

  // ---------------------------------------------------------------------
  // Step 4: records

  /** `resolved_key_for_qid.get(qid, qid)` */
  function KeyFor(resolved: OMap<string, string>, qid: string): string
  {
    match Get(resolved, qid)
    case Some(k) => k
    case None => qid
  }

  function OptCell(v: Option<string>): Cell
  {
    match v
    case None => Null
    case Some(s) => Str(s)
  }

  function UploadValue(u: Upload): Option<string>
  {
    if u.fileId.Some? && u.fileId.value != "" then u.fileId else u.fileName
  }

  function UploadValues(us: seq<Upload>): (vs: seq<Option<string>>)
    ensures |vs| == |us| && forall i :: 0 <= i < |us| ==> vs[i] == UploadValue(us[i])
  {
    if us == [] then [] else [UploadValue(us[0])] + UploadValues(us[1..])
  }

  function TextValues(ts: seq<string>): (vs: seq<Option<string>>)
    ensures |vs| == |ts| && forall i :: 0 <= i < |ts| ==> vs[i] == Some(ts[i])
  {
    if ts == [] then [] else [Some(ts[0])] + TextValues(ts[1..])
  }

  /** The gathered values: text answers first, then uploads. */
  function AnswerValues(a: Answer): seq<Option<string>>
  {
    TextValues(a.texts) + UploadValues(a.uploads)
  }

  /** `", ".join(values)`, which raises on a missing value. */
  function JoinValues(vs: seq<Option<string>>): (r: Option<string>)
    ensures r.None? <==> exists i :: 0 <= i < |vs| && vs[i].None?
  {
    if vs == [] then Some("")
    else if vs[0].None? then None
    else if |vs| == 1 then vs[0]
    else match JoinValues(vs[1..])
      case None => None
      case Some(rest) => Some(vs[0].value + ", " + rest)
  }

  /** What an answer stores: nothing when it has no values; the list with
      `asLists`; a single value as itself; several values joined. */
  datatype Collapsed = NoValue | Value(cell: Cell) | JoinRaises

  function Collapse(vs: seq<Option<string>>, asLists: bool): (c: Collapsed)
    ensures c.NoValue? <==> vs == []
    ensures c.JoinRaises? <==> !asLists && |vs| >= 2 && exists i :: 0 <= i < |vs| && vs[i].None?
    ensures asLists && vs != [] ==> c == Value(Items(vs))
    ensures !asLists && |vs| == 1 ==> c == Value(OptCell(vs[0]))
    ensures !asLists && |vs| >= 2 && c.Value? ==> c.cell.Str? && |c.cell.value| >= 2 * (|vs| - 1)
  {
    if vs == [] then NoValue
    else if asLists then Value(Items(vs))
    else if |vs| == 1 then Value(OptCell(vs[0]))
    else
      JoinLength(vs);
      match JoinValues(vs)
      case None => JoinRaises
      case Some(s) => Value(Str(s))
  }

  lemma {:induction false} JoinLength(vs: seq<Option<string>>)
    requires |vs| >= 1
    ensures JoinValues(vs).Some? ==> |JoinValues(vs).value| >= 2 * (|vs| - 1)
  {
    if |vs| > 1 && vs[0].Some? {
      JoinLength(vs[1..]);
    }
  }

  /** The metadata cells of a response, in the order they are assigned. */
  function MetaCells(r: Response): seq<(string, Cell)>
  {
    [("responseId", OptCell(r.responseId)), ("respondentEmail", OptCell(r.respondentEmail)),
     ("createTime", OptCell(r.createTime))]
  }

  /** The entries assigned one after the other. */
  function PutAll(rec: Record, es: seq<(string, Cell)>): Record
    decreases |es|
  {
    if es == [] then rec else PutAll(Put(rec, es[0].0, es[0].1), es[1..])
  }

  /** The record before the answers: every column null, then the metadata. */
  function BaseRecord(columns: seq<string>, r: Response): Record
  {
    PutAll(FromKeys(columns, Null), MetaCells(r))
  }

  /** The base record is the three metadata assignments in turn. */
  lemma BaseRecordIs(columns: seq<string>, r: Response)
    ensures BaseRecord(columns, r) ==
      Put(Put(Put(FromKeys(columns, Null), "responseId", OptCell(r.responseId)),
              "respondentEmail", OptCell(r.respondentEmail)),
          "createTime", OptCell(r.createTime))
  {
    var es := MetaCells(r);
    var r0 := FromKeys(columns, Null);
    var r1 := Put(r0, es[0].0, es[0].1);
    var r2 := Put(r1, es[1].0, es[1].1);
    var r3 := Put(r2, es[2].0, es[2].1);
    assert es[1..][0] == es[1] && es[1..][1..] == [es[2]] && [es[2]][1..] == [];
    assert PutAll(r2, [es[2]]) == PutAll(r3, []) == r3;
    assert PutAll(r1, es[1..]) == PutAll(r2, [es[2]]);
    assert PutAll(r0, es) == PutAll(r1, es[1..]);
  }

  /** The record after the first answers, or the exception a join raised. */
  function ApplyAnswers(rec: Record, resolved: OMap<string, string>, answers: OMap<string, Answer>, asLists: bool): Outcome<Record>
    decreases |answers|
  {
    if answers == [] then Ok(rec)
    else match ApplyAnswers(rec, resolved, answers[..|answers| - 1], asLists)
      case Raised => Raised
      case Ok(prev) => AnswerStep(prev, resolved, answers[|answers| - 1], asLists)
  }

  /** One answer: its collapsed values stored under its resolved key. */
  function AnswerStep(rec: Record, resolved: OMap<string, string>, answer: (string, Answer), asLists: bool): Outcome<Record>
  {
    match Collapse(AnswerValues(answer.1), asLists)
    case NoValue => Ok(rec)
    case JoinRaises => Raised
    case Value(c) => Ok(Put(rec, KeyFor(resolved, answer.0), c))
  }

  lemma ApplyAnswersNext(rec: Record, resolved: OMap<string, string>, answers: OMap<string, Answer>, asLists: bool, j: nat)
    requires j < |answers|
    ensures ApplyAnswers(rec, resolved, answers[..j + 1], asLists) ==
      match ApplyAnswers(rec, resolved, answers[..j], asLists)
      case Raised => Raised
      case Ok(prev) => AnswerStep(prev, resolved, answers[j], asLists)
  {
    assert answers[..j + 1][..j] == answers[..j];
  }

  function RecordOf(columns: seq<string>, resolved: OMap<string, string>, r: Response, asLists: bool): Outcome<Record>
  {
    ApplyAnswers(BaseRecord(columns, r), resolved, r.answers, asLists)
  }

  /** The answer loop of one response. */
  method BuildRecord(columns: seq<string>, resolved: OMap<string, string>, r: Response, asLists: bool) returns (res: Outcome<Record>)
    ensures res == RecordOf(columns, resolved, r, asLists)
  {
    var rec := FromKeys(columns, Null);
    rec := Put(rec, "responseId", OptCell(r.responseId));
    rec := Put(rec, "respondentEmail", OptCell(r.respondentEmail));
    rec := Put(rec, "createTime", OptCell(r.createTime));
    BaseRecordIs(columns, r);
    var answers := r.answers;
    for j := 0 to |answers|
      invariant ApplyAnswers(BaseRecord(columns, r), resolved, answers[..j], asLists) == Ok(rec)
    {
      ApplyAnswersNext(BaseRecord(columns, r), resolved, answers, asLists, j);
      var (qid, ans) := answers[j];
      var key := KeyFor(resolved, qid);
      var vals := AnswerValues(ans);
      match Collapse(vals, asLists) {
        case NoValue =>
        case JoinRaises =>
          RaisedStays(BaseRecord(columns, r), resolved, answers, asLists, j + 1);
          return Raised;
        case Value(c) =>
          rec := Put(rec, key, c);
      }
    }
    assert answers[..|answers|] == answers;
    res := Ok(rec);
  }

  /** Once a join has raised, later answers do not matter. */
  lemma {:induction false} RaisedStays(rec: Record, resolved: OMap<string, string>, answers: OMap<string, Answer>, asLists: bool, j: nat)
    requires j <= |answers|
    requires ApplyAnswers(rec, resolved, answers[..j], asLists) == Raised
    ensures ApplyAnswers(rec, resolved, answers, asLists) == Raised
    decreases |answers| - j
  {
    if j < |answers| {
      ApplyAnswersNext(rec, resolved, answers, asLists, j);
      RaisedStays(rec, resolved, answers, asLists, j + 1);
    } else {
      assert answers[..j] == answers;
    }
  }

  /** Every value, in order, when no element raised; else the exception. */
  function AllOk<T>(os: seq<Outcome<T>>): (r: Outcome<seq<T>>)
    ensures r.Ok? <==> forall i :: 0 <= i < |os| ==> os[i].Ok?
    ensures r.Ok? ==> |r.value| == |os| && forall i :: 0 <= i < |os| ==> os[i] == Ok(r.value[i])
  {
    if os == [] then Ok([])
    else
      var rest := AllOk(os[1..]);
      assert forall i :: 1 <= i < |os| ==> os[i] == os[1..][i - 1];
      if os[0].Raised? || rest.Raised? then Raised else Ok([os[0].value] + rest.value)
  }

  /** The records of the responses, in response order, or the exception
      when any response's join raises. */
  function Records(columns: seq<string>, resolved: OMap<string, string>, rs: seq<Response>, asLists: bool): (r: Outcome<seq<Record>>)
    ensures r.Ok? <==> forall i :: 0 <= i < |rs| ==> RecordOf(columns, resolved, rs[i], asLists).Ok?
    ensures r.Ok? ==> |r.value| == |rs| && forall i :: 0 <= i < |rs| ==> RecordOf(columns, resolved, rs[i], asLists) == Ok(r.value[i])
  {
    var os := RecordOutcomes(columns, resolved, rs, asLists);
    assert |os| == |rs| && forall i :: 0 <= i < |rs| ==> os[i] == RecordOf(columns, resolved, rs[i], asLists);
    AllOk(os)
  }

  /** The outcome of building each response's record, in response order. */
  function RecordOutcomes(columns: seq<string>, resolved: OMap<string, string>, rs: seq<Response>, asLists: bool): seq<Outcome<Record>>
  {
    seq(|rs|, i requires 0 <= i < |rs| => RecordOf(columns, resolved, rs[i], asLists))
  }

  /** The responses' records, or the exception when any response's join raises. */
  method BuildRecords(columns: seq<string>, resolved: OMap<string, string>, rs: seq<Response>, asLists: bool) returns (res: Outcome<seq<Record>>)
    ensures res == Records(columns, resolved, rs, asLists)
  {
    var complete, records, at := CollectRecords(columns, resolved, rs, asLists);
    if !complete {
      AllOkRaised(RecordOutcomes(columns, resolved, rs, asLists), at);
      return Raised;
    }
    return Ok(records);
  }

  /** The loop over the responses: a raised join ends the whole call, at
      response `at`. */
  method CollectRecords(columns: seq<string>, resolved: OMap<string, string>, rs: seq<Response>, asLists: bool)
    returns (complete: bool, records: seq<Record>, ghost at: nat)
    ensures complete ==> AllOk(RecordOutcomes(columns, resolved, rs, asLists)) == Ok(records)
    ensures !complete ==> at < |rs| && RecordOutcomes(columns, resolved, rs, asLists)[at].Raised?
  {
    ghost var os := RecordOutcomes(columns, resolved, rs, asLists);
    records, at := [], 0;
    assert os[..0] == [];
    for i := 0 to |rs|
      invariant AllOk(os[..i]) == Ok(records)
    {
      var rec := RecordStep(columns, resolved, rs, asLists, os, i);
      if rec.Raised? {
        return false, records, i;
      }
      AllOkSnoc(os, i, records);
      records := records + [rec.value];
    }
    assert os[..|rs|] == os;
    complete := true;
  }

  /** The record of the `i`-th response, as the loop builds it. */
  method RecordStep(columns: seq<string>, resolved: OMap<string, string>, rs: seq<Response>, asLists: bool,
                    ghost os: seq<Outcome<Record>>, i: nat) returns (rec: Outcome<Record>)
    requires os == RecordOutcomes(columns, resolved, rs, asLists) && i < |rs|
    ensures rec == os[i]
  {
    rec := BuildRecord(columns, resolved, rs[i], asLists);
  }

  lemma AllOkSnoc<T>(os: seq<Outcome<T>>, i: nat, vals: seq<T>)
    requires i < |os| && os[i].Ok? && AllOk(os[..i]) == Ok(vals)
    ensures AllOk(os[..i + 1]) == Ok(vals + [os[i].value])
  {
    var ws := vals + [os[i].value];
    forall j | 0 <= j < i + 1 ensures os[..i + 1][j] == Ok(ws[j]) {
      if j < i {
        assert os[..i][j] == Ok(vals[j]);
      }
    }
    AllOkValues(os[..i + 1], ws);
  }

  lemma AllOkRaised<T>(os: seq<Outcome<T>>, i: nat)
    requires i < |os| && os[i].Raised?
    ensures AllOk(os) == Raised
  {
  }

  lemma AllOkValues<T>(os: seq<Outcome<T>>, vals: seq<T>)
    requires |vals| == |os| && forall j :: 0 <= j < |os| ==> os[j] == Ok(vals[j])
    ensures AllOk(os) == Ok(vals)
  {
    assert AllOk(os).value == vals;
  }

  /** Answers only write to keys the record already has. */
  lemma {:induction false} ApplyAnswersKeys(rec: Record, resolved: OMap<string, string>, answers: OMap<string, Answer>, asLists: bool)
    requires forall j :: 0 <= j < |answers| ==> HasKey(rec, KeyFor(resolved, answers[j].0))
    ensures ApplyAnswers(rec, resolved, answers, asLists).Ok? ==>
      Keys(ApplyAnswers(rec, resolved, answers, asLists).value) == Keys(rec)
    decreases |answers|
  {
    if answers != [] {
      var init := answers[..|answers| - 1];
      ApplyAnswersKeys(rec, resolved, init, asLists);
      var prev := ApplyAnswers(rec, resolved, init, asLists);
      if prev.Ok? {
        HasKeyIn(rec, KeyFor(resolved, answers[|answers| - 1].0));
        HasKeyIn(prev.value, KeyFor(resolved, answers[|answers| - 1].0));
      }
    }
  }

  /** Answers leave a cell alone when no answer that stores a value
      resolves to its key. */
  lemma {:induction false} ApplyAnswersOther(rec: Record, resolved: OMap<string, string>, answers: OMap<string, Answer>, asLists: bool, c: string)
    requires forall j :: 0 <= j < |answers| ==>
      KeyFor(resolved, answers[j].0) != c || !Collapse(AnswerValues(answers[j].1), asLists).Value?
    ensures ApplyAnswers(rec, resolved, answers, asLists).Ok? ==>
      Get(ApplyAnswers(rec, resolved, answers, asLists).value, c) == Get(rec, c)
    decreases |answers|
  {
    if answers != [] {
      var init := answers[..|answers| - 1];
      ApplyAnswersOther(rec, resolved, init, asLists, c);
      var prev := ApplyAnswers(rec, resolved, init, asLists);
      if prev.Ok? {
        var (qid, ans) := answers[|answers| - 1];
        if Collapse(AnswerValues(ans), asLists).Value? {
          GetPut(prev.value, KeyFor(resolved, qid), Collapse(AnswerValues(ans), asLists).cell, c);
        }
      }
    }
  }

  /** The cell under key `k` holds what answer `j` collapses to, when `j`
      resolves to `k` and no later answer that stores a value does. */
  lemma {:induction false} ApplyAnswersCell(rec: Record, resolved: OMap<string, string>, answers: OMap<string, Answer>,
                                            asLists: bool, k: string, j: nat, c: Cell)
    requires j < |answers| && KeyFor(resolved, answers[j].0) == k
    requires Collapse(AnswerValues(answers[j].1), asLists) == Value(c)
    requires forall i :: j < i < |answers| ==>
      KeyFor(resolved, answers[i].0) != k || !Collapse(AnswerValues(answers[i].1), asLists).Value?
    ensures ApplyAnswers(rec, resolved, answers, asLists).Ok? ==>
      Get(ApplyAnswers(rec, resolved, answers, asLists).value, k) == Some(c)
    decreases |answers|
  {
    var init := answers[..|answers| - 1];
    var prev := ApplyAnswers(rec, resolved, init, asLists);
    var (qid, ans) := answers[|answers| - 1];
    if j == |answers| - 1 {
      if prev.Ok? {
        GetPut(prev.value, k, c, k);
      }
    } else {
      ApplyAnswersCell(rec, resolved, init, asLists, k, j, c);
      if prev.Ok? && Collapse(AnswerValues(ans), asLists).Value? {
        GetPut(prev.value, KeyFor(resolved, qid), Collapse(AnswerValues(ans), asLists).cell, k);
      }
    }
  }

  lemma KeyForResolved(resolved: OMap<string, string>, qid: string)
    requires HasKey(resolved, qid)
    ensures KeyFor(resolved, qid) in Values(resolved)
  {
    var i :| 0 <= i < |resolved| && resolved[i] == (qid, Get(resolved, qid).value);
    assert Values(resolved)[i] == KeyFor(resolved, qid);
  }

  /** Before the answers, a record has exactly the columns and holds the
      response's metadata. */
  lemma BaseRecordFacts(columns: seq<string>, r: Response)
    requires |columns| >= 3 && columns[..3] == MetaColumns
    ensures forall c :: HasKey(BaseRecord(columns, r), c) <==> c in columns
    ensures Get(BaseRecord(columns, r), "responseId") == Some(OptCell(r.responseId))
    ensures Get(BaseRecord(columns, r), "respondentEmail") == Some(OptCell(r.respondentEmail))
    ensures Get(BaseRecord(columns, r), "createTime") == Some(OptCell(r.createTime))
  {
    BaseRecordKeys(columns, r);
    var r0 := FromKeys(columns, Null);
    var r1 := Put(r0, "responseId", OptCell(r.responseId));
    var r2 := Put(r1, "respondentEmail", OptCell(r.respondentEmail));
    var base := Put(r2, "createTime", OptCell(r.createTime));
    BaseRecordIs(columns, r);
    assert BaseRecord(columns, r) == base;
    assert Get(base, "createTime") == Some(OptCell(r.createTime)) by {
      GetPut(r2, "createTime", OptCell(r.createTime), "createTime");
    }
    assert Get(base, "respondentEmail") == Some(OptCell(r.respondentEmail)) by {
      GetPut(r2, "createTime", OptCell(r.createTime), "respondentEmail");
      GetPut(r1, "respondentEmail", OptCell(r.respondentEmail), "respondentEmail");
    }
    assert Get(base, "responseId") == Some(OptCell(r.responseId)) by {
      GetPut(r2, "createTime", OptCell(r.createTime), "responseId");
      GetPut(r1, "respondentEmail", OptCell(r.respondentEmail), "responseId");
      GetPut(r0, "responseId", OptCell(r.responseId), "responseId");
    }
  }

  lemma BaseRecordKeys(columns: seq<string>, r: Response)
    requires |columns| >= 3 && columns[..3] == MetaColumns
    ensures forall c :: HasKey(BaseRecord(columns, r), c) <==> c in columns
  {
    var r0 := FromKeys(columns, Null);
    var r1 := Put(r0, "responseId", OptCell(r.responseId));
    var r2 := Put(r1, "respondentEmail", OptCell(r.respondentEmail));
    var base := Put(r2, "createTime", OptCell(r.createTime));
    BaseRecordIs(columns, r);
    assert BaseRecord(columns, r) == base;
    FromKeysHas(columns, Null);
    assert columns[0] == "responseId" && columns[1] == "respondentEmail" && columns[2] == "createTime" by {
      assert columns[..3][0] == columns[0] && columns[..3][1] == columns[1] && columns[..3][2] == columns[2];
    }
    HasKeyIn(r0, "responseId");
    HasKeyIn(r0, "respondentEmail");
    HasKeyIn(r0, "createTime");
    assert Keys(r1) == Keys(r0);
    HasKeyIn(r1, "respondentEmail");
    HasKeyIn(r1, "createTime");
    assert Keys(r2) == Keys(r0);
    HasKeyIn(r2, "createTime");
    assert Keys(base) == Keys(r0);
    forall c ensures HasKey(base, c) <==> c in columns {
      HasKeyIn(r0, c);
      HasKeyIn(base, c);
    }
  }

  /** When every answered id has a resolved key, a record holds exactly the
      columns. */
  lemma RecordColumns(resolved: OMap<string, string>, r: Response, asLists: bool)
    requires forall j :: 0 <= j < |r.answers| ==> HasKey(resolved, r.answers[j].0)
    ensures var rec := RecordOf(Columns(resolved), resolved, r, asLists);
      rec.Ok? ==> forall c :: HasKey(rec.value, c) <==> c in Columns(resolved)
  {
    var columns := Columns(resolved);
    var base := BaseRecord(columns, r);
    BaseRecordFacts(columns, r);
    forall j | 0 <= j < |r.answers| ensures HasKey(base, KeyFor(resolved, r.answers[j].0)) {
      KeyForResolved(resolved, r.answers[j].0);
      assert KeyFor(resolved, r.answers[j].0) in columns;
    }
    ApplyAnswersKeys(base, resolved, r.answers, asLists);
    var rec := RecordOf(columns, resolved, r, asLists);
    if rec.Ok? {
      forall c ensures HasKey(rec.value, c) <==> c in columns {
        HasKeyIn(rec.value, c);
        HasKeyIn(base, c);
      }
    }
  }

  /** A metadata cell holds the response's own field, unless a resolved key
      has the same name (then an answer may overwrite it). */
  lemma RecordMeta(resolved: OMap<string, string>, r: Response, asLists: bool, c: string)
    requires forall j :: 0 <= j < |r.answers| ==> HasKey(resolved, r.answers[j].0)
    requires c in MetaColumns && c !in Values(resolved)
    ensures var rec := RecordOf(Columns(resolved), resolved, r, asLists);
      rec.Ok? ==> Get(rec.value, c) == Some(OptCell(if c == "responseId" then r.responseId
                                                     else if c == "respondentEmail" then r.respondentEmail
                                                     else r.createTime))
  {
    var columns := Columns(resolved);
    BaseRecordFacts(columns, r);
    forall j | 0 <= j < |r.answers| ensures KeyFor(resolved, r.answers[j].0) != c {
      KeyForResolved(resolved, r.answers[j].0);
    }
    ApplyAnswersOther(BaseRecord(columns, r), resolved, r.answers, asLists, c);
  }

  // ---------------------------------------------------------------------
  // Sorting and the whole call

  /** `x.get("createTime") or ""` */
  function SortKey(rec: Record): string
  {
    var v := Get(rec, "createTime");
    if v.Some? && v.value.Str? then v.value.value else ""
  }

  /** The steps: question map, all pages of responses, expansion, keys,
      records, then the stable sort.  `resolved` is the display key of each
      question id. */
  method GetFormResponses(items: seq<FormItem>, pages: seq<DriveQuery.Page<Response>>, useIds: bool, asLists: bool)
    returns (res: Outcome<seq<Record>>, columns: seq<string>, resolved: OMap<string, string>)
    requires DriveQuery.Ends(pages)
    ensures var rs := DriveQuery.Collected(pages, DriveQuery.LastPage(pages, 0) + 1);
      var expanded := Expand(QuestionMap(items), AnsweredIds(rs));
      && Keys(resolved) == Keys(expanded)
      && (useIds ==> Values(resolved) == Keys(expanded))
      && (!useIds ==> forall i :: 0 <= i < |expanded| ==> ResolvedAt(Values(resolved), i, Values(expanded)[i]))
    ensures columns == Columns(resolved) && Distinct(columns[3..])
    ensures var rs := DriveQuery.Collected(pages, DriveQuery.LastPage(pages, 0) + 1);
      var recs := Records(columns, resolved, rs, asLists);
      && (res.Ok? <==> recs.Ok?)
      && (res.Ok? ==> res.value == SortBy(recs.value, SortKey) && multiset(res.value) == multiset(recs.value))
      && (res.Ok? ==> forall k :: Filter(res.value, SortKey, k) == Filter(recs.value, SortKey, k))
    ensures res.Ok? ==> SortedBy(res.value, SortKey)
    ensures res.Ok? ==> forall i :: 0 <= i < |res.value| ==> forall c :: HasKey(res.value[i], c) <==> c in columns
  {
    var qmap := BuildQuestionMap(items);
    QuestionMapKeys(items);
    var rs, _ := DriveQuery.DrainPages(pages);
    var expanded := ExpandWithAnswers(qmap, rs);
    ExpandSpec(qmap, AnsweredIds(rs));
    resolved := ResolveKeys(expanded, useIds);
    columns := Columns(resolved);
    var records := BuildRecords(columns, resolved, rs, asLists);
    if records.Raised? {
      return Raised, columns, resolved;
    }
    RecordsHaveColumns(expanded, resolved, rs, asLists);
    SortedRecords(records.value, columns);
    res := Ok(SortBy(records.value, SortKey));
  }

  /** When every answered id is in the expanded map, every record holds
      exactly the columns. */
  lemma RecordsHaveColumns(expanded: OMap<string, string>, resolved: OMap<string, string>, rs: seq<Response>, asLists: bool)
    requires Keys(resolved) == Keys(expanded)
    requires forall q :: q in AnsweredIds(rs) ==> HasKey(expanded, q)
    ensures var recs := Records(Columns(resolved), resolved, rs, asLists);
      recs.Ok? ==> forall i :: 0 <= i < |recs.value| ==> forall c :: HasKey(recs.value[i], c) <==> c in Columns(resolved)
  {
    var recs := Records(Columns(resolved), resolved, rs, asLists);
    if recs.Ok? {
      forall i | 0 <= i < |rs| ensures forall c :: HasKey(recs.value[i], c) <==> c in Columns(resolved) {
        forall j | 0 <= j < |rs[i].answers| ensures HasKey(resolved, rs[i].answers[j].0) {
          AnsweredIdsContain(rs, i, j);
          HasKeyIn(expanded, rs[i].answers[j].0);
          HasKeyIn(resolved, rs[i].answers[j].0);
        }
        RecordColumns(resolved, rs[i], asLists);
      }
    }
  }

  /** The sorted records are ordered by creation time, are the same records,
      keep the order of records with equal times, and keep their columns. */
  lemma SortedRecords(recs: seq<Record>, columns: seq<string>)
    requires forall i :: 0 <= i < |recs| ==> forall c :: HasKey(recs[i], c) <==> c in columns
    ensures var sorted := SortBy(recs, SortKey);
      && SortedBy(sorted, SortKey)
      && multiset(sorted) == multiset(recs)
      && (forall k :: Filter(sorted, SortKey, k) == Filter(recs, SortKey, k))
      && forall i :: 0 <= i < |sorted| ==> forall c :: HasKey(sorted[i], c) <==> c in columns
  {
    var sorted := SortBy(recs, SortKey);
    SortBySorted(recs, SortKey);
    SortByPermutes(recs, SortKey);
    forall k ensures Filter(sorted, SortKey, k) == Filter(recs, SortKey, k) {
      SortByStable(recs, SortKey, k);
    }
    forall i | 0 <= i < |sorted| ensures forall c :: HasKey(sorted[i], c) <==> c in columns {
      assert sorted[i] in multiset(recs);
    }
  }

  lemma {:induction false} AnsweredIdsContain(rs: seq<Response>, i: nat, j: nat)
    requires i < |rs| && j < |rs[i].answers|
    ensures rs[i].answers[j].0 in AnsweredIds(rs)
    decreases |rs|
  {
    if i < |rs| - 1 {
      AnsweredIdsContain(rs[..|rs| - 1], i, j);
    } else {
      assert Keys(rs[i].answers)[j] == rs[i].answers[j].0;
    }
  }
}
