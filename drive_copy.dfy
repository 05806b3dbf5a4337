/**
 * Copying in Drive: `copy_file_to_gdrive_folder` and
 * `copy_gdrive_folder_recursive`.  Drive is an in-memory store from item id
 * to item; every remote call is numbered, and whether the call with a given
 * number raises is an input (`fails`).  Listings return matching ids in
 * ascending order.
 */
module DriveCopy {
  import opened Options
  import opened Strings

  datatype Item = Item(name: string, isFolder: bool, parent: nat, modified: string, trashed: bool)

  /** The three listing queries the copy code sends. */
  datatype Query =
    | FolderNamed(parent: nat, name: string)   // a folder, in `parent`, with this name, not trashed
    | ChildrenOf(parent: nat)                  // anything in `parent`, not trashed
    | Named(parent: nat, name: string)         // anything in `parent` with this name, not trashed

  predicate Matches(q: Query, it: Item)
  {
    match q
    case FolderNamed(p, n) => it.isFolder && it.parent == p && it.name == n && !it.trashed
    case ChildrenOf(p) => it.parent == p && !it.trashed
    case Named(p, n) => it.parent == p && it.name == n && !it.trashed
  }

  /** The ids below `bound` whose item matches, in ascending order. */
  function Listing(items: map<nat, Item>, bound: nat, q: Query): (ids: seq<nat>)
    ensures forall i :: 0 <= i < |ids| ==> ids[i] in items && ids[i] < bound && Matches(q, items[ids[i]])
    ensures forall i, j :: 0 <= i < j < |ids| ==> ids[i] < ids[j]
    ensures forall id :: id in items && id < bound && Matches(q, items[id]) ==> id in ids
    decreases bound
  {
    if bound == 0 then []
    else Listing(items, bound - 1, q) + (if bound - 1 in items && Matches(q, items[bound - 1]) then [bound - 1] else [])
  }

  /** `r` pairs each id of the listing with its item. */
  ghost predicate ListedAs(r: seq<(nat, Item)>, items: map<nat, Item>, bound: nat, q: Query)
  {
    && |r| == |Listing(items, bound, q)|
    && forall i :: 0 <= i < |r| ==> r[i] == (Listing(items, bound, q)[i], items[Listing(items, bound, q)[i]])
  }

  datatype Status = Success | Skipped | Failure

  /** What happens to a file whose name may already be taken in the target:
      copy it, skip it, or delete the first same-named item and copy. */
  datatype Decision = Fresh | Skip | Replace(victim: nat)

  /** The conflict rule: `first` is the first same-named item in the target
      with its modification time; `le` is the order on modification times. */
  function Decide(first: Option<(nat, string)>, srcModified: string, le: (string, string) -> bool): (d: Decision)
    ensures d == Fresh <==> first.None?
    ensures d == Skip <==> first.Some? && le(srcModified, first.value.1)
    ensures d.Replace? <==> first.Some? && !le(srcModified, first.value.1)
    ensures d.Replace? ==> d.victim == first.value.0
  {
    match first
    case None => Fresh
    case Some(f) => if le(srcModified, f.1) then Skip else Replace(f.0)
  }

  function FirstOf(ids: seq<nat>, items: map<nat, Item>): Option<(nat, string)>
    requires forall i :: 0 <= i < |ids| ==> ids[i] in items
  {
    if ids == [] then None else Some((ids[0], items[ids[0]].modified))
  }

  function SourceTime(items: map<nat, Item>, id: nat): string
  {
    if id in items then items[id].modified else ""
  }

  /** Under the string order a destination with the same timestamp is kept,
      and a source that is strictly later replaces it. */
  lemma StringOrderDecisions(id: nat, src: string, dst: string)
    ensures Decide(Some((id, src)), src, LexLe) == Skip
    ensures src != dst && LexLe(dst, src) ==> Decide(Some((id, dst)), src, LexLe) == Replace(id)
  {
    LexLeReflexive(src);
    if src != dst && LexLe(dst, src) && LexLe(src, dst) {
      LexLeAntisymmetric(src, dst);
    }
  }

  /** The recursive copy (string order) and the single-file copy (parsed
      times) decide alike whenever the two orders agree on the times at hand. */
  lemma DecisionsAgree(first: Option<(nat, string)>, src: string, le: (string, string) -> bool)
    requires first.Some? ==> le(src, first.value.1) == LexLe(src, first.value.1)
    ensures Decide(first, src, le) == Decide(first, src, LexLe)
  {
  }

  /** Timestamps written with different UTC offsets: as strings the source
      is later, although 10:00 at +02:00 is 08:00 UTC, before 09:00 UTC. */
  lemma MixedOffsetsCompareAsStrings()
    ensures !LexLe("2024-01-01T10:00:00+02:00", "2024-01-01T09:00:00Z")
  {
    var a := "2024-01-01T10:00:00+02:00";
    var b := "2024-01-01T09:00:00Z";
    assert a[11..] == "10:00:00+02:00" && b[11..] == "09:00:00Z";
    assert a[..11] == b[..11];
    LexLeCommonPrefix(a, b, 11);
  }

  lemma {:induction false} LexLeCommonPrefix(a: string, b: string, n: nat)
    requires n <= |a| && n <= |b| && a[..n] == b[..n]
    ensures LexLe(a, b) == LexLe(a[n..], b[n..])
    decreases n
  {
    if n > 0 {
      assert a[0] == a[..n][0] && b[0] == b[..n][0];
      assert a[1..][..n - 1] == a[1..n] == a[..n][1..];
      assert b[1..][..n - 1] == b[1..n] == b[..n][1..];
      LexLeCommonPrefix(a[1..], b[1..], n - 1);
      assert a[1..][n - 1..] == a[n..] && b[1..][n - 1..] == b[n..];
    } else {
      assert a[0..] == a && b[0..] == b;
    }
  }

  /** A log entry of the recursive copy; a sub-folder's log is nested whole. */
  datatype Entry =
    | UsingExisting(name: string, id: nat)
    | CreatedFolder(name: string, id: nat)
    | Recursing(name: string)
    | SubLog(entries: seq<Entry>)
    | Skipping(name: string)
    | Overwriting(name: string)
    | Copied(name: string, folder: nat)
    | CopyError
    | DepthLimit
    | Error

  /** An entry that neither reports an error nor a copy. */
  predicate Quiet(e: Entry)
  {
    !e.Error? && !e.Copied? && !e.CopyError?
  }

  /** The first entry of a log: the target folder, reused or created. */
  predicate FolderEntry(e: Entry, id: nat)
  {
    (e.UsingExisting? || e.CreatedFolder?) && e.id == id
  }

  /** The log of one level: the folder entry, the item and batch entries,
      and `Error` exactly when the level failed. */
  lemma LogShape(first: Entry, id: nat, entries: seq<Entry>, ok: bool)
    requires FolderEntry(first, id)
    requires forall i :: 0 <= i < |entries| ==> !entries[i].Error?
    requires !ok ==> forall i :: 0 <= i < |entries| ==> Quiet(entries[i])
    ensures var log := [first] + entries + (if ok then [] else [Error]);
      && (!ok <==> log[|log| - 1].Error?)
      && (forall i :: 0 <= i < |log| - 1 ==> !log[i].Error?)
      && (!ok ==> forall i :: 0 <= i < |log| ==> !log[i].Copied? && !log[i].CopyError?)
      && FolderEntry(log[0], id)
  {
    var log := [first] + entries + (if ok then [] else [Error]);
    forall i | 0 < i < |entries| + 1 ensures log[i] == entries[i - 1] {
    }
  }

  /** The result of the single-file copy: status and the reported metadata;
      in batch mode the copy request is returned instead of run. */
  datatype FileCopy = FileCopy(status: Status, folderId: nat, fileId: nat, newName: Option<string>,
                               queued: Option<(nat, string)>)

  function Truthy(s: Option<string>): bool
  {
    s.Some? && s.value != ""
  }

  /** The name looked up in the target: the new name if given, else the
      source's own name (unknown when the source is missing). */
  function CheckedName(newName: Option<string>, items: map<nat, Item>, fileId: nat): Option<string>
  {
    if Truthy(newName) then Some(newName.value)
    else if fileId in items then Some(items[fileId].name)
    else None
  }

  /** The decision the duplicate check takes for file `id` named `name`
      against the store `st` as it is when the file is reached. */
  function FileDecision(st: BatchState, folder: nat, id: nat, name: string): Decision
  {
    Decide(FirstOf(Listing(st.items, st.nextId, Named(folder, name)), st.items), SourceTime(st.items, id), LexLe)
  }

  /** The calls the duplicate check makes: the listing, then the source's
      time when a same-named item exists, then the delete of a replaced
      item. */
  function CheckCalls(d: Decision): nat
  {
    match d
    case Fresh => 1
    case Skip => 2
    case Replace(_) => 3
  }

  /** The store after the duplicate check of one file that decided `d`:
      a replaced item is gone, the next id is unchanged, and the check's
      calls are counted. */
  function After(s: BatchState, d: Decision): BatchState
  {
    BatchState(Removed(s.items, d), s.nextId, s.calls + CheckCalls(d))
  }

  /** The copies queued for the batch: the listed files, in listing order,
      whose decision is not `Skip`. */
  function Queued(children: seq<(nat, Item)>, ds: seq<Decision>): (q: seq<(nat, string)>)
    requires |children| == |ds|
    ensures |q| <= |children|
  {
    if children == [] then []
    else
      var n := |children| - 1;
      Queued(children[..n], ds[..n])
        + (if !children[n].1.isFolder && ds[n] != Skip then [(children[n].0, children[n].1.name)] else [])
  }

  /** A state of the store: the items, the next fresh id and the number of
      calls made so far. */
  datatype BatchState = BatchState(items: map<nat, Item>, nextId: nat, calls: nat)

  /** One more handled item extends the queue by that item when it is a file
      not skipped. */
  lemma QueuedSnoc(children: seq<(nat, Item)>, ds: seq<Decision>, d: Decision, i: nat)
    requires |ds| == i < |children|
    ensures Queued(children[..i + 1], ds + [d])
         == Queued(children[..i], ds)
            + (if !children[i].1.isFolder && d != Skip then [(children[i].0, children[i].1.name)] else [])
  {
    assert children[..i + 1][..i] == children[..i] && (ds + [d])[..i] == ds;
  }

  /** `stores[j]` is the store when listed item `j` is reached.  A file's
      decision is taken on that store, and its duplicate check leaves
      `After(stores[j], ds[j])` for the next item; after a sub-folder the
      store is whatever the nested copy left. */
  ghost predicate Chain(children: seq<(nat, Item)>, ds: seq<Decision>, stores: seq<BatchState>, folder: nat)
  {
    && |stores| == |ds| + 1 && |ds| <= |children|
    && forall j :: 0 <= j < |ds| && !children[j].1.isFolder ==>
         && ds[j] == FileDecision(stores[j], folder, children[j].0, children[j].1.name)
         && stores[j + 1] == After(stores[j], ds[j])
  }

  /** One more handled item extends the chain. */
  lemma ChainSnoc(children: seq<(nat, Item)>, ds: seq<Decision>, stores: seq<BatchState>,
                  d: Decision, next: BatchState, folder: nat)
    requires Chain(children, ds, stores, folder) && |ds| < |children|
    requires !children[|ds|].1.isFolder ==>
      d == FileDecision(stores[|ds|], folder, children[|ds|].0, children[|ds|].1.name) && next == After(stores[|ds|], d)
    ensures Chain(children, ds + [d], stores + [next], folder)
  {
    var ds', stores' := ds + [d], stores + [next];
    forall j | 0 <= j < |ds'| && !children[j].1.isFolder
      ensures ds'[j] == FileDecision(stores'[j], folder, children[j].0, children[j].1.name)
      ensures stores'[j + 1] == After(stores'[j], ds'[j])
    {
      if j < |ds| {
        assert ds'[j] == ds[j] && stores'[j] == stores[j] && stores'[j + 1] == stores[j + 1];
      }
    }
  }

  /** Whether the copy of `job` succeeds on store `s`. */
  predicate CopyOk(s: BatchState, job: (nat, string), fails: nat -> bool)
  {
    !fails(s.calls) && job.0 in s.items
  }

  /** The store after the copy of `job`: a fresh item under the next id when
      it succeeds, only one more call when it raises. */
  function CopyStep(s: BatchState, job: (nat, string), folder: nat, fails: nat -> bool, now: string): BatchState
  {
    if CopyOk(s, job, fails) then
      BatchState(s.items[s.nextId := s.items[job.0].(name := job.1, parent := folder, modified := now, trashed := false)],
                 s.nextId + 1, s.calls + 1)
    else s.(calls := s.calls + 1)
  }

  /** The batch run on store `s`: the copies in queue order, each logged as
      copied or failed, and the store after them.  The store keeps every item
      it had and gains one item in `folder`, under a fresh id, per copy
      logged. */
  function Batch(s: BatchState, queue: seq<(nat, string)>, folder: nat, fails: nat -> bool, now: string)
    : (r: (seq<Entry>, BatchState))
    ensures |r.0| == |queue| && r.1.calls == s.calls + |queue| && r.1.nextId == s.nextId + CopiedCount(r.0)
    decreases |queue|
  {
    if queue == [] then ([], s)
    else
      var rest := Batch(CopyStep(s, queue[0], folder, fails, now), queue[1..], folder, fails, now);
      ([if CopyOk(s, queue[0], fails) then Copied(queue[0].1, folder) else CopyError] + rest.0, rest.1)
  }

  /** Each queued copy is logged, in queue order, as copied into `folder`
      under its name or as failed. */
  lemma {:induction false} BatchEntries(s: BatchState, queue: seq<(nat, string)>, folder: nat, fails: nat -> bool, now: string)
    ensures var es := Batch(s, queue, folder, fails, now).0;
      forall i :: 0 <= i < |queue| ==> es[i] == Copied(queue[i].1, folder) || es[i] == CopyError
    decreases |queue|
  {
    if queue != [] {
      var next := CopyStep(s, queue[0], folder, fails, now);
      BatchEntries(next, queue[1..], folder, fails, now);
      var es := Batch(s, queue, folder, fails, now).0;
      var rest := Batch(next, queue[1..], folder, fails, now).0;
      forall i | 1 <= i < |queue| ensures es[i] == Copied(queue[i].1, folder) || es[i] == CopyError {
        assert es[i] == rest[i - 1] && queue[i] == queue[1..][i - 1];
      }
    }
  }

  /** Ids below the next fresh id stay so; the store keeps every item it had
      and every item it gains is in `folder`, under an id at or past the old
      next id. */
  lemma {:induction false} BatchStore(s: BatchState, queue: seq<(nat, string)>, folder: nat, fails: nat -> bool, now: string)
    requires forall id :: id in s.items ==> id < s.nextId
    ensures var t := Batch(s, queue, folder, fails, now).1;
      && (forall id :: id in t.items ==> id < t.nextId)
      && (forall id :: id in s.items ==> id in t.items && t.items[id] == s.items[id])
      && (forall id :: id in t.items && id !in s.items ==> s.nextId <= id && t.items[id].parent == folder)
    decreases |queue|
  {
    if queue != [] {
      BatchStore(CopyStep(s, queue[0], folder, fails, now), queue[1..], folder, fails, now);
    }
  }

  /** With every queued id in the store, a copy is logged exactly when its
      call does not raise. */
  lemma {:induction false} BatchCopied(s: BatchState, queue: seq<(nat, string)>, folder: nat, fails: nat -> bool, now: string)
    requires forall id :: id in s.items ==> id < s.nextId
    requires forall i :: 0 <= i < |queue| ==> queue[i].0 in s.items
    ensures forall i :: 0 <= i < |queue| ==> (Batch(s, queue, folder, fails, now).0[i].Copied? <==> !fails(s.calls + i))
    decreases |queue|
  {
    if queue != [] {
      var next := CopyStep(s, queue[0], folder, fails, now);
      forall i | 0 <= i < |queue[1..]| ensures queue[1..][i].0 in next.items {
        assert queue[1..][i] == queue[i + 1];
      }
      BatchCopied(next, queue[1..], folder, fails, now);
      var es := Batch(s, queue, folder, fails, now).0;
      var rest := Batch(next, queue[1..], folder, fails, now).0;
      forall i | 1 <= i < |queue| ensures (es[i].Copied? <==> !fails(s.calls + i)) {
        assert es[i] == rest[i - 1];
      }
    }
  }

  /** The batch on the rest of a queue from position `i`: the first copy, then
      the batch on what follows it. */
  lemma BatchFrom(s: BatchState, queue: seq<(nat, string)>, i: nat, folder: nat, fails: nat -> bool, now: string)
    requires i <= |queue|
    ensures i == 0 ==> queue[i..] == queue
    ensures i == |queue| ==> Batch(s, queue[i..], folder, fails, now) == ([], s)
    ensures i < |queue| ==>
      var rest := Batch(CopyStep(s, queue[i], folder, fails, now), queue[i + 1..], folder, fails, now);
      Batch(s, queue[i..], folder, fails, now)
        == ([if CopyOk(s, queue[i], fails) then Copied(queue[i].1, folder) else CopyError] + rest.0, rest.1)
  {
    if i < |queue| {
      assert queue[i..][0] == queue[i] && queue[i..][1..] == queue[i + 1..];
    } else {
      assert queue[i..] == [];
    }
  }

  /** The number of copies a batch log reports. */
  function CopiedCount(es: seq<Entry>): (n: nat)
    ensures n <= |es|
  {
    if es == [] then 0 else (if es[0].Copied? then 1 else 0) + CopiedCount(es[1..])
  }

  /** The store after a decision: a replaced item is gone. */
  function Removed(items: map<nat, Item>, d: Decision): map<nat, Item>
  {
    if d.Replace? then items - {d.victim} else items
  }

  class Drive {
    var items: map<nat, Item>
    var nextId: nat
    var calls: nat
    const fails: nat -> bool
    const now: string

    /** Every id in use is below the next fresh id. */
    ghost predicate Valid()
      reads this
    {
      forall id :: id in items ==> id < nextId
    }

    constructor(items: map<nat, Item>, nextId: nat, fails: nat -> bool, now: string)
      requires forall id :: id in items ==> id < nextId
      ensures this.items == items && this.nextId == nextId && this.calls == 0
      ensures this.fails == fails && this.now == now
      ensures Valid()
    {
      this.items := items;
      this.nextId := nextId;
      this.calls := 0;
      this.fails := fails;
      this.now := now;
    }

    /** `files().get`: raises when the call fails or the id is unknown. */
    method GetItem(id: nat) returns (r: Option<Item>)
      modifies this`calls
      ensures calls == old(calls) + 1
      ensures r == if !fails(old(calls)) && id in items then Some(items[id]) else None
    {
      r := if !fails(calls) && id in items then Some(items[id]) else None;
      calls := calls + 1;
    }

    /** `files().list`: the matching items as they are at the time of the call. */
    method List(q: Query) returns (r: Option<seq<(nat, Item)>>)
      modifies this`calls
      ensures calls == old(calls) + 1
      ensures r.Some? <==> !fails(old(calls))
      ensures r.Some? ==> ListedAs(r.value, items, nextId, q)
    {
      if fails(calls) {
        r := None;
      } else {
        var ids := Listing(items, nextId, q);
        var m := items;
        r := Some(seq(|ids|, i requires 0 <= i < |ids| => (ids[i], m[ids[i]])));
      }
      calls := calls + 1;
    }

    /** `files().create` of a folder. */
    method CreateFolder(name: string, parent: nat) returns (r: Option<nat>)
      requires Valid()
      modifies this
      ensures Valid() && calls == old(calls) + 1
      ensures r.Some? <==> !fails(old(calls))
      ensures r.Some? ==> (r.value == old(nextId) && nextId == old(nextId) + 1
                           && items == old(items)[r.value := Item(name, true, parent, now, false)])
      ensures r.None? ==> items == old(items) && nextId == old(nextId)
    {
      if fails(calls) {
        r := None;
      } else {
        r := Some(nextId);
        items := items[nextId := Item(name, true, parent, now, false)];
        nextId := nextId + 1;
      }
      calls := calls + 1;
    }

    /** `files().delete`: raises when the call fails or the id is unknown. */
    method Delete(id: nat) returns (ok: bool)
      requires Valid()
      modifies this
      ensures Valid() && calls == old(calls) + 1 && nextId == old(nextId)
      ensures ok <==> !fails(old(calls)) && id in old(items)
      ensures ok ==> items == old(items) - {id}
      ensures !ok ==> items == old(items)
    {
      ok := !fails(calls) && id in items;
      if ok {
        items := items - {id};
      }
      calls := calls + 1;
    }

    /** `files().copy` into `parent` under `name`. */
    method Copy(id: nat, name: string, parent: nat) returns (r: Option<nat>)
      requires Valid()
      modifies this
      ensures Valid() && calls == old(calls) + 1
      ensures r.Some? <==> !fails(old(calls)) && id in old(items)
      ensures r.Some? ==> (r.value == old(nextId) && nextId == old(nextId) + 1
                           && items == old(items)[r.value := old(items)[id].(name := name, parent := parent, modified := now, trashed := false)])
      ensures r.None? ==> items == old(items) && nextId == old(nextId)
    {
      if fails(calls) || id !in items {
        r := None;
      } else {
        r := Some(nextId);
        items := items[nextId := items[id].(name := name, parent := parent, modified := now, trashed := false)];
        nextId := nextId + 1;
      }
      calls := calls + 1;
    }

    /** The target folder: the first listed non-trashed folder of that name
      in `parent`, else exactly one new folder.  `ok` is false when a call
      raised. */
    method EnsureFolder(parent: nat, name: string) returns (ok: bool, id: nat, created: bool)
      requires Valid()
      modifies this
      ensures Valid()
      ensures ok && !created ==> var l := Listing(old(items), old(nextId), FolderNamed(parent, name));
        l != [] && id == l[0] && items == old(items)
      ensures ok && created ==> (Listing(old(items), old(nextId), FolderNamed(parent, name)) == []
                                 && id == old(nextId) && items == old(items)[id := Item(name, true, parent, now, false)])
      ensures !ok ==> items == old(items)
    {
      id, created := 0, false;
      var found := List(FolderNamed(parent, name));
      if found.None? {
        return false, id, created;
      }
      if found.value != [] {
        return true, found.value[0].0, false;
      }
      var r := CreateFolder(name, parent);
      if r.None? {
        return false, id, created;
      }
      return true, r.value, true;
    }

    /** The duplicate check for one file of the source folder: list the
      same-named items in `folder`; if there are any, read the source's
      time, skip when it is not newer, else delete the first one.  `ok` is
      false when a call raised. */
    method HandleFile(source: nat, name: string, folder: nat) returns (ok: bool, d: Decision)
      requires Valid()
      modifies this
      ensures Valid()
      ensures ok ==> var l := Listing(old(items), old(nextId), Named(folder, name));
        && d == Decide(FirstOf(l, old(items)), SourceTime(old(items), source), LexLe)
        && (l != [] ==> source in old(items))
      ensures ok && d.Replace? ==> items == old(items) - {d.victim}
      ensures !(ok && d.Replace?) ==> items == old(items)
      ensures nextId == old(nextId) && (ok ==> calls == old(calls) + CheckCalls(d))
    {
      d := Fresh;
      var existing := List(Named(folder, name));
      if existing.None? {
        return false, d;
      }
      if existing.value == [] {
        return true, Fresh;
      }
      var src := GetItem(source);
      if src.None? {
        return false, d;
      }
      var first := existing.value[0];
      if LexLe(src.value.modified, first.1.modified) {
        return true, Skip;
      }
      ok := Delete(first.0);
      if !ok {
        return false, d;
      }
      d := Replace(first.0);
    }

    /** One listed item of the source folder.  A folder is copied
      recursively and its whole log nested, whatever its status; a file
      goes through the duplicate check and, unless skipped, is queued.
      `ok` is false when a call of this level raised. */
    method ProcessItem(id: nat, it: Item, folder: nat, fuel: nat)
      returns (ok: bool, entries: seq<Entry>, queued: Option<(nat, string)>)
      requires Valid() && fuel >= 1
      modifies this
      ensures Valid()
      ensures it.isFolder ==> ok && queued.None? && |entries| == 2 && entries[0] == Recursing(it.name) && entries[1].SubLog?
      ensures !it.isFolder ==> forall i :: 0 <= i < |entries| ==> entries[i] == Skipping(it.name) || entries[i] == Overwriting(it.name)
      ensures forall i :: 0 <= i < |entries| ==> Quiet(entries[i])
      ensures queued.Some? ==> !it.isFolder && queued.value == (id, it.name)
      ensures !it.isFolder && ok ==>
        var d := FileDecision(BatchState(old(items), old(nextId), old(calls)), folder, id, it.name);
        && (queued.None? <==> d == Skip)
        && BatchState(items, nextId, calls) == After(BatchState(old(items), old(nextId), old(calls)), d)
        && entries == (match d case Skip => [Skipping(it.name)] case Replace(_) => [Overwriting(it.name)] case Fresh => [])
      ensures !it.isFolder && !ok ==> items == old(items) && nextId == old(nextId) && queued.None?
      decreases fuel, 0
    {
      queued := None;
      if it.isFolder {
        var _, sub, _ := CopyFolder(id, folder, Some(it.name), fuel - 1);
        return true, [Recursing(it.name), SubLog(sub)], None;
      }
      var d;
      ok, d := HandleFile(id, it.name, folder);
      if !ok {
        return false, [], None;
      }
      match d {
        case Skip =>
          entries := [Skipping(it.name)];
        case Replace(_) =>
          entries := [Overwriting(it.name)];
          queued := Some((id, it.name));
        case Fresh =>
          entries := [];
          queued := Some((id, it.name));
      }
    }

    /** The batch, run after every item has been handled: the copies in
      the order they were queued, each reported as copied or failed. */
    method RunBatch(queue: seq<(nat, string)>, folder: nat) returns (entries: seq<Entry>)
      requires Valid()
      modifies this
      ensures Valid()
      ensures (entries, BatchState(items, nextId, calls))
           == Batch(BatchState(old(items), old(nextId), old(calls)), queue, folder, fails, now)
    {
      entries := [];
      ghost var start := BatchState(items, nextId, calls);
      BatchFrom(start, queue, 0, folder, fails, now);
      for i := 0 to |queue|
        invariant Valid()
        invariant entries + Batch(BatchState(items, nextId, calls), queue[i..], folder, fails, now).0
               == Batch(start, queue, folder, fails, now).0
        invariant Batch(BatchState(items, nextId, calls), queue[i..], folder, fails, now).1
               == Batch(start, queue, folder, fails, now).1
      {
        ghost var cur := BatchState(items, nextId, calls);
        BatchFrom(cur, queue, i, folder, fails, now);
        var r := Copy(queue[i].0, queue[i].1, folder);
        assert BatchState(items, nextId, calls) == CopyStep(cur, queue[i], folder, fails, now);
        var e := if r.Some? then Copied(queue[i].1, folder) else CopyError;
        AppendAssoc(entries, [e], Batch(BatchState(items, nextId, calls), queue[i + 1..], folder, fails, now).0);
        entries := entries + [e];
      }
      BatchFrom(BatchState(items, nextId, calls), queue, |queue|, folder, fails, now);
      assert entries + [] == entries;
      assert entries == Batch(start, queue, folder, fails, now).0;
    }

    /** After the target folder is known: list the source folder, handle
      each item in listing order, then run the batch.  `ok` is false when a
      call raised, and then the batch is never run.  `listed` is the
      listing, `ds` the decisions and `stores` the store as each item was
      reached and as the loop left it; the batch starts from that last
      store. */
    method CopyContents(src: nat, folder: nat, fuel: nat)
      returns (ok: bool, entries: seq<Entry>, ghost listed: seq<(nat, Item)>, ghost ds: seq<Decision>,
               ghost stores: seq<BatchState>, ghost queue: seq<(nat, string)>)
      requires Valid() && fuel >= 1
      modifies this
      ensures Valid()
      ensures forall i :: 0 <= i < |entries| ==> !entries[i].Error?
      ensures !ok ==> forall i :: 0 <= i < |entries| ==> Quiet(entries[i])
      ensures Chain(listed, ds, stores, folder)
      ensures stores[0].items == old(items) && stores[0].nextId == old(nextId)
      ensures !ok ==> items == stores[|ds|].items && nextId == stores[|ds|].nextId
      ensures ok ==> ListedAs(listed, old(items), old(nextId), ChildrenOf(src)) && |ds| == |listed|
      ensures ok ==> stores[0] == BatchState(old(items), old(nextId), old(calls) + 1)
      ensures ok ==> queue == Queued(listed, ds)
      ensures ok ==> (|queue| <= |entries|
        && (entries[|entries| - |queue|..], BatchState(items, nextId, calls)) == Batch(stores[|ds|], queue, folder, fails, now))
      decreases fuel, 3
    {
      entries, listed, ds, queue := [], [], [], [];
      var l := List(ChildrenOf(src));
      stores := [BatchState(items, nextId, calls)];
      if l.None? {
        return false, entries, listed, ds, stores, queue;
      }
      var children := l.value;
      listed := children;
      var q;
      assert children[..|children|] == children;
      ok, entries, q, ds, stores := ProcessChildren(children, folder, fuel);
      queue := q;
      if !ok {
        return;
      }
      var results := RunBatch(q, folder);
      BatchEntries(stores[|ds|], q, folder, fails, now);
      assert forall i :: 0 <= i < |results| ==> !results[i].Error?;
      assert (entries + results)[|entries + results| - |q|..] == results;
      entries := entries + results;
    }

    /** The loop over the listed items, stopping at the first call that
      raises; the files to copy are queued for the batch.  `ds` holds the
      decision for each item handled and `stores` the store as each was
      reached: the queue holds exactly the handled files not skipped, in
      listing order, and the last store is the one the loop leaves. */
    method ProcessChildren(children: seq<(nat, Item)>, folder: nat, fuel: nat)
      returns (ok: bool, entries: seq<Entry>, queue: seq<(nat, string)>,
               ghost ds: seq<Decision>, ghost stores: seq<BatchState>)
      requires Valid() && fuel >= 1
      modifies this
      ensures Valid()
      ensures forall j :: 0 <= j < |entries| ==> Quiet(entries[j])
      ensures Chain(children, ds, stores, folder) && (ok ==> |ds| == |children|)
      ensures stores[0] == BatchState(old(items), old(nextId), old(calls))
      ensures queue == Queued(children[..|ds|], ds)
      ensures ok ==> BatchState(items, nextId, calls) == stores[|ds|]
      ensures !ok ==> items == stores[|ds|].items && nextId == stores[|ds|].nextId
      decreases fuel, 2
    {
      entries, queue, ds, stores := [], [], [], [BatchState(items, nextId, calls)];
      for i := 0 to |children|
        invariant Valid()
        invariant forall j :: 0 <= j < |entries| ==> Quiet(entries[j])
        invariant Chain(children, ds, stores, folder) && |ds| == i
        invariant stores[0] == BatchState(old(items), old(nextId), old(calls))
        invariant stores[i] == BatchState(items, nextId, calls)
        invariant queue == Queued(children[..i], ds)
      {
        var itemOk, more, q;
        ghost var ds', stores';
        itemOk, more, q, ds', stores' := ChildStep(children, i, folder, fuel, queue, ds, stores);
        entries := entries + more;
        if !itemOk {
          return false, entries, queue, ds, stores;
        }
        queue, ds, stores := q, ds', stores';
      }
      ok := true;
    }

    /** One listed item, reached with the store `stores[i]`: its decision,
      taken on that store, extends `ds`, and the store it leaves extends
      `stores`; the queue grows by the item when it is a file not skipped.
      When a call raises, the items and the next id are as they were. */
    method ChildStep(children: seq<(nat, Item)>, i: nat, folder: nat, fuel: nat,
                     queue: seq<(nat, string)>, ghost ds: seq<Decision>, ghost stores: seq<BatchState>)
      returns (ok: bool, more: seq<Entry>, queue': seq<(nat, string)>,
               ghost ds': seq<Decision>, ghost stores': seq<BatchState>)
      requires Valid() && fuel >= 1 && i < |children|
      requires Chain(children, ds, stores, folder) && |ds| == i
      requires stores[i] == BatchState(items, nextId, calls)
      requires queue == Queued(children[..i], ds)
      modifies this
      ensures Valid()
      ensures forall j :: 0 <= j < |more| ==> Quiet(more[j])
      ensures ok ==> Chain(children, ds', stores', folder) && |ds'| == i + 1
      ensures ok ==> stores' == stores + [BatchState(items, nextId, calls)]
      ensures ok ==> queue' == Queued(children[..i + 1], ds')
      ensures !ok ==> items == stores[i].items && nextId == stores[i].nextId
      decreases fuel, 1
    {
      var queued;
      ok, more, queued := ProcessItem(children[i].0, children[i].1, folder, fuel);
      ghost var d := if children[i].1.isFolder then Fresh else FileDecision(stores[i], folder, children[i].0, children[i].1.name);
      QueuedSnoc(children, ds, d, i);
      if ok {
        ChainSnoc(children, ds, stores, d, BatchState(items, nextId, calls), folder);
      }
      queue' := if queued.Some? then queue + [queued.value] else queue;
      ds', stores' := ds + [d], stores + [BatchState(items, nextId, calls)];
    }

    /** `copy_gdrive_folder_recursive`.  The status is a failure exactly when
      a call of this level raised, which ends the log with `Error` and drops
      the queued copies; a sub-folder's failure shows only inside its nested
      log.  `fuel` bounds the depth of the recursion. */
    method CopyFolder(src: nat, dstParent: nat, name: Option<string>, fuel: nat)
      returns (status: Status, log: seq<Entry>, newFolder: Option<nat>)
      requires Valid()
      modifies this
      ensures Valid()
      ensures status != Skipped
      ensures status == Failure <==> |log| > 0 && log[|log| - 1].Error?
      ensures forall i :: 0 <= i < |log| - 1 ==> !log[i].Error?
      ensures status == Failure ==> forall i :: 0 <= i < |log| ==> !log[i].Copied? && !log[i].CopyError?
      ensures newFolder.Some? ==> |log| > 0 && FolderEntry(log[0], newFolder.value)
      ensures status == Success ==> newFolder.Some?
      decreases fuel, 4
    {
      if fuel == 0 {
        return Failure, [DepthLimit, Error], None;
      }
      var ok, id, first := Target(src, dstParent, name);
      if !ok {
        return Failure, [Error], None;
      }
      newFolder := Some(id);
      var contentsOk, entries, _, _, _, _ := CopyContents(src, id, fuel);
      log := [first] + entries + (if contentsOk then [] else [Error]);
      status := if contentsOk then Success else Failure;
      LogShape(first, id, entries, contentsOk);
    }

    /** The folder name (the given one, else the source's) and the target
      folder with its log entry.  `ok` is false when a call raised. */
    method Target(src: nat, dstParent: nat, name: Option<string>) returns (ok: bool, id: nat, first: Entry)
      requires Valid()
      modifies this
      ensures Valid()
      ensures ok ==> FolderEntry(first, id)
      ensures ok ==> CheckedName(name, old(items), src).Some?
      ensures ok ==>
        var n := CheckedName(name, old(items), src).value;
        var l := Listing(old(items), old(nextId), FolderNamed(dstParent, n));
        && first.name == n
        && (first.UsingExisting? ==> l != [] && id == l[0] && items == old(items))
        && (first.CreatedFolder? ==> l == [] && id == old(nextId) && items == old(items)[id := Item(n, true, dstParent, now, false)])
      ensures !ok ==> items == old(items)
    {
      id, first := 0, Error;
      var folderName;
      ok, folderName := FolderName(src, name);
      if !ok {
        return;
      }
      var created;
      ok, id, created := EnsureFolder(dstParent, folderName);
      first := if created then CreatedFolder(folderName, id) else UsingExisting(folderName, id);
    }

    /** The name of the folder to copy into: the given one when truthy,
      else the source folder's, read with one call.  `ok` is false when
      that call raised. */
    method FolderName(src: nat, name: Option<string>) returns (ok: bool, n: string)
      modifies this`calls
      ensures ok ==> CheckedName(name, items, src) == Some(n)
      ensures !ok ==> !Truthy(name) && (fails(old(calls)) || src !in items)
    {
      if Truthy(name) {
        return true, name.value;
      }
      var meta := GetItem(src);
      if meta.None? {
        return false, "";
      }
      return true, meta.value.name;
    }

    /** `copy_file_to_gdrive_folder`.  `le` is the order of the parsed
      modification times.  `None` is an exception, which this operation
      does not catch. */
    method CopyFile(fileId: nat, folder: nat, newName: Option<string>, batch: bool, le: (string, string) -> bool)
      returns (res: Option<FileCopy>)
      requires Valid()
      modifies this
      ensures Valid()
      ensures res.Some? ==> res.value.folderId == folder && res.value.status != Failure
      ensures res.Some? && res.value.status == Skipped ==>
        items == old(items) && res.value.fileId == fileId && res.value.newName == newName && res.value.queued.None?
      ensures res.Some? ==> CheckedName(newName, old(items), fileId).Some?
      ensures res.Some? && res.value.status == Success ==>
        var checked := CheckedName(newName, old(items), fileId).value;
        && res.value.newName == Some(checked)
        && var l := Listing(old(items), old(nextId), Named(folder, checked));
        && Decide(FirstOf(l, old(items)), SourceTime(old(items), fileId), le) != Skip
        && (batch ==> res.value.fileId == fileId && res.value.queued == Some((fileId, checked)))
        && var d := Decide(FirstOf(l, old(items)), SourceTime(old(items), fileId), le);
        && (batch ==> items == Removed(old(items), d))
        && (!batch ==> res.value.fileId == old(nextId) && res.value.queued.None?
                       && nextId == old(nextId) + 1 && fileId in old(items)
                       && items == Removed(old(items), d)[old(nextId) := old(items)[fileId].(name := checked, parent := folder, modified := now, trashed := false)])
      ensures res.Some? && res.value.status == Skipped ==>
        var checked := CheckedName(newName, old(items), fileId).value;
        var l := Listing(old(items), old(nextId), Named(folder, checked));
        && Decide(FirstOf(l, old(items)), SourceTime(old(items), fileId), le) == Skip
    {
      var checked: string;
      if Truthy(newName) {
        checked := newName.value;
      } else {
        var meta := GetItem(fileId);
        if meta.None? {
          return None;
        }
        checked := meta.value.name;
      }
      ghost var l := Listing(old(items), old(nextId), Named(folder, checked));
      var existing := List(Named(folder, checked));
      if existing.None? {
        return None;
      }
      if existing.value != [] {
        var src := GetItem(fileId);
        if src.None? {
          return None;
        }
        var first := existing.value[0];
        if le(src.value.modified, first.1.modified) {
          return Some(FileCopy(Skipped, folder, fileId, newName, None));
        }
        var deleted := Delete(first.0);
        if !deleted {
          return None;
        }
      }
      if batch {
        return Some(FileCopy(Success, folder, fileId, Some(checked), Some((fileId, checked))));
      }
      var copy := Copy(fileId, checked, folder);
      if copy.None? {
        return None;
      }
      return Some(FileCopy(Success, folder, copy.value, Some(checked), None));
    }
  }
}
