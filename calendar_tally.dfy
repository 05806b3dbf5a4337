/**
 * `delete_google_calendar_events_by_ids`: one delete call per event id, each
 * id recorded as deleted or failed, and an overall status.  Whether the call
 * for the `i`-th id raises is an input.
 */
module CalendarTally {
  import opened Strings

  datatype Status = Success | Partial | Error

  /** The status rule: all deleted is success, none deleted with failures is
      error, anything else (a mix, or no ids at all) stays partial. */
  function TallyStatus(deletedCount: nat, failedCount: nat): (s: Status)
    ensures s == Success <==> deletedCount > 0 && failedCount == 0
    ensures s == Error <==> deletedCount == 0 && failedCount > 0
    ensures s == Partial <==> (deletedCount == 0) == (failedCount == 0)
  {
    if deletedCount > 0 && failedCount == 0 then Success
    else if deletedCount == 0 && failedCount > 0 then Error
    else Partial
  }

  /** The ids, from position `from` on, whose delete call succeeds. */
  function DeletedFrom(ids: seq<string>, raises: nat -> bool, from: nat): seq<string>
    requires from <= |ids|
    decreases |ids| - from
  {
    if from == |ids| then [] else (if raises(from) then [] else [ids[from]]) + DeletedFrom(ids, raises, from + 1)
  }

  /** The ids, from position `from` on, whose delete call raises. */
  function FailedFrom(ids: seq<string>, raises: nat -> bool, from: nat): seq<string>
    requires from <= |ids|
    decreases |ids| - from
  {
    if from == |ids| then [] else (if raises(from) then [ids[from]] else []) + FailedFrom(ids, raises, from + 1)
  }

  /** The loop over the ids, then the status rule. */
  method DeleteEvents(ids: seq<string>, raises: nat -> bool) returns (status: Status, deleted: seq<string>, failed: seq<string>)
    ensures deleted == DeletedFrom(ids, raises, 0)
    ensures failed == FailedFrom(ids, raises, 0)
    ensures status == TallyStatus(|deleted|, |failed|)
  {
    deleted := [];
    failed := [];
    var i := 0;
    while i < |ids|
      invariant 0 <= i <= |ids|
      invariant deleted + DeletedFrom(ids, raises, i) == DeletedFrom(ids, raises, 0)
      invariant failed + FailedFrom(ids, raises, i) == FailedFrom(ids, raises, 0)
    {
      if raises(i) {
        assert DeletedFrom(ids, raises, i) == [] + DeletedFrom(ids, raises, i + 1) == DeletedFrom(ids, raises, i + 1);
        AppendAssoc(failed, [ids[i]], FailedFrom(ids, raises, i + 1));
        failed := failed + [ids[i]];
      } else {
        assert FailedFrom(ids, raises, i) == [] + FailedFrom(ids, raises, i + 1) == FailedFrom(ids, raises, i + 1);
        AppendAssoc(deleted, [ids[i]], DeletedFrom(ids, raises, i + 1));
        deleted := deleted + [ids[i]];
      }
      i := i + 1;
    }
    status := Partial;
    if |deleted| > 0 && |failed| == 0 {
      status := Success;
    } else if |deleted| == 0 && |failed| > 0 {
      status := Error;
    }
  }

  /** Every id lands in exactly one of the two lists: together they hold the
      ids, counted with repetition. */
  lemma {:induction false} Partition(ids: seq<string>, raises: nat -> bool, from: nat)
    requires from <= |ids|
    ensures multiset(DeletedFrom(ids, raises, from)) + multiset(FailedFrom(ids, raises, from)) == multiset(ids[from..])
    ensures |DeletedFrom(ids, raises, from)| + |FailedFrom(ids, raises, from)| == |ids| - from
    decreases |ids| - from
  {
    if from < |ids| {
      Partition(ids, raises, from + 1);
      assert multiset(ids[from..]) == multiset([ids[from]]) + multiset(ids[from + 1..]) by {
        assert ids[from..] == [ids[from]] + ids[from + 1..];
      }
    }
  }

  /** The status is success exactly when ids were given and every deletion
      succeeded, error exactly when ids were given and every deletion failed,
      and partial otherwise; in particular no ids give partial. */
  lemma StatusSpec(ids: seq<string>, raises: nat -> bool)
    ensures var d := DeletedFrom(ids, raises, 0);
      var f := FailedFrom(ids, raises, 0);
      && (TallyStatus(|d|, |f|) == Success <==> ids != [] && |d| == |ids|)
      && (TallyStatus(|d|, |f|) == Error <==> ids != [] && |f| == |ids|)
      && (ids == [] ==> TallyStatus(|d|, |f|) == Partial)
  {
    Partition(ids, raises, 0);
  }
}
