/** The claim of due schedules: one transaction over the selected rows, rolled back if any of them is rejected. */
module ScheduleStore {
  import opened Prelude
  import opened Calendar
  import opened Schedules

  /** A window handed to the worker that will deliver the schedule's report. */
  datatype ClaimedSchedule = ClaimedSchedule(schedule: nat, window: Window)

  class Store {
    var schedules: seq<Schedule>

    ghost predicate Valid()
      reads this
    {
      forall i :: 0 <= i < |schedules| ==> schedules[i].Valid()
    }

    constructor (schedules: seq<Schedule>)
      requires forall i :: 0 <= i < |schedules| ==> schedules[i].Valid()
      ensures Valid() && this.schedules == schedules
    {
      this.schedules := schedules;
    }

    /** `due` is what the locked query selected, in its order.  Either every selected schedule is claimed,
        or one fails its validator and nothing is. */
    method ClaimDue(due: seq<nat>, now: DateTime) returns (ok: bool, claimed: seq<ClaimedSchedule>)
      requires Valid() && now.Valid() && Distinct(due)
      requires forall i :: 0 <= i < |due| ==> due[i] < |schedules| && Due(schedules[due[i]], now)
      modifies this
      ensures Valid() && |schedules| == |old(schedules)|
      ensures ok <==> forall i :: 0 <= i < |due| ==> PassesValidator(ClaimedAt(old(schedules)[due[i]], now))
      ensures !ok ==> schedules == old(schedules) && claimed == []
      ensures ok ==> |claimed| == |due|
      ensures ok ==> forall i :: 0 <= i < |due| ==>
        && claimed[i] == ClaimedSchedule(due[i], ExecutionWindow(old(schedules)[due[i]], now))
        && schedules[due[i]] == ClaimedAt(old(schedules)[due[i]], now)
      ensures forall j :: 0 <= j < |schedules| && j !in due ==> schedules[j] == old(schedules)[j]
    {
      var saved := schedules;
      claimed := [];
      var i := 0;
      while i < |due|
        invariant i <= |due| && Valid() && |schedules| == |old(schedules)| && |claimed| == i
        invariant forall j :: 0 <= j < i ==>
          && PassesValidator(ClaimedAt(old(schedules)[due[j]], now))
          && claimed[j] == ClaimedSchedule(due[j], ExecutionWindow(old(schedules)[due[j]], now))
          && schedules[due[j]] == ClaimedAt(old(schedules)[due[j]], now)
        invariant forall j :: 0 <= j < |schedules| && j !in due[..i] ==> schedules[j] == old(schedules)[j]
      {
        assert due[..i + 1] == due[..i] + [due[i]];
        assert due[i] !in due[..i];
        var s := schedules[due[i]];
        var window := ExecutionWindow(s, now);
        s := s.(lastRunAt := Some(window.end));
        s := s.(nextRunAt := Some(NextRun(s, now)));
        if !PassesValidator(s) {
          assert !PassesValidator(ClaimedAt(old(schedules)[due[i]], now));
          schedules := saved;
          return false, [];
        }
        schedules := schedules[due[i] := s];
        claimed := claimed + [ClaimedSchedule(due[i], window)];
        i := i + 1;
      }
      assert due[..i] == due;
      ok := true;
    }
  }
}
