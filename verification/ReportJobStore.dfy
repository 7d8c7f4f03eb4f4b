/** A report job as the mutable object the serializer, the views and the generator assign to and save. */
module ReportJobStore {
  import opened Prelude
  import opened ReportJobs

  class Record {
    var status: Status
    var parameters: Parameters
    var inputs: Inputs
    var file: Option<File>
    var startedAt: Option<Time>
    var completedAt: Option<Time>

    function Row(): Job
      reads this
    {
      Job(status, parameters, inputs, file, startedAt, completedAt)
    }

    constructor (parameters: Parameters, inputs: Inputs)
      ensures Row() == Job(Pending, parameters, inputs, None, None, None)
    {
      this.status, this.parameters, this.inputs := Pending, parameters, inputs;
      file, startedAt, completedAt := None, None, None;
    }

    /** Ends a transaction: keeps the assigned fields if they pass the validator, else restores the stored row. */
    method Save(stored: Job) returns (ok: bool)
      modifies this
      ensures ok == Clean(old(Row()))
      ensures Row() == if ok then old(Row()) else stored
    {
      ok := Clean(Row());
      if !ok {
        status, parameters, inputs := stored.status, stored.parameters, stored.inputs;
        file, startedAt, completedAt := stored.file, stored.startedAt, stored.completedAt;
      }
    }

    /** What a save attempt leaves behind. */
    ghost predicate Outcome(before: Job, attempt: Option<Job>, ok: bool)
      reads this
    {
      && (ok <==> attempt.Some? && Clean(attempt.value))
      && Row() == if ok then attempt.value else before
    }

    method Update(parameters: Parameters, inputs: Inputs) returns (ok: bool)
      modifies this
      ensures Outcome(old(Row()), Edited(old(Row()), parameters, inputs), ok)
      ensures ok ==> this.parameters == parameters && this.inputs == inputs
      ensures ok && parameters == old(this.parameters) ==>
        status == old(status) && file == old(file) && startedAt == old(startedAt) && completedAt == old(completedAt)
      ensures ok && parameters != old(this.parameters) ==> status == Pending && file.None?
      ensures ok ==> parameters == old(this.parameters) || old(status) != Processing
      ensures !ok ==> Row() == old(Row())
    {
      var stored := Row();
      if parameters != this.parameters {
        if status == Processing {
          return false;
        }
        if file.Some? {
          file := None;
        }
        if status == Completed || status == Failed || status == Cancelled {
          status := Pending;
          startedAt := None;
          completedAt := None;
        }
      }
      this.parameters := parameters;
      this.inputs := inputs;
      ok := Save(stored);
    }

    method EnqueueGeneration() returns (ok: bool)
      modifies this
      ensures Outcome(old(Row()), Some(Enqueued(old(Row()))), ok)
      ensures ok ==> file.None? && parameters == old(parameters) && inputs == old(inputs)
      ensures ok && old(status) == Failed ==> status == Pending && startedAt.None? && completedAt.None?
      ensures ok && old(status) != Failed ==>
        status == old(status) && startedAt == old(startedAt) && completedAt == old(completedAt)
    {
      var stored := Row();
      if status == Failed {
        status := Pending;
        startedAt := None;
        completedAt := None;
      }
      if file.Some? {
        file := None;
      }
      ok := Save(stored);
    }

    method Cancel(now: Time) returns (ok: bool)
      modifies this
      ensures Outcome(old(Row()), if old(status) == Pending then Some(CancelledAt(old(Row()), now)) else None, ok)
      ensures ok ==> status == Cancelled && file.None? && completedAt == Some(now)
      ensures ok ==> startedAt == if old(startedAt).Some? then old(startedAt) else Some(now)
      ensures ok ==> old(status) == Pending && parameters == old(parameters) && inputs == old(inputs)
    {
      if status != Pending {
        return false;
      }
      var stored := Row();
      if file.Some? {
        file := None;
      }
      status := Cancelled;
      if startedAt.None? {
        startedAt := Some(now);
      }
      completedAt := Some(now);
      ok := Save(stored);
    }

    /** The first transaction of the generator. */
    method StartGeneration(now: Time) returns (ok: bool, snapshot: File)
      modifies this
      ensures Outcome(old(Row()), if old(status) == Pending || old(status) == Failed
        then Some(Started(old(Row()), now)) else None, ok)
      ensures ok ==> status == Processing && (old(status) == Pending || old(status) == Failed)
      ensures ok ==> startedAt == if old(startedAt).Some? then old(startedAt) else Some(now)
      ensures ok ==> file == old(file) && parameters == old(parameters) && inputs == old(inputs)
      ensures ok ==> snapshot == File(parameters, inputs)
    {
      snapshot := File(parameters, inputs);
      if status != Pending && status != Failed {
        return false, snapshot;
      }
      var stored := Row();
      status := Processing;
      if startedAt.None? {
        startedAt := Some(now);
      }
      ok := Save(stored);
    }

    /** The second transaction of the generator, after a build that worked. */
    method CompleteGeneration(built: File, now: Time) returns (ok: bool)
      modifies this
      ensures Outcome(old(Row()), if old(status) == Cancelled then None
        else Some(CompletedAt(old(Row()), built, now)), ok)
      ensures ok ==> status == Completed && file == Some(built) && completedAt == Some(now) && old(status) != Cancelled
      ensures ok ==> startedAt == old(startedAt) && parameters == old(parameters) && inputs == old(inputs)
    {
      if status == Cancelled {
        return false;
      }
      var stored := Row();
      if file.Some? {
        file := None;
      }
      file := Some(built);
      status := Completed;
      completedAt := Some(now);
      ok := Save(stored);
    }

    method FailGeneration(now: Time) returns (ok: bool)
      modifies this
      ensures Outcome(old(Row()), Some(FailedAt(old(Row()), now)), ok)
      ensures ok ==> status == Failed && completedAt == Some(now) && file == old(file)
      ensures ok ==> startedAt == old(startedAt) && parameters == old(parameters) && inputs == old(inputs)
    {
      var stored := Row();
      status := Failed;
      completedAt := Some(now);
      ok := Save(stored);
    }
  }
}
