/** The report-job machine: edits, generation, retry and cancellation racing with any number of generator tasks. */
module ReportJobs {
  import opened Prelude

  datatype Status = Pending | Processing | Completed | Failed | Cancelled

  type Parameters = nat

  /** What a report is built from besides its parameters: template, data centre, organization. */
  type Inputs = nat

  /** A stored file is known by what it was built from. */
  datatype File = File(parameters: Parameters, inputs: Inputs)

  datatype Job = Job(status: Status, parameters: Parameters, inputs: Inputs, file: Option<File>,
                     startedAt: Option<Time>, completedAt: Option<Time>)
  {
    predicate IsTerminal() {
      status == Completed || status == Failed || status == Cancelled
    }
  }

  /** The status and timestamp rules of the model validator. */
  predicate Clean(j: Job)
  {
    && (j.startedAt.Some? && j.completedAt.Some? ==> j.startedAt.value <= j.completedAt.value)
    && (j.status == Pending ==> j.startedAt.None? && j.completedAt.None?)
    && (j.status == Processing ==> j.startedAt.Some? && j.completedAt.None?)
    && (j.IsTerminal() ==> j.startedAt.Some? && j.completedAt.Some?)
  }

  /** A waiting job has no times, a running one only its start, a finished one both and in order. */
  lemma CleanMeaning(j: Job)
    ensures Clean(j) <==>
      match j.status
      case Pending => j.startedAt.None? && j.completedAt.None?
      case Processing => j.startedAt.Some? && j.completedAt.None?
      case _ => j.startedAt.Some? && j.completedAt.Some? && j.completedAt.value >= j.startedAt.value
  {
  }

  // ----- Row operations: the row each action tries to save -----

  function OrElse(t: Option<Time>, now: Time): Option<Time>
  {
    if t.Some? then t else Some(now)
  }

  /** A parameter edit drops the file and sends a finished job back to PENDING. */
  function Edited(j: Job, parameters: Parameters, inputs: Inputs): Option<Job>
  {
    if parameters == j.parameters then Some(j.(inputs := inputs))
    else if j.status == Processing then None
    else
      var reset := if j.IsTerminal() then j.(status := Pending, startedAt := None, completedAt := None) else j;
      Some(reset.(file := None, parameters := parameters, inputs := inputs))
  }

  function Enqueued(j: Job): Job
  {
    var reset := if j.status == Failed then j.(status := Pending, startedAt := None, completedAt := None) else j;
    reset.(file := None)
  }

  function CancelledAt(j: Job, now: Time): Job
  {
    j.(status := Cancelled, file := None, startedAt := OrElse(j.startedAt, now), completedAt := Some(now))
  }

  function Started(j: Job, now: Time): Job
  {
    j.(status := Processing, startedAt := OrElse(j.startedAt, now))
  }

  function CompletedAt(j: Job, file: File, now: Time): Job
  {
    j.(status := Completed, file := Some(file), completedAt := Some(now))
  }

  function FailedAt(j: Job, now: Time): Job
  {
    j.(status := Failed, completedAt := Some(now))
  }

  // ----- The machine -----

  datatype Generator = Queued | Building(snapshot: File) | Finished | Crashed(snapshot: File)
  {
    predicate Holds() {
      Building? || Crashed?
    }
  }

  datatype State = State(clock: Time, job: Job, generators: seq<Generator>)

  datatype Step =
    | Edit(parameters: Parameters, inputs: Inputs)
    | GenerateAction
    | RetryAction
    | CancelAction
    | Dispatch
    | Start(g: nat, asOf: Time)
    | Finish(g: nat, ok: bool)
    | Crash(g: nat)
    | Tick(elapsed: Time)

  predicate Enabled(st: State, step: Step)
  {
    match step
    case Start(g, asOf) => g < |st.generators| && st.generators[g] == Queued && asOf <= st.clock
    case Finish(g, _) => g < |st.generators| && st.generators[g].Building?
    case Crash(g) => g < |st.generators| && st.generators[g].Building?
    case Tick(elapsed) => elapsed >= 0
    case _ => true
  }

  /** The row a step tries to save, if it gets that far. */
  function Attempt(st: State, step: Step): Option<Job>
    requires Enabled(st, step)
  {
    var j := st.job;
    match step
    case Edit(parameters, inputs) => Edited(j, parameters, inputs)
    case GenerateAction => if j.status == Pending || j.status == Failed then Some(Enqueued(j)) else None
    case RetryAction => if j.status == Failed then Some(Enqueued(j)) else None
    case CancelAction => if j.status == Pending then Some(CancelledAt(j, st.clock)) else None
    case Start(_, asOf) => if j.status == Pending || j.status == Failed then Some(Started(j, asOf)) else None
    case Finish(g, ok) =>
      if !ok then Some(FailedAt(j, st.clock))
      else if j.status == Cancelled then None
      else Some(CompletedAt(j, st.generators[g].snapshot, st.clock))
    case _ => None
  }

  /** Saving validates first; a rejected row is not stored. */
  function Stored(st: State, step: Step): Job
    requires Enabled(st, step)
  {
    var row := Attempt(st, step);
    if row.Some? && Clean(row.value) then row.value else st.job
  }

  predicate Accepted(st: State, step: Step)
    requires Enabled(st, step)
  {
    Attempt(st, step).Some? && Clean(Attempt(st, step).value)
  }

  function NextGenerators(st: State, step: Step): seq<Generator>
    requires Enabled(st, step)
  {
    match step
    case GenerateAction => if Accepted(st, step) then st.generators + [Queued] else st.generators
    case RetryAction => if Accepted(st, step) then st.generators + [Queued] else st.generators
    case Dispatch => st.generators + [Queued]
    case Start(g, _) =>
      st.generators[g := if Accepted(st, step) then Building(File(st.job.parameters, st.job.inputs)) else Finished]
    case Finish(g, _) => st.generators[g := Finished]
    case Crash(g) => st.generators[g := Crashed(st.generators[g].snapshot)]
    case _ => st.generators
  }

  function Next(st: State, step: Step): State
    requires Enabled(st, step)
  {
    State(st.clock + (if step.Tick? then step.elapsed else 0), Stored(st, step), NextGenerators(st, step))
  }

  // ----- The invariant -----

  /** The job is clean and in the past; it has a file exactly when COMPLETED, built from its current parameters. */
  ghost predicate JobOk(st: State)
  {
    && Clean(st.job)
    && (st.job.startedAt.Some? ==> st.job.startedAt.value <= st.clock)
    && (st.job.file.Some? <==> st.job.status == Completed)
    && (st.job.file.Some? ==> st.job.file.value.parameters == st.job.parameters)
  }

  /** PROCESSING means one generator holds the job, alive or crashed, and it builds from the current parameters. */
  ghost predicate GeneratorsOk(st: State)
  {
    && (forall g :: 0 <= g < |st.generators| && st.generators[g].Holds() ==>
          st.job.status == Processing && st.generators[g].snapshot.parameters == st.job.parameters)
    && (forall g, h | 0 <= g < |st.generators| && 0 <= h < |st.generators| ::
          st.generators[g].Holds() && st.generators[h].Holds() ==> g == h)
    && (st.job.status == Processing ==> exists g :: 0 <= g < |st.generators| && st.generators[g].Holds())
  }

  ghost predicate Inv(st: State)
  {
    JobOk(st) && GeneratorsOk(st)
  }

  predicate Initial(st: State)
  {
    st.job.status == Pending && st.job.file.None? && st.job.startedAt.None? && st.job.completedAt.None? &&
        st.generators == []
  }

  /** Every save is clean, except that a generator may find the job already FAILED; that save is rejected
      and leaves the job as it was. */
  lemma OnlyFailedStartsAreRejected(st: State, step: Step)
    requires Inv(st) && Enabled(st, step) && Attempt(st, step).Some?
    ensures Clean(Attempt(st, step).value) <==> !(step.Start? && st.job.status == Failed)
    ensures step.Start? && st.job.status == Failed ==> Next(st, step).job == st.job
  {
    if step.Finish? {
      assert st.generators[step.g].Holds();
    }
  }

  lemma StepKeepsInv(st: State, step: Step)
    requires Inv(st) && Enabled(st, step)
    ensures Inv(Next(st, step))
  {
    var after := Next(st, step);
    if Attempt(st, step).Some? {
      OnlyFailedStartsAreRejected(st, step);
    }
    if step.Finish? || step.Crash? {
      assert st.generators[step.g].Holds();
    }
    if step.Start? && st.job.status == Pending {
      assert after.generators[step.g].Holds();
    }
    if step.Crash? {
      assert after.generators[step.g].Holds();
    }
    if st.job.status == Processing && !step.Finish? {
      var g :| 0 <= g < |st.generators| && st.generators[g].Holds();
      assert after.generators[g].Holds();
    }
  }

  ghost predicate StepAt(trace: seq<State>, steps: seq<Step>, n: nat)
    requires n < |steps| && n + 1 < |trace|
  {
    Enabled(trace[n], steps[n]) && trace[n + 1] == Next(trace[n], steps[n])
  }

  ghost predicate IsRun(trace: seq<State>, steps: seq<Step>)
  {
    && |trace| == |steps| + 1
    && Initial(trace[0])
    && forall n :: 0 <= n < |steps| ==> StepAt(trace, steps, n)
  }

  lemma {:induction false} RunsKeepInv(trace: seq<State>, steps: seq<Step>, n: nat)
    requires IsRun(trace, steps) && n <= |steps|
    ensures Inv(trace[n])
  {
    if n > 0 {
      RunsKeepInv(trace, steps, n - 1);
      assert StepAt(trace, steps, n - 1);
      StepKeepsInv(trace[n - 1], steps[n - 1]);
    }
  }

  /** In every run: a file exactly when COMPLETED, always built from the current parameters; and with no
      crashed generator, PROCESSING exactly when one generator is building. */
  lemma FilesStayFresh(trace: seq<State>, steps: seq<Step>, n: nat)
    requires IsRun(trace, steps) && n <= |steps|
    ensures
      var st := trace[n];
      && (st.job.file.Some? <==> st.job.status == Completed)
      && (st.job.file.Some? ==> st.job.file.value.parameters == st.job.parameters)
      && ((forall g :: 0 <= g < |st.generators| ==> !st.generators[g].Crashed?) ==>
            (st.job.status == Processing <==> exists g :: 0 <= g < |st.generators| && st.generators[g].Building?))
      && (forall g, h | 0 <= g < |st.generators| && 0 <= h < |st.generators| ::
            st.generators[g].Building? && st.generators[h].Building? ==> g == h)
  {
    RunsKeepInv(trace, steps, n);
    var st := trace[n];
    if st.job.status == Processing {
      var g :| 0 <= g < |st.generators| && st.generators[g].Holds();
      assert st.generators[g].Building? || st.generators[g].Crashed?;
    }
    assert forall g :: 0 <= g < |st.generators| && st.generators[g].Building? ==> st.generators[g].Holds();
  }

  // ----- The other build inputs -----

  /** File and builds in progress reflect the current template and scope. */
  ghost predicate InputsFresh(st: State)
  {
    && (st.job.file.Some? ==> st.job.file.value.inputs == st.job.inputs)
    && (forall g :: 0 <= g < |st.generators| && st.generators[g].Holds() ==>
        st.generators[g].snapshot.inputs == st.job.inputs)
  }

  /** Only an edit can make them stale, and exactly one that changes them but not the parameters
      while a file or a build exists. */
  lemma InputsFreshExactly(st: State, step: Step)
    requires Inv(st) && InputsFresh(st) && Enabled(st, step)
    ensures InputsFresh(Next(st, step)) <==>
      !(step.Edit? && step.parameters == st.job.parameters && step.inputs != st.job.inputs
        && (st.job.status == Completed || st.job.status == Processing))
  {
    var after := Next(st, step);
    if Attempt(st, step).Some? {
      OnlyFailedStartsAreRejected(st, step);
    }
    if step.Edit? && st.job.status == Processing {
      var g :| 0 <= g < |st.generators| && st.generators[g].Holds();
      assert after.generators[g].Holds();
    }
    if step.Finish? || step.Crash? {
      assert st.generators[step.g].Holds();
    }
  }

  /** A job generated and then moved to another template keeps the file of the first one. */
  lemma StaleInputsHappen()
    ensures
      var s0 := State(0, Job(Pending, 1, 1, None, None, None), []);
      var s1 := Next(s0, GenerateAction);
      && s1.generators == [Queued]
      && var s2 := Next(s1, Start(0, 0));
         && s2.generators == [Building(File(1, 1))]
         && var s3 := Next(Next(s2, Finish(0, true)), Edit(1, 2));
            s3.job.status == Completed && s3.job.inputs == 2 && s3.job.file == Some(File(1, 1))
  {
  }

  // ----- What each action does to the job -----

  /** An edit is refused exactly if it changes the parameters of a PROCESSING job.  Accepted, it stores the parameters
      and inputs it was given; if the parameters changed, the file is gone and a finished job waits again; if not,
      status, file and times stay. */
  lemma EditMeaning(st: State, parameters: Parameters, inputs: Inputs)
    requires Inv(st)
    ensures
      var a, b := st.job, Next(st, Edit(parameters, inputs)).job;
      if parameters != a.parameters && a.status == Processing then b == a
      else
        && b.parameters == parameters && b.inputs == inputs
        && (parameters == a.parameters ==>
              b.status == a.status && b.file == a.file && b.startedAt == a.startedAt && b.completedAt == a.completedAt)
        && (parameters != a.parameters ==>
              b.status == Pending && b.file.None? && b.startedAt.None? && b.completedAt.None?)
    ensures Next(st, Edit(parameters, inputs)).generators == st.generators
  {
  }

  /** Generate takes a PENDING or FAILED job and retry only a FAILED one: the job is PENDING without file and times, and
      one more generator is queued.  Otherwise nothing happens. */
  lemma EnqueueMeaning(st: State, step: Step)
    requires Inv(st) && (step == GenerateAction || step == RetryAction)
    ensures
      var a, after := st.job, Next(st, step);
      if a.status == Failed || (a.status == Pending && step == GenerateAction) then
        && after.job == Job(Pending, a.parameters, a.inputs, None, None, None)
        && after.generators == st.generators + [Queued]
      else after == st
  {
  }

  /** Only a PENDING job is cancelled, with both times set to the clock. */
  lemma CancelMeaning(st: State)
    requires Inv(st)
    ensures
      var a := st.job;
      Next(st, CancelAction) ==
        if a.status == Pending then
          st.(job := Job(Cancelled, a.parameters, a.inputs, None, Some(st.clock), Some(st.clock)))
        else st
  {
  }

  /** A generator starts on a PENDING job only, and builds from what the job then says. */
  lemma StartMeaning(st: State, g: nat, asOf: Time)
    requires Inv(st) && Enabled(st, Start(g, asOf))
    ensures
      var a, after := st.job, Next(st, Start(g, asOf));
      if a.status == Pending then
        && after.job == Job(Processing, a.parameters, a.inputs, None, Some(asOf), None)
        && after.generators == st.generators[g := Building(File(a.parameters, a.inputs))]
      else after == st.(generators := st.generators[g := Finished])
  {
  }

  /** A finishing generator leaves its job COMPLETED with the file it built, or FAILED without one, as of now. */
  lemma FinishMeaning(st: State, g: nat, ok: bool)
    requires Inv(st) && Enabled(st, Finish(g, ok))
    ensures st.job.status == Processing
    ensures
      var a, after := st.job, Next(st, Finish(g, ok));
      && after.job == Job(if ok then Completed else Failed, a.parameters, a.inputs,
                          if ok then Some(st.generators[g].snapshot) else None, a.startedAt, Some(st.clock))
      && after.generators == st.generators[g := Finished]
  {
    assert st.generators[g].Holds();
  }

  // ----- An edit reaches the file -----

  ghost predicate NoEdits(steps: seq<Step>, m: nat, n: nat)
    requires n <= |steps|
  {
    forall k :: m <= k < n ==> !steps[k].Edit?
  }

  lemma {:induction false} ParametersKept(trace: seq<State>, steps: seq<Step>, m: nat, n: nat)
    requires IsRun(trace, steps) && m <= n <= |steps| && NoEdits(steps, m, n)
    ensures trace[n].job.parameters == trace[m].job.parameters && trace[n].job.inputs == trace[m].job.inputs
    ensures InputsFresh(trace[m]) ==> InputsFresh(trace[n])
    decreases n
  {
    if m < n {
      ParametersKept(trace, steps, m, n - 1);
      RunsKeepInv(trace, steps, n - 1);
      assert StepAt(trace, steps, n - 1);
      if InputsFresh(trace[m]) {
        InputsFreshExactly(trace[n - 1], steps[n - 1]);
      }
    }
  }

  /** In every run, from an accepted edit to the next one the job has the edit's parameters and inputs, whatever file it
      gets was built from those parameters, and from those inputs too if the edit changed the parameters. */
  lemma EditReachesFile(trace: seq<State>, steps: seq<Step>, m: nat, n: nat)
    requires IsRun(trace, steps) && m < n <= |steps| && NoEdits(steps, m + 1, n) && steps[m].Edit?
    requires steps[m].parameters == trace[m].job.parameters || trace[m].job.status != Processing
    ensures trace[n].job.parameters == steps[m].parameters && trace[n].job.inputs == steps[m].inputs
    ensures trace[n].job.file.Some? ==> trace[n].job.file.value.parameters == steps[m].parameters
    ensures trace[n].job.file.Some? && steps[m].parameters != trace[m].job.parameters ==>
      trace[n].job.file == Some(File(steps[m].parameters, steps[m].inputs))
  {
    RunsKeepInv(trace, steps, m);
    RunsKeepInv(trace, steps, n);
    assert StepAt(trace, steps, m);
    EditMeaning(trace[m], steps[m].parameters, steps[m].inputs);
    if steps[m].parameters != trace[m].job.parameters {
      assert InputsFresh(trace[m + 1]);
    }
    ParametersKept(trace, steps, m + 1, n);
  }
}
