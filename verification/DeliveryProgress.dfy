/** What a delivery task achieves when nobody interferes: every failed send is retried, up to the limit, and a
    successful one ends it. */
module DeliveryProgress {
  import opened Prelude
  import opened Delivery

  // ----- One step -----

  /** A claim takes the row exactly if it is PENDING or FAILED, and then the task sends; otherwise the task is over. */
  lemma ClaimMeaning(st: State, t: nat)
    requires Enabled(st, Claim(t))
    ensures
      var n := st.tasks[t].notification;
      var after := Next(st, Claim(t));
      && after.tallies == st.tallies && after.clock == st.clock
      && (if st.rows[n].status == Pending || st.rows[n].status == Failed then
            && after.tasks == st.tasks[t := st.tasks[t].(phase := Sending(st.clock))]
            && after.rows == st.rows[n := Notification(Delivering, "", st.clock, st.rows[n].sentAt)]
          else
            && after.tasks == st.tasks[t := st.tasks[t].(phase := Finished)]
            && after.rows == st.rows)
  {
  }

  /** After a successful send the row is SENT as of now and the task over. After a failed one it is FAILED with the
      error, and the task is queued again with one retry more, or over if it had three. */
  lemma MarkMeaning(st: State, t: nat, error: string)
    requires Enabled(st, Mark(t, error))
    ensures
      var task, n := st.tasks[t], st.tasks[t].notification;
      var after := Next(st, Mark(t, error));
      && after.tallies == st.tallies && after.clock == st.clock
      && (task.phase.Delivered? ==>
            && after.rows == st.rows[n := Notification(Sent, "", st.clock, Some(st.clock))]
            && after.tasks == st.tasks[t := task.(phase := Finished)])
      && (!task.phase.Delivered? ==>
            && after.rows == st.rows[n := Notification(Failed, error, st.clock, st.rows[n].sentAt)]
            && after.tasks == st.tasks[t := if task.retries < 3 then task.(retries := task.retries + 1, phase := Queued)
                                            else task.(phase := Finished)])
  {
  }

  /** A requeue takes a row back exactly if it is DELIVERING and was last touched at least the timeout ago. */
  lemma RequeueMeaning(st: State, n: nat, asOf: Time, timeout: Time)
    requires Enabled(st, Requeue(n, asOf, timeout))
    ensures
      Next(st, Requeue(n, asOf, timeout)) ==
        if st.rows[n].status == Delivering && asOf - st.rows[n].updatedAt >= timeout then
          st.(rows := st.rows[n := Notification(Pending, "Requeued after stale DELIVERING timeout", st.clock,
              st.rows[n].sentAt)])
        else st
  {
  }

  // ----- An undisturbed task -----

  predicate Own(step: Step, t: nat)
  {
    (step.Claim? || step.Send? || step.Mark?) && step.t == t
  }

  /** A step that leaves task `t` and its row alone. */
  predicate Elsewhere(st: State, step: Step, t: nat)
    requires t < |st.tasks|
  {
    match step
    case Claim(u) => u < |st.tasks| && u != t && st.tasks[u].notification != st.tasks[t].notification
    case Send(u, _) => u < |st.tasks| && u != t && st.tasks[u].notification != st.tasks[t].notification
    case Mark(u, _) => u < |st.tasks| && u != t && st.tasks[u].notification != st.tasks[t].notification
    case Crash(u) => u < |st.tasks| && u != t && st.tasks[u].notification != st.tasks[t].notification
    case Requeue(n, _, _) => n != st.tasks[t].notification
    case _ => true
  }

  ghost predicate LoneStepAt(trace: seq<State>, steps: seq<Step>, t: nat, k: nat)
    requires k < |steps| && k + 1 < |trace|
  {
    && t < |trace[k].tasks| && Enabled(trace[k], steps[k]) && trace[k + 1] == Next(trace[k], steps[k])
    && (Own(steps[k], t) || Elsewhere(trace[k], steps[k], t))
  }

  /** A run from a fresh task on a PENDING or FAILED row, which no one else touches and whose worker does not die. */
  ghost predicate LoneRun(trace: seq<State>, steps: seq<Step>, t: nat)
  {
    && |trace| == |steps| + 1
    && t < |trace[0].tasks| && trace[0].tasks[t].notification < |trace[0].rows| == |trace[0].tallies|
    && trace[0].tasks[t].retries == 0 && trace[0].tasks[t].attempts == 0 && trace[0].tasks[t].phase == Queued
    && (trace[0].rows[trace[0].tasks[t].notification].status == Pending
        || trace[0].rows[trace[0].tasks[t].notification].status == Failed)
    && forall k :: 0 <= k < |steps| ==> LoneStepAt(trace, steps, t, k)
  }

  /** How many steps of its own a task has behind it. */
  function Position(task: Task): nat
  {
    3 * task.retries + match task.phase
                       case Queued => 0
                       case Sending(_) => 1
                       case Delivered(_) => 2
                       case Broken(_) => 2
                       case Finished => 3
                       case Dead => 3
  }

  /** Where a lone task may stand, given whether a send of its has succeeded. */
  ghost predicate OnTrack(st: State, t: nat, succeeded: bool)
  {
    && t < |st.tasks| && st.tasks[t].notification < |st.rows| == |st.tallies|
    && var task := st.tasks[t];
       var row := st.rows[task.notification];
       && task.retries <= 3
       && task.attempts == task.retries + (if task.phase == Queued || task.phase.Sending? then 0 else 1)
       && match task.phase
          case Queued => !succeeded && (row.status == Pending || row.status == Failed)
          case Sending(_) => !succeeded && row.status == Delivering
          case Broken(_) => !succeeded && row.status == Delivering
          case Delivered(_) => succeeded && row.status == Delivering
          case Finished => if succeeded then row.status == Sent && row.sentAt.Some?
              else row.status == Failed && task.retries == 3
          case Dead => false
  }

  lemma LoneStep(st: State, step: Step, t: nat, succeeded: bool)
    requires OnTrack(st, t, succeeded) && Enabled(st, step) && (Own(step, t) || Elsewhere(st, step, t))
    ensures OnTrack(Next(st, step), t, succeeded || step == Send(t, true))
    ensures Position(Next(st, step).tasks[t]) == Position(st.tasks[t]) + if Own(step, t) then 1 else 0
    ensures succeeded ==> Next(st, step).tasks[t].attempts == st.tasks[t].attempts
  {
  }

  function OwnSteps(steps: seq<Step>, t: nat): nat
  {
    if steps == [] then 0 else OwnSteps(steps[..|steps| - 1], t) + if Own(steps[|steps| - 1], t) then 1 else 0
  }

  ghost predicate Succeeds(steps: seq<Step>, t: nat)
  {
    exists i :: 0 <= i < |steps| && steps[i] == Send(t, true)
  }

  lemma {:induction false} LoneTaskOnTrack(trace: seq<State>, steps: seq<Step>, t: nat, k: nat)
    requires LoneRun(trace, steps, t) && k <= |steps|
    ensures OnTrack(trace[k], t, Succeeds(steps[..k], t))
    ensures Position(trace[k].tasks[t]) == OwnSteps(steps[..k], t)
  {
    if k > 0 {
      LoneTaskOnTrack(trace, steps, t, k - 1);
      assert LoneStepAt(trace, steps, t, k - 1);
      LoneStep(trace[k - 1], steps[k - 1], t, Succeeds(steps[..k - 1], t));
      assert steps[..k][..k - 1] == steps[..k - 1] && steps[..k][k - 1] == steps[k - 1];
      forall i | 0 <= i < k - 1 ensures steps[..k][i] == steps[..k - 1][i] {
      }
    }
  }

  /** A lone task always has a next step of its own until it is finished, which takes at most twelve.  If no send
      succeeds it makes exactly four attempts and leaves the row FAILED; if one does, the row ends SENT. */
  lemma LoneTaskOutcome(trace: seq<State>, steps: seq<Step>, t: nat)
    requires LoneRun(trace, steps, t)
    ensures
      var st := trace[|steps|];
      && t < |st.tasks| && st.tasks[t].notification < |st.rows|
      && OwnSteps(steps, t) <= 12
      && (st.tasks[t].phase != Finished ==>
            || Enabled(st, Claim(t)) || Enabled(st, Mark(t, ""))
            || (Enabled(st, Send(t, true)) && Enabled(st, Send(t, false))))
      && (OwnSteps(steps, t) == 12 ==> st.tasks[t].phase == Finished)
      && (st.tasks[t].phase == Finished ==>
            if Succeeds(steps, t) then st.rows[st.tasks[t].notification].status == Sent
            else st.tasks[t].attempts == 4 && st.rows[st.tasks[t].notification].status == Failed)
  {
    LoneTaskOnTrack(trace, steps, t, |steps|);
    assert steps[..|steps|] == steps;
  }

  lemma AttemptsStep(trace: seq<State>, steps: seq<Step>, t: nat, k: nat)
    requires LoneRun(trace, steps, t) && k < |steps|
    ensures t < |trace[k].tasks| && t < |trace[k + 1].tasks|
    ensures
      var a, b := trace[k].tasks[t].attempts, trace[k + 1].tasks[t].attempts;
      (Succeeds(steps[..k], t) ==> b == a) && (steps[k] == Send(t, true) ==> b == a + 1)
  {
    LoneTaskOnTrack(trace, steps, t, k);
    assert LoneStepAt(trace, steps, t, k);
    LoneStep(trace[k], steps[k], t, Succeeds(steps[..k], t));
  }

  lemma {:induction false} AttemptsKept(trace: seq<State>, steps: seq<Step>, t: nat, i: nat, k: nat)
    requires LoneRun(trace, steps, t) && i < k <= |steps| && steps[i] == Send(t, true)
    ensures t < |trace[i].tasks| && t < |trace[k].tasks|
    ensures trace[k].tasks[t].attempts == trace[i].tasks[t].attempts + 1
    decreases k
  {
    AttemptsStep(trace, steps, t, k - 1);
    if i + 1 < k {
      AttemptsKept(trace, steps, t, i, k - 1);
      assert steps[..k - 1][i] == Send(t, true);
    }
  }

  /** A successful send is the task's last: after its next own step the row is SENT, whichever attempt it was. */
  lemma SuccessEndsTask(trace: seq<State>, steps: seq<Step>, t: nat, i: nat, k: nat)
    requires LoneRun(trace, steps, t) && i < k <= |steps| && steps[i] == Send(t, true)
    ensures t < |trace[i].tasks| && t < |trace[k].tasks| && trace[k].tasks[t].notification < |trace[k].rows|
    ensures trace[k].tasks[t].attempts == trace[i].tasks[t].attempts + 1
    ensures OwnSteps(steps[..k], t) > OwnSteps(steps[..i + 1], t) ==>
      trace[k].tasks[t].phase == Finished && trace[k].rows[trace[k].tasks[t].notification].status == Sent
  {
    AttemptsKept(trace, steps, t, i, i + 1);
    AttemptsKept(trace, steps, t, i, k);
    LoneTaskOnTrack(trace, steps, t, i + 1);
    LoneTaskOnTrack(trace, steps, t, k);
    assert steps[..i + 1][i] == Send(t, true) && steps[..k][i] == Send(t, true);
  }
}
