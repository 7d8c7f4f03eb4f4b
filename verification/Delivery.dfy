/**
 Notification delivery: Celery tasks claim a row, send, then mark it, while a periodic job takes rows back
 from workers it believes dead.  The machine covers every interleaving, with crashes at any point.
 */
module Delivery {
  import opened Prelude

  datatype Status = Pending | Delivering | Sent | Failed

  datatype Notification = Notification(status: Status, errorMessage: string, updatedAt: Time, sentAt: Option<Time>)

  const MAX_RETRIES := 3
  const REQUEUE_MESSAGE := "Requeued after stale DELIVERING timeout"

  // ----- Row operations -----

  predicate Claimable(n: Notification)
  {
    n.status != Sent && n.status != Delivering
  }

  function Claimed(n: Notification, now: Time): Notification
  {
    n.(status := Delivering, errorMessage := "", updatedAt := now)
  }

  predicate Stale(n: Notification, asOf: Time, timeout: Time)
  {
    n.status == Delivering && n.updatedAt <= asOf - timeout
  }

  function Requeued(n: Notification, now: Time): Notification
  {
    n.(status := Pending, errorMessage := REQUEUE_MESSAGE, updatedAt := now)
  }

  function MarkedSent(n: Notification, now: Time): Notification
  {
    n.(status := Sent, errorMessage := "", sentAt := Some(now), updatedAt := now)
  }

  function MarkedFailed(n: Notification, error: string, now: Time): Notification
  {
    n.(status := Failed, errorMessage := error, updatedAt := now)
  }

  // ----- The machine -----

  /** Where a task stands; the in-flight phases remember when the row was claimed. */
  datatype Phase = Queued | Sending(at: Time) | Delivered(at: Time) | Broken(at: Time) | Finished | Dead
  {
    predicate InFlight() {
      Sending? || Delivered? || Broken?
    }
  }

  /** `attempts` counts the sends a task has made (bookkeeping). */
  datatype Task = Task(notification: nat, retries: nat, attempts: nat, phase: Phase)

  /** Successful sends of a notification, and those whose worker died before marking (bookkeeping). */
  datatype Tally = Tally(sends: nat, lost: nat)

  datatype State = State(clock: Time, rows: seq<Notification>, tallies: seq<Tally>, tasks: seq<Task>)

  datatype Step =
    | Create
    | Dispatch(n: nat, retries: nat)
    | Claim(t: nat)
    | Send(t: nat, ok: bool)
    | Mark(t: nat, error: string)
    | Crash(t: nat)
    | Requeue(n: nat, asOf: Time, timeout: Time)
    | Touch(n: nat)
    | Tick(elapsed: Time)

  predicate Enabled(st: State, step: Step)
  {
    match step
    case Create => true
    case Dispatch(n, retries) => n < |st.rows| && retries <= MAX_RETRIES
    case Claim(t) => t < |st.tasks| && st.tasks[t].phase == Queued && st.tasks[t].notification < |st.rows|
    case Send(t, _) =>
      t < |st.tasks| && st.tasks[t].phase.Sending? && st.tasks[t].notification < |st.rows| && |st.tallies| == |st.rows|
    case Mark(t, _) =>
      t < |st.tasks| && (st.tasks[t].phase.Delivered? || st.tasks[t].phase.Broken?) &&
          st.tasks[t].notification < |st.rows|
    case Crash(t) =>
      t < |st.tasks| && st.tasks[t].phase.InFlight() && st.tasks[t].notification < |st.rows| &&
          |st.tallies| == |st.rows|
    case Requeue(n, asOf, _) => n < |st.rows| && asOf <= st.clock
    case Touch(n) => n < |st.rows|
    case Tick(elapsed) => elapsed >= 0
  }

  function SetRow(st: State, n: nat, row: Notification): State
    requires n < |st.rows|
  {
    st.(rows := st.rows[n := row])
  }

  function SetTask(st: State, t: nat, task: Task): State
    requires t < |st.tasks|
  {
    st.(tasks := st.tasks[t := task])
  }

  function SetTally(st: State, n: nat, tally: Tally): State
    requires n < |st.tallies|
  {
    st.(tallies := st.tallies[n := tally])
  }

  function Next(st: State, step: Step): State
    requires Enabled(st, step)
  {
    match step
    case Create =>
      st.(rows := st.rows + [Notification(Pending, "", st.clock, None)], tallies := st.tallies + [Tally(0, 0)])
    case Dispatch(n, retries) => st.(tasks := st.tasks + [Task(n, retries, 0, Queued)])
    case Claim(t) =>
      var task := st.tasks[t];
      var n := task.notification;
      if Claimable(st.rows[n]) then
        SetRow(SetTask(st, t, task.(phase := Sending(st.clock))), n, Claimed(st.rows[n], st.clock))
      else
        SetTask(st, t, task.(phase := Finished))
    case Send(t, ok) =>
      var task := st.tasks[t];
      var n := task.notification;
      var tried := task.(attempts := task.attempts + 1);
      if ok then
        SetTally(SetTask(st, t, tried.(phase := Delivered(task.phase.at))), n,
            st.tallies[n].(sends := st.tallies[n].sends + 1))
      else
        SetTask(st, t, tried.(phase := Broken(task.phase.at)))
    case Mark(t, error) =>
      var task := st.tasks[t];
      var n := task.notification;
      if task.phase.Delivered? then
        SetRow(SetTask(st, t, task.(phase := Finished)), n, MarkedSent(st.rows[n], st.clock))
      else
        var next := if task.retries >= MAX_RETRIES then task.(phase := Finished)
            else task.(phase := Queued, retries := task.retries + 1);
        SetRow(SetTask(st, t, next), n, MarkedFailed(st.rows[n], error, st.clock))
    case Crash(t) =>
      var task := st.tasks[t];
      var n := task.notification;
      var dead := SetTask(st, t, task.(phase := Dead));
      if task.phase.Delivered? then SetTally(dead, n, st.tallies[n].(lost := st.tallies[n].lost + 1)) else dead
    case Requeue(n, asOf, timeout) =>
      if Stale(st.rows[n], asOf, timeout) then SetRow(st, n, Requeued(st.rows[n], st.clock)) else st
    case Touch(n) => SetRow(st, n, st.rows[n].(updatedAt := st.clock))
    case Tick(elapsed) => st.(clock := st.clock + elapsed)
  }

  // ----- The invariant -----

  /** An in-flight task owns its row. */
  ghost predicate TaskOk(st: State, task: Task)
  {
    && task.notification < |st.rows|
    && task.retries <= MAX_RETRIES
    && task.attempts <= task.retries + (if task.phase == Queued || task.phase.Sending? then 0 else 1)
    && (task.phase.InFlight() ==>
          st.rows[task.notification].status == Delivering && task.phase.at <= st.rows[task.notification].updatedAt)
  }

  /** Task `t` is working on notification `n`. */
  predicate WorksOn(st: State, t: nat, n: nat)
    requires t < |st.tasks|
  {
    st.tasks[t].phase.InFlight() && st.tasks[t].notification == n
  }

  predicate SentUnmarked(st: State, t: nat, n: nat)
    requires t < |st.tasks|
  {
    st.tasks[t].phase.Delivered? && st.tasks[t].notification == n
  }

  /** A successful send is in the row's status, in a worker about to mark it, or lost with a dead worker. */
  ghost predicate RowOk(st: State, n: nat)
    requires n < |st.rows| == |st.tallies|
  {
    && st.rows[n].updatedAt <= st.clock
    && (st.rows[n].status == Sent <==> st.rows[n].sentAt.Some?)
    && st.tallies[n].sends == st.tallies[n].lost
                              + (if st.rows[n].status == Sent then 1 else 0)
                              + (if exists t :: 0 <= t < |st.tasks| && SentUnmarked(st, t, n) then 1 else 0)
  }

  ghost predicate OneWorker(st: State)
  {
    forall n, t, u | 0 <= t < |st.tasks| && 0 <= u < |st.tasks| :: WorksOn(st, t, n) && WorksOn(st, u, n) ==> t == u
  }

  ghost predicate Inv(st: State)
  {
    && |st.tallies| == |st.rows|
    && (forall t :: 0 <= t < |st.tasks| ==> TaskOk(st, st.tasks[t]))
    && OneWorker(st)
    && (forall n :: 0 <= n < |st.rows| ==> RowOk(st, n))
  }

  /** Every live worker marks within `timeout` of its claim. */
  ghost predicate Timely(st: State, timeout: Time)
  {
    forall t :: 0 <= t < |st.tasks| && st.tasks[t].phase.InFlight() ==> st.clock < st.tasks[t].phase.at + timeout
  }

  predicate InitialState(st: State)
  {
    st.rows == [] && st.tallies == [] && st.tasks == []
  }

  lemma ClaimOk(st: State, t: nat)
    requires Inv(st) && Enabled(st, Claim(t))
    ensures Inv(Next(st, Claim(t)))
  {
    var after := Next(st, Claim(t));
    assert TaskOk(st, st.tasks[t]);
    forall n | 0 <= n < |after.rows| ensures RowOk(after, n) {
      assert RowOk(st, n);
      assert forall u :: 0 <= u < |st.tasks| ==> SentUnmarked(after, u, n) == SentUnmarked(st, u, n);
    }
    forall u | 0 <= u < |after.tasks| ensures TaskOk(after, after.tasks[u]) {
      assert TaskOk(st, st.tasks[u]);
    }
    forall n, u, w | 0 <= u < |after.tasks| && 0 <= w < |after.tasks| && WorksOn(after, u, n) && WorksOn(after, w, n)
      ensures u == w
    {
      assert TaskOk(st, st.tasks[u]) && TaskOk(st, st.tasks[w]);
      assert u != t ==> WorksOn(st, u, n);
      assert w != t ==> WorksOn(st, w, n);
    }
  }

  lemma SendOk(st: State, t: nat, ok: bool)
    requires Inv(st) && Enabled(st, Send(t, ok))
    ensures Inv(Next(st, Send(t, ok)))
  {
    var after := Next(st, Send(t, ok));
    assert TaskOk(st, st.tasks[t]);
    var m := st.tasks[t].notification;
    forall n | 0 <= n < |after.rows| ensures RowOk(after, n) {
      assert RowOk(st, n);
      assert forall u :: 0 <= u < |st.tasks| && u != t ==> SentUnmarked(after, u, n) == SentUnmarked(st, u, n);
      if n == m {
        assert WorksOn(st, t, n);
        assert forall u :: 0 <= u < |st.tasks| && SentUnmarked(st, u, n) ==> WorksOn(st, u, n);
        assert ok ==> SentUnmarked(after, t, n);
      }
    }
    forall u | 0 <= u < |after.tasks| ensures TaskOk(after, after.tasks[u]) {
      assert TaskOk(st, st.tasks[u]);
    }
    assert forall u, n | 0 <= u < |st.tasks| :: WorksOn(after, u, n) ==> WorksOn(st, u, n);
  }

  lemma MarkOk(st: State, t: nat, error: string)
    requires Inv(st) && Enabled(st, Mark(t, error))
    ensures Inv(Next(st, Mark(t, error)))
  {
    var after := Next(st, Mark(t, error));
    assert TaskOk(st, st.tasks[t]);
    var m := st.tasks[t].notification;
    assert WorksOn(st, t, m);
    forall n | 0 <= n < |after.rows| ensures RowOk(after, n) {
      assert RowOk(st, n);
      assert forall u :: 0 <= u < |st.tasks| && u != t ==> SentUnmarked(after, u, n) == SentUnmarked(st, u, n);
      assert forall u :: 0 <= u < |st.tasks| && SentUnmarked(st, u, n) ==> WorksOn(st, u, n);
      if st.tasks[t].phase.Delivered? {
        assert SentUnmarked(st, t, m);
      }
    }
    forall u | 0 <= u < |after.tasks| ensures TaskOk(after, after.tasks[u]) {
      assert TaskOk(st, st.tasks[u]);
      assert u != t && st.tasks[u].phase.InFlight() ==> WorksOn(st, u, st.tasks[u].notification);
    }
    assert forall u, n | 0 <= u < |st.tasks| :: WorksOn(after, u, n) ==> WorksOn(st, u, n);
  }

  lemma CrashOk(st: State, t: nat)
    requires Inv(st) && Enabled(st, Crash(t))
    ensures Inv(Next(st, Crash(t)))
  {
    var after := Next(st, Crash(t));
    assert TaskOk(st, st.tasks[t]);
    forall n | 0 <= n < |after.rows| ensures RowOk(after, n) {
      assert RowOk(st, n);
      assert forall u :: 0 <= u < |st.tasks| && u != t ==> SentUnmarked(after, u, n) == SentUnmarked(st, u, n);
      assert forall u :: 0 <= u < |st.tasks| && SentUnmarked(st, u, n) ==> WorksOn(st, u, n);
      if SentUnmarked(st, t, n) {
        assert WorksOn(st, t, n);
      }
    }
    forall u | 0 <= u < |after.tasks| ensures TaskOk(after, after.tasks[u]) {
      assert TaskOk(st, st.tasks[u]);
    }
    assert forall u, n | 0 <= u < |st.tasks| :: WorksOn(after, u, n) ==> WorksOn(st, u, n);
  }

  /** Steps that change one row's bookkeeping but neither tasks nor tallies. */
  lemma RowOnlyOk(st: State, n: nat, row: Notification)
    requires Inv(st) && n < |st.rows| && row.updatedAt == st.clock
    requires row.sentAt == st.rows[n].sentAt && (row.status == Sent <==> st.rows[n].status == Sent)
    requires row.status == st.rows[n].status || forall t :: 0 <= t < |st.tasks| ==> !WorksOn(st, t, n)
    ensures Inv(SetRow(st, n, row))
  {
    var after := SetRow(st, n, row);
    forall m | 0 <= m < |after.rows| ensures RowOk(after, m) {
      assert RowOk(st, m);
      assert forall u :: 0 <= u < |st.tasks| ==> SentUnmarked(after, u, m) == SentUnmarked(st, u, m);
    }
    forall u | 0 <= u < |after.tasks| ensures TaskOk(after, after.tasks[u]) {
      assert TaskOk(st, st.tasks[u]) && RowOk(st, n);
      assert st.tasks[u].phase.InFlight() ==> WorksOn(st, u, st.tasks[u].notification);
    }
    assert forall u, m | 0 <= u < |st.tasks| :: WorksOn(after, u, m) == WorksOn(st, u, m);
  }

  lemma QuietStepOk(st: State, step: Step)
    requires Inv(st) && Enabled(st, step) && (step.Create? || step.Dispatch? || step.Tick?)
    ensures Inv(Next(st, step))
  {
    var after := Next(st, step);
    forall u | 0 <= u < |after.tasks| ensures TaskOk(after, after.tasks[u]) {
      if u < |st.tasks| {
        assert TaskOk(st, st.tasks[u]);
      }
    }
    assert forall u, n | 0 <= u < |st.tasks| :: WorksOn(after, u, n) == WorksOn(st, u, n);
    forall n | 0 <= n < |after.rows| ensures RowOk(after, n) {
      assert forall u :: 0 <= u < |st.tasks| ==> SentUnmarked(after, u, n) == SentUnmarked(st, u, n);
      if n < |st.rows| {
        assert RowOk(st, n);
      } else {
        assert forall u :: 0 <= u < |st.tasks| ==> TaskOk(st, st.tasks[u]);
      }
    }
  }

  /** A requeue is harmful exactly when a live worker holds the row and the row looks stale. */
  lemma RequeueSafeExactly(st: State, n: nat, asOf: Time, timeout: Time)
    requires Inv(st) && Enabled(st, Requeue(n, asOf, timeout))
    ensures Inv(Next(st, Requeue(n, asOf, timeout))) <==>
      !(Stale(st.rows[n], asOf, timeout) && exists t :: 0 <= t < |st.tasks| && WorksOn(st, t, n))
  {
    if Stale(st.rows[n], asOf, timeout) {
      if t :| 0 <= t < |st.tasks| && WorksOn(st, t, n) {
        assert !TaskOk(Next(st, Requeue(n, asOf, timeout)), st.tasks[t]);
      } else {
        RowOnlyOk(st, n, Requeued(st.rows[n], st.clock));
      }
    }
  }

  lemma StepKeepsInv(st: State, step: Step, timeout: Time)
    requires Inv(st) && Enabled(st, step) && Timely(st, timeout) && (step.Requeue? ==> step.timeout >= timeout)
    ensures Inv(Next(st, step))
  {
    match step
    case Claim(t) => ClaimOk(st, t);
    case Send(t, ok) => SendOk(st, t, ok);
    case Mark(t, error) => MarkOk(st, t, error);
    case Crash(t) => CrashOk(st, t);
    case Touch(n) => RowOnlyOk(st, n, st.rows[n].(updatedAt := st.clock));
    case Requeue(n, asOf, patience) =>
      RequeueSafeExactly(st, n, asOf, patience);
      forall t | 0 <= t < |st.tasks| && WorksOn(st, t, n) ensures !Stale(st.rows[n], asOf, patience) {
        assert TaskOk(st, st.tasks[t]);
      }
    case _ => QuietStepOk(st, step);
  }

  // ----- All runs -----

  ghost predicate StepAt(trace: seq<State>, steps: seq<Step>, k: nat)
    requires k < |steps| && k + 1 < |trace|
  {
    Enabled(trace[k], steps[k]) && trace[k + 1] == Next(trace[k], steps[k])
  }

  /** A run in which live workers are timely and no requeue is more impatient than they are slow. */
  ghost predicate TimelyRun(trace: seq<State>, steps: seq<Step>, timeout: Time)
  {
    && |trace| == |steps| + 1
    && InitialState(trace[0])
    && (forall k :: 0 <= k < |steps| ==> StepAt(trace, steps, k))
    && (forall k :: 0 <= k < |trace| ==> Timely(trace[k], timeout))
    && (forall k :: 0 <= k < |steps| && steps[k].Requeue? ==> steps[k].timeout >= timeout)
  }

  lemma {:induction false} RunsKeepInv(trace: seq<State>, steps: seq<Step>, timeout: Time, k: nat)
    requires TimelyRun(trace, steps, timeout) && k <= |steps|
    ensures Inv(trace[k])
  {
    if k > 0 {
      RunsKeepInv(trace, steps, timeout, k - 1);
      assert StepAt(trace, steps, k - 1);
      StepKeepsInv(trace[k - 1], steps[k - 1], timeout);
    }
  }

  /** At most one worker at a time, at most one successful send unless a worker died holding one, at most four
      attempts per task. */
  lemma DeliverySafety(trace: seq<State>, steps: seq<Step>, timeout: Time, k: nat, n: nat)
    requires TimelyRun(trace, steps, timeout) && k <= |steps| && n < |trace[k].rows|
    ensures |trace[k].tallies| == |trace[k].rows|
    ensures trace[k].tallies[n].sends <= 1 + trace[k].tallies[n].lost
    ensures forall t, u | 0 <= t < |trace[k].tasks| && 0 <= u < |trace[k].tasks| ::
      WorksOn(trace[k], t, n) && WorksOn(trace[k], u, n) ==> t == u
    ensures forall t :: 0 <= t < |trace[k].tasks| ==> trace[k].tasks[t].attempts <= MAX_RETRIES + 1
  {
    RunsKeepInv(trace, steps, timeout, k);
    var st := trace[k];
    assert RowOk(st, n);
    if st.rows[n].status == Sent {
      forall t | 0 <= t < |st.tasks| ensures !SentUnmarked(st, t, n) {
        assert TaskOk(st, st.tasks[t]);
      }
    }
    forall t | 0 <= t < |st.tasks| ensures st.tasks[t].attempts <= MAX_RETRIES + 1 {
      assert TaskOk(st, st.tasks[t]);
    }
  }

  lemma SentStep(st: State, step: Step, n: nat)
    requires Inv(st) && Enabled(st, step) && n < |st.rows| && st.rows[n].status == Sent
    ensures
      var after := Next(st, step);
      && n < |after.rows| && after.rows[n].status == Sent && after.rows[n].sentAt == st.rows[n].sentAt
      && |st.tallies| == |st.rows| && |after.tallies| == |after.rows| && after.tallies[n] == st.tallies[n]
  {
    forall t | 0 <= t < |st.tasks| ensures !WorksOn(st, t, n) {
      assert TaskOk(st, st.tasks[t]);
    }
    if step.Send? || step.Mark? || step.Crash? {
      assert WorksOn(st, step.t, st.tasks[step.t].notification);
    }
  }

  /** SENT is absorbing: the row keeps its status and send time, and is never sent again. */
  lemma {:induction false} SentIsAbsorbing(trace: seq<State>, steps: seq<Step>, timeout: Time, j: nat, k: nat, n: nat)
    requires TimelyRun(trace, steps, timeout) && j <= k <= |steps| && n < |trace[j].rows| &&
      trace[j].rows[n].status == Sent
    ensures n < |trace[k].rows| && |trace[j].tallies| == |trace[j].rows| && |trace[k].tallies| == |trace[k].rows|
    ensures trace[k].rows[n].status == Sent && trace[k].rows[n].sentAt == trace[j].rows[n].sentAt
    ensures trace[k].tallies[n] == trace[j].tallies[n]
    decreases k
  {
    RunsKeepInv(trace, steps, timeout, k);
    RunsKeepInv(trace, steps, timeout, j);
    if j < k {
      SentIsAbsorbing(trace, steps, timeout, j, k - 1, n);
      RunsKeepInv(trace, steps, timeout, k - 1);
      assert StepAt(trace, steps, k - 1);
      SentStep(trace[k - 1], steps[k - 1], n);
    }
  }

  /** A worker slower than the timeout loses its row, and the notification goes out twice. */
  lemma SlowWorkerSendsTwice(timeout: Time)
    requires timeout > 0
    ensures
      var s0 := State(0, [Notification(Pending, "", 0, None)], [Tally(0, 0)],
          [Task(0, 0, 0, Queued), Task(0, 0, 0, Queued)]);
      var s1 := Next(s0, Claim(0));
      var s2 := Next(s1, Tick(timeout));
      var s3 := Next(s2, Requeue(0, timeout, timeout));
      var s4 := Next(s3, Claim(1));
      var s5 := Next(s4, Send(0, true));
      var s6 := Next(s5, Send(1, true));
      s6.tallies[0] == Tally(2, 0)
  {
    var s0 := State(0, [Notification(Pending, "", 0, None)], [Tally(0, 0)],
        [Task(0, 0, 0, Queued), Task(0, 0, 0, Queued)]);
    var s1 := Next(s0, Claim(0));
    var s2 := Next(s1, Tick(timeout));
    var s3 := Next(s2, Requeue(0, timeout, timeout));
    var s4 := Next(s3, Claim(1));
    assert s4.tasks[0].phase == Sending(0) && s4.tasks[1].phase == Sending(timeout);
  }
}
