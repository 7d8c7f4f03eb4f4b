/**
 Whole runs of the alert engine: every interleaving of rule evaluations, UPS clean-ups, traps, acknowledgements,
 manual resolutions, rule deletions, and escalation checks that work row by row on what they loaded earlier.
 */
module AlertRuns {
  import opened Prelude
  import opened AlertData
  import opened AlertSpec
  import opened AlertEvaluation

  datatype Step =
    | Evaluate(latest: Latest, rule: Rule, windows: seq<Window>, now: Time)
    | ClearUps(latest: Latest, now: Time)
    | TrapReceived(scope: Scope, trap: Trap, severity: Severity, now: Time)
    | AcknowledgeAction(i: nat, commented: bool, now: Time)
    | ResolveAction(i: nat, commented: bool, now: Time)
    | EscalateRow(i: nat, readAt: nat, seen: Alert, policies: seq<Policy>, now: Time)
    | RuleDeleted(ruleId: RuleId)

  function Next(db: Db, step: Step): Db
  {
    match step
    case Evaluate(latest, rule, windows, now) => EvaluateRule(db, latest, rule, windows, now)
    case ClearUps(latest, now) => ResolveUpsTrap(db, latest, now)
    case TrapReceived(scope, trap, severity, now) => ReceiveTrap(db, scope, trap, severity, now)
    case AcknowledgeAction(i, commented, now) => if i < |db.alerts| then Acknowledge(db, i, commented, now) else db
    case ResolveAction(i, commented, now) => if i < |db.alerts| then ManuallyResolve(db, i, commented, now) else db
    case EscalateRow(i, _, seen, policies, now) =>
      if i < |db.alerts| then db.(alerts := db.alerts[i := EscalateBy(db.alerts[i], seen, policies, now)]) else db
    case RuleDeleted(rule) => DeleteRule(db, rule)
  }

  /** What a check escalates at step `n` it loaded, as an active row, at some earlier moment of the run. */
  ghost predicate LoadedEarlier(trace: seq<Db>, step: Step, n: nat)
  {
    step.EscalateRow? ==>
      && step.readAt <= n < |trace| && step.i < |trace[step.readAt].alerts|
      && step.seen == trace[step.readAt].alerts[step.i] && step.seen.IsActive()
  }

  ghost predicate StepAt(trace: seq<Db>, steps: seq<Step>, n: nat)
    requires n < |steps| && n + 1 < |trace|
  {
    trace[n + 1] == Next(trace[n], steps[n]) && LoadedEarlier(trace, steps[n], n)
  }

  /** The tables before and after each step of a run. */
  ghost predicate IsRun(trace: seq<Db>, steps: seq<Step>)
  {
    && |trace| == |steps| + 1
    && forall n :: 0 <= n < |steps| ==> StepAt(trace, steps, n)
  }

  const EMPTY_DB := Db([], map[])

  // ----- Rows and their counters -----

  function Count(logs: seq<LogEntry>, action: Action): nat
  {
    if logs == [] then 0
    else Count(logs[..|logs| - 1], action) + if logs[|logs| - 1].action == action then 1 else 0
  }

  lemma AppendCount(logs: seq<LogEntry>, e: LogEntry, action: Action)
    ensures Count(logs + [e], action) == Count(logs, action) + if e.action == action then 1 else 0
  {
    assert (logs + [e])[..|logs|] == logs;
  }

  predicate CreationEntry(e: LogEntry)
  {
    e.action == LogOpened || (e.action == LogSuppressed && e.oldStatus.None?)
  }

  /** Column consistency of one row. */
  predicate ColumnsOk(a: Alert)
  {
    && (a.status == Open ==> a.acknowledgedAt.None?)
    && (a.IsActive() ==> a.resolvedAt.None? && a.resolution.None?)
    && (a.status == Acknowledged ==> a.acknowledgedAt.Some?)
    && (a.status == Resolved ==> a.resolvedAt.Some? && a.resolution.Some?)
    && (a.status == Suppressed ==> a.resolution == Some(BySuppression))
  }

  /** Exactly one creation entry, at the front, and the tallies of two kinds of entries. */
  ghost predicate Tally(logs: seq<LogEntry>, updates: int, acknowledgements: int)
  {
    && logs != []
    && CreationEntry(logs[0])
    && (forall i :: 0 < i < |logs| ==> !CreationEntry(logs[i]))
    && Count(logs, LogUpdated) == updates
    && Count(logs, LogAcknowledged) == acknowledgements
  }

  /** The log accounts for the row's counters. */
  ghost predicate RowOk(a: Alert)
  {
    ColumnsOk(a) && Tally(a.logs, a.occurrences - 1, if a.acknowledgedAt.Some? then 1 else 0)
  }

  function Rank(s: Status): nat
  {
    match s
    case Open => 0
    case Acknowledged => 1
    case Resolved => 2
    case Suppressed => 2
  }

  /** How a row may change in any number of steps. */
  ghost predicate Advances(a: Alert, b: Alert)
  {
    && b.scope == a.scope && b.metric == a.metric && b.triggeredAt == a.triggeredAt
    && (b.rule == a.rule || b.rule.None?)
    && Rank(a.status) <= Rank(b.status)
    && a.logs <= b.logs
    && (RowOk(a) ==> RowOk(b))
  }

  // ----- Row transitions advance -----

  lemma CreatedIsOk(scope: Scope, metric: Option<MetricId>, rule: Option<RuleId>, severity: Severity, status: Status,
                    values: Columns, now: Time, trap: Option<Trap>)
    requires status == Open || status == Suppressed
    ensures RowOk(Created(scope, metric, rule, severity, status, values, now, trap))
  {
    var a := Created(scope, metric, rule, severity, status, values, now, trap);
    AppendCount([], a.logs[0], LogUpdated);
    AppendCount([], a.logs[0], LogAcknowledged);
    assert [] + [a.logs[0]] == a.logs;
  }

  lemma AppendTally(logs: seq<LogEntry>, updates: int, acknowledgements: int, e: LogEntry)
    requires Tally(logs, updates, acknowledgements) && !CreationEntry(e)
    ensures Tally(logs + [e], updates + (if e.action == LogUpdated then 1 else 0),
                  acknowledgements + (if e.action == LogAcknowledged then 1 else 0))
  {
    AppendCount(logs, e, LogUpdated);
    AppendCount(logs, e, LogAcknowledged);
  }

  /** The tally of a sound row after one more entry. */
  lemma TallyOf(a: Alert, e: LogEntry)
    requires RowOk(a) && !CreationEntry(e)
    ensures a.occurrences >= 1
    ensures Tally(a.logs + [e], a.occurrences - 1 + (if e.action == LogUpdated then 1 else 0),
                  (if a.acknowledgedAt.Some? then 1 else 0) + (if e.action == LogAcknowledged then 1 else 0))
  {
    AppendTally(a.logs, a.occurrences - 1, if a.acknowledgedAt.Some? then 1 else 0, e);
  }

  lemma UpdatedAdvances(a: Alert, latest: Latest, trap: Trap, severity: Severity, now: Time)
    ensures Advances(a, Updated(a, latest, now)) && Advances(a, TrapUpdated(a, trap, severity, now))
  {
    if RowOk(a) {
      TallyOf(a, LogEntry(LogUpdated, Some(a.status), a.status));
    }
  }

  lemma ClosedAdvances(a: Alert, how: Resolution, now: Time)
    ensures Advances(a, ResolvedRow(a, how, now)) && Advances(a, SuppressedRow(a, now))
  {
    if RowOk(a) {
      TallyOf(a, LogEntry(LogResolved, Some(a.status), Resolved));
      TallyOf(a, LogEntry(LogSuppressed, Some(a.status), Suppressed));
    }
  }

  lemma ManuallyResolvedAdvances(a: Alert, commented: bool, now: Time)
    ensures Advances(a, ManuallyResolvedRow(a, commented, now))
  {
    var b := ResolvedRow(a, Manual, now);
    ClosedAdvances(a, Manual, now);
    if RowOk(a) && commented {
      TallyOf(b, LogEntry(LogCommented, Some(Resolved), Resolved));
    }
  }

  lemma AcknowledgedAdvances(a: Alert, commented: bool, now: Time)
    ensures Advances(a, AcknowledgedRow(a, commented, now))
  {
    if a.status == Open && RowOk(a) {
      var comment, e := LogEntry(LogCommented, Some(Acknowledged), Acknowledged),
          LogEntry(LogAcknowledged, Some(Open), Acknowledged);
      TallyOf(a, e);
      TallyOf(a, comment);
      AppendTally(a.logs + [comment], a.occurrences - 1, 0, e);
    }
  }

  lemma EscalatedFromAdvances(a: Alert, seen: Alert, p: PolicyId)
    ensures Advances(a, EscalatedFrom(a, seen, p))
  {
    if RowOk(a) {
      TallyOf(a, LogEntry(LogEscalated(p), Some(seen.status), seen.status));
    }
  }

  lemma EscalatedAdvances(a: Alert, seen: Alert, policies: seq<Policy>, now: Time)
    ensures Advances(a, EscalateBy(a, seen, policies, now))
  {
    var p := Chosen(seen, policies, now);
    EscalatesByChoice(a, seen, policies, now);
    if p.Some? {
      EscalatedFromAdvances(a, seen, p.value);
    }
  }

  lemma UnlinkedAdvances(a: Alert, rule: RuleId)
    ensures Advances(a, Unlinked(a, rule))
  {
  }

  // ----- One step -----

  /** Every row of `e` that `d` already had has advanced; at most one row is new, and it is sound. */
  ghost predicate Extends(d: Db, e: Db)
  {
    && |d.alerts| <= |e.alerts| <= |d.alerts| + 1
    && (forall i :: 0 <= i < |d.alerts| ==> Advances(d.alerts[i], e.alerts[i]))
    && (|d.alerts| < |e.alerts| ==> RowOk(e.alerts[|d.alerts|]))
  }

  lemma EvaluateExtends(db: Db, latest: Latest, rule: Rule, windows: seq<Window>, now: Time)
    ensures Extends(db, EvaluateRule(db, latest, rule, windows, now))
  {
    var found := Newest(db.alerts, ForRule(KeyOf(latest, rule)));
    if found.Some? {
      var a := db.alerts[found.value];
      UpdatedAdvances(a, latest, Trap("", None, ""), Info, now);
      ClosedAdvances(a, Auto, now);
    } else {
      CreatedIsOk(latest.scope, Some(latest.metric), Some(rule.id), rule.severity, Open, latest.values, now, None);
      CreatedIsOk(latest.scope, Some(latest.metric), Some(rule.id), rule.severity, Suppressed, latest.values, now,
          None);
    }
  }

  lemma TrapExtends(db: Db, scope: Scope, trap: Trap, severity: Severity, now: Time)
    ensures Extends(db, ReceiveTrap(db, scope, trap, severity, now))
  {
    var found := Newest(db.alerts, ForTrap(scope, trap.oid));
    if found.Some? {
      UpdatedAdvances(db.alerts[found.value], Latest(scope, 0, Columns(None, None, None, None), false), trap,
          severity, now);
    }
    CreatedIsOk(scope, None, None, severity, Open, Columns(None, None, None, None), now, Some(trap));
  }

  lemma StepExtends(db: Db, step: Step)
    ensures Extends(db, Next(db, step))
  {
    match step
    case Evaluate(latest, rule, windows, now) =>
      EvaluateExtends(db, latest, rule, windows, now);
    case ClearUps(latest, now) =>
      var found := Newest(db.alerts, ForUps(latest.scope));
      if found.Some? {
        ClosedAdvances(db.alerts[found.value], Auto, now);
      }
    case TrapReceived(scope, trap, severity, now) =>
      TrapExtends(db, scope, trap, severity, now);
    case AcknowledgeAction(i, commented, now) =>
      if i < |db.alerts| {
        AcknowledgedAdvances(db.alerts[i], commented, now);
      }
    case ResolveAction(i, commented, now) =>
      if i < |db.alerts| {
        ManuallyResolvedAdvances(db.alerts[i], commented, now);
      }
    case EscalateRow(i, _, seen, policies, now) =>
      if i < |db.alerts| {
        EscalatedAdvances(db.alerts[i], seen, policies, now);
      }
    case RuleDeleted(rule) =>
      forall i | 0 <= i < |db.alerts| ensures Advances(db.alerts[i], Unlinked(db.alerts[i], rule)) {
        UnlinkedAdvances(db.alerts[i], rule);
      }
  }

  /** A new active row of some key appears only where the key had none. */
  lemma NewRowIsFirst(db: Db, step: Step, k: Key)
    requires |Next(db, step).alerts| > |db.alerts| && Selects(ForRule(k), Next(db, step).alerts[|db.alerts|])
    ensures step.Evaluate? && k == KeyOf(step.latest, step.rule) && Newest(db.alerts, ForRule(k)).None?
  {
  }

  lemma StepKeepsUnique(db: Db, step: Step)
    requires UniqueActive(db)
    ensures UniqueActive(Next(db, step))
  {
    var after := Next(db, step);
    StepExtends(db, step);
    forall k, i, j | 0 <= i < |after.alerts| && 0 <= j < |after.alerts|
                     && Selects(ForRule(k), after.alerts[i]) && Selects(ForRule(k), after.alerts[j])
      ensures i == j
    {
      WasSelected(db, after, k, i);
      WasSelected(db, after, k, j);
      if i == |db.alerts| || j == |db.alerts| {
        NewRowIsFirst(db, step, k);
        NewestNone(db.alerts, ForRule(k));
      }
    }
  }

  lemma WasSelected(d: Db, e: Db, k: Key, i: nat)
    requires Extends(d, e) && i < |e.alerts| && Selects(ForRule(k), e.alerts[i])
    ensures i < |d.alerts| ==> Selects(ForRule(k), d.alerts[i])
  {
  }

  // ----- All runs -----

  ghost predicate Sound(db: Db)
  {
    UniqueActive(db) && forall i :: 0 <= i < |db.alerts| ==> RowOk(db.alerts[i])
  }

  lemma StepKeepsSound(db: Db, step: Step)
    requires Sound(db)
    ensures Sound(Next(db, step))
  {
    StepExtends(db, step);
    StepKeepsUnique(db, step);
    RowsStayOk(db, Next(db, step));
  }

  lemma RowsStayOk(d: Db, e: Db)
    requires Extends(d, e) && forall i :: 0 <= i < |d.alerts| ==> RowOk(d.alerts[i])
    ensures forall i :: 0 <= i < |e.alerts| ==> RowOk(e.alerts[i])
  {
    forall i | 0 <= i < |e.alerts| ensures RowOk(e.alerts[i]) {
      if i < |d.alerts| {
        assert Advances(d.alerts[i], e.alerts[i]);
      }
    }
  }

  /** Every table of every run is sound, whatever the interleaving. */
  lemma {:induction false} RunsAreSound(trace: seq<Db>, steps: seq<Step>, n: nat)
    requires IsRun(trace, steps) && Sound(trace[0]) && n <= |steps|
    ensures Sound(trace[n])
  {
    if n > 0 {
      RunsAreSound(trace, steps, n - 1);
      assert StepAt(trace, steps, n - 1);
      StepKeepsSound(trace[n - 1], steps[n - 1]);
    }
  }

  lemma EmptyIsSound()
    ensures Sound(EMPTY_DB)
  {
  }

  lemma AdvancesFurther(a: Alert, d: Db, e: Db, i: nat)
    requires Extends(d, e) && i < |d.alerts| && Advances(a, d.alerts[i])
    ensures i < |e.alerts| && Advances(a, e.alerts[i])
  {
  }

  lemma AdvancesReflexive(a: Alert)
    ensures Advances(a, a)
  {
  }

  ghost predicate ExtendsAt(trace: seq<Db>, t: nat)
    requires t + 1 < |trace|
  {
    Extends(trace[t], trace[t + 1])
  }

  lemma {:induction false} AdvancesOverTrace(trace: seq<Db>, m: nat, n: nat, i: nat)
    requires m <= n < |trace| && i < |trace[m].alerts|
    requires forall t :: m <= t < n ==> ExtendsAt(trace, t)
    ensures i < |trace[n].alerts| && Advances(trace[m].alerts[i], trace[n].alerts[i])
    decreases n
  {
    if m < n {
      AdvancesOverTrace(trace, m, n - 1, i);
      assert ExtendsAt(trace, n - 1);
      AdvancesFurther(trace[m].alerts[i], trace[n - 1], trace[n], i);
    } else {
      AdvancesReflexive(trace[m].alerts[i]);
    }
  }

  /** Between any two moments of a run a row only advances: its log grows, and a closed alert never reopens. */
  lemma RunsOnlyAdvance(trace: seq<Db>, steps: seq<Step>, m: nat, n: nat, i: nat)
    requires IsRun(trace, steps) && m <= n <= |steps| && i < |trace[m].alerts|
    ensures i < |trace[n].alerts|
    ensures
      var a, b := trace[m].alerts[i], trace[n].alerts[i];
      && Advances(a, b)
      && (!a.IsActive() ==> !b.IsActive())
      && (a.status == Acknowledged ==> b.status != Open)
  {
    forall t | m <= t < n ensures ExtendsAt(trace, t) {
      assert StepAt(trace, steps, t);
      StepExtends(trace[t], steps[t]);
    }
    AdvancesOverTrace(trace, m, n, i);
  }
}
