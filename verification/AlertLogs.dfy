/**
 What alert logs record, over every run: exactly when the statuses in a log chain up to the row's status, and exactly
 when the escalated policies kept on a row are the ones its log names.
 */
module AlertLogs {
  import opened Prelude
  import opened AlertData
  import opened AlertSpec
  import opened AlertRuns

  // ----- What a step logs -----

  /** No entry, or one that starts at the row's status and ends at its new one. */
  predicate LogsOne(a: Alert, b: Alert)
  {
    && b.escalated == a.escalated
    && ((b.logs == a.logs && b.status == a.status)
        || (&& b.logs != [] && b.logs[..|b.logs| - 1] == a.logs
            && var e := b.logs[|b.logs| - 1];
               && e.oldStatus == Some(a.status) && e.newStatus == b.status
               && (e.action == LogUpdated || e.action == LogResolved || e.action == LogSuppressed)))
  }

  predicate IsEngineStep(step: Step)
  {
    step.Evaluate? || step.ClearUps? || step.TrapReceived? || step.RuleDeleted?
  }

  lemma TransitionsLogOne(a: Alert, latest: Latest, trap: Trap, severity: Severity, how: Resolution, now: Time)
    ensures LogsOne(a, Updated(a, latest, now)) && LogsOne(a, TrapUpdated(a, trap, severity, now))
    ensures LogsOne(a, ResolvedRow(a, how, now)) && LogsOne(a, SuppressedRow(a, now))
  {
  }

  lemma PutRow(alerts: seq<Alert>, found: nat, b: Alert, i: nat)
    requires found < |alerts| && LogsOne(alerts[found], b) && i < |alerts|
    ensures LogsOne(alerts[i], alerts[found := b][i])
  {
  }

  lemma EnsureLogsOne(db: Db, latest: Latest, rule: Rule, suppressed: bool, now: Time, i: nat)
    requires i < |db.alerts|
    ensures
      var after := EnsureAlert(db, latest, rule, suppressed, now);
      i < |after.alerts| && LogsOne(db.alerts[i], after.alerts[i])
  {
    var found := Newest(db.alerts, ForRule(KeyOf(latest, rule)));
    if found.Some? {
      var a := db.alerts[found.value];
      TransitionsLogOne(a, latest, Trap("", None, ""), Info, Auto, now);
      PutRow(db.alerts, found.value, if suppressed then SuppressedRow(a, now) else Updated(a, latest, now), i);
    }
  }

  lemma ResolveLogsOne(db: Db, latest: Latest, rule: Rule, now: Time, i: nat)
    requires i < |db.alerts|
    ensures
      var after := ResolveIfNeeded(db, latest, rule, now);
      i < |after.alerts| && LogsOne(db.alerts[i], after.alerts[i])
  {
    var found := Newest(db.alerts, ForRule(KeyOf(latest, rule)));
    if found.Some? {
      TransitionsLogOne(db.alerts[found.value], latest, Trap("", None, ""), Info, Auto, now);
    }
  }

  lemma EvaluateLogsOne(db: Db, latest: Latest, rule: Rule, windows: seq<Window>, now: Time, i: nat)
    requires i < |db.alerts|
    ensures
      var after := EvaluateRule(db, latest, rule, windows, now);
      i < |after.alerts| && LogsOne(db.alerts[i], after.alerts[i])
  {
    if ConditionHolds(rule, latest) {
      EnsureLogsOne(db, latest, rule, HasSuppression(windows, latest, now), now, i);
    } else {
      ResolveLogsOne(db, latest, rule, now, i);
    }
  }

  lemma TrapLogsOne(db: Db, scope: Scope, trap: Trap, severity: Severity, now: Time, i: nat)
    requires i < |db.alerts|
    ensures
      var after := ReceiveTrap(db, scope, trap, severity, now);
      i < |after.alerts| && LogsOne(db.alerts[i], after.alerts[i])
  {
    var found := Newest(db.alerts, ForTrap(scope, trap.oid));
    if found.Some? {
      TransitionsLogOne(db.alerts[found.value], Latest(scope, 0, Columns(None, None, None, None), false), trap,
                        severity, Auto, now);
    }
  }

  lemma UpsLogsOne(db: Db, latest: Latest, now: Time, i: nat)
    requires i < |db.alerts|
    ensures i < |ResolveUpsTrap(db, latest, now).alerts|
    ensures LogsOne(db.alerts[i], ResolveUpsTrap(db, latest, now).alerts[i])
  {
    var found := Newest(db.alerts, ForUps(latest.scope));
    if found.Some? {
      TransitionsLogOne(db.alerts[found.value], latest, Trap("", None, ""), Info, Auto, now);
    }
  }

  lemma EngineLogsOne(db: Db, step: Step, i: nat)
    requires IsEngineStep(step) && i < |db.alerts|
    ensures i < |Next(db, step).alerts| && LogsOne(db.alerts[i], Next(db, step).alerts[i])
  {
    match step
    case Evaluate(latest, rule, windows, now) => EvaluateLogsOne(db, latest, rule, windows, now, i);
    case ClearUps(latest, now) => UpsLogsOne(db, latest, now, i);
    case TrapReceived(scope, trap, severity, now) => TrapLogsOne(db, scope, trap, severity, now, i);
    case RuleDeleted(_) =>
  }

  /** Any other step changes at most the one row it names. */
  lemma NamedRowOnly(db: Db, step: Step, i: nat)
    requires !IsEngineStep(step) && i < |db.alerts|
    ensures i < |Next(db, step).alerts| && (step.i != i ==> Next(db, step).alerts[i] == db.alerts[i])
  {
  }

  /** A new row has its creation entry and nothing else. */
  lemma NewRow(db: Db, step: Step)
    requires |Next(db, step).alerts| > |db.alerts|
    ensures
      var b := Next(db, step).alerts[|db.alerts|];
      && |b.logs| == 1 && (b.logs[0].action == LogOpened || b.logs[0].action == LogSuppressed)
      && b.logs[0].oldStatus.None? && b.logs[0].newStatus == b.status && b.escalated == []
  {
  }

  // ----- Chains -----

  /** Each entry starts at the status its predecessor ended in, from no status to `final`. */
  predicate Chains(logs: seq<LogEntry>, final: Status)
  {
    && logs != []
    && var e := logs[|logs| - 1];
       && e.newStatus == final
       && if |logs| == 1 then e.oldStatus.None? else e.oldStatus.Some? && Chains(logs[..|logs| - 1], e.oldStatus.value)
  }

  function WithoutComments(logs: seq<LogEntry>): seq<LogEntry>
  {
    if logs == [] then []
    else
      var e := logs[|logs| - 1];
      WithoutComments(logs[..|logs| - 1]) + if e.action == LogCommented then [] else [e]
  }

  lemma AppendWithoutComments(logs: seq<LogEntry>, e: LogEntry)
    ensures WithoutComments(logs + [e])
         == if e.action == LogCommented then WithoutComments(logs) else WithoutComments(logs) + [e]
  {
    assert (logs + [e])[..|logs|] == logs;
    assert WithoutComments(logs) + [] == WithoutComments(logs);
  }

  lemma AppendChain(logs: seq<LogEntry>, e: LogEntry, s: Status)
    requires logs != []
    ensures Chains(logs + [e], s) <==> e.newStatus == s && e.oldStatus.Some? && Chains(logs, e.oldStatus.value)
  {
    assert (logs + [e])[..|logs|] == logs;
  }

  /** If the log chains at all, it ends in `s`. */
  ghost predicate EndsIn(logs: seq<LogEntry>, s: Status)
  {
    logs != [] && forall t :: Chains(logs, t) ==> t == s
  }

  /** From log `l` at status `s` to log `m` at status `t`: a chain survives exactly when nothing `broke` it, and a
      broken one stays broken. */
  ghost predicate ChainStep(l: seq<LogEntry>, s: Status, m: seq<LogEntry>, t: Status, broke: bool)
  {
    EndsIn(l, s) ==> EndsIn(m, t) && (Chains(m, t) <==> Chains(l, s) && !broke)
  }

  /** An entry that starts at the current status continues the chain; one that does not breaks it for good. */
  lemma OneEntry(l: seq<LogEntry>, s: Status, e: LogEntry, t: Status)
    requires e.oldStatus.Some? && (e.oldStatus == Some(s) ==> t == e.newStatus)
    ensures ChainStep(l, s, l + [e], t, e.oldStatus != Some(s))
  {
    if EndsIn(l, s) {
      forall x ensures Chains(l + [e], x) <==> e.newStatus == x && Chains(l, e.oldStatus.value) {
        AppendChain(l, e, x);
      }
    }
  }

  lemma TwoSteps(l: seq<LogEntry>, s: Status, m: seq<LogEntry>, t: Status, n: seq<LogEntry>, u: Status, x: bool,
      y: bool)
    requires ChainStep(l, s, m, t, x) && ChainStep(m, t, n, u, y)
    ensures ChainStep(l, s, n, u, x || y)
  {
  }

  // ----- Chains of one row -----

  /** The log with comments, and the log without them. */
  ghost predicate RowStep(a: Alert, b: Alert, commentsFirst: bool, stale: bool)
  {
    && ChainStep(a.logs, a.status, b.logs, b.status, commentsFirst || stale)
    && ChainStep(WithoutComments(a.logs), a.status, WithoutComments(b.logs), b.status, stale)
  }

  const COMMENT_ON_ACKNOWLEDGEMENT := LogEntry(LogCommented, Some(Acknowledged), Acknowledged)

  /** The step acknowledges row `i` with a comment. */
  predicate CommentsFirst(db: Db, step: Step, i: nat)
    requires i < |db.alerts|
  {
    step.AcknowledgeAction? && step.i == i && step.commented && db.alerts[i].status == Open
  }

  /** The step logs an escalation of row `i` and saves the loaded list with one more policy. */
  predicate Escalates(step: Step, i: nat)
  {
    step.EscalateRow? && step.i == i && Chosen(step.seen, step.policies, step.now).Some?
  }

  /** The step escalates row `i`, whose status is no longer the one that was loaded. */
  predicate Stale(db: Db, step: Step, i: nat)
    requires i < |db.alerts|
  {
    Escalates(step, i) && step.seen.status != db.alerts[i].status
  }

  lemma LoggedRow(a: Alert, b: Alert, e: LogEntry)
    requires b.logs == a.logs + [e] && e.oldStatus.Some? && e.action != LogCommented
    requires e.oldStatus == Some(a.status) ==> b.status == e.newStatus
    ensures RowStep(a, b, false, e.oldStatus != Some(a.status))
    ensures e != COMMENT_ON_ACKNOWLEDGEMENT
  {
    OneEntry(a.logs, a.status, e, b.status);
    AppendWithoutComments(a.logs, e);
    OneEntry(WithoutComments(a.logs), a.status, e, b.status);
  }

  lemma ManuallyResolvedChains(a: Alert, commented: bool, now: Time)
    ensures RowStep(a, ManuallyResolvedRow(a, commented, now), false, false)
  {
    var b := ResolvedRow(a, Manual, now);
    LoggedRow(a, b, LogEntry(LogResolved, Some(a.status), Resolved));
    if commented {
      var c := LogEntry(LogCommented, Some(Resolved), Resolved);
      OneEntry(b.logs, Resolved, c, Resolved);
      AppendWithoutComments(b.logs, c);
      TwoSteps(a.logs, a.status, b.logs, Resolved, b.logs + [c], Resolved, false, false);
    }
  }

  /** The comment of an acknowledgement starts at a status the row has not reached in the log. */
  lemma AcknowledgedChains(a: Alert, commented: bool, now: Time)
    ensures RowStep(a, AcknowledgedRow(a, commented, now), commented && a.status == Open, false)
  {
    if a.status == Open {
      var c, e := COMMENT_ON_ACKNOWLEDGEMENT, LogEntry(LogAcknowledged, Some(Open), Acknowledged);
      var l := if commented then a.logs + [c] else a.logs;
      if commented {
        OneEntry(a.logs, Open, c, Open);
        AppendWithoutComments(a.logs, c);
      }
      OneEntry(l, Open, e, Acknowledged);
      TwoSteps(a.logs, Open, l, Open, l + [e], Acknowledged, commented, false);
      AppendWithoutComments(l, e);
      OneEntry(WithoutComments(a.logs), Open, e, Acknowledged);
    }
  }

  lemma EscalatedChains(a: Alert, seen: Alert, policies: seq<Policy>, now: Time)
    ensures
      RowStep(a, EscalateBy(a, seen, policies, now), false, Chosen(seen, policies, now).Some? &&
          seen.status != a.status)
    ensures COMMENT_ON_ACKNOWLEDGEMENT in EscalateBy(a, seen, policies, now).logs <==>
      COMMENT_ON_ACKNOWLEDGEMENT in a.logs
  {
    var p := Chosen(seen, policies, now);
    EscalatesByChoice(a, seen, policies, now);
    if p.Some? {
      LoggedRow(a, EscalatedFrom(a, seen, p.value), LogEntry(LogEscalated(p.value), Some(seen.status), seen.status));
    }
  }

  lemma LogsOneChains(a: Alert, b: Alert)
    requires LogsOne(a, b)
    ensures RowStep(a, b, false, false)
    ensures COMMENT_ON_ACKNOWLEDGEMENT in b.logs <==> COMMENT_ON_ACKNOWLEDGEMENT in a.logs
  {
    if b.logs != a.logs {
      var e := b.logs[|b.logs| - 1];
      assert b.logs == a.logs + [e];
      LoggedRow(a, b, e);
    }
  }

  /** What one step does to the log of a row: a commented acknowledgement breaks the strict chain, an escalation
      from a stale status breaks both, and nothing else does. */
  lemma StepChains(db: Db, step: Step, i: nat)
    requires i < |db.alerts|
    ensures i < |Next(db, step).alerts|
    ensures
      var a, b := db.alerts[i], Next(db, step).alerts[i];
      && RowStep(a, b, CommentsFirst(db, step, i), Stale(db, step, i))
      && (COMMENT_ON_ACKNOWLEDGEMENT in b.logs <==> COMMENT_ON_ACKNOWLEDGEMENT in a.logs || CommentsFirst(db, step, i))
  {
    var a, b := db.alerts[i], Next(db, step).alerts[i];
    if IsEngineStep(step) {
      EngineLogsOne(db, step, i);
      LogsOneChains(a, b);
    } else {
      NamedRowOnly(db, step, i);
      if step.i == i {
        match step
        case AcknowledgeAction(_, commented, now) => AcknowledgedChains(a, commented, now);
        case ResolveAction(_, commented, now) => ManuallyResolvedChains(a, commented, now);
        case EscalateRow(_, _, seen, policies, now) => EscalatedChains(a, seen, policies, now);
      } else {
        LogsOneChains(a, b);
      }
    }
  }

  lemma CreationChains(e: LogEntry)
    requires e.oldStatus.None?
    ensures EndsIn([e], e.newStatus) && Chains([e], e.newStatus)
    ensures e.action != LogCommented ==> WithoutComments([e]) == [e]
  {
    AppendWithoutComments([], e);
    assert [] + [e] == [e];
  }

  // ----- Chains over runs -----

  ghost predicate StaleAt(trace: seq<Db>, steps: seq<Step>, m: nat, i: nat)
    requires m < |steps| && m < |trace|
  {
    i < |trace[m].alerts| && Stale(trace[m], steps[m], i)
  }

  /** Every escalation of row `i` so far logged the status the row then had. */
  ghost predicate Prompt(trace: seq<Db>, steps: seq<Step>, n: nat, i: nat)
    requires n <= |steps| && n <= |trace|
  {
    forall m :: 0 <= m < n ==> !StaleAt(trace, steps, m, i)
  }

  /** Whether a row's log chains, given whether its escalations were `prompt`. */
  ghost predicate ChainsAsTold(a: Alert, prompt: bool)
  {
    && EndsIn(a.logs, a.status) && EndsIn(WithoutComments(a.logs), a.status)
    && (Chains(WithoutComments(a.logs), a.status) <==> prompt)
    && (Chains(a.logs, a.status) <==> prompt && COMMENT_ON_ACKNOWLEDGEMENT !in a.logs)
  }

  lemma ChainsAsToldStep(db: Db, step: Step, i: nat, prompt: bool)
    requires i < |db.alerts| && ChainsAsTold(db.alerts[i], prompt)
    ensures i < |Next(db, step).alerts| && ChainsAsTold(Next(db, step).alerts[i], prompt && !Stale(db, step, i))
  {
    StepChains(db, step, i);
  }

  lemma NewRowChains(db: Db, step: Step)
    requires |Next(db, step).alerts| > |db.alerts|
    ensures ChainsAsTold(Next(db, step).alerts[|db.alerts|], true)
  {
    NewRow(db, step);
    var b := Next(db, step).alerts[|db.alerts|];
    CreationChains(b.logs[0]);
    assert b.logs == [b.logs[0]];
  }

  lemma OldRowChains(trace: seq<Db>, steps: seq<Step>, n: nat, i: nat, prompt: bool)
    requires IsRun(trace, steps) && n < |steps| && i < |trace[n].alerts| && ChainsAsTold(trace[n].alerts[i], prompt)
    ensures i < |trace[n + 1].alerts|
    ensures ChainsAsTold(trace[n + 1].alerts[i], prompt && !StaleAt(trace, steps, n, i))
  {
    assert StepAt(trace, steps, n);
    ChainsAsToldStep(trace[n], steps[n], i, prompt);
  }

  lemma CreatedRow(db: Db, step: Step, after: Db, i: nat)
    requires after == Next(db, step) && |db.alerts| <= i < |after.alerts|
    ensures i == |db.alerts| && ChainsAsTold(after.alerts[i], true) && Accounts(after.alerts[i], true)
  {
    AddsAtMostOne(db, step);
    NewRowChains(db, step);
    NewRowAccounts(db, step);
  }

  lemma AddsAtMostOne(db: Db, step: Step)
    ensures |db.alerts| <= |Next(db, step).alerts| <= |db.alerts| + 1
  {
    StepExtends(db, step);
  }

  lemma NotThereBefore(trace: seq<Db>, steps: seq<Step>, n: nat, i: nat)
    requires IsRun(trace, steps) && n < |trace| && |trace[n].alerts| <= i
    ensures forall m :: 0 <= m <= n ==> i >= |trace[m].alerts|
  {
    forall m | 0 <= m <= n ensures i >= |trace[m].alerts| {
      RowsOnlyAdded(trace, steps, m, n);
    }
  }

  /** A row that a step adds is well recorded. */
  lemma AddedRow(trace: seq<Db>, steps: seq<Step>, n: nat, i: nat)
    requires IsRun(trace, steps) && n < |steps| && |trace[n].alerts| <= i < |trace[n + 1].alerts|
    ensures ChainsAsTold(trace[n + 1].alerts[i], true) && Accounts(trace[n + 1].alerts[i], true)
    ensures forall m :: 0 <= m <= n ==> i >= |trace[m].alerts|
  {
    NotThereBefore(trace, steps, n, i);
    assert StepAt(trace, steps, n);
    CreatedRow(trace[n], steps[n], trace[n + 1], i);
  }

  lemma {:induction false} RowsChainAsTold(trace: seq<Db>, steps: seq<Step>, n: nat, i: nat)
    requires IsRun(trace, steps) && trace[0].alerts == [] && n <= |steps| && i < |trace[n].alerts|
    ensures ChainsAsTold(trace[n].alerts[i], Prompt(trace, steps, n, i))
  {
    if i < |trace[n - 1].alerts| {
      RowsChainAsTold(trace, steps, n - 1, i);
      OldRowChains(trace, steps, n - 1, i, Prompt(trace, steps, n - 1, i));
      assert Prompt(trace, steps, n, i) <==> Prompt(trace, steps, n - 1, i) && !StaleAt(trace, steps, n - 1, i);
    } else {
      AddedRow(trace, steps, n - 1, i);
      assert Prompt(trace, steps, n, i);
    }
  }

  /** From installation on, on every row of every run: without its comments the log chains up to the row's status
      if and only if no escalation of the row was stale; comments included, if and only if moreover it holds no
      comment on an acknowledgement. */
  lemma LogsChainExactly(trace: seq<Db>, steps: seq<Step>, n: nat, i: nat)
    requires IsRun(trace, steps) && trace[0].alerts == [] && n <= |steps| && i < |trace[n].alerts|
    ensures
      var a := trace[n].alerts[i];
      && (Chains(WithoutComments(a.logs), a.status) <==> Prompt(trace, steps, n, i))
      && (Chains(a.logs, a.status) <==> Prompt(trace, steps, n, i) && COMMENT_ON_ACKNOWLEDGEMENT !in a.logs)
  {
    RowsChainAsTold(trace, steps, n, i);
  }

  lemma {:induction false} RowsOnlyAdded(trace: seq<Db>, steps: seq<Step>, m: nat, n: nat)
    requires IsRun(trace, steps) && m <= n <= |steps|
    ensures |trace[m].alerts| <= |trace[n].alerts|
    decreases n
  {
    if m < n {
      RowsOnlyAdded(trace, steps, m, n - 1);
      assert StepAt(trace, steps, n - 1);
      AddsAtMostOne(trace[n - 1], steps[n - 1]);
    }
  }

  // ----- Escalated policies -----

  function Escalations(logs: seq<LogEntry>): seq<PolicyId>
  {
    if logs == [] then []
    else
      var e := logs[|logs| - 1];
      Escalations(logs[..|logs| - 1]) + if e.action.LogEscalated? then [e.action.policy] else []
  }

  lemma AppendEscalations(logs: seq<LogEntry>, e: LogEntry)
    ensures Escalations(logs + [e]) == if e.action.LogEscalated? then Escalations(logs) + [e.action.policy]
      else Escalations(logs)
  {
    assert (logs + [e])[..|logs|] == logs;
    assert Escalations(logs) + [] == Escalations(logs);
  }

  /** The row remembers exactly the escalations it logged, each policy once. */
  ghost predicate Remembers(a: Alert)
  {
    Escalations(a.logs) == a.escalated && Distinct(a.escalated)
  }

  /** The step escalates row `i` and saves a list that is no longer the row's own. */
  predicate Overwrites(db: Db, step: Step, i: nat)
    requires i < |db.alerts|
  {
    Escalates(step, i) && step.seen.escalated != db.alerts[i].escalated
  }

  /** Saving a loaded list keeps the record if and only if it is still the row's list. */
  lemma EscalationRemembersExactly(a: Alert, seen: Alert, p: PolicyId)
    requires Remembers(a) && Distinct(seen.escalated) && p !in seen.escalated
    ensures Remembers(EscalatedFrom(a, seen, p)) <==> seen.escalated == a.escalated
  {
    AppendEscalations(a.logs, LogEntry(LogEscalated(p), Some(seen.status), seen.status));
    if Escalations(a.logs) + [p] == seen.escalated + [p] {
      assert Escalations(a.logs) == (seen.escalated + [p])[..|seen.escalated|];
    }
  }

  lemma LogsOneEscalations(a: Alert, b: Alert)
    requires LogsOne(a, b)
    ensures b.escalated == a.escalated && Escalations(b.logs) == Escalations(a.logs)
  {
    if b.logs != a.logs {
      assert b.logs == a.logs + [b.logs[|b.logs| - 1]];
      AppendEscalations(a.logs, b.logs[|b.logs| - 1]);
    }
  }

  lemma ActionEscalations(a: Alert, commented: bool, now: Time)
    ensures
      var b := AcknowledgedRow(a, commented, now);
      b.escalated == a.escalated && Escalations(b.logs) == Escalations(a.logs)
    ensures
      var b := ManuallyResolvedRow(a, commented, now);
      b.escalated == a.escalated && Escalations(b.logs) == Escalations(a.logs)
  {
    var c, e := COMMENT_ON_ACKNOWLEDGEMENT, LogEntry(LogAcknowledged, Some(Open), Acknowledged);
    AppendEscalations(a.logs, c);
    AppendEscalations(a.logs + [c], e);
    AppendEscalations(a.logs, e);
    var r := LogEntry(LogResolved, Some(a.status), Resolved);
    AppendEscalations(a.logs, r);
    AppendEscalations(a.logs + [r], LogEntry(LogCommented, Some(Resolved), Resolved));
  }

  /** The escalation step is the only writer of the list. */
  lemma StepEscalations(db: Db, step: Step, i: nat)
    requires i < |db.alerts|
    ensures i < |Next(db, step).alerts|
    ensures
      var a, b := db.alerts[i], Next(db, step).alerts[i];
      if Escalates(step, i) then b == EscalatedFrom(a, step.seen, Chosen(step.seen, step.policies, step.now).value)
      else b.escalated == a.escalated && Escalations(b.logs) == Escalations(a.logs)
  {
    var a, b := db.alerts[i], Next(db, step).alerts[i];
    if IsEngineStep(step) {
      EngineLogsOne(db, step, i);
      LogsOneEscalations(a, b);
    } else {
      NamedRowOnly(db, step, i);
      if step.i == i {
        match step
        case AcknowledgeAction(_, commented, now) => ActionEscalations(a, commented, now);
        case ResolveAction(_, commented, now) => ActionEscalations(a, commented, now);
        case EscalateRow(_, _, seen, policies, now) => EscalatesByChoice(a, seen, policies, now);
      }
    }
  }

  lemma StepCounts(db: Db, step: Step, i: nat)
    requires i < |db.alerts|
    ensures i < |Next(db, step).alerts|
    ensures
      var a, b := db.alerts[i], Next(db, step).alerts[i];
      |Escalations(b.logs)| == |Escalations(a.logs)| + if Escalates(step, i) then 1 else 0
  {
    StepEscalations(db, step, i);
    if Escalates(step, i) {
      var p := Chosen(step.seen, step.policies, step.now).value;
      AppendEscalations(db.alerts[i].logs, LogEntry(LogEscalated(p), Some(step.seen.status), step.seen.status));
    }
  }

  /** The list of a row changes only together with the number of escalations in its log, which never falls. */
  lemma {:induction false} ListGrowth(trace: seq<Db>, steps: seq<Step>, m: nat, n: nat, i: nat)
    requires IsRun(trace, steps) && m <= n <= |steps| && i < |trace[m].alerts|
    ensures i < |trace[n].alerts|
    ensures
      var a, b := trace[m].alerts[i], trace[n].alerts[i];
      && |Escalations(a.logs)| <= |Escalations(b.logs)|
      && (a.escalated != b.escalated ==> |Escalations(a.logs)| < |Escalations(b.logs)|)
    decreases n
  {
    if m < n {
      ListGrowth(trace, steps, m, n - 1, i);
      assert StepAt(trace, steps, n - 1);
      StepCounts(trace[n - 1], steps[n - 1], i);
      StepEscalations(trace[n - 1], steps[n - 1], i);
    }
  }

  ghost predicate OverwritesAt(trace: seq<Db>, steps: seq<Step>, m: nat, i: nat)
    requires m < |steps| && m < |trace|
  {
    i < |trace[m].alerts| && Overwrites(trace[m], steps[m], i)
  }

  ghost predicate Untorn(trace: seq<Db>, steps: seq<Step>, n: nat, i: nat)
    requires n <= |steps| && n <= |trace|
  {
    forall m :: 0 <= m < n ==> !OverwritesAt(trace, steps, m, i)
  }

  /** A list once overwritten stays shorter than the log. */
  ghost predicate Accounts(a: Alert, untorn: bool)
  {
    if untorn then Remembers(a) else |a.escalated| < |Escalations(a.logs)|
  }

  lemma EscalationAccounts(a: Alert, seen: Alert, p: PolicyId, untorn: bool, seenUntorn: bool)
    requires Accounts(a, untorn) && Accounts(seen, seenUntorn) && p !in seen.escalated && (untorn ==> seenUntorn)
    requires |Escalations(seen.logs)| <= |Escalations(a.logs)|
    requires a.escalated != seen.escalated ==> |Escalations(seen.logs)| < |Escalations(a.logs)|
    ensures Accounts(EscalatedFrom(a, seen, p), untorn && seen.escalated == a.escalated)
  {
    AppendEscalations(a.logs, LogEntry(LogEscalated(p), Some(seen.status), seen.status));
  }

  lemma NewRowAccounts(db: Db, step: Step)
    requires |Next(db, step).alerts| > |db.alerts|
    ensures Accounts(Next(db, step).alerts[|db.alerts|], true)
  {
    NewRow(db, step);
    var b := Next(db, step).alerts[|db.alerts|];
    AppendEscalations([], b.logs[0]);
    assert b.logs == [] + [b.logs[0]];
  }

  lemma {:induction false} ListsAccount(trace: seq<Db>, steps: seq<Step>, n: nat, i: nat)
    requires IsRun(trace, steps) && trace[0].alerts == [] && n <= |steps| && i < |trace[n].alerts|
    ensures Accounts(trace[n].alerts[i], Untorn(trace, steps, n, i))
    decreases n, 0
  {
    if i < |trace[n - 1].alerts| {
      ListsAccount(trace, steps, n - 1, i);
      StepAccounts(trace, steps, n - 1, i);
      assert Untorn(trace, steps, n, i) <==> Untorn(trace, steps, n - 1, i) && !OverwritesAt(trace, steps, n - 1, i);
    } else {
      AddedRow(trace, steps, n - 1, i);
      assert Untorn(trace, steps, n, i);
    }
  }

  lemma {:induction false} StepAccounts(trace: seq<Db>, steps: seq<Step>, n: nat, i: nat)
    requires IsRun(trace, steps) && trace[0].alerts == [] && n < |steps| && i < |trace[n].alerts|
    requires Accounts(trace[n].alerts[i], Untorn(trace, steps, n, i))
    ensures i < |trace[n + 1].alerts|
    ensures Accounts(trace[n + 1].alerts[i], Untorn(trace, steps, n, i) && !OverwritesAt(trace, steps, n, i))
    decreases n, 2
  {
    assert StepAt(trace, steps, n);
    StepEscalations(trace[n], steps[n], i);
    if Escalates(steps[n], i) {
      LoadedRowAccounts(trace, steps, n, i);
    }
  }

  lemma {:induction false} LoadedRowAccounts(trace: seq<Db>, steps: seq<Step>, n: nat, i: nat)
    requires IsRun(trace, steps) && trace[0].alerts == [] && n < |steps| && i < |trace[n].alerts|
    requires Escalates(steps[n], i) && Accounts(trace[n].alerts[i], Untorn(trace, steps, n, i))
    ensures
      var p := Chosen(steps[n].seen, steps[n].policies, steps[n].now).value;
      Accounts(EscalatedFrom(trace[n].alerts[i], steps[n].seen, p),
               Untorn(trace, steps, n, i) && !OverwritesAt(trace, steps, n, i))
    decreases n, 1
  {
    var step := steps[n];
    assert StepAt(trace, steps, n);
    ListsAccount(trace, steps, step.readAt, i);
    ListGrowth(trace, steps, step.readAt, n, i);
    EscalationAccounts(trace[n].alerts[i], step.seen, Chosen(step.seen, step.policies, step.now).value,
                       Untorn(trace, steps, n, i), Untorn(trace, steps, step.readAt, i));
  }

  /** From installation on, on every row of every run: the escalated policies kept on the row are exactly those its log
      names, each once, if and only if no escalation saved a list that had changed since it was loaded. */
  lemma RemembersExactly(trace: seq<Db>, steps: seq<Step>, n: nat, i: nat)
    requires IsRun(trace, steps) && trace[0].alerts == [] && n <= |steps| && i < |trace[n].alerts|
    ensures Remembers(trace[n].alerts[i]) <==> Untorn(trace, steps, n, i)
  {
    ListsAccount(trace, steps, n, i);
  }

  // ----- Checks that do not overlap -----

  /** No check loads its rows before another one has finished; one check escalates a row at most once. */
  ghost predicate ChecksApart(steps: seq<Step>)
  {
    forall m, n :: 0 <= m < n < |steps| && steps[m].EscalateRow? && steps[n].EscalateRow? ==>
      m < steps[n].readAt || (steps[m].readAt == steps[n].readAt && steps[m].i != steps[n].i)
  }

  lemma {:induction false} ListUnchanged(trace: seq<Db>, steps: seq<Step>, m: nat, n: nat, i: nat)
    requires IsRun(trace, steps) && m <= n <= |steps| && i < |trace[m].alerts|
    requires forall k :: m <= k < n ==> !Escalates(steps[k], i)
    ensures i < |trace[n].alerts| && trace[n].alerts[i].escalated == trace[m].alerts[i].escalated
    decreases n
  {
    if m < n {
      ListUnchanged(trace, steps, m, n - 1, i);
      assert StepAt(trace, steps, n - 1);
      StepEscalations(trace[n - 1], steps[n - 1], i);
    }
  }

  lemma ApartIsUntorn(trace: seq<Db>, steps: seq<Step>, n: nat, i: nat)
    requires IsRun(trace, steps) && ChecksApart(steps) && n <= |steps|
    ensures Untorn(trace, steps, n, i)
  {
    forall m | 0 <= m < n ensures !OverwritesAt(trace, steps, m, i) {
      if Escalates(steps[m], i) {
        assert StepAt(trace, steps, m);
        ListUnchanged(trace, steps, steps[m].readAt, m, i);
      }
    }
  }

  lemma {:induction false} EscalationsCounted(logs: seq<LogEntry>, p: PolicyId)
    ensures Count(logs, LogEscalated(p)) == multiset(Escalations(logs))[p]
  {
    if logs != [] {
      EscalationsCounted(logs[..|logs| - 1], p);
    }
  }

  lemma {:induction false} DistinctCountsOnce<T(!new)>(s: seq<T>, x: T)
    requires Distinct(s)
    ensures multiset(s)[x] <= 1
  {
    if s != [] {
      var last := |s| - 1;
      assert s == s[..last] + [s[last]];
      DistinctCountsOnce(s[..last], x);
      if s[last] == x {
        assert x !in s[..last];
      }
    }
  }

  /** Over every run whose checks do not overlap, each alert is escalated at most once per policy. */
  lemma EscalatesOncePerPolicy(trace: seq<Db>, steps: seq<Step>, n: nat, i: nat, p: PolicyId)
    requires IsRun(trace, steps) && trace[0].alerts == [] && ChecksApart(steps) && n <= |steps| && i < |trace[n].alerts|
    ensures Count(trace[n].alerts[i].logs, LogEscalated(p)) == (if p in trace[n].alerts[i].escalated then 1 else 0)
  {
    ApartIsUntorn(trace, steps, n, i);
    RemembersExactly(trace, steps, n, i);
    EscalationsCounted(trace[n].alerts[i].logs, p);
    DistinctCountsOnce(trace[n].alerts[i].escalated, p);
  }
}
