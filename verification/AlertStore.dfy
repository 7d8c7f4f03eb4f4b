/**
 The alert engine in its own imperative form.  Each method works on the stored rows step by step
 and is tied to the function of `AlertSpec` whose runs `AlertRuns` and `AlertGuarantees` study.
 */
module AlertStore {
  import opened Prelude
  import opened AlertData
  import Spec = AlertSpec

  /** At most the reported row differs between `before` and `after`, and a row that was added is the reported one. */
  ghost predicate Reported(before: seq<Alert>, after: seq<Alert>, r: Option<nat>)
  {
    && |before| <= |after| <= |before| + 1
    && (r.Some? ==> r.value < |after|)
    && (forall j :: 0 <= j < |before| && r != Some(j) ==> after[j] == before[j])
    && (|before| < |after| ==> r == Some(|before|))
  }

  /** Every row that was added or changed is listed. */
  ghost predicate AllReported(before: seq<Alert>, after: seq<Alert>, touched: seq<nat>)
  {
    && |before| <= |after|
    && (forall j :: 0 <= j < |touched| ==> touched[j] < |after|)
    && (forall j :: 0 <= j < |before| && j !in touched ==> after[j] == before[j])
    && (forall j :: |before| <= j < |after| ==> j in touched)
  }

  function Noted(touched: seq<nat>, r: Option<nat>): seq<nat>
  {
    if r.Some? then touched + [r.value] else touched
  }

  lemma ReportMore(first: seq<Alert>, before: seq<Alert>, after: seq<Alert>, touched: seq<nat>, r: Option<nat>)
    requires AllReported(first, before, touched) && Reported(before, after, r)
    ensures AllReported(first, after, Noted(touched, r))
  {
  }

  class Store {
    var alerts: seq<Alert>
    var states: map<Key, ConditionState>

    ghost function Tables(): Db
      reads this
    {
      Db(alerts, states)
    }

    constructor ()
      ensures Tables() == Db([], map[])
    {
      alerts, states := [], map[];
    }

    method CreateAlertLog(i: nat, action: Action, oldStatus: Option<Status>)
      requires i < |alerts|
      modifies this`alerts
      ensures alerts == old(alerts)[i := old(alerts)[i].(logs := old(alerts)[i].logs +
        [LogEntry(action, oldStatus, old(alerts)[i].status)])]
    {
      var entry := LogEntry(action, oldStatus, alerts[i].status);
      alerts := alerts[i := alerts[i].(logs := alerts[i].logs + [entry])];
    }

    method CreateRuleAlert(latest: Latest, rule: Rule, status: Status, now: Time) returns (i: nat)
      requires status == Open || status == Suppressed
      modifies this`alerts
      ensures i == |old(alerts)| && alerts == old(alerts) + [Spec.RuleAlert(latest, rule, status, now)]
    {
      i := |alerts|;
      var resolution := if status == Suppressed then Some(BySuppression) else None;
      alerts := alerts + [Alert(latest.scope, Some(latest.metric), Some(rule.id), rule.severity, status, latest.values,
                                now, now, None, None, resolution, 1, None, [], [])];
      CreateAlertLog(i, if status == Suppressed then LogSuppressed else LogOpened, None);
      assert alerts[i].logs == Spec.RuleAlert(latest, rule, status, now).logs;
    }

    method UpdateActiveAlert(i: nat, latest: Latest, now: Time)
      requires i < |alerts|
      modifies this`alerts
      ensures alerts == old(alerts)[i := Spec.Updated(old(alerts)[i], latest, now)]
    {
      var a := alerts[i];
      var oldStatus := a.status;
      a := a.(lastSeenAt := now);
      a := a.(values := latest.values);
      a := a.(occurrences := (if a.occurrences == 0 then 1 else a.occurrences) + 1);
      alerts := alerts[i := a];
      CreateAlertLog(i, LogUpdated, Some(oldStatus));
    }

    method ResolveAlert(i: nat, how: Resolution, now: Time)
      requires i < |alerts|
      modifies this`alerts
      ensures alerts == old(alerts)[i := Spec.ResolvedRow(old(alerts)[i], how, now)]
    {
      var a := alerts[i];
      var oldStatus := a.status;
      a := a.(status := Resolved);
      a := a.(resolvedAt := Some(now), resolution := Some(how));
      a := a.(lastSeenAt := now);
      alerts := alerts[i := a];
      CreateAlertLog(i, LogResolved, Some(oldStatus));
    }

    method AcknowledgeAlert(i: nat, commented: bool, now: Time)
      requires i < |alerts|
      modifies this`alerts
      ensures Tables() == Spec.Acknowledge(old(Tables()), i, commented, now)
    {
      if alerts[i].status != Open {
        assert alerts[i := alerts[i]] == alerts;
        return;
      }
      alerts := alerts[i := alerts[i].(status := Acknowledged, acknowledgedAt := Some(now))];
      if commented {
        CreateAlertLog(i, LogCommented, Some(Acknowledged));
      }
      CreateAlertLog(i, LogAcknowledged, Some(Open));
    }

    method ManuallyResolveAlert(i: nat, commented: bool, now: Time)
      requires i < |alerts|
      modifies this`alerts
      ensures Tables() == Spec.ManuallyResolve(old(Tables()), i, commented, now)
    {
      ResolveAlert(i, Manual, now);
      if commented {
        CreateAlertLog(i, LogCommented, Some(Resolved));
      }
    }

    method SuppressAlert(i: nat, now: Time)
      requires i < |alerts|
      modifies this`alerts
      ensures alerts == old(alerts)[i := Spec.SuppressedRow(old(alerts)[i], now)]
    {
      var a := alerts[i];
      var oldStatus := a.status;
      a := a.(status := Suppressed);
      a := a.(resolvedAt := Some(now), resolution := Some(BySuppression));
      alerts := alerts[i := a];
      CreateAlertLog(i, LogSuppressed, Some(oldStatus));
    }

    method UpsertConditionState(latest: Latest, rule: Rule, now: Time) returns (state: ConditionState)
      modifies this`states
      ensures state == Spec.Upserted(Spec.StateOf(old(Tables()), Spec.KeyOf(latest, rule)), latest.values, now)
      ensures states == old(states)[Spec.KeyOf(latest, rule) := state]
    {
      var k := Spec.KeyOf(latest, rule);
      if k !in states {
        state := ConditionState(now, now, latest.values);
      } else {
        state := states[k].(lastSeenAt := now, values := latest.values);
      }
      states := states[k := state];
    }

    method EnsureAlertForTrueCondition(latest: Latest, rule: Rule, windows: seq<Window>, now: Time)
        returns (r: Option<nat>)
      modifies this
      ensures Tables() == Spec.EnsureAlert(old(Tables()), latest, rule, Spec.HasSuppression(windows, latest, now), now)
      ensures Reported(old(alerts), alerts, r)
    {
      r := Spec.Newest(alerts, Spec.ForRule(Spec.KeyOf(latest, rule)));
      if Spec.HasSuppression(windows, latest, now) {
        if r.Some? {
          SuppressAlert(r.value, now);
        } else {
          var i := CreateRuleAlert(latest, rule, Suppressed, now);
          r := Some(i);
        }
      } else if r.Some? {
        UpdateActiveAlert(r.value, latest, now);
      } else {
        var state := UpsertConditionState(latest, rule, now);
        if Spec.LastedLongEnough(state, rule, now) {
          var i := CreateRuleAlert(latest, rule, Open, now);
          r := Some(i);
        }
      }
    }

    method ResolveIfNeeded(latest: Latest, rule: Rule, now: Time) returns (r: Option<nat>)
      modifies this
      ensures Tables() == Spec.ResolveIfNeeded(old(Tables()), latest, rule, now)
      ensures Reported(old(alerts), alerts, r)
    {
      var k := Spec.KeyOf(latest, rule);
      r := Spec.Newest(alerts, Spec.ForRule(k));
      if r.None? {
        states := states - {k};
      } else {
        ResolveAlert(r.value, Auto, now);
      }
    }

    method ResolveUpsTrapAlertIfNeeded(latest: Latest, now: Time) returns (r: Option<nat>)
      modifies this`alerts
      ensures Tables() == Spec.ResolveUpsTrap(old(Tables()), latest, now)
      ensures Reported(old(alerts), alerts, r)
    {
      if !latest.upsCleared {
        return None;
      }
      r := Spec.Newest(alerts, Spec.ForUps(latest.scope));
      if r.Some? {
        ResolveAlert(r.value, Auto, now);
      }
    }

    /** One iteration of the evaluation loop: an atomic block per rule, with its own windows and clock. */
    method EvaluateOne(latest: Latest, turn: Turn) returns (r: Option<nat>)
      modifies this
      ensures Tables() == Spec.TakeTurn(old(Tables()), latest, turn)
      ensures Reported(old(alerts), alerts, r)
    {
      if Spec.ConditionHolds(turn.rule, latest) {
        r := EnsureAlertForTrueCondition(latest, turn.rule, turn.windows, turn.now);
      } else {
        r := ResolveIfNeeded(latest, turn.rule, turn.now);
      }
    }

    method EvaluateLatest(latest: Latest, turns: seq<Turn>, now: Time) returns (touched: seq<nat>)
      modifies this
      ensures Tables() == Spec.EvaluateLatest(old(Tables()), latest, turns, now)
      ensures AllReported(old(alerts), alerts, touched)
    {
      touched := [];
      var n := 0;
      while n < |turns|
        invariant n <= |turns|
        invariant Tables() == Spec.TakeTurns(old(Tables()), latest, turns[..n])
        invariant AllReported(old(alerts), alerts, touched)
      {
        ghost var before := alerts;
        var r := EvaluateOne(latest, turns[n]);
        ReportMore(old(alerts), before, alerts, touched, r);
        touched := Noted(touched, r);
        assert turns[..n + 1][..n] == turns[..n];
        n := n + 1;
      }
      assert turns[..n] == turns;
      ghost var before := alerts;
      var trap := ResolveUpsTrapAlertIfNeeded(latest, now);
      ReportMore(old(alerts), before, alerts, touched, trap);
      touched := Noted(touched, trap);
    }

    method CreateOrUpdateTrapAlert(scope: Scope, trap: Trap, severity: Severity, now: Time) returns (i: nat)
      modifies this`alerts
      ensures Tables() == Spec.ReceiveTrap(old(Tables()), scope, trap, severity, now)
      ensures Reported(old(alerts), alerts, Some(i))
    {
      var existing := Spec.Newest(alerts, Spec.ForTrap(scope, trap.oid));
      if existing.Some? && Spec.FoldsInto(trap, alerts[existing.value]) {
        i := existing.value;
        var a := alerts[i];
        a := a.(lastSeenAt := now, severity := severity, trap := Some(trap));
        a := a.(occurrences := (if a.occurrences == 0 then 1 else a.occurrences) + 1);
        alerts := alerts[i := a];
        CreateAlertLog(i, LogUpdated, Some(a.status));
        return;
      }
      i := |alerts|;
      alerts := alerts + [Alert(scope, None, None, severity, Open, Columns(None, None, None, None), now, now,
                                None, None, None, 1, Some(trap), [], [])];
      CreateAlertLog(i, LogOpened, None);
      assert alerts[i].logs == [LogEntry(LogOpened, None, Open)];
    }

    /** `seen` is the alert object in hand, loaded earlier: it is tested, and its metadata and status are written. */
    method EscalateAlert(i: nat, seen: Alert, policy: Policy) returns (done: bool)
      requires i < |alerts|
      modifies this`alerts
      ensures alerts == old(alerts)[i := Spec.EscalatedFrom(old(alerts)[i], seen, policy.id)]
      ensures done <==> policy.id !in seen.escalated
    {
      if policy.id in seen.escalated {
        assert alerts[i := alerts[i]] == alerts;
        return false;
      }
      var a := alerts[i].(escalated := seen.escalated + [policy.id]);
      a := a.(trap := Spec.TrapFrom(a.trap, seen.trap));
      alerts := alerts[i := a.(logs := a.logs + [LogEntry(LogEscalated(policy.id), Some(seen.status), seen.status)])];
      done := true;
    }

    /** The inner loop of the check: the first firing policy is tried, and the search ends there. */
    method EscalateByFirst(i: nat, seen: Alert, policies: seq<Policy>, now: Time) returns (done: bool)
      requires i < |alerts|
      modifies this`alerts
      ensures alerts == old(alerts)[i := Spec.EscalateBy(old(alerts)[i], seen, policies, now)]
      ensures done <==> Spec.Chosen(seen, policies, now).Some?
    {
      done := false;
      var n := 0;
      while n < |policies|
        invariant n <= |policies| && !done && alerts == old(alerts)
        invariant Spec.EscalateBy(alerts[i], seen, policies, now) == Spec.EscalateBy(alerts[i], seen, policies[n..],
          now)
        invariant Spec.Chosen(seen, policies, now) == Spec.Chosen(seen, policies[n..], now)
      {
        if Spec.PolicyMatches(seen, policies[n]) && Spec.PolicyTriggerMet(seen, policies[n], now) {
          done := EscalateAlert(i, seen, policies[n]);
          return;
        }
        assert policies[n..][1..] == policies[n + 1..];
        n := n + 1;
      }
      assert alerts[i := alerts[i]] == alerts;
    }

    /** The check when nothing else runs between its query and its saves; `AlertRuns` lets anything run there. */
    method RunAlertEscalationCheck(policies: seq<Policy>, now: Time) returns (escalated: seq<nat>)
      modifies this`alerts
      ensures Tables() == Spec.UndisturbedCheck(old(Tables()), policies, now)
      ensures forall i: nat :: i in escalated <==>
        i < |alerts| && old(alerts)[i].IsActive() && Spec.Chosen(old(alerts)[i], policies, now).Some?
    {
      var loaded := alerts;
      escalated := [];
      var n := 0;
      while n < |loaded|
        invariant n <= |loaded| == |alerts|
        invariant forall i :: 0 <= i < n ==> alerts[i] == Spec.UndisturbedRow(loaded[i], policies, now)
        invariant forall i :: n <= i < |alerts| ==> alerts[i] == loaded[i]
        invariant forall i: nat :: i in escalated <==>
          i < n && loaded[i].IsActive() && Spec.Chosen(loaded[i], policies, now).Some?
      {
        if loaded[n].IsActive() {
          var done := EscalateByFirst(n, loaded[n], policies, now);
          if done {
            escalated := escalated + [n];
          }
        }
        n := n + 1;
      }
    }
  }
}
