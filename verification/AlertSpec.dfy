/**
 The alert engine as functions of the tables: each function is one atomic block of the engine,
 one view action, or one row's turn in the escalation check, which works on rows it loaded earlier.
 */
module AlertSpec {
  import opened Prelude
  import opened AlertData

  // ----- Condition evaluation -----

  /** The engine's priority read: float, integer, boolean, then text. */
  function ValueOf(c: Columns): Option<Scalar>
  {
    if c.float.Some? then Some(Number(c.float.value))
    else if c.integer.Some? then Some(Number(c.integer.value as real))
    else if c.boolean.Some? then Some(Truth(c.boolean.value))
    else if c.text.Some? then Some(Text(c.text.value))
    else None
  }

  /** Booleans order and compare as 0 and 1. */
  function AsNumber(v: Scalar): Option<real>
  {
    match v
    case Number(n) => Some(n)
    case Truth(b) => Some(if b then 1.0 else 0.0)
    case Text(_) => None
  }

  predicate TextLess(a: string, b: string)
  {
    b != [] && (a == [] || a[0] < b[0] || (a[0] == b[0] && TextLess(a[1..], b[1..])))
  }

  predicate Same(v: Scalar, w: Scalar)
  {
    if v.Text? && w.Text? then v.t == w.t
    else AsNumber(v).Some? && AsNumber(v) == AsNumber(w)
  }

  /** Strictly less; false for operands that cannot be ordered, whose comparison raises. */
  predicate Less(v: Scalar, w: Scalar)
  {
    if v.Text? && w.Text? then TextLess(v.t, w.t)
    else AsNumber(v).Some? && AsNumber(w).Some? && AsNumber(v).value < AsNumber(w).value
  }

  /** A comparison that raises counts as false; a missing value differs from everything. */
  predicate Compare(op: Operator, v: Option<Scalar>, threshold: Scalar)
  {
    match op
    case EQ => v.Some? && Same(v.value, threshold)
    case NEQ => v.None? || !Same(v.value, threshold)
    case GT => v.Some? && Less(threshold, v.value)
    case GTE => v.Some? && (Less(threshold, v.value) || Same(v.value, threshold))
    case LT => v.Some? && Less(v.value, threshold)
    case LTE => v.Some? && (Less(v.value, threshold) || Same(v.value, threshold))
  }

  predicate ConditionHolds(rule: Rule, latest: Latest)
  {
    var threshold := ValueOf(rule.threshold);
    threshold.Some? && Compare(rule.operator, ValueOf(latest.values), threshold.value)
  }

  predicate Covers(w: Window, latest: Latest, now: Time)
  {
    && w.isActive
    && w.organization == latest.scope.organization
    && w.startsAt <= now <= w.endsAt
    && (w.dataCenter.None? || w.dataCenter.value == latest.scope.dataCenter)
    && (w.device.None? || w.device.value == latest.scope.device)
    && (w.metric.None? || w.metric.value == latest.metric)
  }

  predicate HasSuppression(windows: seq<Window>, latest: Latest, now: Time)
  {
    exists i :: 0 <= i < |windows| && Covers(windows[i], latest, now)
  }

  // ----- Row queries -----

  const UPS_TRAP_CODE := "ups_abnormal_condition"
  const UPS_TRAP_OID := "1.3.6.1.4.1.318.0.77"
  const UPS_TRAP_MESSAGE := "ups abnormal condition"

  function Lower(s: string): (r: string)
    ensures |r| == |s|
  {
    seq(|s|, i requires 0 <= i < |s| => if 'A' <= s[i] <= 'Z' then s[i] - 'A' + 'a' else s[i])
  }

  predicate Contains(s: string, part: string)
  {
    part <= s || (s != [] && Contains(s[1..], part))
  }

  predicate MarksUps(t: Trap)
  {
    t.code == Some(UPS_TRAP_CODE) || t.oid == UPS_TRAP_OID || Contains(Lower(t.message), UPS_TRAP_MESSAGE)
  }

  datatype Query = ForRule(key: Key) | ForTrap(scope: Scope, oid: string) | ForUps(scope: Scope)

  predicate HasKey(a: Alert, k: Key)
  {
    a.scope == k.scope && a.metric == Some(k.metric) && a.rule == Some(k.rule)
  }

  predicate IsTrapRow(a: Alert)
  {
    a.metric.None? && a.rule.None? && a.trap.Some?
  }

  predicate Selects(q: Query, a: Alert)
  {
    && a.IsActive()
    && match q
       case ForRule(k) => HasKey(a, k)
       case ForTrap(scope, oid) => IsTrapRow(a) && a.scope == scope && a.trap.value.oid == oid
       case ForUps(scope) => IsTrapRow(a) && a.scope == scope && MarksUps(a.trap.value)
  }

  /** The first selected row ordered by trigger time, then creation time, newest first. */
  function Newest(alerts: seq<Alert>, q: Query): (r: Option<nat>)
    ensures r.Some? ==> r.value < |alerts| && Selects(q, alerts[r.value])
  {
    if alerts == [] then None
    else
      var last := |alerts| - 1;
      var rest := Newest(alerts[..last], q);
      if Selects(q, alerts[last]) && (rest.None? || alerts[rest.value].triggeredAt <= alerts[last].triggeredAt)
      then Some(last)
      else rest
  }

  /** The picked row is the maximum by (trigger time, creation order). */
  lemma {:induction false} NewestIsNewest(alerts: seq<Alert>, q: Query, i: nat)
    requires i < |alerts| && Selects(q, alerts[i])
    ensures
      var r := Newest(alerts, q);
      r.Some? && (alerts[i].triggeredAt < alerts[r.value].triggeredAt
                  || (alerts[i].triggeredAt == alerts[r.value].triggeredAt && i <= r.value))
  {
    var last := |alerts| - 1;
    if i < last {
      NewestIsNewest(alerts[..last], q, i);
    }
  }

  /** Nothing is picked exactly when nothing is selected. */
  lemma NewestNone(alerts: seq<Alert>, q: Query)
    ensures Newest(alerts, q).None? <==> forall i :: 0 <= i < |alerts| ==> !Selects(q, alerts[i])
  {
  }

  predicate HasActive(db: Db, k: Key)
  {
    Newest(db.alerts, ForRule(k)).Some?
  }

  // ----- Row transitions -----

  function Logged(a: Alert, action: Action, oldStatus: Status): Alert
  {
    a.(logs := a.logs + [LogEntry(action, Some(oldStatus), a.status)])
  }

  function Created(scope: Scope, metric: Option<MetricId>, rule: Option<RuleId>, severity: Severity, status: Status,
                   values: Columns, now: Time, trap: Option<Trap>): Alert
  {
    Alert(scope, metric, rule, severity, status, values, now, now, None, None,
          if status == Suppressed then Some(BySuppression) else None, 1, trap, [],
          [LogEntry(if status == Suppressed then LogSuppressed else LogOpened, None, status)])
  }

  function RuleAlert(latest: Latest, rule: Rule, status: Status, now: Time): Alert
  {
    Created(latest.scope, Some(latest.metric), Some(rule.id), rule.severity, status, latest.values, now, None)
  }

  function Touched(a: Alert, now: Time): Alert
  {
    a.(lastSeenAt := now, occurrences := (if a.occurrences == 0 then 1 else a.occurrences) + 1)
  }

  function Updated(a: Alert, latest: Latest, now: Time): Alert
  {
    Logged(Touched(a, now).(values := latest.values), LogUpdated, a.status)
  }

  function TrapUpdated(a: Alert, trap: Trap, severity: Severity, now: Time): Alert
  {
    Logged(Touched(a, now).(trap := Some(trap), severity := severity), LogUpdated, a.status)
  }

  function ResolvedRow(a: Alert, how: Resolution, now: Time): Alert
  {
    Logged(a.(status := Resolved, resolvedAt := Some(now), resolution := Some(how), lastSeenAt := now), LogResolved,
        a.status)
  }

  function SuppressedRow(a: Alert, now: Time): Alert
  {
    Logged(a.(status := Suppressed, resolvedAt := Some(now), resolution := Some(BySuppression)), LogSuppressed,
        a.status)
  }

  function CommentedRow(a: Alert): Alert
  {
    Logged(a, LogCommented, a.status)
  }

  /** A comment on an acknowledgement is logged before the acknowledgement itself. */
  function AcknowledgedRow(a: Alert, commented: bool, now: Time): Alert
  {
    if a.status != Open then a
    else
      var b := a.(status := Acknowledged, acknowledgedAt := Some(now));
      Logged(if commented then CommentedRow(b) else b, LogAcknowledged, Open)
  }

  function ManuallyResolvedRow(a: Alert, commented: bool, now: Time): Alert
  {
    var b := ResolvedRow(a, Manual, now);
    if commented then CommentedRow(b) else b
  }

  // ----- Evaluation of one reading -----

  function KeyOf(latest: Latest, rule: Rule): Key
  {
    Key(latest.scope, latest.metric, rule.id)
  }

  /** `_upsert_condition_state`: a live row keeps its first sighting. */
  function Upserted(state: Option<ConditionState>, values: Columns, now: Time): ConditionState
  {
    ConditionState(if state.Some? then state.value.firstSeenAt else now, now, values)
  }

  predicate LastedLongEnough(state: ConditionState, rule: Rule, now: Time)
  {
    rule.durationSeconds == 0 || now - state.firstSeenAt >= rule.durationSeconds * SECOND
  }

  function StateOf(db: Db, k: Key): Option<ConditionState>
  {
    if k in db.states then Some(db.states[k]) else None
  }

  function EnsureAlert(db: Db, latest: Latest, rule: Rule, suppressed: bool, now: Time): Db
  {
    var k := KeyOf(latest, rule);
    var found := Newest(db.alerts, ForRule(k));
    if suppressed then
      if found.Some? then db.(alerts := db.alerts[found.value := SuppressedRow(db.alerts[found.value], now)])
      else db.(alerts := db.alerts + [RuleAlert(latest, rule, Suppressed, now)])
    else if found.Some? then
      db.(alerts := db.alerts[found.value := Updated(db.alerts[found.value], latest, now)])
    else
      var state := Upserted(StateOf(db, k), latest.values, now);
      var tracked := db.(states := db.states[k := state]);
      if LastedLongEnough(state, rule, now) then tracked.(alerts := db.alerts + [RuleAlert(latest, rule, Open, now)])
      else tracked
  }

  /** Auto-resolve keeps the condition state; only a false reading without an active alert clears it. */
  function ResolveIfNeeded(db: Db, latest: Latest, rule: Rule, now: Time): Db
  {
    var k := KeyOf(latest, rule);
    var found := Newest(db.alerts, ForRule(k));
    if found.None? then db.(states := db.states - {k})
    else db.(alerts := db.alerts[found.value := ResolvedRow(db.alerts[found.value], Auto, now)])
  }

  function EvaluateRule(db: Db, latest: Latest, rule: Rule, windows: seq<Window>, now: Time): Db
  {
    if ConditionHolds(rule, latest) then EnsureAlert(db, latest, rule, HasSuppression(windows, latest, now), now)
    else ResolveIfNeeded(db, latest, rule, now)
  }

  function TakeTurn(db: Db, latest: Latest, turn: Turn): Db
  {
    EvaluateRule(db, latest, turn.rule, turn.windows, turn.now)
  }

  function TakeTurns(db: Db, latest: Latest, turns: seq<Turn>): Db
  {
    if turns == [] then db
    else
      var last := |turns| - 1;
      TakeTurn(TakeTurns(db, latest, turns[..last]), latest, turns[last])
  }

  function ResolveUpsTrap(db: Db, latest: Latest, now: Time): Db
  {
    var found := Newest(db.alerts, ForUps(latest.scope));
    if !latest.upsCleared || found.None? then db
    else db.(alerts := db.alerts[found.value := ResolvedRow(db.alerts[found.value], Auto, now)])
  }

  /** The rules take their turns in order, each in a block of its own; the UPS clean-up follows at `now`. */
  function EvaluateLatest(db: Db, latest: Latest, turns: seq<Turn>, now: Time): Db
  {
    ResolveUpsTrap(TakeTurns(db, latest, turns), latest, now)
  }

  // ----- Traps, view actions, rule deletion -----

  /** Whether an incoming trap is folded into the active alert that carries the same OID. */
  predicate FoldsInto(trap: Trap, existing: Alert)
    requires existing.trap.Some?
  {
    trap.code.None? || existing.trap.value.code == trap.code
  }

  function ReceiveTrap(db: Db, scope: Scope, trap: Trap, severity: Severity, now: Time): Db
  {
    var found := Newest(db.alerts, ForTrap(scope, trap.oid));
    if found.Some? && FoldsInto(trap, db.alerts[found.value]) then
      db.(alerts := db.alerts[found.value := TrapUpdated(db.alerts[found.value], trap, severity, now)])
    else
      db.(alerts := db.alerts +
          [Created(scope, None, None, severity, Open, Columns(None, None, None, None), now, Some(trap))])
  }

  function Acknowledge(db: Db, i: nat, commented: bool, now: Time): Db
    requires i < |db.alerts|
  {
    db.(alerts := db.alerts[i := AcknowledgedRow(db.alerts[i], commented, now)])
  }

  function ManuallyResolve(db: Db, i: nat, commented: bool, now: Time): Db
    requires i < |db.alerts|
  {
    db.(alerts := db.alerts[i := ManuallyResolvedRow(db.alerts[i], commented, now)])
  }

  function Unlinked(a: Alert, rule: RuleId): Alert
  {
    if a.rule == Some(rule) then a.(rule := None) else a
  }

  /** Deleting a rule nulls it on its alerts and cascades to its condition states. */
  function DeleteRule(db: Db, rule: RuleId): Db
  {
    Db(seq(|db.alerts|, i requires 0 <= i < |db.alerts| => Unlinked(db.alerts[i], rule)),
       map k | k in db.states && k.rule != rule :: db.states[k])
  }

  // ----- Escalation -----

  predicate PolicyMatches(a: Alert, p: Policy)
  {
    && p.isActive
    && p.severity == a.severity
    && (p.organization.None? || p.organization.value == a.scope.organization)
    && (p.dataCenter.None? || p.dataCenter.value == a.scope.dataCenter)
  }

  predicate PolicyTriggerMet(a: Alert, p: Policy, now: Time)
  {
    || (a.status == Open && p.ifNotAcknowledgedMinutes.Some?
        && now - a.triggeredAt >= p.ifNotAcknowledgedMinutes.value * MINUTE)
    || (p.ifNotResolvedMinutes.Some?
        && now - (if a.acknowledgedAt.Some? then a.acknowledgedAt.value else a.triggeredAt)
           >= p.ifNotResolvedMinutes.value * MINUTE)
  }

  predicate Fires(a: Alert, p: Policy, now: Time)
  {
    PolicyMatches(a, p) && PolicyTriggerMet(a, p, now)
  }

  /** Saving metadata read earlier puts a trap's OID and code back; its message is a column of its own. */
  function TrapFrom(current: Option<Trap>, seen: Option<Trap>): Option<Trap>
  {
    if current.Some? && seen.Some? then Some(seen.value.(message := current.value.message)) else current
  }

  /** `seen` is the row as the check loaded it: its status is logged, and its metadata is extended and saved. */
  function EscalatedFrom(a: Alert, seen: Alert, p: PolicyId): Alert
  {
    if p in seen.escalated then a
    else
      a.(escalated := seen.escalated + [p], trap := TrapFrom(a.trap, seen.trap),
         logs := a.logs + [LogEntry(LogEscalated(p), Some(seen.status), seen.status)])
  }

  /** One alert against the policies in order: the first that fires for the loaded row is tried, and the
      search stops there. */
  function EscalateBy(a: Alert, seen: Alert, policies: seq<Policy>, now: Time): Alert
  {
    if policies == [] then a
    else if Fires(seen, policies[0], now) then EscalatedFrom(a, seen, policies[0].id)
    else EscalateBy(a, seen, policies[1..], now)
  }

  function FirstFiring(seen: Alert, policies: seq<Policy>, now: Time): (r: Option<nat>)
    ensures r.None? ==> forall i :: 0 <= i < |policies| ==> !Fires(seen, policies[i], now)
    ensures r.Some? ==> r.value < |policies| && Fires(seen, policies[r.value], now)
                        && forall i :: 0 <= i < r.value ==> !Fires(seen, policies[i], now)
  {
    if policies == [] then None
    else if Fires(seen, policies[0], now) then Some(0)
    else
      var rest := FirstFiring(seen, policies[1..], now);
      if rest.None? then None else Some(rest.value + 1)
  }

  /** The policy by which a check escalates: its first firing one, if the loaded row has not used it. */
  function Chosen(seen: Alert, policies: seq<Policy>, now: Time): Option<PolicyId>
  {
    var first := FirstFiring(seen, policies, now);
    if first.Some? && policies[first.value].id !in seen.escalated then Some(policies[first.value].id) else None
  }

  /** A check escalates an alert by its first firing policy, exactly when the loaded row has not used it. */
  lemma {:induction false} EscalatesByChoice(a: Alert, seen: Alert, policies: seq<Policy>, now: Time)
    ensures
      var p := Chosen(seen, policies, now);
      EscalateBy(a, seen, policies, now) == if p.Some? then EscalatedFrom(a, seen, p.value) else a
  {
    if policies != [] && !Fires(seen, policies[0], now) {
      EscalatesByChoice(a, seen, policies[1..], now);
    }
  }

  /** The whole check when nothing else happens between its loading of the rows and its saves. */
  function UndisturbedCheck(db: Db, policies: seq<Policy>, now: Time): Db
  {
    db.(alerts := seq(|db.alerts|, i requires 0 <= i < |db.alerts| => UndisturbedRow(db.alerts[i], policies, now)))
  }

  function UndisturbedRow(a: Alert, policies: seq<Policy>, now: Time): Alert
  {
    if a.IsActive() then EscalateBy(a, a, policies, now) else a
  }
}
