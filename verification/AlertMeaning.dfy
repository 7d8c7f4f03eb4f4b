/**
 What the engine's tests and row changes come to, said in the columns of the rows alone: conditions, suppression
 windows, waiting, traps, escalation policies and the stamps of every step.
 */
module AlertMeaning {
  import opened Prelude
  import opened AlertData
  import opened AlertSpec
  import opened AlertEvaluation
  import opened AlertRuns

  // ----- Conditions -----

  /** The columns read as the number `x`: a float before an integer before a boolean, which counts as 0 or 1. */
  predicate ReadsNumber(c: Columns, x: real)
  {
    || c.float == Some(x)
    || (c.float.None? && c.integer.Some? && c.integer.value as real == x)
    || (c.float.None? && c.integer.None? && c.boolean == Some(true) && x == 1.0)
    || (c.float.None? && c.integer.None? && c.boolean == Some(false) && x == 0.0)
  }

  predicate ReadsText(c: Columns, s: string)
  {
    c.float.None? && c.integer.None? && c.boolean.None? && c.text == Some(s)
  }

  predicate ReadsNothing(c: Columns)
  {
    c.float.None? && c.integer.None? && c.boolean.None? && c.text.None?
  }

  /** Numbers and booleans, in any mix, compare as numbers do. */
  lemma NumericCondition(rule: Rule, latest: Latest, x: real, t: real)
    requires ReadsNumber(latest.values, x) && ReadsNumber(rule.threshold, t)
    ensures ConditionHolds(rule, latest) <==>
      match rule.operator
      case GT => x > t
      case GTE => x >= t
      case LT => x < t
      case LTE => x <= t
      case EQ => x == t
      case NEQ => x != t
  {
  }

  /** Dictionary order: a proper prefix, or smaller at the first place where the texts differ. */
  ghost predicate Precedes(s: string, t: string)
  {
    exists k: nat :: k <= |s| && k < |t| && PrecedesAt(s, t, k)
  }

  predicate PrecedesAt(s: string, t: string, k: nat)
    requires k <= |s| && k < |t|
  {
    s[..k] == t[..k] && (k == |s| || s[k] < t[k])
  }

  lemma PrecedesFront(s: string, t: string, k: nat)
    requires k <= |s| && k < |t| && PrecedesAt(s, t, k)
    ensures k > 0 ==> s[0] == t[0]
  {
    assert k > 0 ==> s[..k][0] == s[0] && t[..k][0] == t[0];
  }

  lemma PrecedesShift(s: string, t: string, k: nat)
    requires k + 1 <= |s| && k + 1 < |t| && s[0] == t[0]
    ensures PrecedesAt(s[1..], t[1..], k) <==> PrecedesAt(s, t, k + 1)
  {
    assert s[..k + 1] == [s[0]] + s[1..][..k] && t[..k + 1] == [t[0]] + t[1..][..k];
    assert s[1..][..k] == s[..k + 1][1..] && t[1..][..k] == t[..k + 1][1..];
  }

  lemma {:induction false} TextLessIsPrecedes(s: string, t: string)
    ensures TextLess(s, t) <==> Precedes(s, t)
  {
    if s == [] || t == [] || s[0] != t[0] {
      if t != [] && (s == [] || s[0] < t[0]) {
        assert PrecedesAt(s, t, 0);
      }
      if Precedes(s, t) {
        var k: nat :| k <= |s| && k < |t| && PrecedesAt(s, t, k);
        PrecedesFront(s, t, k);
      }
    } else {
      TextLessIsPrecedes(s[1..], t[1..]);
      if Precedes(s[1..], t[1..]) {
        var k: nat :| k <= |s[1..]| && k < |t[1..]| && PrecedesAt(s[1..], t[1..], k);
        PrecedesShift(s, t, k);
      }
      if Precedes(s, t) {
        var k: nat :| k <= |s| && k < |t| && PrecedesAt(s, t, k);
        PrecedesShift(s, t, k - 1);
      }
    }
  }

  lemma TextCondition(rule: Rule, latest: Latest, s: string, t: string)
    requires ReadsText(latest.values, s) && ReadsText(rule.threshold, t)
    ensures ConditionHolds(rule, latest) <==>
      match rule.operator
      case GT => Precedes(t, s)
      case GTE => Precedes(t, s) || s == t
      case LT => Precedes(s, t)
      case LTE => Precedes(s, t) || s == t
      case EQ => s == t
      case NEQ => s != t
  {
    TextLessIsPrecedes(s, t);
    TextLessIsPrecedes(t, s);
  }

  /** A missing value, and a text against a number, differ from the threshold and are in no order with it; a rule
      without threshold never holds. */
  lemma OtherConditions(rule: Rule, latest: Latest)
    ensures ReadsNothing(rule.threshold) ==> !ConditionHolds(rule, latest)
    ensures ReadsNothing(latest.values) && !ReadsNothing(rule.threshold) ==>
      (ConditionHolds(rule, latest) <==> rule.operator == NEQ)
    ensures forall x, t :: ReadsNumber(latest.values, x) && ReadsText(rule.threshold, t) ==>
      (ConditionHolds(rule, latest) <==> rule.operator == NEQ)
    ensures forall x, t :: ReadsText(latest.values, t) && ReadsNumber(rule.threshold, x) ==>
      (ConditionHolds(rule, latest) <==> rule.operator == NEQ)
  {
  }

  /** Every row of columns reads as exactly one of these. */
  lemma ReadsOneWay(c: Columns)
    ensures (exists x :: ReadsNumber(c, x)) || (exists s :: ReadsText(c, s)) || ReadsNothing(c)
    ensures forall x, y :: ReadsNumber(c, x) && ReadsNumber(c, y) ==> x == y
    ensures forall x, s :: !(ReadsNumber(c, x) && ReadsText(c, s))
    ensures ReadsNothing(c) ==> forall x, s :: !ReadsNumber(c, x) && !ReadsText(c, s)
  {
    if c.float.Some? {
      assert ReadsNumber(c, c.float.value);
    } else if c.integer.Some? {
      assert ReadsNumber(c, c.integer.value as real);
    } else if c.boolean.Some? {
      assert ReadsNumber(c, if c.boolean.value then 1.0 else 0.0);
    } else if c.text.Some? {
      assert ReadsText(c, c.text.value);
    }
  }

  // ----- Suppression and waiting -----

  /** A reading is suppressed by an active window of its organization whose closed interval holds the clock, unless the
      window is for another data centre, device or metric. */
  lemma SuppressionMeaning(windows: seq<Window>, latest: Latest, now: Time)
    ensures HasSuppression(windows, latest, now) <==>
      exists w | w in windows ::
        && w.isActive && w.startsAt <= now && now <= w.endsAt && w.organization == latest.scope.organization
        && !(w.dataCenter.Some? && w.dataCenter != Some(latest.scope.dataCenter))
        && !(w.device.Some? && w.device != Some(latest.scope.device))
        && !(w.metric.Some? && w.metric != Some(latest.metric))
  {
    if w :| w in windows && Covers(w, latest, now) {
      var i :| 0 <= i < |windows| && windows[i] == w;
      assert HasSuppression(windows, latest, now);
    }
  }

  predicate Active(a: Alert)
  {
    a.status == Open || a.status == Acknowledged
  }

  predicate ActiveFor(a: Alert, scope: Scope, metric: MetricId, rule: RuleId)
  {
    Active(a) && a.scope == scope && a.metric == Some(metric) && a.rule == Some(rule)
  }

  /** When a rule's key must be active after its turn: the condition holds, no window suppresses it, and it was active
      already, or the rule has no duration, or the condition has been tracked for that many seconds. */
  lemma ActivityMeaning(db: Db, latest: Latest, rule: Rule, windows: seq<Window>, now: Time)
    ensures
      var k := Key(latest.scope, latest.metric, rule.id);
      ShouldBeActive(db, latest, rule, windows, now) <==>
        && ConditionHolds(rule, latest) && !HasSuppression(windows, latest, now)
        && (|| (exists i | 0 <= i < |db.alerts| :: ActiveFor(db.alerts[i], latest.scope, latest.metric, rule.id))
            || rule.durationSeconds == 0
            || (k in db.states && now >= db.states[k].firstSeenAt + rule.durationSeconds * 1_000_000))
  {
    NewestNone(db.alerts, ForRule(KeyOf(latest, rule)));
    forall i | 0 <= i < |db.alerts|
      ensures Selects(ForRule(KeyOf(latest, rule)), db.alerts[i])
        <==> ActiveFor(db.alerts[i], latest.scope, latest.metric, rule.id)
    {
    }
  }

  /** What a rule's turn does to its condition state. A true reading outside every window, with nothing active,
      starts or continues it, keeping the first sighting; a false one with nothing active ends it; anything else,
      and every other key's state, is left as it was. */
  lemma TrackingMeaning(db: Db, latest: Latest, rule: Rule, windows: seq<Window>, now: Time)
    ensures
      var k := Key(latest.scope, latest.metric, rule.id);
      var active := exists i | 0 <= i < |db.alerts| :: ActiveFor(db.alerts[i], latest.scope, latest.metric, rule.id);
      EvaluateRule(db, latest, rule, windows, now).states ==
        if active || (ConditionHolds(rule, latest) && HasSuppression(windows, latest, now)) then db.states
        else if !ConditionHolds(rule, latest) then db.states - {k}
        else db.states[k := ConditionState(if k in db.states then db.states[k].firstSeenAt
            else now, now, latest.values)]
  {
    NewestNone(db.alerts, ForRule(KeyOf(latest, rule)));
    forall i | 0 <= i < |db.alerts|
      ensures Selects(ForRule(KeyOf(latest, rule)), db.alerts[i])
        <==> ActiveFor(db.alerts[i], latest.scope, latest.metric, rule.id)
    {
    }
  }

  // ----- Stamps -----

  /** The lifecycle columns of a row after one step. */
  ghost predicate Stamped(a: Alert, b: Alert, step: Step, i: nat)
  {
    if step.AcknowledgeAction? && step.i == i && a.status == Open then
      b.status == Acknowledged && b.acknowledgedAt == Some(step.now) && b.resolvedAt == a.resolvedAt &&
          b.resolution == a.resolution
    else if step.ResolveAction? && step.i == i then
      && b.status == Resolved && b.acknowledgedAt == a.acknowledgedAt
      && b.resolvedAt == Some(step.now) && b.resolution == Some(Manual)
    else if b.status == a.status then
      b.acknowledgedAt == a.acknowledgedAt && b.resolvedAt == a.resolvedAt && b.resolution == a.resolution
    else
      && (step.Evaluate? || step.ClearUps?) && (a.status == Open || a.status == Acknowledged)
      && b.acknowledgedAt == a.acknowledgedAt && b.resolvedAt == Some(step.now)
      && ((b.status == Resolved && b.resolution == Some(Auto)
           && (step.Evaluate? ==> !ConditionHolds(step.rule, step.latest)))
          || (b.status == Suppressed && b.resolution == Some(BySuppression) && step.Evaluate?
              && ConditionHolds(step.rule, step.latest) && HasSuppression(step.windows, step.latest, step.now)))
  }

  lemma UntouchedIsStamped(a: Alert, step: Step, i: nat)
    requires !((step.AcknowledgeAction? || step.ResolveAction?) && step.i == i)
    ensures Stamped(a, a, step, i)
  {
  }

  lemma EvaluationStamps(db: Db, latest: Latest, rule: Rule, windows: seq<Window>, now: Time, i: nat)
    requires i < |db.alerts|
    ensures
      var step := Evaluate(latest, rule, windows, now);
      i < |Next(db, step).alerts| && Stamped(db.alerts[i], Next(db, step).alerts[i], step, i)
  {
    UntouchedIsStamped(db.alerts[i], Evaluate(latest, rule, windows, now), i);
  }

  lemma EscalationStamps(db: Db, step: Step, i: nat)
    requires step.EscalateRow? && i < |db.alerts|
    ensures i < |Next(db, step).alerts| && Stamped(db.alerts[i], Next(db, step).alerts[i], step, i)
  {
    if step.i == i {
      EscalatesByChoice(db.alerts[i], step.seen, step.policies, step.now);
    }
  }

  /** Every step stamps the rows it moves with its own clock: an acknowledgement only OPEN rows; a manual resolution
      any row, as MANUAL; an evaluation or UPS clean-up only active rows, as AUTO when the condition is false and as
      SUPPRESSED when it is true in a window. Nothing else touches status, times or resolution. */
  lemma StepStamps(db: Db, step: Step, i: nat)
    requires i < |db.alerts|
    ensures i < |Next(db, step).alerts| && Stamped(db.alerts[i], Next(db, step).alerts[i], step, i)
  {
    match step
    case Evaluate(latest, rule, windows, now) => EvaluationStamps(db, latest, rule, windows, now, i);
    case EscalateRow(_, _, _, _, _) => EscalationStamps(db, step, i);
    case _ =>
  }

  /** What a step adds: an OPEN row as of now for a true reading or a trap, or a SUPPRESSED one for a true reading in a
      window, with the reading's values and the rule's severity or the trap and its severity. */
  lemma NewRowMeaning(db: Db, step: Step)
    requires |Next(db, step).alerts| > |db.alerts|
    ensures |Next(db, step).alerts| == |db.alerts| + 1
    ensures
      var b := Next(db, step).alerts[|db.alerts|];
      && (step.Evaluate? || step.TrapReceived?)
      && b.triggeredAt == step.now && b.lastSeenAt == step.now && b.acknowledgedAt.None? && b.resolvedAt.None?
      && b.occurrences == 1 && b.escalated == []
      && (step.Evaluate? ==>
            && b.scope == step.latest.scope && b.metric == Some(step.latest.metric) && b.rule == Some(step.rule.id)
            && b.severity == step.rule.severity && b.values == step.latest.values && b.trap.None?
            && ConditionHolds(step.rule, step.latest)
            && (b.status == Suppressed <==> HasSuppression(step.windows, step.latest, step.now))
            && (b.status == Open <==> !HasSuppression(step.windows, step.latest, step.now))
            && (b.resolution == if b.status == Suppressed then Some(BySuppression) else None))
      && (step.TrapReceived? ==>
            && b.scope == step.scope && b.metric.None? && b.rule.None? && b.status == Open && b.resolution.None?
            && b.severity == step.severity && b.trap == Some(step.trap))
  {
  }

  /** A repeated sighting counts once more, from one if the count was lost, logs one UPDATED entry and keeps status,
      times of the lifecycle and escalations; a reading brings its values and a trap itself and its severity. */
  lemma UpdateMeaning(a: Alert, latest: Latest, trap: Trap, severity: Severity, now: Time)
    ensures
      var e, count := LogEntry(LogUpdated, Some(a.status), a.status), if a.occurrences > 1 then a.occurrences else 1;
      && Updated(a, latest, now)
         == a.(values := latest.values, lastSeenAt := now, occurrences := count + 1, logs := a.logs + [e])
      && TrapUpdated(a, trap, severity, now)
         == a.(trap := Some(trap), severity := severity, lastSeenAt := now, occurrences := count + 1,
             logs := a.logs + [e])
  {
  }

  // ----- Traps -----

  /** A trap finds an active alert of its scope and OID and folds into it unless both codes are known and differ. */
  lemma TrapMeaning(db: Db, scope: Scope, trap: Trap, severity: Severity, now: Time)
    ensures
      var after := ReceiveTrap(db, scope, trap, severity, now);
      |after.alerts| == |db.alerts| ==>
        exists i | 0 <= i < |db.alerts| ::
          && Active(db.alerts[i]) && db.alerts[i].scope == scope && db.alerts[i].metric.None? && db.alerts[i].rule.None?
          && db.alerts[i].trap.Some? && db.alerts[i].trap.value.oid == trap.oid
          && (trap.code.None? || db.alerts[i].trap.value.code == trap.code)
          && after == db.(alerts := db.alerts[i := after.alerts[i]])
          && after.alerts[i].trap == Some(trap) && after.alerts[i].severity == severity
          && after.alerts[i].lastSeenAt == now && after.alerts[i].status == db.alerts[i].status
    ensures
      (forall i | 0 <= i < |db.alerts| && Active(db.alerts[i]) && db.alerts[i].scope == scope &&
          db.alerts[i].metric.None?
                  && db.alerts[i].rule.None? && db.alerts[i].trap.Some? && db.alerts[i].trap.value.oid == trap.oid ::
         trap.code.Some? && db.alerts[i].trap.value.code != trap.code)
      ==> |ReceiveTrap(db, scope, trap, severity, now).alerts| == |db.alerts| + 1
  {
    var found := Newest(db.alerts, ForTrap(scope, trap.oid));
    if found.Some? && FoldsInto(trap, db.alerts[found.value]) {
      var a := db.alerts[found.value];
      assert Selects(ForTrap(scope, trap.oid), a);
      assert ReceiveTrap(db, scope, trap, severity, now).alerts[found.value] == TrapUpdated(a, trap, severity, now);
    }
  }

  /** The text occurs in the message, whatever the case of its letters. */
  ghost predicate Mentions(message: string, text: string)
  {
    exists k: nat :: k + |text| <= |message| && MentionsAt(message, text, k)
  }

  predicate MentionsAt(message: string, text: string, k: nat)
    requires k + |text| <= |message|
  {
    forall j :: 0 <= j < |text| ==>
      message[k + j] == text[j] || ('A' <= message[k + j] <= 'Z' && message[k + j] - 'A' + 'a' == text[j])
  }

  predicate IsLower(text: string)
  {
    forall j :: 0 <= j < |text| ==> !('A' <= text[j] <= 'Z')
  }

  lemma MentionsShift(message: string, text: string, k: nat)
    requires k + 1 + |text| <= |message|
    ensures MentionsAt(message[1..], text, k) <==> MentionsAt(message, text, k + 1)
  {
    var rest, m := message[1..][k..], message[k + 1..];
    assert rest == m;
    assert forall j :: 0 <= j < |text| ==> message[1..][k + j] == rest[j] && message[k + 1 + j] == m[j];
  }

  lemma {:induction false} ContainsMeaning(message: string, text: string)
    requires IsLower(text)
    ensures Contains(Lower(message), text) <==> Mentions(message, text)
  {
    var lower := Lower(message);
    if text <= lower {
      assert forall j :: 0 <= j < |text| ==> lower[j] == text[j];
      assert MentionsAt(message, text, 0);
    } else if message != [] {
      ContainsMeaning(message[1..], text);
      assert lower[1..] == Lower(message[1..]);
      if Mentions(message[1..], text) {
        var k: nat :| k + |text| <= |message[1..]| && MentionsAt(message[1..], text, k);
        MentionsShift(message, text, k);
      }
      if Mentions(message, text) {
        var k: nat :| k + |text| <= |message| && MentionsAt(message, text, k);
        if k == 0 {
          NotAtFront(message, text);
        } else {
          MentionsShift(message, text, k - 1);
        }
      }
    }
  }

  lemma NotAtFront(message: string, text: string)
    requires IsLower(text) && |text| <= |message| && MentionsAt(message, text, 0)
    ensures text <= Lower(message)
  {
    forall j | 0 <= j < |text| ensures Lower(message)[j] == text[j] {
      assert message[0 + j] == message[j];
    }
  }

  /** An active trap alert of the scope that says, by code, OID or message, that its UPS was abnormal. */
  ghost predicate SaysUpsAbnormal(a: Alert, scope: Scope)
  {
    && Active(a) && a.scope == scope && a.metric.None? && a.rule.None? && a.trap.Some?
    && (|| a.trap.value.code == Some("ups_abnormal_condition")
        || a.trap.value.oid == "1.3.6.1.4.1.318.0.77"
        || Mentions(a.trap.value.message, "ups abnormal condition"))
  }

  lemma UpsSelects(a: Alert, scope: Scope)
    ensures Selects(ForUps(scope), a) <==> SaysUpsAbnormal(a, scope)
  {
    if a.trap.Some? {
      ContainsMeaning(a.trap.value.message, UPS_TRAP_MESSAGE);
    }
  }

  /** The place of the latest-triggered such alert, the last one created among equals. */
  ghost predicate NewestAbnormal(alerts: seq<Alert>, scope: Scope, i: nat)
  {
    && i < |alerts| && SaysUpsAbnormal(alerts[i], scope)
    && forall j | 0 <= j < |alerts| && SaysUpsAbnormal(alerts[j], scope) ::
         alerts[j].triggeredAt < alerts[i].triggeredAt || (alerts[j].triggeredAt == alerts[i].triggeredAt && j <= i)
  }

  lemma NewestIsNewestAbnormal(alerts: seq<Alert>, scope: Scope, i: nat)
    ensures Newest(alerts, ForUps(scope)) == Some(i) <==> NewestAbnormal(alerts, scope, i)
  {
    var r := Newest(alerts, ForUps(scope));
    forall j | 0 <= j < |alerts|
      ensures Selects(ForUps(scope), alerts[j]) <==> SaysUpsAbnormal(alerts[j], scope)
      ensures SaysUpsAbnormal(alerts[j], scope) ==>
        && r.Some? && (alerts[j].triggeredAt < alerts[r.value].triggeredAt
                       || (alerts[j].triggeredAt == alerts[r.value].triggeredAt && j <= r.value))
    {
      UpsSelects(alerts[j], scope);
      if Selects(ForUps(scope), alerts[j]) {
        NewestIsNewest(alerts, ForUps(scope), j);
      }
    }
  }

  /** The UPS clean-up resolves the newest abnormal-UPS alert of its scope, exactly on a healthy reading, as AUTO and
      now; it changes no other row and no state. */
  lemma UpsMeaning(db: Db, latest: Latest, now: Time, i: nat)
    requires i < |db.alerts|
    ensures
      var after := ResolveUpsTrap(db, latest, now);
      && |after.alerts| == |db.alerts| && after.states == db.states
      && (if latest.upsCleared && NewestAbnormal(db.alerts, latest.scope, i) then
            && after.alerts[i].status == Resolved && after.alerts[i].resolvedAt == Some(now)
            && after.alerts[i].resolution == Some(Auto) && after.alerts[i].lastSeenAt == now
            && |after.alerts[i].logs| == |db.alerts[i].logs| + 1
          else after.alerts[i] == db.alerts[i])
  {
    NewestIsNewestAbnormal(db.alerts, latest.scope, i);
  }

  // ----- Rule deletion -----

  /** Deleting a rule unlinks its alerts, which stay otherwise as they are, and drops exactly its condition states. */
  lemma DeletionMeaning(db: Db, rule: RuleId)
    ensures
      var after := DeleteRule(db, rule);
      && |after.alerts| == |db.alerts|
      && (forall i :: 0 <= i < |db.alerts| ==>
            && after.alerts[i].(rule := None) == db.alerts[i].(rule := None)
            && after.alerts[i].rule == if db.alerts[i].rule == Some(rule) then None else db.alerts[i].rule)
      && (forall k: Key :: k in after.states <==> k in db.states && k.rule != rule)
      && (forall k: Key :: k in after.states ==> after.states[k] == db.states[k])
  {
  }

  // ----- Escalation -----

  /** What a policy asks of a row, in whole minutes of microseconds. */
  predicate Deserves(a: Alert, p: Policy, now: Time)
  {
    && p.isActive && a.severity == p.severity
    && !(p.organization.Some? && p.organization != Some(a.scope.organization))
    && !(p.dataCenter.Some? && p.dataCenter != Some(a.scope.dataCenter))
    && ((a.status == Open && Passed(a.triggeredAt, p.ifNotAcknowledgedMinutes, now))
        || (a.acknowledgedAt.Some? && Passed(a.acknowledgedAt.value, p.ifNotResolvedMinutes, now))
        || (a.acknowledgedAt.None? && Passed(a.triggeredAt, p.ifNotResolvedMinutes, now)))
  }

  predicate Passed(since: Time, minutes: Option<nat>, now: Time)
  {
    minutes.Some? && since + minutes.value * 60_000_000 <= now
  }

  lemma FiresExactly(a: Alert, p: Policy, now: Time)
    ensures Fires(a, p, now) <==> Deserves(a, p, now)
  {
  }

  /** A check escalates a row by a lone policy exactly if the row as loaded has not used it and deserves it; then the
      policy joins the list and the log, a trap's OID and code are as loaded, and everything else stays. */
  lemma LonePolicyExactly(a: Alert, seen: Alert, p: Policy, now: Time)
    ensures
      var b := EscalateBy(a, seen, [p], now);
      if p.id !in seen.escalated && Deserves(seen, p, now) then
        && b.escalated == seen.escalated + [p.id]
        && b.logs == a.logs + [LogEntry(LogEscalated(p.id), Some(seen.status), seen.status)]
        && b == a.(escalated := b.escalated, logs := b.logs, trap := b.trap)
        && (a.trap.Some? && seen.trap.Some? ==>
              b.trap == Some(Trap(seen.trap.value.oid, seen.trap.value.code, a.trap.value.message)))
        && (a.trap.None? || seen.trap.None? ==> b.trap == a.trap)
      else b == a
  {
    FiresExactly(seen, p, now);
    EscalatesByChoice(a, seen, [p], now);
  }

  /** Among several, the first deserved policy decides: it is used if it was not, and no other one is tried. */
  lemma FirstDeservedDecides(a: Alert, seen: Alert, policies: seq<Policy>, n: nat, now: Time)
    requires n < |policies| && Deserves(seen, policies[n], now)
    requires forall i :: 0 <= i < n ==> !Deserves(seen, policies[i], now)
    ensures EscalateBy(a, seen, policies, now) == EscalateBy(a, seen, [policies[n]], now)
  {
    forall p ensures Fires(seen, p, now) <==> Deserves(seen, p, now) {
      FiresExactly(seen, p, now);
    }
    EscalatesByChoice(a, seen, policies, now);
    EscalatesByChoice(a, seen, [policies[n]], now);
    var first := FirstFiring(seen, policies, now);
    assert first.Some? && first.value == n;
  }

  lemma NoneDeserved(a: Alert, seen: Alert, policies: seq<Policy>, now: Time)
    requires forall i :: 0 <= i < |policies| ==> !Deserves(seen, policies[i], now)
    ensures EscalateBy(a, seen, policies, now) == a
  {
    EscalatesByChoice(a, seen, policies, now);
    var first := FirstFiring(seen, policies, now);
    if first.Some? {
      FiresExactly(seen, policies[first.value], now);
    }
  }

  /** An acknowledged alert is never escalated for lack of acknowledgement. */
  lemma AcknowledgedIsLeftAlone(a: Alert, policies: seq<Policy>, now: Time)
    requires a.status == Acknowledged && forall i :: 0 <= i < |policies| ==> policies[i].ifNotResolvedMinutes.None?
    ensures EscalateBy(a, a, policies, now) == a
  {
    NoneDeserved(a, a, policies, now);
  }

  /** A check with nothing in between gives every active row its own turn and leaves the others, and all states,
      alone. */
  lemma CheckMeaning(db: Db, policies: seq<Policy>, now: Time, i: nat)
    requires i < |db.alerts|
    ensures
      var after := UndisturbedCheck(db, policies, now);
      && |after.alerts| == |db.alerts| && after.states == db.states
      && (!Active(db.alerts[i]) ==> after.alerts[i] == db.alerts[i])
      && (Active(db.alerts[i]) ==> after.alerts[i] == EscalateBy(db.alerts[i], db.alerts[i], policies, now))
      && ((forall n :: 0 <= n < |policies| ==> !Deserves(db.alerts[i], policies[n], now)) ==>
          after.alerts[i] == db.alerts[i])
  {
    if forall n :: 0 <= n < |policies| ==> !Deserves(db.alerts[i], policies[n], now) {
      NoneDeserved(db.alerts[i], db.alerts[i], policies, now);
    }
  }
}
