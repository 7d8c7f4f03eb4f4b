/** What users of the alert engine may rely on, over every run: duration, suppression, trap deduplication,
    escalation. */
module AlertGuarantees {
  import opened Prelude
  import opened AlertData
  import opened AlertSpec
  import opened AlertEvaluation
  import opened AlertRuns
  import opened AlertLogs

  // ----- Duration -----

  predicate EvaluatesKey(step: Step, k: Key)
  {
    step.Evaluate? && KeyOf(step.latest, step.rule) == k
  }

  /** The key goes from no active alert to an active one. */
  predicate Opens(before: Db, after: Db, k: Key)
  {
    !HasActive(before, k) && HasActive(after, k)
  }

  ghost predicate OpensAt(trace: seq<Db>, n: nat, k: Key)
    requires n + 1 < |trace|
  {
    Opens(trace[n], trace[n + 1], k)
  }

  lemma OpeningStep(db: Db, step: Step, k: Key)
    requires Opens(db, Next(db, step), k)
    ensures EvaluatesKey(step, k) && ConditionHolds(step.rule, step.latest)
    ensures
      var state := Upserted(StateOf(db, k), step.latest.values, step.now);
      LastedLongEnough(state, step.rule, step.now)
  {
    var after := Next(db, step);
    var i := Newest(after.alerts, ForRule(k)).value;
    StepExtends(db, step);
    WasSelected(db, after, k, i);
    NewestNone(db.alerts, ForRule(k));
    NewRowIsFirst(db, step, k);
  }

  /** What one step can do to the condition state of a key. */
  lemma StateStep(db: Db, step: Step, k: Key)
    ensures
      var after := Next(db, step);
      && (k !in db.states && k in after.states ==>
            EvaluatesKey(step, k) && ConditionHolds(step.rule, step.latest) && !HasActive(db, k)
            && after.states[k].firstSeenAt == step.now)
      && (k in db.states && k in after.states ==> after.states[k].firstSeenAt == db.states[k].firstSeenAt)
      && (k in after.states && !HasActive(db, k) && EvaluatesKey(step, k) ==> ConditionHolds(step.rule, step.latest))
  {
  }

  /** The life of a condition state: born at step `i`, still there before step `m`. */
  ghost predicate Alive(trace: seq<Db>, i: nat, m: nat, k: Key)
    requires i < m < |trace|
  {
    k !in trace[i].states && forall n :: i < n <= m ==> k in trace[n].states
  }

  lemma {:induction false} BornAt(trace: seq<Db>, steps: seq<Step>, i: nat, m: nat, k: Key)
    requires IsRun(trace, steps) && i < m <= |steps| && Alive(trace, i, m, k)
    ensures EvaluatesKey(steps[i], k) && trace[m].states[k].firstSeenAt == steps[i].now
    ensures ConditionHolds(steps[i].rule, steps[i].latest) && !HasActive(trace[i], k)
    decreases m
  {
    assert StepAt(trace, steps, m - 1);
    StateStep(trace[m - 1], steps[m - 1], k);
    if i + 1 < m {
      BornAt(trace, steps, i, m - 1, k);
    }
  }

  /** The step evaluates the key false while it has an active alert, which resolves it and keeps the state. */
  ghost predicate AutoResolvesAt(trace: seq<Db>, steps: seq<Step>, n: nat, k: Key)
    requires n < |steps| && n < |trace|
  {
    EvaluatesKey(steps[n], k) && HasActive(trace[n], k) && !ConditionHolds(steps[n].rule, steps[n].latest)
  }

  /** Inside a life an evaluation is false only where it auto-resolves. */
  lemma FalseOnlyByResolve(trace: seq<Db>, steps: seq<Step>, i: nat, m: nat, n: nat, k: Key)
    requires IsRun(trace, steps) && i <= n < m <= |steps| && Alive(trace, i, m, k) && EvaluatesKey(steps[n], k)
    ensures ConditionHolds(steps[n].rule, steps[n].latest) <==> !AutoResolvesAt(trace, steps, n, k)
  {
    assert StepAt(trace, steps, n);
    StateStep(trace[n], steps[n], k);
  }

  /** Whenever an alert opens in the life of a condition state, the full duration has passed since the state was
      born; and the condition was true at every evaluation since then if and only if none of them auto-resolved. */
  lemma DurationGuarantee(trace: seq<Db>, steps: seq<Step>, i: nat, j: nat, k: Key)
    requires IsRun(trace, steps) && i <= j < |steps| && k !in trace[i].states
    requires (i < j ==> Alive(trace, i, j, k)) && OpensAt(trace, j, k)
    ensures EvaluatesKey(steps[i], k) && EvaluatesKey(steps[j], k)
    ensures steps[j].now - steps[i].now >= steps[j].rule.durationSeconds * SECOND || steps[j].rule.durationSeconds == 0
    ensures (forall n :: i <= n <= j && EvaluatesKey(steps[n], k) ==> ConditionHolds(steps[n].rule, steps[n].latest))
      <==> forall n :: i <= n <= j ==> !AutoResolvesAt(trace, steps, n, k)
  {
    assert StepAt(trace, steps, j);
    OpeningStep(trace[j], steps[j], k);
    if i < j {
      BornAt(trace, steps, i, j, k);
    }
    forall n | i <= n <= j && EvaluatesKey(steps[n], k)
      ensures ConditionHolds(steps[n].rule, steps[n].latest) <==> !AutoResolvesAt(trace, steps, n, k)
    {
      if n < j {
        FalseOnlyByResolve(trace, steps, i, j, n, k);
      }
    }
  }

  /** Until a key's first alert in a life there is nothing to auto-resolve. */
  lemma {:induction false} InactiveUntilOpened(trace: seq<Db>, steps: seq<Step>, i: nat, m: nat, k: Key)
    requires IsRun(trace, steps) && i <= m <= |steps| && !HasActive(trace[i], k)
    requires forall n :: i <= n < m ==> !OpensAt(trace, n, k)
    ensures !HasActive(trace[m], k)
    decreases m
  {
    if i < m {
      InactiveUntilOpened(trace, steps, i, m - 1, k);
      assert !OpensAt(trace, m - 1, k);
    }
  }

  /** So the first alert of a life always opens after the full duration, over which every evaluation was true. */
  lemma FirstAlertIsEarned(trace: seq<Db>, steps: seq<Step>, i: nat, j: nat, k: Key)
    requires IsRun(trace, steps) && i <= j < |steps| && k !in trace[i].states
    requires (i < j ==> Alive(trace, i, j, k)) && OpensAt(trace, j, k)
    requires forall n :: i <= n < j ==> !OpensAt(trace, n, k)
    ensures EvaluatesKey(steps[i], k) && EvaluatesKey(steps[j], k)
    ensures steps[j].now - steps[i].now >= steps[j].rule.durationSeconds * SECOND || steps[j].rule.durationSeconds == 0
    ensures forall n :: i <= n <= j && EvaluatesKey(steps[n], k) ==> ConditionHolds(steps[n].rule, steps[n].latest)
  {
    DurationGuarantee(trace, steps, i, j, k);
    if i < j {
      BornAt(trace, steps, i, j, k);
    }
    forall n | i <= n <= j ensures !AutoResolvesAt(trace, steps, n, k) {
      if i < n {
        InactiveUntilOpened(trace, steps, i, n, k);
      }
    }
  }

  /** After an auto-resolve the old first sighting still counts. */
  lemma ReopensAtOnce(db: Db, latest: Latest, recovered: Latest, rule: Rule, windows: seq<Window>, t: Time, u: Time)
    requires UniqueActive(db) && KeyOf(latest, rule) == KeyOf(recovered, rule)
    requires HasActive(db, KeyOf(latest, rule)) && KeyOf(latest, rule) in db.states
    requires !ConditionHolds(rule, recovered) && ConditionHolds(rule, latest) && !HasSuppression(windows, latest, u)
    requires u - db.states[KeyOf(latest, rule)].firstSeenAt >= rule.durationSeconds * SECOND
    ensures
      var resolved := EvaluateRule(db, recovered, rule, windows, t);
      !HasActive(resolved, KeyOf(latest, rule)) &&
          HasActive(EvaluateRule(resolved, latest, rule, windows, u), KeyOf(latest, rule))
  {
  }

  // ----- Suppression -----

  function EvaluateAt(db: Db, latest: Latest, rule: Rule, windows: seq<Window>, times: seq<Time>): Db
  {
    if times == [] then db
    else
      var last := |times| - 1;
      EvaluateRule(EvaluateAt(db, latest, rule, windows, times[..last]), latest, rule, windows, times[last])
  }

  lemma SuppressedStep(db: Db, latest: Latest, rule: Rule, windows: seq<Window>, now: Time)
    requires ConditionHolds(rule, latest) && !HasActive(db, KeyOf(latest, rule)) && HasSuppression(windows, latest, now)
    ensures
      var after := EvaluateRule(db, latest, rule, windows, now);
      after == Db(db.alerts + [RuleAlert(latest, rule, Suppressed, now)], db.states) &&
          !HasActive(after, KeyOf(latest, rule))
  {
  }

  /** The suppressed rows of successive evaluations. */
  function SuppressedRows(latest: Latest, rule: Rule, times: seq<Time>): (rows: seq<Alert>)
    ensures |rows| == |times|
    ensures forall i | 0 <= i < |rows| ::
      rows[i].status == Suppressed && rows[i].resolvedAt.None? && rows[i].triggeredAt == times[i] &&
          HasKey(rows[i], KeyOf(latest, rule))
  {
    if times == [] then []
    else SuppressedRows(latest, rule, times[..|times| - 1]) + [RuleAlert(latest, rule, Suppressed, times[|times| - 1])]
  }

  lemma AppendOne<T>(a: seq<T>, b: seq<T>, x: T)
    ensures (a + b) + [x] == a + (b + [x])
  {
  }

  lemma SuppressedClose(db: Db, latest: Latest, rule: Rule, windows: seq<Window>, now: Time)
    requires UniqueActive(db) && ConditionHolds(rule, latest) && HasActive(db, KeyOf(latest, rule))
    requires HasSuppression(windows, latest, now)
    ensures
      var found := Newest(db.alerts, ForRule(KeyOf(latest, rule))).value;
      var after := EvaluateRule(db, latest, rule, windows, now);
      && after == Db(db.alerts[found := SuppressedRow(db.alerts[found], now)], db.states)
      && !HasActive(after, KeyOf(latest, rule))
  {
    var q := ForRule(KeyOf(latest, rule));
    ClosingEmptiesKey(db.alerts, q, SuppressedRow(db.alerts[Newest(db.alerts, q).value], now));
  }

  /** The rows left by a first suppressed evaluation: an active alert is closed, otherwise a row is added. */
  function FirstSuppressed(db: Db, latest: Latest, rule: Rule, now: Time): seq<Alert>
  {
    var found := Newest(db.alerts, ForRule(KeyOf(latest, rule)));
    if found.Some? then db.alerts[found.value := SuppressedRow(db.alerts[found.value], now)]
    else db.alerts + [RuleAlert(latest, rule, Suppressed, now)]
  }

  /** Suppression does not deduplicate: after the first suppressed evaluation of a true condition every further one adds
      one more SUPPRESSED row, which gets no resolution time, and the condition state stands still. */
  lemma {:induction false} SuppressionPilesUp(db: Db, latest: Latest, rule: Rule, windows: seq<Window>,
      times: seq<Time>)
    requires UniqueActive(db) && ConditionHolds(rule, latest) && times != []
    requires forall i :: 0 <= i < |times| ==> HasSuppression(windows, latest, times[i])
    ensures
      var after := EvaluateAt(db, latest, rule, windows, times);
      && after == Db(FirstSuppressed(db, latest, rule, times[0]) + SuppressedRows(latest, rule, times[1..]), db.states)
      && |after.alerts| == |db.alerts| + |times| - (if HasActive(db, KeyOf(latest, rule)) then 1 else 0)
      && !HasActive(after, KeyOf(latest, rule))
  {
    var last := |times| - 1;
    if last == 0 {
      assert EvaluateAt(db, latest, rule, windows, times[..0]) == db;
      if HasActive(db, KeyOf(latest, rule)) {
        SuppressedClose(db, latest, rule, windows, times[0]);
      } else {
        SuppressedStep(db, latest, rule, windows, times[0]);
      }
      assert FirstSuppressed(db, latest, rule, times[0]) + [] == FirstSuppressed(db, latest, rule, times[0]);
    } else {
      SuppressionPilesUp(db, latest, rule, windows, times[..last]);
      assert times[..last][1..] == times[1..][..last - 1];
      AppendOne(FirstSuppressed(db, latest, rule, times[0]), SuppressedRows(latest, rule, times[1..][..last - 1]),
                RuleAlert(latest, rule, Suppressed, times[last]));
      SuppressedStep(EvaluateAt(db, latest, rule, windows, times[..last]), latest, rule, windows, times[last]);
    }
  }

  // ----- Traps -----

  ghost predicate UniqueTraps(db: Db)
  {
    forall scope, oid, i, j | 0 <= i < |db.alerts| && 0 <= j < |db.alerts| ::
      Selects(ForTrap(scope, oid), db.alerts[i]) && Selects(ForTrap(scope, oid), db.alerts[j]) ==> i == j
  }

  /** A trap keeps traps unique exactly when it finds no active alert of its OID or folds into it. */
  lemma TrapKeepsUniqueExactly(db: Db, scope: Scope, trap: Trap, severity: Severity, now: Time)
    requires UniqueTraps(db)
    ensures
      var found := Newest(db.alerts, ForTrap(scope, trap.oid));
      UniqueTraps(ReceiveTrap(db, scope, trap, severity, now)) <==>
          found.None? || FoldsInto(trap, db.alerts[found.value])
  {
    var q := ForTrap(scope, trap.oid);
    var found := Newest(db.alerts, q);
    var after := ReceiveTrap(db, scope, trap, severity, now);
    if found.Some? && !FoldsInto(trap, db.alerts[found.value]) {
      assert Selects(q, after.alerts[found.value]) && Selects(q, after.alerts[|db.alerts|]);
    } else {
      NewestNone(db.alerts, q);
      forall s, oid, i, j | 0 <= i < |after.alerts| && 0 <= j < |after.alerts|
                            && Selects(ForTrap(s, oid), after.alerts[i]) && Selects(ForTrap(s, oid), after.alerts[j])
        ensures i == j
      {
        assert i < |db.alerts| ==> Selects(ForTrap(s, oid), db.alerts[i]);
        assert j < |db.alerts| ==> Selects(ForTrap(s, oid), db.alerts[j]);
      }
    }
  }

  /** No trap is lost: afterwards an active alert of its OID carries its code, message, severity and time. */
  lemma TrapIsRecorded(db: Db, scope: Scope, trap: Trap, severity: Severity, now: Time)
    ensures
      var after := ReceiveTrap(db, scope, trap, severity, now);
      exists i | 0 <= i < |after.alerts| ::
        && Selects(ForTrap(scope, trap.oid), after.alerts[i]) && after.alerts[i].trap == Some(trap)
        && after.alerts[i].severity == severity && after.alerts[i].lastSeenAt == now
  {
    var after := ReceiveTrap(db, scope, trap, severity, now);
    var found := Newest(db.alerts, ForTrap(scope, trap.oid));
    var i := if found.Some? && FoldsInto(trap, db.alerts[found.value]) then found.value else |db.alerts|;
    assert Selects(ForTrap(scope, trap.oid), after.alerts[i]) && after.alerts[i].trap == Some(trap);
  }

  /** Two codes for one OID do open two alerts. */
  lemma TwoCodesTwoAlerts()
    ensures
      var scope := Scope(1, 1, 1);
      var first := ReceiveTrap(EMPTY_DB, scope, Trap("1.3.6.1", Some("on_battery"), ""), Critical, 0);
      !UniqueTraps(ReceiveTrap(first, scope, Trap("1.3.6.1", Some("low_battery"), ""), Critical, 1))
  {
    var scope := Scope(1, 1, 1);
    var q := ForTrap(scope, "1.3.6.1");
    var first := ReceiveTrap(EMPTY_DB, scope, Trap("1.3.6.1", Some("on_battery"), ""), Critical, 0);
    assert Newest(EMPTY_DB.alerts, q).None?;
    assert first.alerts[0].trap.value.code == Some("on_battery");
    NewestIsNewest(first.alerts, q, 0);
    TrapKeepsUniqueExactly(first, scope, Trap("1.3.6.1", Some("low_battery"), ""), Critical, 1);
  }

  /** Trap rows have neither metric nor rule, and carry the code that `code` assigns to their OID. */
  ghost predicate TrapRowsOk(db: Db, code: (Scope, string) -> Option<string>)
  {
    forall i :: 0 <= i < |db.alerts| && db.alerts[i].trap.Some? ==> TrapRowOk(db.alerts[i], code)
  }

  predicate TrapRowOk(a: Alert, code: (Scope, string) -> Option<string>)
    requires a.trap.Some?
  {
    a.metric.None? && a.rule.None? && a.trap.value.code == code(a.scope, a.trap.value.oid)
  }

  predicate CodedBy(step: Step, code: (Scope, string) -> Option<string>)
  {
    step.TrapReceived? ==> step.trap.code == code(step.scope, step.trap.oid)
  }

  ghost predicate SameTraps(d: Db, e: Db)
  {
    && |d.alerts| <= |e.alerts| <= |d.alerts| + 1
    && (forall i :: 0 <= i < |d.alerts| ==> e.alerts[i].trap == d.alerts[i].trap)
    && (|d.alerts| < |e.alerts| ==> e.alerts[|d.alerts|].trap.None?)
  }

  /** Only a trap writes the trap part of a row, and an escalation, which saves the part it loaded. */
  lemma OtherStepsKeepTraps(db: Db, step: Step)
    requires !step.TrapReceived? && !step.EscalateRow?
    ensures SameTraps(db, Next(db, step))
  {
  }

  lemma EscalationKeepsTrap(db: Db, step: Step)
    requires step.EscalateRow? && (step.i < |db.alerts| ==>
      TrapFrom(db.alerts[step.i].trap, step.seen.trap) == db.alerts[step.i].trap)
    ensures SameTraps(db, Next(db, step))
  {
    if step.i < |db.alerts| {
      EscalatesByChoice(db.alerts[step.i], step.seen, step.policies, step.now);
    }
  }

  predicate SameOid(a: Alert, b: Alert)
  {
    && b.scope == a.scope && (b.trap.Some? <==> a.trap.Some?)
    && (a.trap.Some? ==> b.trap.value.oid == a.trap.value.oid)
  }

  lemma StepKeepsOid(db: Db, step: Step, i: nat)
    requires i < |db.alerts| && (step.EscalateRow? && step.i == i ==> SameOid(step.seen, db.alerts[i]))
    ensures i < |Next(db, step).alerts| && SameOid(db.alerts[i], Next(db, step).alerts[i])
  {
    if step.EscalateRow? && step.i == i {
      EscalatesByChoice(db.alerts[i], step.seen, step.policies, step.now);
    } else if !step.TrapReceived? && !step.EscalateRow? {
      OtherStepsKeepTraps(db, step);
      StepExtends(db, step);
      assert Advances(db.alerts[i], Next(db, step).alerts[i]);
    }
  }

  /** The OID of a row never changes, not even when an escalation saves metadata it loaded earlier. */
  lemma {:induction false} OidIsFixed(trace: seq<Db>, steps: seq<Step>, m: nat, n: nat, i: nat)
    requires IsRun(trace, steps) && m <= n <= |steps| && i < |trace[m].alerts|
    ensures i < |trace[n].alerts| && SameOid(trace[m].alerts[i], trace[n].alerts[i])
    decreases n
  {
    if m < n {
      OidIsFixed(trace, steps, m, n - 1, i);
      assert StepAt(trace, steps, n - 1);
      if steps[n - 1].EscalateRow? && steps[n - 1].i == i {
        OidIsFixed(trace, steps, steps[n - 1].readAt, n - 1, i);
      }
      StepKeepsOid(trace[n - 1], steps[n - 1], i);
    }
  }

  lemma TrapStep(db: Db, step: Step, code: (Scope, string) -> Option<string>)
    requires step.TrapReceived? && CodedBy(step, code) && UniqueTraps(db) && TrapRowsOk(db, code)
    ensures UniqueTraps(Next(db, step)) && TrapRowsOk(Next(db, step), code)
  {
    TrapKeepsUniqueExactly(db, step.scope, step.trap, step.severity, step.now);
    var found := Newest(db.alerts, ForTrap(step.scope, step.trap.oid));
    if found.Some? {
      assert TrapRowOk(db.alerts[found.value], code);
    }
  }

  lemma WasTrap(d: Db, e: Db, i: nat, code: (Scope, string) -> Option<string>)
    requires Extends(d, e) && SameTraps(d, e) && TrapRowsOk(d, code) && i < |e.alerts| && e.alerts[i].trap.Some?
    ensures i < |d.alerts| && TrapRowOk(d.alerts[i], code) && TrapRowOk(e.alerts[i], code)
    ensures forall q: Query :: q.ForTrap? && Selects(q, e.alerts[i]) ==> Selects(q, d.alerts[i])
  {
  }

  lemma OtherStep(d: Db, e: Db, code: (Scope, string) -> Option<string>)
    requires Extends(d, e) && SameTraps(d, e) && UniqueTraps(d) && TrapRowsOk(d, code)
    ensures UniqueTraps(e) && TrapRowsOk(e, code)
  {
    forall i | 0 <= i < |e.alerts| && e.alerts[i].trap.Some? ensures TrapRowOk(e.alerts[i], code) {
      WasTrap(d, e, i, code);
    }
    forall s, oid, i, j | 0 <= i < |e.alerts| && 0 <= j < |e.alerts|
                          && Selects(ForTrap(s, oid), e.alerts[i]) && Selects(ForTrap(s, oid), e.alerts[j])
      ensures i == j
    {
      WasTrap(d, e, i, code);
      WasTrap(d, e, j, code);
    }
  }

  /** If the event code is a fixed function of scope and OID, no run ever holds two active alerts of one trap. */
  lemma {:induction false} TrapsStayUnique(trace: seq<Db>, steps: seq<Step>, n: nat,
      code: (Scope, string) -> Option<string>)
    requires IsRun(trace, steps) && n <= |steps| && UniqueTraps(trace[0]) && TrapRowsOk(trace[0], code)
    requires forall m :: 0 <= m < |steps| ==> CodedBy(steps[m], code)
    ensures UniqueTraps(trace[n]) && TrapRowsOk(trace[n], code)
  {
    if n > 0 {
      TrapsStayUnique(trace, steps, n - 1, code);
      var step := steps[n - 1];
      if step.EscalateRow? {
        assert StepAt(trace, steps, n - 1);
        TrapsStayUnique(trace, steps, step.readAt, code);
        OidIsFixed(trace, steps, step.readAt, n - 1, step.i);
        LoadedTrapIsCurrent(trace[step.readAt].alerts, trace[n - 1].alerts, step.i, code);
      }
      TrapsAfter(trace, steps, n - 1, code);
    }
  }

  lemma LoadedTrapIsCurrent(earlier: seq<Alert>, alerts: seq<Alert>, i: nat, code: (Scope, string) -> Option<string>)
    requires i < |earlier| && i < |alerts| && SameOid(earlier[i], alerts[i])
    requires TrapRowsOk(Db(earlier, map[]), code) && TrapRowsOk(Db(alerts, map[]), code)
    ensures TrapFrom(alerts[i].trap, earlier[i].trap) == alerts[i].trap
  {
    if alerts[i].trap.Some? {
      assert TrapRowOk(Db(alerts, map[]).alerts[i], code) && TrapRowOk(Db(earlier, map[]).alerts[i], code);
    }
  }

  lemma TrapsAfter(trace: seq<Db>, steps: seq<Step>, n: nat, code: (Scope, string) -> Option<string>)
    requires IsRun(trace, steps) && n < |steps| && UniqueTraps(trace[n]) && TrapRowsOk(trace[n], code)
    requires CodedBy(steps[n], code)
    requires steps[n].EscalateRow? && steps[n].i < |trace[n].alerts| ==>
      TrapFrom(trace[n].alerts[steps[n].i].trap, steps[n].seen.trap) == trace[n].alerts[steps[n].i].trap
    ensures UniqueTraps(trace[n + 1]) && TrapRowsOk(trace[n + 1], code)
  {
    assert StepAt(trace, steps, n);
    if steps[n].TrapReceived? {
      TrapStep(trace[n], steps[n], code);
    } else {
      StepExtends(trace[n], steps[n]);
      if steps[n].EscalateRow? {
        EscalationKeepsTrap(trace[n], steps[n]);
      } else {
        OtherStepsKeepTraps(trace[n], steps[n]);
      }
      OtherStep(trace[n], trace[n + 1], code);
    }
  }

  // ----- Escalation -----

  /** A policy that has fired and been used hides every later policy for as long as the alert does not change. */
  lemma UsedPolicyHidesLaterOnes(a: Alert, policies: seq<Policy>, i: nat, t: Time, u: Time)
    requires i < |policies| && Fires(a, policies[i], t) && policies[i].id in a.escalated && t <= u
    ensures
      var b := EscalateBy(a, a, policies, u);
      b.escalated == a.escalated || exists j :: 0 <= j < i && b.escalated == a.escalated + [policies[j].id]
  {
    EscalatesByChoice(a, a, policies, u);
    assert Fires(a, policies[i], u);
  }

  /** An escalation changes nothing but the list, the log and a trap's metadata: it never touches the lifecycle. */
  lemma EscalationKeepsLifecycle(a: Alert, seen: Alert, policies: seq<Policy>, now: Time)
    ensures
      var b := EscalateBy(a, seen, policies, now);
      b == a.(escalated := b.escalated, trap := b.trap, logs := b.logs) && a.logs <= b.logs && |b.logs| <= |a.logs| + 1
  {
    EscalatesByChoice(a, seen, policies, now);
  }
}
