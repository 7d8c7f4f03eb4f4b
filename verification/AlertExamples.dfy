/** Short runs of the alert engine in which an obvious claim fails. */
module AlertExamples {
  import opened Prelude
  import opened AlertData
  import opened AlertSpec
  import opened AlertEvaluation
  import opened AlertRuns
  import opened AlertLogs
  import opened AlertGuarantees

  const SITE := Scope(1, 1, 1)
  const NO_VALUE := Columns(None, None, None, None)
  const HOT := Latest(SITE, 1, NO_VALUE.(integer := Some(90)), false)
  const COOL := Latest(SITE, 1, NO_VALUE.(integer := Some(20)), false)
  /** Above 50 for a minute. */
  const TOO_HOT := Rule(1, Critical, GT, NO_VALUE.(integer := Some(50)), 60)
  const MAINTENANCE := Window(1, None, None, None, 0, DAY, true)
  const ON_BATTERY := Trap("1.3.6.1", Some("on_battery"), "")

  lemma Readings()
    ensures ConditionHolds(TOO_HOT, HOT) && !ConditionHolds(TOO_HOT, COOL) &&
      KeyOf(HOT, TOO_HOT) == KeyOf(COOL, TOO_HOT)
  {
  }

  /** The rows before and after a minute of heat. */
  lemma HeatRaisesAlert()
    ensures
      var first := EvaluateRule(EMPTY_DB, HOT, TOO_HOT, [], 0);
      var raised := EvaluateRule(first, HOT, TOO_HOT, [], MINUTE);
      && UniqueActive(raised) && HasActive(raised, KeyOf(HOT, TOO_HOT))
      && KeyOf(HOT, TOO_HOT) in raised.states && raised.states[KeyOf(HOT, TOO_HOT)].firstSeenAt == 0
  {
    var k := KeyOf(HOT, TOO_HOT);
    Readings();
    assert Newest([], ForRule(k)).None?;
    var first := EvaluateRule(EMPTY_DB, HOT, TOO_HOT, [], 0);
    assert first == Db([], map[k := ConditionState(0, 0, HOT.values)]);
    StepKeepsUnique(first, Evaluate(HOT, TOO_HOT, [], MINUTE));
    EvaluateRuleActivity(first, HOT, TOO_HOT, [], MINUTE);
  }

  /** One cool reading resolves the alert, and one second later a single hot one reopens it. */
  lemma ReopenedAfterASecond()
    ensures
      var raised := EvaluateRule(EvaluateRule(EMPTY_DB, HOT, TOO_HOT, [], 0), HOT, TOO_HOT, [], MINUTE);
      var resolved := EvaluateRule(raised, COOL, TOO_HOT, [], MINUTE + SECOND);
      var reopened := EvaluateRule(resolved, HOT, TOO_HOT, [], MINUTE + 2 * SECOND);
      && !HasActive(resolved, KeyOf(HOT, TOO_HOT)) && HasActive(reopened, KeyOf(HOT, TOO_HOT))
  {
    Readings();
    HeatRaisesAlert();
    var raised := EvaluateRule(EvaluateRule(EMPTY_DB, HOT, TOO_HOT, [], 0), HOT, TOO_HOT, [], MINUTE);
    ReopensAtOnce(raised, HOT, COOL, TOO_HOT, [], MINUTE + SECOND, MINUTE + 2 * SECOND);
  }

  /** Two evaluations under maintenance leave two SUPPRESSED rows. */
  lemma TwoSuppressedRows()
    ensures |EvaluateAt(EMPTY_DB, HOT, TOO_HOT, [MAINTENANCE], [0, SECOND]).alerts| == 2
  {
    Readings();
    EmptyIsSound();
    assert Covers([MAINTENANCE][0], HOT, 0) && Covers([MAINTENANCE][0], HOT, SECOND);
    assert !HasActive(EMPTY_DB, KeyOf(HOT, TOO_HOT));
    SuppressionPilesUp(EMPTY_DB, HOT, TOO_HOT, [MAINTENANCE], [0, SECOND]);
  }

  const ALARM := Created(SITE, None, None, Critical, Open, NO_VALUE, 0, Some(ON_BATTERY))

  function Escalation(id: PolicyId, minutes: nat): Policy
  {
    Policy(id, None, None, Critical, Some(minutes), None, true)
  }

  /** An hour on, the ten-minute policy was used long ago, and the thirty-minute policy is never reached. */
  lemma SecondPolicyNeverReached()
    ensures
      var a := EscalateBy(ALARM, ALARM, [Escalation(1, 10), Escalation(2, 30)], 10 * MINUTE);
      && a.escalated == [1] && Fires(a, Escalation(2, 30), 60 * MINUTE)
      && EscalateBy(a, a, [Escalation(1, 10), Escalation(2, 30)], 60 * MINUTE) == a
  {
    assert Fires(ALARM, Escalation(1, 10), 10 * MINUTE);
  }

  /** Two checks that loaded the same row escalate it twice by one policy, and the list does not show it. */
  lemma OverlappingChecksEscalateTwice(a: Alert, p: PolicyId)
    requires p !in a.escalated
    ensures
      var b := EscalatedFrom(EscalatedFrom(a, a, p), a, p);
      && Count(b.logs, LogEscalated(p)) == Count(a.logs, LogEscalated(p)) + 2
      && b.escalated == a.escalated + [p] && !Remembers(b)
  {
    var e := LogEntry(LogEscalated(p), Some(a.status), a.status);
    AppendCount(a.logs, e, LogEscalated(p));
    AppendCount(a.logs + [e], e, LogEscalated(p));
    AppendEscalations(a.logs, e);
    AppendEscalations(a.logs + [e], e);
    var b := EscalatedFrom(EscalatedFrom(a, a, p), a, p);
    var doubled := Escalations(a.logs) + [p] + [p];
    assert Escalations(b.logs) == doubled && doubled[|doubled| - 2] == p;
    assert |b.escalated| > 1 ==> b.escalated[|b.escalated| - 2] == a.escalated[|a.escalated| - 1] != p;
  }

  /** An alert resolved between a check's query and its save is logged as escalated while OPEN, after its end. */
  lemma StaleEscalationBreaksChain()
    ensures
      var closed := ResolvedRow(ALARM, Auto, MINUTE);
      var b := EscalateBy(closed, ALARM, [Escalation(1, 10)], 10 * MINUTE);
      && b.status == Resolved && b.logs[|b.logs| - 1] == LogEntry(LogEscalated(1), Some(Open), Open)
      && !Chains(WithoutComments(b.logs), b.status)
  {
    assert Fires(ALARM, Escalation(1, 10), 10 * MINUTE);
    var closed := ResolvedRow(ALARM, Auto, MINUTE);
    var e := LogEntry(LogEscalated(1), Some(Open), Open);
    AppendWithoutComments(closed.logs, e);
    AppendWithoutComments(ALARM.logs, closed.logs[1]);
    AppendChain(WithoutComments(closed.logs), e, Resolved);
  }

  /** A comment on an acknowledgement is logged as if the alert had already been acknowledged. */
  lemma CommentBreaksChain()
    ensures
      var b := AcknowledgedRow(ALARM, true, MINUTE);
      && b.logs == [LogEntry(LogOpened, None, Open), COMMENT_ON_ACKNOWLEDGEMENT,
          LogEntry(LogAcknowledged, Some(Open), Acknowledged)]
      && !Chains(b.logs, b.status) && Chains(AcknowledgedRow(ALARM, false, MINUTE).logs, Acknowledged)
  {
    var b := AcknowledgedRow(ALARM, true, MINUTE);
    AppendChain(ALARM.logs + [COMMENT_ON_ACKNOWLEDGEMENT], b.logs[2], Acknowledged);
    AppendChain(ALARM.logs, COMMENT_ON_ACKNOWLEDGEMENT, Open);
    AppendChain(ALARM.logs, b.logs[2], Acknowledged);
  }
}
