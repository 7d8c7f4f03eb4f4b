/**
 Rows of the alert tables.  An `Alert` carries its own event log (the reverse side of the
 log table's foreign key), so a log entry never has to name the row it belongs to.
 */
module AlertData {
  import opened Prelude

  type OrganizationId = nat
  type DataCenterId = nat
  type DeviceId = nat
  type MetricId = nat
  type PolicyId = nat

  /** Where a reading comes from and where an alert lives. */
  datatype Scope = Scope(organization: OrganizationId, dataCenter: DataCenterId, device: DeviceId)

  datatype Severity = Info | Warning | Critical | Emergency

  /** The four nullable value columns of a telemetry or alert row. */
  datatype Columns = Columns(float: Option<real>, integer: Option<int>, boolean: Option<bool>, text: Option<string>)

  datatype Scalar = Number(n: real) | Truth(b: bool) | Text(t: string)

  datatype Operator = GT | GTE | LT | LTE | EQ | NEQ

  datatype Rule = Rule(id: RuleId, severity: Severity, operator: Operator, threshold: Columns, durationSeconds: nat)

  /** A row of the latest-value table; `upsCleared` says that its metric and value report a healthy UPS. */
  datatype Latest = Latest(scope: Scope, metric: MetricId, values: Columns, upsCleared: bool)

  datatype Window = Window(organization: OrganizationId, dataCenter: Option<DataCenterId>, device: Option<DeviceId>,
                           metric: Option<MetricId>, startsAt: Time, endsAt: Time, isActive: bool)

  /** A rule with the windows and the clock its own evaluation block reads. */
  datatype Turn = Turn(rule: Rule, windows: seq<Window>, now: Time)

  datatype Status = Open | Acknowledged | Resolved | Suppressed

  datatype Resolution = Auto | Manual | BySuppression

  datatype Action =
    LogOpened | LogUpdated | LogAcknowledged | LogResolved | LogSuppressed | LogEscalated(policy: PolicyId) |
        LogCommented

  datatype LogEntry = LogEntry(action: Action, oldStatus: Option<Status>, newStatus: Status)

  /** The trap part of an alert's metadata, with the message a trap writes. */
  datatype Trap = Trap(oid: string, code: Option<string>, message: string)

  datatype Alert = Alert(
    scope: Scope,
    metric: Option<MetricId>,
    rule: Option<RuleId>,
    severity: Severity,
    status: Status,
    values: Columns,
    triggeredAt: Time,
    lastSeenAt: Time,
    acknowledgedAt: Option<Time>,
    resolvedAt: Option<Time>,
    resolution: Option<Resolution>,
    occurrences: nat,
    trap: Option<Trap>,
    escalated: seq<PolicyId>,
    logs: seq<LogEntry>)
  {
    predicate IsActive() {
      status == Open || status == Acknowledged
    }
  }

  /** The unique key of a condition state, and the scope in which alerts of one rule are deduplicated. */
  datatype Key = Key(scope: Scope, metric: MetricId, rule: RuleId)

  datatype ConditionState = ConditionState(firstSeenAt: Time, lastSeenAt: Time, values: Columns)

  /** Alert rows in creation order (the index is the primary key) and the condition-state table. */
  datatype Db = Db(alerts: seq<Alert>, states: map<Key, ConditionState>)

  datatype Policy = Policy(id: PolicyId, organization: Option<OrganizationId>, dataCenter: Option<DataCenterId>,
                           severity: Severity, ifNotAcknowledgedMinutes: Option<nat>, ifNotResolvedMinutes: Option<nat>,
                           isActive: bool)
}
