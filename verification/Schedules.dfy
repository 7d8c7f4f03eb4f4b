/** Report schedules: when they run next, what window each run covers, and how windows fit together over a run. */
module Schedules {
  import opened Prelude
  import opened Calendar

  /** `zone` is the fixed offset of the configured time zone from UTC. */
  datatype Schedule = Schedule(frequency: Frequency, deliveryTime: Time, zone: Time, isActive: bool,
                               nextRunAt: Option<DateTime>, lastRunAt: Option<DateTime>)
  {
    predicate Valid() {
      && 0 <= deliveryTime < DAY
      && (nextRunAt.Some? ==> nextRunAt.value.Valid())
      && (lastRunAt.Some? ==> lastRunAt.value.Valid())
    }
  }

  datatype Window = Window(start: DateTime, end: DateTime)

  /** A clock reading: UTC fields. */
  predicate IsUtc(t: DateTime)
  {
    t.Valid() && t.offset == 0
  }

  /** The delivery time on the reference's own date, read in the local zone; shifted once if already past. */
  function NextRun(s: Schedule, reference: DateTime): (r: DateTime)
    requires s.Valid() && reference.Valid()
    ensures r.Valid() && r.tick == s.deliveryTime && r.offset == s.zone
  {
    var run := DateTime(reference.date, s.deliveryTime, s.zone);
    if run.Instant() <= reference.Instant() then ShiftByFrequency(s.frequency, run, 1) else run
  }

  function ExecutionWindow(s: Schedule, reference: DateTime): (w: Window)
    requires s.Valid() && reference.Valid()
    ensures w.start.Valid() && w.end == reference
  {
    Window(if s.lastRunAt.Some? then s.lastRunAt.value else ShiftByFrequency(s.frequency, reference, -1), reference)
  }

  // ----- Next run -----

  /** How late in the UTC day a daily schedule still finds a run ahead of it. */
  predicate RunAhead(s: Schedule, reference: DateTime)
  {
    s.frequency != Daily || reference.tick < s.deliveryTime - s.zone + DAY
  }

  /** The instant of the schedule's delivery time on a local day. */
  function Slot(s: Schedule, day: int): Time
  {
    day * DAY + s.deliveryTime - s.zone
  }

  lemma NextRunPosition(s: Schedule, reference: DateTime)
    requires s.Valid() && IsUtc(reference) && -DAY <= s.zone <= DAY
    ensures
      var slot := Slot(s, DayNumber(reference.date));
      && (slot > reference.Instant() ==> NextRun(s, reference).Instant() == slot)
      && (slot <= reference.Instant() ==>
            if s.frequency == Daily then NextRun(s, reference).Instant() == slot + DAY
            else NextRun(s, reference).Instant() >= slot + 7 * DAY)
  {
    OneStepForward(s.frequency, DateTime(reference.date, s.deliveryTime, s.zone));
  }

  /** The next run has the delivery time in the local zone.  It falls on the reference's date if that slot is still
      ahead, and otherwise one day, one week, one month or three months after it. */
  lemma NextRunMeaning(s: Schedule, reference: DateTime)
    requires s.Valid() && reference.Valid()
    ensures
      var r := NextRun(s, reference);
      && r.Valid() && r.tick == s.deliveryTime && r.offset == s.zone
      && (if DayNumber(reference.date) * DAY + s.deliveryTime - s.zone > reference.Instant()
          then r.date == reference.date
          else match s.frequency
               case Daily => DayNumber(r.date) == DayNumber(reference.date) + 1
               case Weekly => DayNumber(r.date) == DayNumber(reference.date) + 7
               case Monthly => MovesMonths(reference.date, r.date, 1)
               case Quarterly => MovesMonths(reference.date, r.date, 3))
  {
    ShiftMeaning(s.frequency, DateTime(reference.date, s.deliveryTime, s.zone), 1);
  }

  /** A window ends at the reference.  It starts at the last run, or before the first one a day, a week, a month or
      three months back at the same time. */
  lemma WindowMeaning(s: Schedule, reference: DateTime)
    requires s.Valid() && reference.Valid()
    ensures
      var w := ExecutionWindow(s, reference);
      && w.end == reference
      && (s.lastRunAt.Some? ==> w.start == s.lastRunAt.value)
      && (s.lastRunAt.None? ==>
            && w.start.Valid() && w.start.tick == reference.tick && w.start.offset == reference.offset
            && match s.frequency
               case Daily => DayNumber(w.start.date) == DayNumber(reference.date) - 1
               case Weekly => DayNumber(w.start.date) == DayNumber(reference.date) - 7
               case Monthly => MovesMonths(reference.date, w.start.date, -1)
               case Quarterly => MovesMonths(reference.date, w.start.date, -3))
  {
    ShiftMeaning(s.frequency, reference, -1);
  }

  /** The next run lies after the reference, exactly when the schedule is not daily or it is early enough in the UTC
      day. */
  lemma NextRunIsLater(s: Schedule, reference: DateTime)
    requires s.Valid() && IsUtc(reference) && -DAY <= s.zone <= DAY
    ensures NextRun(s, reference).Instant() > reference.Instant() <==> RunAhead(s, reference)
  {
    NextRunPosition(s, reference);
  }

  /** For every reference at once: always for longer frequencies, and for daily exactly when the local
      delivery time is not before the zone offset. */
  lemma NextRunAlwaysLater(s: Schedule)
    requires s.Valid() && -DAY <= s.zone <= DAY
    ensures (forall t: DateTime | IsUtc(t) :: NextRun(s, t).Instant() > t.Instant())
      <==> s.frequency != Daily || s.deliveryTime >= s.zone
  {
    forall t: DateTime | IsUtc(t)
      ensures NextRun(s, t).Instant() > t.Instant() <==> RunAhead(s, t)
    {
      NextRunIsLater(s, t);
    }
    var late := DateTime(Date(2024, 1, 1), DAY - 1, 0);
    assert IsUtc(late);
    assert s.frequency == Daily && s.deliveryTime < s.zone ==> !RunAhead(s, late);
  }

  lemma DaysApart(a: int, b: int)
    ensures a < b ==> a * DAY + DAY <= b * DAY
  {
    assert a < b ==> (a + 1) * DAY <= b * DAY;
  }

  lemma NextSlotIsEarliest(s: Schedule, today: int, now: Time, day: int)
    requires Slot(s, today - 1) <= now < Slot(s, day)
    ensures (if Slot(s, today) > now then Slot(s, today) else Slot(s, today + 1)) <= Slot(s, day)
  {
    DaysApart(day, today);
    DaysApart(today, day);
  }

  /** No delivery slot of any day lies between the reference and the next run. */
  ghost predicate SkipsNoSlot(s: Schedule, reference: DateTime)
    requires s.Valid() && reference.Valid()
  {
    forall day: int :: Slot(s, day) > reference.Instant() ==> NextRun(s, reference).Instant() <= Slot(s, day)
  }

  /** A daily run that lies ahead is the earliest slot after the reference if and only if yesterday's local slot is
      over; zones ahead of UTC always satisfy that, zones behind UTC may skip a slot. */
  lemma DailyRunIsEarliest(s: Schedule, reference: DateTime)
    requires s.Valid() && s.frequency == Daily && IsUtc(reference) && -DAY <= s.zone <= DAY && RunAhead(s, reference)
    ensures SkipsNoSlot(s, reference) <==> Slot(s, DayNumber(reference.date) - 1) <= reference.Instant()
    ensures s.zone >= 0 ==> SkipsNoSlot(s, reference)
  {
    var today, now := DayNumber(reference.date), reference.Instant();
    NextRunPosition(s, reference);
    if Slot(s, today - 1) <= now {
      forall day: int | Slot(s, day) > now ensures NextRun(s, reference).Instant() <= Slot(s, day) {
        NextSlotIsEarliest(s, today, now, day);
      }
    } else {
      DaysApart(today - 1, today);
    }
  }

  /** Six hours behind UTC, asked at 02:00 UTC, a daily 21:00 report skips the slot one hour ahead. */
  lemma WesternZoneSkipsSlot()
    ensures
      var s := Schedule(Daily, 21 * 60 * MINUTE, -6 * 60 * MINUTE, true, None, None);
      var now := DateTime(Date(2024, 5, 2), 2 * 60 * MINUTE, 0);
      s.Valid() && IsUtc(now) && RunAhead(s, now) && !SkipsNoSlot(s, now)
  {
    var s := Schedule(Daily, 21 * 60 * MINUTE, -6 * 60 * MINUTE, true, None, None);
    DailyRunIsEarliest(s, DateTime(Date(2024, 5, 2), 2 * 60 * MINUTE, 0));
  }

  // ----- Claiming -----

  function ClaimedAt(s: Schedule, now: DateTime): (r: Schedule)
    requires s.Valid() && now.Valid()
    ensures r.Valid()
  {
    s.(lastRunAt := Some(now), nextRunAt := Some(NextRun(s, now)))
  }

  /** The model validator: a run time may not precede the last run. */
  predicate PassesValidator(s: Schedule)
    requires s.Valid()
  {
    s.lastRunAt.Some? && s.nextRunAt.Some? ==> s.lastRunAt.value.Instant() <= s.nextRunAt.value.Instant()
  }

  predicate Due(s: Schedule, now: DateTime)
    requires s.Valid() && now.Valid()
  {
    s.isActive && s.nextRunAt.Some? && s.nextRunAt.value.Instant() <= now.Instant()
  }

  /** A claim is rejected by the schedule's own validator exactly late in the UTC day of a daily schedule. */
  lemma ClaimPassesExactly(s: Schedule, now: DateTime)
    requires s.Valid() && IsUtc(now) && -DAY <= s.zone <= DAY
    ensures PassesValidator(ClaimedAt(s, now)) <==> s.frequency != Daily || now.tick <= s.deliveryTime - s.zone + DAY
    ensures s.frequency != Daily || s.deliveryTime >= s.zone ==>
      PassesValidator(ClaimedAt(s, now)) && !Due(ClaimedAt(s, now), now)
  {
    NextRunPosition(s, now);
    NextRunIsLater(s, now);
  }

  /** A daily report at 05:00 in a zone six hours ahead, claimed at 23:30 UTC, is rejected. */
  lemma EarlyDeliveryRejected()
    ensures
      var s := Schedule(Daily, 5 * 60 * MINUTE, 6 * 60 * MINUTE, true, None, None);
      var now := DateTime(Date(2024, 5, 1), 23 * 60 * MINUTE + 30 * MINUTE, 0);
      s.Valid() && IsUtc(now) && !PassesValidator(ClaimedAt(s, now))
  {
    var s := Schedule(Daily, 5 * 60 * MINUTE, 6 * 60 * MINUTE, true, None, None);
    ClaimPassesExactly(s, DateTime(Date(2024, 5, 1), 23 * 60 * MINUTE + 30 * MINUTE, 0));
  }

  // ----- Executing -----

  /** Executing a window writes its end as the last run and recomputes the next run from it. */
  function ExecutedFor(s: Schedule, w: Window): (r: Schedule)
    requires s.Valid() && w.end.Valid()
    ensures r.Valid()
  {
    s.(lastRunAt := Some(w.end), nextRunAt := Some(NextRun(s, w.end)))
  }

  /** Executing the window just claimed rewrites exactly what the claim wrote. */
  lemma ExecutionRewritesClaim(s: Schedule, now: DateTime)
    requires s.Valid() && now.Valid()
    ensures ExecutedFor(ClaimedAt(s, now), ExecutionWindow(s, now)) == ClaimedAt(s, now)
  {
    var c := ClaimedAt(s, now);
    assert NextRun(c, now) == NextRun(s, now);
  }

  /** Saving a schedule runs its validator; a rejected save leaves the stored row as it was. */
  function Saved(stored: Schedule, changed: Schedule): (r: Schedule)
    requires stored.Valid() && changed.Valid()
    ensures r.Valid()
  {
    if PassesValidator(changed) then changed else stored
  }

  /** A manual run whose save is rejected has reported a window that the next run covers again. */
  lemma RejectedManualRunRepeatsWindow(s: Schedule, now: DateTime, later: DateTime)
    requires s.Valid() && IsUtc(now) && later.Valid() && -DAY <= s.zone <= DAY && s.lastRunAt.Some?
    requires s.lastRunAt.value.Instant() < now.Instant() < later.Instant()
    ensures
      var w := ExecutionWindow(s, now);
      var stored := Saved(s, ExecutedFor(s, w));
      var v := ExecutionWindow(stored, later);
      (v.start == w.end <==> s.frequency != Daily || now.tick <= s.deliveryTime - s.zone + DAY)
      && (v.start != w.end ==> v.start == w.start)
  {
    ClaimPassesExactly(s, now);
    assert ExecutedFor(s, ExecutionWindow(s, now)) == ClaimedAt(s, now);
  }

  /** A manual run of the kind above: daily, delivered at once in local time, late in the UTC day. */
  lemma RejectedManualRunHappens()
    ensures
      var s := Schedule(Daily, 0, 60 * MINUTE, true, None, Some(DateTime(Date(2024, 5, 1), 0, 0)));
      var now := DateTime(Date(2024, 5, 1), DAY - MINUTE, 0);
      var w := ExecutionWindow(s, now);
      var v := ExecutionWindow(Saved(s, ExecutedFor(s, w)), DateTime(Date(2024, 5, 2), MINUTE, 0));
      v.start == w.start && v.start.Instant() < w.end.Instant()
  {
    var s := Schedule(Daily, 0, 60 * MINUTE, true, None, Some(DateTime(Date(2024, 5, 1), 0, 0)));
    RejectedManualRunRepeatsWindow(s, DateTime(Date(2024, 5, 1), DAY - MINUTE, 0),
        DateTime(Date(2024, 5, 2), MINUTE, 0));
  }

  /** Executing any window `w` when `last` is the newest one handed out, by a claim or a manual run: the next window
      starts where `last` ended if and only if `w` ends there too or its save is rejected. */
  lemma LateExecutionTilesExactly(s: Schedule, w: Window, last: Window, next: DateTime)
    requires s.Valid() && IsUtc(w.end) && last.end.Valid() && next.Valid() && -DAY <= s.zone <= DAY
    requires s.lastRunAt == Some(last.end)
    ensures
      var v := ExecutionWindow(Saved(s, ExecutedFor(s, w)), next);
      && (v.start == last.end <==>
            w.end == last.end || (s.frequency == Daily && w.end.tick > s.deliveryTime - s.zone + DAY))
      && (v.start != last.end ==> v.start == w.end)
  {
    ClaimPassesExactly(s, w.end);
    assert ExecutedFor(s, w) == ClaimedAt(s, w.end);
  }

  /** A schedule that is not daily, claimed, run by hand later, and only then executed for its claim: the next window
      takes in the time of the manual run again. */
  lemma LateExecutionOverlaps(s: Schedule, first: DateTime, second: DateTime, third: DateTime)
    requires s.Valid() && s.frequency != Daily && -DAY <= s.zone <= DAY
    requires IsUtc(first) && IsUtc(second) && IsUtc(third) && first.Instant() < second.Instant()
    ensures
      var claimed := ClaimedAt(s, first);
      var manual := ExecutionWindow(claimed, second);
      var stored := Saved(claimed, ExecutedFor(claimed, manual));
      var late := Saved(stored, ExecutedFor(stored, ExecutionWindow(s, first)));
      var next := ExecutionWindow(late, third);
      next.start == manual.start && next.start.Instant() < manual.end.Instant()
  {
    var claimed := ClaimedAt(s, first);
    var manual := ExecutionWindow(claimed, second);
    ClaimPassesExactly(claimed, second);
    assert ExecutedFor(claimed, manual) == ClaimedAt(claimed, second);
    LateExecutionTilesExactly(ClaimedAt(claimed, second), ExecutionWindow(s, first), manual, third);
  }

  /** One step back ends earlier. */
  lemma OneStepBack(frequency: Frequency, value: DateTime)
    requires value.Valid()
    ensures ShiftByFrequency(frequency, value, -1).Instant() < value.Instant()
  {
    var r := ShiftByFrequency(frequency, value, -1);
    if frequency == Monthly {
      AddMonthsExact(value.date, -1);
      DayNumberOrders(r.date, value.date);
    } else if frequency == Quarterly {
      AddMonthsExact(value.date, -3);
      DayNumberOrders(r.date, value.date);
    }
    DaysApart(DayNumber(r.date), DayNumber(value.date));
  }

  // ----- Runs of one schedule -----

  /** `windows` are all windows handed out, `jobs` those a report job was created for, `rejected` the places of the
      manual runs whose save was rejected. */
  datatype State = State(schedule: Schedule, clock: DateTime, windows: seq<Window>, outstanding: Option<Window>,
                         jobs: seq<Window>, abandoned: nat, rejected: set<nat>)

  datatype Step =
    | Claim(now: DateTime)
    | Execute
    | Abandon
    | RunNow(now: DateTime)
    | Reconfigure(frequency: Frequency, deliveryTime: Time, isActive: bool, now: DateTime)

  /** Claims and manual runs wait for the previous execution, and the clock does not go back. */
  predicate Enabled(st: State, step: Step)
  {
    && st.schedule.Valid() && st.clock.Valid()
    && match step
       case Claim(now) =>
         now.Valid() && st.clock.Instant() <= now.Instant() && st.outstanding.None? && Due(st.schedule, now)
       case Execute => st.outstanding.Some? && st.outstanding.value.end.Valid()
       case Abandon => st.outstanding.Some?
       case RunNow(now) =>
         now.Valid() && st.clock.Instant() <= now.Instant() && st.outstanding.None? && st.schedule.isActive
       case Reconfigure(_, deliveryTime, _, now) =>
         now.Valid() && st.clock.Instant() <= now.Instant() && 0 <= deliveryTime < DAY
  }

  /** An edit recomputes the next run when it changes the timing or reactivates the schedule. */
  function Reconfigured(s: Schedule, frequency: Frequency, deliveryTime: Time, isActive: bool,
      now: DateTime): (r: Schedule)
    requires s.Valid() && now.Valid() && 0 <= deliveryTime < DAY
    ensures r.Valid() && r.lastRunAt == s.lastRunAt
  {
    var edited := s.(frequency := frequency, deliveryTime := deliveryTime, isActive := isActive);
    if frequency != s.frequency || deliveryTime != s.deliveryTime || (isActive && !s.isActive) ||
        (isActive && s.nextRunAt.None?)
    then edited.(nextRunAt := Some(NextRun(edited, now)))
    else edited
  }

  /** A schedule is claimed only while it is active with a next run that has come, and run by hand only while it is
      active; neither before the previous execution is over. */
  lemma HandOutMeaning(st: State, now: DateTime)
    requires st.schedule.Valid() && st.clock.Valid() && now.Valid() && st.clock.Instant() <= now.Instant()
    ensures Enabled(st, RunNow(now)) <==> st.schedule.isActive && st.outstanding.None?
    ensures Enabled(st, Claim(now)) <==>
      && st.schedule.isActive && st.outstanding.None? && st.schedule.nextRunAt.Some?
      && !(now.Instant() < st.schedule.nextRunAt.value.Instant())
  {
  }

  /** An edit keeps the last run, takes over the new settings, and moves the next run exactly if the timing changed or
      the schedule becomes active again or had none; then to the run its new settings give. */
  lemma ReconfiguredMeaning(s: Schedule, frequency: Frequency, deliveryTime: Time, isActive: bool, now: DateTime)
    requires s.Valid() && now.Valid() && 0 <= deliveryTime < DAY
    ensures
      var r := Reconfigured(s, frequency, deliveryTime, isActive, now);
      && r.frequency == frequency && r.deliveryTime == deliveryTime && r.isActive == isActive
      && r.zone == s.zone && r.lastRunAt == s.lastRunAt
      && (frequency == s.frequency && deliveryTime == s.deliveryTime && (isActive ==>
          s.isActive && s.nextRunAt.Some?) ==>
            r.nextRunAt == s.nextRunAt)
      && (frequency != s.frequency || deliveryTime != s.deliveryTime ||
          (isActive && !(s.isActive && s.nextRunAt.Some?)) ==>
            r.nextRunAt == Some(NextRun(r, now)))
  {
  }

  function Next(st: State, step: Step): State
    requires Enabled(st, step)
  {
    match step
    case Claim(now) =>
      var w := ExecutionWindow(st.schedule, now);
      if PassesValidator(ClaimedAt(st.schedule, now)) then
        st.(schedule := ClaimedAt(st.schedule, now), clock := now, windows := st.windows + [w], outstanding := Some(w))
      else
        st.(clock := now)
    case Execute =>
      var w := st.outstanding.value;
      st.(schedule := Saved(st.schedule, ExecutedFor(st.schedule, w)), jobs := st.jobs + [w], outstanding := None)
    case Abandon => st.(outstanding := None, abandoned := st.abandoned + 1)
    case RunNow(now) =>
      var w := ExecutionWindow(st.schedule, now);
      var row := ExecutedFor(st.schedule, w);
      st.(schedule := Saved(st.schedule, row), clock := now, windows := st.windows + [w], jobs := st.jobs + [w],
          rejected := if PassesValidator(row) then st.rejected else st.rejected + {|st.windows|})
    case Reconfigure(frequency, deliveryTime, isActive, now) =>
      st.(schedule := Saved(st.schedule, Reconfigured(st.schedule, frequency, deliveryTime, isActive, now)),
          clock := now)
  }

  /** Window `k` begins where the one before it ended; after a rejected manual run it begins where that one began,
      unless no run had been recorded at all. */
  ghost predicate Follows(windows: seq<Window>, rejected: set<nat>, k: nat)
    requires 0 < k < |windows|
  {
    if k - 1 !in rejected then windows[k].start == windows[k - 1].end
    else windows[k].start == windows[k - 1].start || forall j: nat :: j < k ==> j in rejected
  }

  ghost predicate Tiles(windows: seq<Window>, rejected: set<nat>)
  {
    forall k :: 0 < k < |windows| ==> Follows(windows, rejected, k)
  }

  ghost predicate Ordered(windows: seq<Window>)
  {
    forall k :: 0 <= k < |windows| ==>
      windows[k].start.Valid() && windows[k].end.Valid() && windows[k].start.Instant() <= windows[k].end.Instant()
  }

  function Outstanding(st: State): seq<Window>
  {
    if st.outstanding.Some? then [st.outstanding.value] else []
  }

  /** What the schedule remembers of the last window. */
  ghost predicate LastWindowOk(st: State)
    requires st.clock.Valid() && Ordered(st.windows)
  {
    var last := |st.windows| - 1;
    && (st.schedule.lastRunAt.Some? ==>
          st.schedule.lastRunAt.value.Valid() && st.schedule.lastRunAt.value.Instant() <= st.clock.Instant())
    && (st.schedule.lastRunAt.None? ==> forall j: nat :: j < |st.windows| ==> j in st.rejected)
    && (st.windows != [] && last !in st.rejected ==> st.schedule.lastRunAt == Some(st.windows[last].end))
    && (st.windows != [] && last in st.rejected && st.schedule.lastRunAt.Some? ==>
          st.schedule.lastRunAt == Some(st.windows[last].start))
    && (st.outstanding.Some? ==> st.windows != [] && last !in st.rejected && st.outstanding.value == st.windows[last])
    && (forall j :: j in st.rejected ==> j < |st.windows|)
  }

  ghost predicate JobsOk(st: State)
  {
    && |st.jobs| + st.abandoned + |Outstanding(st)| == |st.windows|
    && (st.abandoned == 0 ==> st.jobs + Outstanding(st) == st.windows)
  }

  ghost predicate Inv(st: State)
  {
    && st.schedule.Valid() && st.clock.Valid()
    && Tiles(st.windows, st.rejected) && Ordered(st.windows)
    && LastWindowOk(st) && JobsOk(st)
  }

  predicate Initial(st: State)
  {
    && st.schedule.Valid() && st.clock.Valid()
    && (st.schedule.lastRunAt.Some? ==> st.schedule.lastRunAt.value.Instant() <= st.clock.Instant())
    && st.windows == [] && st.outstanding.None? && st.jobs == [] && st.abandoned == 0 && st.rejected == {}
  }

  lemma AppendWindow(st: State, now: DateTime, rejected: set<nat>)
    requires Inv(st) && now.Valid() && st.clock.Instant() <= now.Instant()
    requires rejected == st.rejected || rejected == st.rejected + {|st.windows|}
    ensures
      var w := ExecutionWindow(st.schedule, now);
      Tiles(st.windows + [w], rejected) && Ordered(st.windows + [w])
  {
    var w := ExecutionWindow(st.schedule, now);
    var windows := st.windows + [w];
    forall k | 0 < k < |windows| ensures Follows(windows, rejected, k) {
      if k < |st.windows| {
        assert Follows(st.windows, st.rejected, k);
      }
    }
    OneStepBack(st.schedule.frequency, now);
  }

  lemma HandOutJobs(st: State, w: Window, after: State)
    requires JobsOk(st) && st.outstanding.None? && after.windows == st.windows + [w]
    requires after.abandoned == st.abandoned && after.jobs + Outstanding(after) == st.jobs + [w]
    ensures JobsOk(after)
  {
    assert |after.jobs + Outstanding(after)| == |st.jobs| + 1;
    assert st.jobs + Outstanding(st) == st.jobs;
  }

  lemma HandOutKeepsInv(st: State, now: DateTime, accepted: bool, after: State)
    requires Inv(st) && st.outstanding.None? && now.Valid() && st.clock.Instant() <= now.Instant()
    requires after.schedule.Valid() && after.clock == now && after.abandoned == st.abandoned
    requires after.schedule.lastRunAt == if accepted then Some(now) else st.schedule.lastRunAt
    requires after.rejected == if accepted then st.rejected else st.rejected + {|st.windows|}
    requires after.windows == st.windows + [ExecutionWindow(st.schedule, now)]
    requires after.jobs + Outstanding(after) == st.jobs + [ExecutionWindow(st.schedule, now)]
    requires after.outstanding.Some? ==> accepted && after.outstanding.value == ExecutionWindow(st.schedule, now)
    ensures Inv(after)
  {
    AppendWindow(st, now, after.rejected);
    HandOutJobs(st, ExecutionWindow(st.schedule, now), after);
  }

  /** Steps that hand out no window leave windows, last run and clock order alone. */
  lemma OtherKeepsInv(st: State, after: State)
    requires Inv(st) && after.schedule.Valid() && after.schedule.lastRunAt == st.schedule.lastRunAt
    requires after.clock.Valid() && st.clock.Instant() <= after.clock.Instant()
    requires after.windows == st.windows && after.rejected == st.rejected
    requires || (after.outstanding == st.outstanding && after.jobs == st.jobs && after.abandoned == st.abandoned)
             || (&& st.outstanding.Some? && after.outstanding.None? && after.jobs == st.jobs + Outstanding(st)
                 && after.abandoned == st.abandoned)
             || (&& st.outstanding.Some? && after.outstanding.None? && after.jobs == st.jobs
                 && after.abandoned == st.abandoned + 1)
    ensures Inv(after)
  {
    if after.jobs == st.jobs + Outstanding(st) {
      assert after.outstanding.None? ==> after.jobs + Outstanding(after) == after.jobs;
    }
  }

  lemma StepKeepsInv(st: State, step: Step)
    requires Inv(st) && Enabled(st, step)
    ensures Inv(Next(st, step))
  {
    match step
    case Claim(now) =>
      if PassesValidator(ClaimedAt(st.schedule, now)) {
        HandOutKeepsInv(st, now, true, Next(st, step));
      } else {
        OtherKeepsInv(st, Next(st, step));
      }
    case RunNow(now) =>
      var row := ExecutedFor(st.schedule, ExecutionWindow(st.schedule, now));
      assert Next(st, step).jobs + [] == Next(st, step).jobs;
      HandOutKeepsInv(st, now, PassesValidator(row), Next(st, step));
    case _ => OtherKeepsInv(st, Next(st, step));
  }

  ghost predicate StepAt(trace: seq<State>, steps: seq<Step>, n: nat)
    requires n < |steps| && n + 1 < |trace|
  {
    Enabled(trace[n], steps[n]) && trace[n + 1] == Next(trace[n], steps[n])
  }

  ghost predicate IsRun(trace: seq<State>, steps: seq<Step>)
  {
    && |trace| == |steps| + 1
    && Initial(trace[0])
    && forall n :: 0 <= n < |steps| ==> StepAt(trace, steps, n)
  }

  lemma {:induction false} RunsKeepInv(trace: seq<State>, steps: seq<Step>, n: nat)
    requires IsRun(trace, steps) && n <= |steps|
    ensures Inv(trace[n])
  {
    if n > 0 {
      RunsKeepInv(trace, steps, n - 1);
      assert StepAt(trace, steps, n - 1);
      StepKeepsInv(trace[n - 1], steps[n - 1]);
    }
  }

  /** Over every run each window starts where the one before ended, except that a manual run whose save was rejected
      is covered again by the next; without such a run and with none abandoned, the created jobs tile time. */
  lemma WindowsTile(trace: seq<State>, steps: seq<Step>, n: nat)
    requires IsRun(trace, steps) && n <= |steps|
    ensures Tiles(trace[n].windows, trace[n].rejected) && Ordered(trace[n].windows)
    ensures trace[n].abandoned == 0 && trace[n].rejected == {} ==>
      forall k :: 0 < k < |trace[n].jobs| ==> trace[n].jobs[k - 1].end == trace[n].jobs[k].start
  {
    RunsKeepInv(trace, steps, n);
    var st := trace[n];
    if st.abandoned == 0 && st.rejected == {} {
      forall k | 0 < k < |st.jobs| ensures st.jobs[k - 1].end == st.jobs[k].start {
        assert Follows(st.windows, st.rejected, k);
      }
    }
  }
}
