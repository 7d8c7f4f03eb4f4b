/**
 What one pass of the evaluation loop does to the tables: every rule touches its own slice
 and nothing else, so the outcome can be read off slice by slice and in any rule order.
 */
module AlertEvaluation {
  import opened Prelude
  import opened AlertData
  import opened AlertSpec

  /** The alert table splits into one part per key and one for rows without a key (traps, deleted rules). */
  datatype Part = Keyed(key: Key) | Unkeyed

  predicate InPart(a: Alert, part: Part)
  {
    match part
    case Keyed(k) => HasKey(a, k)
    case Unkeyed => a.metric.None? || a.rule.None?
  }

  function PartOf(q: Query): Part
  {
    if q.ForRule? then Keyed(q.key) else Unkeyed
  }

  function Rows(alerts: seq<Alert>, part: Part): seq<Alert>
  {
    if alerts == [] then []
    else
      var last := |alerts| - 1;
      Rows(alerts[..last], part) + if InPart(alerts[last], part) then [alerts[last]] else []
  }

  /** The tables cut down to one part. */
  function Slice(db: Db, part: Part): Db
  {
    Db(Rows(db.alerts, part), map k | k in db.states && part == Keyed(k) :: db.states[k])
  }

  /** Equal tables up to the numbering of rows that belong to different keys. */
  ghost predicate SameSlices(d: Db, e: Db)
  {
    forall part :: Slice(d, part) == Slice(e, part)
  }

  // ----- Filtering and row updates -----

  lemma RowsAppend(alerts: seq<Alert>, a: Alert, part: Part)
    ensures Rows(alerts + [a], part) == Rows(alerts, part) + if InPart(a, part) then [a] else []
  {
  }

  lemma {:induction false} RowsAt(alerts: seq<Alert>, i: nat, part: Part)
    requires i < |alerts| && InPart(alerts[i], part)
    ensures |Rows(alerts[..i], part)| < |Rows(alerts, part)|
    ensures Rows(alerts, part)[|Rows(alerts[..i], part)|] == alerts[i]
  {
    var last := |alerts| - 1;
    if i < last {
      RowsAt(alerts[..last], i, part);
      assert alerts[..last][..i] == alerts[..i];
    }
  }

  lemma {:induction false} RowsUpdate(alerts: seq<Alert>, i: nat, a: Alert, part: Part)
    requires i < |alerts| && InPart(alerts[i], part) == InPart(a, part)
    ensures |Rows(alerts[i := a], part)| == |Rows(alerts, part)|
    ensures !InPart(a, part) ==> Rows(alerts[i := a], part) == Rows(alerts, part)
    ensures InPart(a, part) ==>
      && |Rows(alerts[..i], part)| < |Rows(alerts, part)|
      && Rows(alerts[i := a], part) == Rows(alerts, part)[|Rows(alerts[..i], part)| := a]
  {
    var last := |alerts| - 1;
    if i < last {
      RowsUpdate(alerts[..last], i, a, part);
      assert alerts[..last][..i] == alerts[..i];
      assert alerts[i := a][..last] == alerts[..last][i := a];
    } else {
      assert alerts[i := a][..last] == alerts[..last];
    }
  }

  lemma NewestAppend(front: seq<Alert>, a: Alert, q: Query)
    ensures
      var rest := Newest(front, q);
      Newest(front + [a], q) ==
        if Selects(q, a) && (rest.None? || front[rest.value].triggeredAt <= a.triggeredAt) then Some(|front|) else rest
  {
  }

  lemma SelectedInPart(q: Query, a: Alert)
    ensures Selects(q, a) ==> InPart(a, PartOf(q))
  {
  }

  /** The place in its part of the row a query picked. */
  function PlaceOf(alerts: seq<Alert>, q: Query): Option<nat>
  {
    var r := Newest(alerts, q);
    if r.None? then None else Some(|Rows(alerts[..r.value], PartOf(q))|)
  }

  /** A query sees only its own part, and picks the same row there. */
  lemma {:induction false} NewestInPart(alerts: seq<Alert>, q: Query)
    ensures Newest(Rows(alerts, PartOf(q)), q) == PlaceOf(alerts, q)
  {
    if alerts != [] {
      var front, a := alerts[..|alerts| - 1], alerts[|alerts| - 1];
      assert alerts == front + [a];
      NewestInPart(front, q);
      NewestInPartStep(front, a, q);
    }
  }

  lemma PlaceAppend(front: seq<Alert>, a: Alert, q: Query)
    ensures
      var r := Newest(front + [a], q);
      PlaceOf(front + [a], q) == if r == Some(|front|) then Some(|Rows(front, PartOf(q))|) else PlaceOf(front, q)
  {
    NewestAppend(front, a, q);
    var rest := Newest(front, q);
    assert (front + [a])[..|front|] == front;
    if rest.Some? {
      assert (front + [a])[..rest.value] == front[..rest.value];
    }
  }

  lemma NewestInPartStep(front: seq<Alert>, a: Alert, q: Query)
    requires Newest(Rows(front, PartOf(q)), q) == PlaceOf(front, q)
    ensures Newest(Rows(front + [a], PartOf(q)), q) == PlaceOf(front + [a], q)
  {
    var part := PartOf(q);
    var rest := Newest(front, q);
    RowsAppend(front, a, part);
    PlaceAppend(front, a, q);
    NewestAppend(front, a, q);
    SelectedInPart(q, a);
    if rest.Some? {
      SelectedInPart(q, front[rest.value]);
      RowsAt(front, rest.value, part);
    }
    if InPart(a, part) {
      NewestAppend(Rows(front, part), a, q);
    } else {
      assert Rows(front + [a], part) == Rows(front, part);
    }
  }

  // ----- One rule -----

  /** Replacing the row a query picked, seen from any part. */
  lemma ReplacePicked(db: Db, q: Query, a: Alert, part: Part)
    requires Newest(db.alerts, q).Some?
    requires InPart(a, PartOf(q)) && (forall p :: InPart(a, p) == InPart(db.alerts[Newest(db.alerts, q).value], p))
    ensures
      var i := Newest(db.alerts, q).value;
      var s := Newest(Rows(db.alerts, PartOf(q)), q);
      && s.Some? && Rows(db.alerts, PartOf(q))[s.value] == db.alerts[i]
      && Rows(db.alerts[i := a], part) ==
         if part == PartOf(q) then Rows(db.alerts, part)[s.value := a] else Rows(db.alerts, part)
  {
    var i := Newest(db.alerts, q).value;
    NewestInPart(db.alerts, q);
    RowsAt(db.alerts, i, PartOf(q));
    RowsUpdate(db.alerts, i, a, part);
  }

  lemma SliceStates(db: Db, k: Key, s: ConditionState, part: Part)
    ensures StateOf(Slice(db, Keyed(k)), k) == StateOf(db, k)
    ensures Slice(db.(states := db.states[k := s]), part).states ==
      if part == Keyed(k) then Slice(db, part).states[k := s] else Slice(db, part).states
    ensures Slice(db.(states := db.states - {k}), part).states ==
      if part == Keyed(k) then Slice(db, part).states - {k} else Slice(db, part).states
  {
  }

  /** With an active alert: its row is suppressed or updated in its own slice. */
  lemma EnsureFoundIsLocal(db: Db, latest: Latest, rule: Rule, suppressed: bool, now: Time, part: Part)
    requires Newest(db.alerts, ForRule(KeyOf(latest, rule))).Some?
    ensures Slice(EnsureAlert(db, latest, rule, suppressed, now), part) ==
      if part == Keyed(KeyOf(latest, rule)) then EnsureAlert(Slice(db, part), latest, rule, suppressed, now)
      else Slice(db, part)
  {
    var q := ForRule(KeyOf(latest, rule));
    var a := db.alerts[Newest(db.alerts, q).value];
    ReplacePicked(db, q, if suppressed then SuppressedRow(a, now) else Updated(a, latest, now), part);
  }

  /** Without one: a row may be added and the condition state tracked, in its own slice. */
  lemma EnsureNewIsLocal(db: Db, latest: Latest, rule: Rule, suppressed: bool, now: Time, part: Part)
    requires Newest(db.alerts, ForRule(KeyOf(latest, rule))).None?
    ensures Slice(EnsureAlert(db, latest, rule, suppressed, now), part) ==
      if part == Keyed(KeyOf(latest, rule)) then EnsureAlert(Slice(db, part), latest, rule, suppressed, now)
      else Slice(db, part)
  {
    var k := KeyOf(latest, rule);
    NewestInPart(db.alerts, ForRule(k));
    SliceStates(db, k, Upserted(StateOf(db, k), latest.values, now), part);
    var a := RuleAlert(latest, rule, if suppressed then Suppressed else Open, now);
    RowsAppend(db.alerts, a, part);
    assert InPart(a, part) <==> part == Keyed(k);
    assert Rows(db.alerts, part) + [] == Rows(db.alerts, part);
  }

  lemma EnsureAlertIsLocal(db: Db, latest: Latest, rule: Rule, suppressed: bool, now: Time, part: Part)
    ensures Slice(EnsureAlert(db, latest, rule, suppressed, now), part) ==
      if part == Keyed(KeyOf(latest, rule)) then EnsureAlert(Slice(db, part), latest, rule, suppressed, now)
      else Slice(db, part)
  {
    if Newest(db.alerts, ForRule(KeyOf(latest, rule))).Some? {
      EnsureFoundIsLocal(db, latest, rule, suppressed, now, part);
    } else {
      EnsureNewIsLocal(db, latest, rule, suppressed, now, part);
    }
  }

  lemma ResolveIfNeededIsLocal(db: Db, latest: Latest, rule: Rule, now: Time, part: Part)
    ensures Slice(ResolveIfNeeded(db, latest, rule, now), part) ==
      if part == Keyed(KeyOf(latest, rule)) then ResolveIfNeeded(Slice(db, part), latest, rule, now)
      else Slice(db, part)
  {
    var k := KeyOf(latest, rule);
    var q := ForRule(k);
    var found := Newest(db.alerts, q);
    NewestInPart(db.alerts, q);
    SliceStates(db, k, Upserted(StateOf(db, k), latest.values, now), part);
    if found.Some? {
      ReplacePicked(db, q, ResolvedRow(db.alerts[found.value], Auto, now), part);
    }
  }

  /** Evaluating a rule commutes with slicing: it acts on its own slice and leaves every other slice alone. */
  lemma EvaluateRuleIsLocal(db: Db, latest: Latest, rule: Rule, windows: seq<Window>, now: Time, part: Part)
    ensures Slice(EvaluateRule(db, latest, rule, windows, now), part) ==
      if part == Keyed(KeyOf(latest, rule)) then EvaluateRule(Slice(db, part), latest, rule, windows, now)
      else Slice(db, part)
  {
    if ConditionHolds(rule, latest) {
      EnsureAlertIsLocal(db, latest, rule, HasSuppression(windows, latest, now), now, part);
    } else {
      ResolveIfNeededIsLocal(db, latest, rule, now, part);
    }
  }

  /** The UPS clean-up acts on the rows without a key. */
  lemma ResolveUpsTrapIsLocal(db: Db, latest: Latest, now: Time, part: Part)
    ensures Slice(ResolveUpsTrap(db, latest, now), part) ==
      if part == Unkeyed then ResolveUpsTrap(Slice(db, part), latest, now) else Slice(db, part)
  {
    var q := ForUps(latest.scope);
    var found := Newest(db.alerts, q);
    NewestInPart(db.alerts, q);
    if found.Some? {
      ReplacePicked(db, q, ResolvedRow(db.alerts[found.value], Auto, now), part);
    }
  }

  // ----- The loop -----

  predicate DistinctRules(turns: seq<Turn>)
  {
    forall i, j :: 0 <= i < j < |turns| ==> turns[i].rule.id != turns[j].rule.id
  }

  function PartAt(latest: Latest, turn: Turn): Part
  {
    Keyed(KeyOf(latest, turn.rule))
  }

  lemma LastTurn(db: Db, latest: Latest, turns: seq<Turn>, part: Part)
    requires turns != []
    ensures
      var front, t := turns[..|turns| - 1], turns[|turns| - 1];
      Slice(TakeTurns(db, latest, turns), part) ==
        if part == PartAt(latest, t) then TakeTurn(Slice(TakeTurns(db, latest, front), part), latest, t)
        else Slice(TakeTurns(db, latest, front), part)
  {
    var front, t := turns[..|turns| - 1], turns[|turns| - 1];
    EvaluateRuleIsLocal(TakeTurns(db, latest, front), latest, t.rule, t.windows, t.now, part);
  }

  /** A slice that no rule of the loop names is left alone. */
  lemma {:induction false} UnnamedSliceUntouched(db: Db, latest: Latest, turns: seq<Turn>, part: Part)
    requires forall i :: 0 <= i < |turns| ==> part != PartAt(latest, turns[i])
    ensures Slice(TakeTurns(db, latest, turns), part) == Slice(db, part)
  {
    if turns != [] {
      UnnamedSliceUntouched(db, latest, turns[..|turns| - 1], part);
      LastTurn(db, latest, turns, part);
    }
  }

  lemma PartsDiffer(latest: Latest, turns: seq<Turn>, i: nat, j: nat)
    requires DistinctRules(turns) && i < |turns| && j < |turns| && i != j
    ensures PartAt(latest, turns[i]) != PartAt(latest, turns[j])
  {
    assert turns[i].rule.id != turns[j].rule.id;
  }

  /** A slice named by one rule of the loop has seen that rule once. */
  lemma {:induction false} NamedSliceTouchedOnce(db: Db, latest: Latest, turns: seq<Turn>, i: nat, part: Part)
    requires DistinctRules(turns) && i < |turns| && part == PartAt(latest, turns[i])
    ensures Slice(TakeTurns(db, latest, turns), part) == TakeTurn(Slice(db, part), latest, turns[i])
  {
    var last := |turns| - 1;
    LastTurn(db, latest, turns, part);
    if i < last {
      NamedSliceTouchedOnce(db, latest, turns[..last], i, part);
      PartsDiffer(latest, turns, i, last);
    } else {
      forall j | 0 <= j < last ensures part != PartAt(latest, turns[..last][j]) {
        PartsDiffer(latest, turns, i, j);
      }
      UnnamedSliceUntouched(db, latest, turns[..last], part);
    }
  }

  /** After the loop a slice has seen its own rule once, or nothing at all. */
  lemma TakeTurnsBySlice(db: Db, latest: Latest, turns: seq<Turn>, part: Part)
    requires DistinctRules(turns)
    ensures forall i :: 0 <= i < |turns| && part == PartAt(latest, turns[i]) ==>
      Slice(TakeTurns(db, latest, turns), part) == TakeTurn(Slice(db, part), latest, turns[i])
    ensures (forall i :: 0 <= i < |turns| ==> part != PartAt(latest, turns[i])) ==>
      Slice(TakeTurns(db, latest, turns), part) == Slice(db, part)
  {
    forall i | 0 <= i < |turns| && part == PartAt(latest, turns[i])
      ensures Slice(TakeTurns(db, latest, turns), part) == TakeTurn(Slice(db, part), latest, turns[i])
    {
      NamedSliceTouchedOnce(db, latest, turns, i, part);
    }
    if forall i :: 0 <= i < |turns| ==> part != PartAt(latest, turns[i]) {
      UnnamedSliceUntouched(db, latest, turns, part);
    }
  }

  lemma SliceKeepsActive(db: Db, k: Key)
    ensures HasActive(db, k) <==> HasActive(Slice(db, Keyed(k)), k)
    ensures StateOf(db, k) == StateOf(Slice(db, Keyed(k)), k)
  {
    NewestInPart(db.alerts, ForRule(k));
  }

  /** No key has two active alerts. */
  ghost predicate UniqueActive(db: Db)
  {
    forall k, i, j | 0 <= i < |db.alerts| && 0 <= j < |db.alerts| ::
      Selects(ForRule(k), db.alerts[i]) && Selects(ForRule(k), db.alerts[j]) ==> i == j
  }

  /** When an alert of the rule must be active after an evaluation at `now`. */
  predicate ShouldBeActive(db: Db, latest: Latest, rule: Rule, windows: seq<Window>, now: Time)
  {
    var k := KeyOf(latest, rule);
    && ConditionHolds(rule, latest)
    && !HasSuppression(windows, latest, now)
    && (HasActive(db, k) || LastedLongEnough(Upserted(StateOf(db, k), latest.values, now), rule, now))
  }

  /** Closing the one active alert of a key leaves none. */
  lemma ClosingEmptiesKey(alerts: seq<Alert>, q: Query, b: Alert)
    requires q.ForRule? && UniqueActive(Db(alerts, map[])) && Newest(alerts, q).Some? && !b.IsActive()
    ensures Newest(alerts[Newest(alerts, q).value := b], q).None?
  {
  }

  lemma EvaluateRuleActivity(db: Db, latest: Latest, rule: Rule, windows: seq<Window>, now: Time)
    requires UniqueActive(db)
    ensures HasActive(EvaluateRule(db, latest, rule, windows, now), KeyOf(latest, rule))
      <==> ShouldBeActive(db, latest, rule, windows, now)
  {
    var q := ForRule(KeyOf(latest, rule));
    var found := Newest(db.alerts, q);
    if found.Some? {
      var a := db.alerts[found.value];
      if !ConditionHolds(rule, latest) {
        ClosingEmptiesKey(db.alerts, q, ResolvedRow(a, Auto, now));
      } else if HasSuppression(windows, latest, now) {
        ClosingEmptiesKey(db.alerts, q, SuppressedRow(a, now));
      } else {
        NewestIsNewest(db.alerts[found.value := Updated(a, latest, now)], q, found.value);
      }
    } else if ConditionHolds(rule, latest) {
      NewestAppend(db.alerts, RuleAlert(latest, rule, Open, now), q);
      NewestAppend(db.alerts, RuleAlert(latest, rule, Suppressed, now), q);
    }
  }

  /** The alert that stands for a true condition carries the reading: an old one is brought up to date, a new one
      is OPEN as of now. */
  lemma ActiveAlertCarriesReading(db: Db, latest: Latest, rule: Rule, windows: seq<Window>, now: Time)
    requires UniqueActive(db) && ShouldBeActive(db, latest, rule, windows, now)
    ensures
      var q := ForRule(KeyOf(latest, rule));
      var after := EvaluateRule(db, latest, rule, windows, now);
      var before, r := Newest(db.alerts, q), Newest(after.alerts, q);
      && r.Some? && after.alerts[r.value].values == latest.values && after.alerts[r.value].lastSeenAt == now
      && (before.Some? ==>
            && r == before && after.alerts[r.value].status == db.alerts[r.value].status
            && after.alerts[r.value].triggeredAt == db.alerts[r.value].triggeredAt
            && after.alerts[r.value].occurrences > db.alerts[r.value].occurrences)
      && (before.None? ==>
            && r.value == |db.alerts| && after.alerts[r.value].status == Open
            && after.alerts[r.value].triggeredAt == now && after.alerts[r.value].severity == rule.severity)
  {
    var q := ForRule(KeyOf(latest, rule));
    var before := Newest(db.alerts, q);
    if before.Some? {
      ReplacedStaysPicked(db.alerts, q, Updated(db.alerts[before.value], latest, now));
    } else {
      NewestAppend(db.alerts, RuleAlert(latest, rule, Open, now), q);
    }
  }

  lemma ReplacedStaysPicked(alerts: seq<Alert>, q: Query, b: Alert)
    requires q.ForRule? && UniqueActive(Db(alerts, map[])) && Newest(alerts, q).Some? && Selects(q, b)
    ensures Newest(alerts[Newest(alerts, q).value := b], q) == Newest(alerts, q)
  {
    var i := Newest(alerts, q).value;
    NewestIsNewest(alerts[i := b], q, i);
    assert Selects(ForRule(q.key), alerts[i]);
  }

  /** The full contract of one evaluation pass, for every key of every table: each rule decides by its own windows
      and clock, on the tables the pass began with. */
  lemma EvaluateLatestMeaning(db: Db, latest: Latest, turns: seq<Turn>, now: Time, k: Key)
    requires UniqueActive(db) && DistinctRules(turns)
    ensures
      var after := EvaluateLatest(db, latest, turns, now);
      && (forall i :: 0 <= i < |turns| && k == KeyOf(latest, turns[i].rule) ==>
            (HasActive(after, k) <==> ShouldBeActive(db, latest, turns[i].rule, turns[i].windows, turns[i].now)))
      && ((forall i :: 0 <= i < |turns| ==> k != KeyOf(latest, turns[i].rule)) ==>
            Slice(after, Keyed(k)) == Slice(db, Keyed(k)))
  {
    var mid, after := TakeTurns(db, latest, turns), EvaluateLatest(db, latest, turns, now);
    TakeTurnsBySlice(db, latest, turns, Keyed(k));
    ResolveUpsTrapIsLocal(mid, latest, now, Keyed(k));
    SliceKeepsActive(after, k);
    forall i | 0 <= i < |turns| && k == KeyOf(latest, turns[i].rule)
      ensures HasActive(after, k) <==> ShouldBeActive(db, latest, turns[i].rule, turns[i].windows, turns[i].now)
    {
      var t := turns[i];
      assert Keyed(k) == PartAt(latest, t);
      EvaluateRuleActivity(db, latest, t.rule, t.windows, t.now);
      EvaluateRuleIsLocal(db, latest, t.rule, t.windows, t.now, Keyed(k));
      SliceKeepsActive(TakeTurn(db, latest, t), k);
    }
    forall i | 0 <= i < |turns| ensures k == KeyOf(latest, turns[i].rule) <==> Keyed(k) == PartAt(latest, turns[i]) {
    }
  }

  /** Rows without a key are untouched by the rules; the UPS clean-up alone may resolve one. */
  lemma EvaluateLatestOnTraps(db: Db, latest: Latest, turns: seq<Turn>, now: Time)
    requires DistinctRules(turns)
    ensures Slice(EvaluateLatest(db, latest, turns, now), Unkeyed) == ResolveUpsTrap(Slice(db, Unkeyed), latest, now)
  {
    TakeTurnsBySlice(db, latest, turns, Unkeyed);
    ResolveUpsTrapIsLocal(TakeTurns(db, latest, turns), latest, now, Unkeyed);
  }

  /** The order of the rules does not matter as long as each keeps its windows and its clock; in particular
      it does not matter at a fixed clock. */
  lemma EvaluationOrderIrrelevant(db: Db, latest: Latest, turns: seq<Turn>, other: seq<Turn>, now: Time)
    requires DistinctRules(turns) && DistinctRules(other) && multiset(turns) == multiset(other)
    ensures SameSlices(EvaluateLatest(db, latest, turns, now), EvaluateLatest(db, latest, other, now))
  {
    forall t ensures t in turns <==> t in other {
      assert t in multiset(turns) <==> t in multiset(other);
    }
    forall part
      ensures Slice(EvaluateLatest(db, latest, turns, now), part) == Slice(EvaluateLatest(db, latest, other, now), part)
    {
      TakeTurnsBySlice(db, latest, turns, part);
      TakeTurnsBySlice(db, latest, other, part);
      ResolveUpsTrapIsLocal(TakeTurns(db, latest, turns), latest, now, part);
      ResolveUpsTrapIsLocal(TakeTurns(db, latest, other), latest, now, part);
      if i :| 0 <= i < |turns| && part == PartAt(latest, turns[i]) {
        assert turns[i] in other;
      } else {
        forall j | 0 <= j < |other| ensures part != PartAt(latest, other[j]) {
          assert other[j] in turns;
        }
      }
    }
  }
}
