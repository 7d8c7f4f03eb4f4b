/** The append-only telemetry log and the latest-value table, across the four writers. */
module Telemetry {
  import opened Prelude
  import opened AlertData

  datatype Quality = Good | Bad | Uncertain

  /** An appended measurement. */
  datatype Point = Point(scope: Scope, metric: MetricId, values: Columns, quality: Quality, source: string,
                         rawText: Option<string>, time: Time)

  /** A row of the latest-value table; its unique key is (device, metric). */
  datatype LatestRow = LatestRow(organization: OrganizationId, dataCenter: DataCenterId, values: Columns,
                                 quality: Quality, source: string, rawText: Option<string>, lastSeenAt: Time)

  type Slot = (DeviceId, MetricId)

  function SlotOf(p: Point): Slot
  {
    (p.scope.device, p.metric)
  }

  function RowOf(p: Point): LatestRow
  {
    LatestRow(p.scope.organization, p.scope.dataCenter, p.values, p.quality, p.source, p.rawText, p.time)
  }

  /** The point appended last for a slot. */
  function LastFor(points: seq<Point>, slot: Slot): Option<Point>
  {
    if points == [] then None
    else if SlotOf(points[|points| - 1]) == slot then Some(points[|points| - 1])
    else LastFor(points[..|points| - 1], slot)
  }

  /** The latest-value table says what the log says last, for every slot and no others. */
  ghost predicate Agrees(points: seq<Point>, latest: map<Slot, LatestRow>)
  {
    forall slot ::
      && (slot in latest <==> LastFor(points, slot).Some?)
      && (slot in latest ==> latest[slot] == RowOf(LastFor(points, slot).value))
  }

  function Upserts(latest: map<Slot, LatestRow>, points: seq<Point>): map<Slot, LatestRow>
  {
    if points == [] then latest
    else
      var p := points[|points| - 1];
      Upserts(latest, points[..|points| - 1])[SlotOf(p) := RowOf(p)]
  }

  lemma OnePoint(points: seq<Point>, latest: map<Slot, LatestRow>, p: Point)
    requires Agrees(points, latest)
    ensures Agrees(points + [p], latest[SlotOf(p) := RowOf(p)])
  {
  }

  /** Appending a whole batch and then upserting it row by row keeps the tables in agreement, repeated slots
      included. */
  lemma {:induction false} BatchAgrees(points: seq<Point>, latest: map<Slot, LatestRow>, batch: seq<Point>)
    requires Agrees(points, latest)
    ensures Agrees(points + batch, Upserts(latest, batch))
  {
    if batch == [] {
      assert points + batch == points;
    } else {
      var front, p := batch[..|batch| - 1], batch[|batch| - 1];
      BatchAgrees(points, latest, front);
      OnePoint(points + front, Upserts(latest, front), p);
      assert points + batch == (points + front) + [p];
    }
  }

  // ----- Is the latest value the newest? -----

  /** No logged point is newer than the latest value of its slot. */
  ghost predicate IsNewest(points: seq<Point>, latest: map<Slot, LatestRow>)
  {
    forall i :: 0 <= i < |points| ==>
        SlotOf(points[i]) in latest && points[i].time <= latest[SlotOf(points[i])].lastSeenAt
  }

  lemma {:induction false} LastForIsLogged(points: seq<Point>, slot: Slot)
    ensures var r := LastFor(points, slot); r.Some? ==> SlotOf(r.value) == slot && r.value in points
    ensures LastFor(points, slot).None? <==> forall i :: 0 <= i < |points| ==> SlotOf(points[i]) != slot
  {
    if points != [] {
      LastForIsLogged(points[..|points| - 1], slot);
    }
  }

  lemma {:induction false} UpsertsAt(latest: map<Slot, LatestRow>, batch: seq<Point>, slot: Slot)
    ensures slot in Upserts(latest, batch) <==> slot in latest || LastFor(batch, slot).Some?
    ensures LastFor(batch, slot).Some? ==> Upserts(latest, batch)[slot] == RowOf(LastFor(batch, slot).value)
    ensures LastFor(batch, slot).None? && slot in latest ==> Upserts(latest, batch)[slot] == latest[slot]
  {
    if batch != [] {
      UpsertsAt(latest, batch[..|batch| - 1], slot);
    }
  }

  /** The last point a batch has for a slot is no older than its other points there, nor than the stored value. */
  ghost predicate Timely(latest: map<Slot, LatestRow>, batch: seq<Point>, slot: Slot)
  {
    var last := LastFor(batch, slot);
    last.Some? ==>
      && (slot in latest ==> latest[slot].lastSeenAt <= last.value.time)
      && forall i :: 0 <= i < |batch| && SlotOf(batch[i]) == slot ==> batch[i].time <= last.value.time
  }

  lemma TimelyKeepsNewest(points: seq<Point>, latest: map<Slot, LatestRow>, batch: seq<Point>, p: Point)
    requires IsNewest(points, latest) && (p in points || p in batch) && Timely(latest, batch, SlotOf(p))
    ensures SlotOf(p) in Upserts(latest, batch) && p.time <= Upserts(latest, batch)[SlotOf(p)].lastSeenAt
  {
    UpsertsAt(latest, batch, SlotOf(p));
    LastForIsLogged(batch, SlotOf(p));
  }

  lemma NewestIsTimely(points: seq<Point>, latest: map<Slot, LatestRow>, batch: seq<Point>, slot: Slot)
    requires Agrees(points, latest) && IsNewest(points + batch, Upserts(latest, batch))
    ensures Timely(latest, batch, slot)
  {
    UpsertsAt(latest, batch, slot);
    LastForIsLogged(points, slot);
    var log, last := points + batch, LastFor(batch, slot);
    if last.Some? {
      forall i | 0 <= i < |batch| && SlotOf(batch[i]) == slot ensures batch[i].time <= last.value.time {
        assert log[|points| + i] == batch[i];
      }
      if slot in latest {
        var i :| 0 <= i < |points| && points[i] == LastFor(points, slot).value;
        assert log[i] == points[i];
      }
    }
  }

  /** The writers keep the latest value the newest one if and only if the batch is timely for every slot. */
  lemma NewestExactly(points: seq<Point>, latest: map<Slot, LatestRow>, batch: seq<Point>)
    requires Agrees(points, latest) && IsNewest(points, latest)
    ensures IsNewest(points + batch, Upserts(latest, batch)) <==> forall slot :: Timely(latest, batch, slot)
  {
    var log := points + batch;
    if forall slot :: Timely(latest, batch, slot) {
      forall i | 0 <= i < |log|
        ensures SlotOf(log[i]) in Upserts(latest, batch) &&
          log[i].time <= Upserts(latest, batch)[SlotOf(log[i])].lastSeenAt
      {
        TimelyKeepsNewest(points, latest, batch, log[i]);
      }
    } else if IsNewest(log, Upserts(latest, batch)) {
      forall slot ensures Timely(latest, batch, slot) {
        NewestIsTimely(points, latest, batch, slot);
      }
    }
  }

  /** For one point: if and only if it is no older than the stored value of its slot. */
  lemma OnePointNewestExactly(points: seq<Point>, latest: map<Slot, LatestRow>, p: Point)
    requires Agrees(points, latest) && IsNewest(points, latest)
    ensures IsNewest(points + [p], latest[SlotOf(p) := RowOf(p)])
      <==> (SlotOf(p) in latest ==> latest[SlotOf(p)].lastSeenAt <= p.time)
  {
    NewestExactly(points, latest, [p]);
    assert [p][..0] == [];
    assert Upserts(latest, [p]) == latest[SlotOf(p) := RowOf(p)];
    forall slot ensures Timely(latest, [p], slot) <==>
      (slot == SlotOf(p) && slot in latest ==> latest[slot].lastSeenAt <= p.time)
    {
      assert LastFor([p], slot) == if slot == SlotOf(p) then Some(p) else None;
    }
  }

  /** The point was logged for the device and metric, and none later. */
  ghost predicate LoggedLast(points: seq<Point>, p: Point, device: DeviceId, metric: MetricId)
  {
    exists i | 0 <= i < |points| :: points[i] == p && p.scope.device == device && p.metric == metric
                                    && forall j :: i < j < |points| ==> SlotOf(points[j]) != (device, metric)
  }

  lemma {:induction false} LastForIsLast(points: seq<Point>, device: DeviceId, metric: MetricId, p: Point)
    ensures LastFor(points, (device, metric)) == Some(p) <==> LoggedLast(points, p, device, metric)
  {
    if points != [] {
      var last := |points| - 1;
      LastForIsLast(points[..last], device, metric, p);
      if SlotOf(points[last]) == (device, metric) {
        assert points[last] == p ==> LoggedLast(points, p, device, metric);
      } else {
        FrontLoggedLast(points, p, device, metric);
      }
    }
  }

  lemma FrontLoggedLast(points: seq<Point>, p: Point, device: DeviceId, metric: MetricId)
    requires points != [] && SlotOf(points[|points| - 1]) != (device, metric)
    ensures LoggedLast(points[..|points| - 1], p, device, metric) <==> LoggedLast(points, p, device, metric)
  {
    var front := points[..|points| - 1];
    if LoggedLast(front, p, device, metric) {
      var i :| 0 <= i < |front| && front[i] == p && forall j :: i < j < |front| ==>
          SlotOf(front[j]) != (device, metric);
      assert points[i] == p && forall j :: i < j < |front| ==> points[j] == front[j];
    }
    if LoggedLast(points, p, device, metric) {
      var i :| 0 <= i < |points| && points[i] == p && forall j :: i < j < |points| ==>
          SlotOf(points[j]) != (device, metric);
      assert i < |front| && front[i] == p && forall j :: i < j < |front| ==> front[j] == points[j];
    }
  }

  /** What agreement says, column by column: there is a row exactly if a point was logged, and it is the last one's. */
  lemma AgreementMeaning(points: seq<Point>, latest: map<Slot, LatestRow>, p: Point)
    requires Agrees(points, latest) && LoggedLast(points, p, p.scope.device, p.metric)
    ensures (p.scope.device, p.metric) in latest
    ensures
      var row := latest[(p.scope.device, p.metric)];
      && row.organization == p.scope.organization && row.dataCenter == p.scope.dataCenter
      && row.values == p.values && row.quality == p.quality && row.source == p.source
      && row.rawText == p.rawText && row.lastSeenAt == p.time
  {
    LastForIsLast(points, p.scope.device, p.metric, p);
  }

  lemma RowsOnlyForPoints(points: seq<Point>, latest: map<Slot, LatestRow>, device: DeviceId, metric: MetricId)
    requires Agrees(points, latest)
    ensures (device, metric) in latest <==> exists p | p in points :: p.scope.device == device && p.metric == metric
  {
    LastForIsLogged(points, (device, metric));
    forall p | p in points ensures SlotOf(p) == (device, metric) <==> p.scope.device == device && p.metric == metric {
    }
  }

  /** Nothing compares times: a backdated point replaces a newer latest value. */
  lemma BackdatedPointWins(older: Point, newer: Point)
    requires SlotOf(older) == SlotOf(newer) && older.time < newer.time
    ensures
      var latest := Upserts(map[], [newer, older]);
      Agrees([newer, older], latest) && latest[SlotOf(newer)].lastSeenAt < newer.time
  {
    assert Agrees([], map[]);
    BatchAgrees([], map[], [newer, older]);
    assert [] + [newer, older] == [newer, older];
    assert [newer, older][..1] == [newer];
  }

  class Store {
    var points: seq<Point>
    var latest: map<Slot, LatestRow>

    ghost predicate Valid()
      reads this
    {
      Agrees(points, latest)
    }

    constructor ()
      ensures Valid() && points == []
    {
      points, latest := [], map[];
    }

    /** One point and its latest value. */
    method StorePoint(p: Point)
      requires Valid()
      modifies this
      ensures Valid() && points == old(points) + [p] && latest == old(latest)[SlotOf(p) := RowOf(p)]
    {
      OnePoint(points, latest, p);
      points := points + [p];
      latest := latest[SlotOf(p) := RowOf(p)];
    }

    /** The bulk writer: all points first, then all latest values. */
    method WriteBulk(batch: seq<Point>) returns (count: nat)
      requires Valid()
      modifies this
      ensures Valid() && points == old(points) + batch && latest == Upserts(old(latest), batch) && count == |batch|
    {
      BatchAgrees(points, latest, batch);
      points := points + batch;
      var n := 0;
      while n < |batch|
        invariant n <= |batch| && points == old(points) + batch
        invariant latest == Upserts(old(latest), batch[..n])
      {
        assert batch[..n + 1][..n] == batch[..n];
        latest := latest[SlotOf(batch[n]) := RowOf(batch[n])];
        n := n + 1;
      }
      assert batch[..n] == batch;
      count := |batch|;
    }

    /** The API ingest: point and latest value in turn. */
    method IngestPoints(batch: seq<Point>)
      requires Valid()
      modifies this
      ensures Valid() && points == old(points) + batch && latest == Upserts(old(latest), batch)
    {
      BatchAgrees(points, latest, batch);
      var n := 0;
      while n < |batch|
        invariant n <= |batch| && Valid()
        invariant points == old(points) + batch[..n] && latest == Upserts(old(latest), batch[..n])
      {
        assert batch[..n + 1][..n] == batch[..n];
        assert batch[..n + 1] == batch[..n] + [batch[n]];
        StorePoint(batch[n]);
        n := n + 1;
      }
      assert batch[..n] == batch;
    }

    /** The loop's body. */
    method StoreMapping(results: seq<Mapping>, n: nat, ghost was: (seq<Point>, map<Slot, LatestRow>))
      requires Valid() && n < |results| && (points, latest) == AfterMappings(was, results, n)
      modifies this
      ensures Valid() && (points, latest) == AfterMappings(was, results, n + 1)
    {
      OneMappingMore(was.0, was.1, results, n);
      if !results[n].NoReading? {
        StorePoint(results[n].point);
      }
    }

    /** The SNMP poll: a mapping may fail before or after its rows are written, and a poll in which all fail is
        rolled back. */
    method PollSnmp(results: seq<Mapping>) returns (ok: bool, successes: nat, failures: nat)
      requires Valid()
      modifies this
      ensures Valid()
      ensures ok ==> points == old(points) + Written(results) && latest == Upserts(old(latest), Written(results))
      ensures !ok ==> points == old(points) && latest == old(latest)
      ensures successes + failures == |results| && (ok <==> successes > 0)
      ensures ok <==> exists n :: 0 <= n < |results| && results[n].Succeeded?
    {
      var savedPoints, savedLatest := points, latest;
      successes, failures := 0, 0;
      assert points + Written(results[..0]) == points;
      var n := 0;
      while n < |results|
        invariant n <= |results| && Valid() && successes + failures == n
        invariant successes > 0 <==> exists m :: 0 <= m < n && results[m].Succeeded?
        invariant (points, latest) == AfterMappings((savedPoints, savedLatest), results, n)
      {
        StoreMapping(results, n, (savedPoints, savedLatest));
        if results[n].Succeeded? {
          successes := successes + 1;
        } else {
          failures := failures + 1;
        }
        n := n + 1;
      }
      assert results[..n] == results;
      ok := successes > 0;
      if !ok {
        points, latest := savedPoints, savedLatest;
      }
    }
  }

  /** One SNMP mapping: read and evaluated, read and stored but failing in the alert evaluation, or not read. */
  datatype Mapping = Succeeded(point: Point) | EvaluationFailed(point: Point) | NoReading

  /** The points a poll writes, whether or not their evaluation works. */
  function Written(results: seq<Mapping>): seq<Point>
  {
    if results == [] then []
    else
      var r := results[|results| - 1];
      Written(results[..|results| - 1]) + if r.NoReading? then [] else [r.point]
  }

  /** A poll writes one point for every mapping it could read, in their order, even if the evaluation then failed. */
  lemma {:induction false} WrittenMeaning(results: seq<Mapping>, i: nat)
    requires i < |results|
    ensures |Written(results[..i + 1])| == |Written(results[..i])| + if results[i].NoReading? then 0 else 1
    ensures results[i].Succeeded? || results[i].EvaluationFailed? ==>
      |Written(results[..i])| < |Written(results)| && Written(results)[|Written(results[..i])|] == results[i].point
  {
    var last := |results| - 1;
    assert results[..i + 1][..i] == results[..i];
    if i < last {
      WrittenMeaning(results[..last], i);
      assert results[..last][..i] == results[..i];
    } else {
      assert results[..i + 1] == results;
    }
  }

  function AppendMapping(points: seq<Point>, m: Mapping): seq<Point>
  {
    if m.NoReading? then points else points + [m.point]
  }

  function UpsertMapping(latest: map<Slot, LatestRow>, m: Mapping): map<Slot, LatestRow>
  {
    if m.NoReading? then latest else latest[SlotOf(m.point) := RowOf(m.point)]
  }

  function AfterMappings(was: (seq<Point>, map<Slot, LatestRow>), results: seq<Mapping>, n: nat):
    (seq<Point>, map<Slot, LatestRow>)
    requires n <= |results|
  {
    (was.0 + Written(results[..n]), Upserts(was.1, Written(results[..n])))
  }

  lemma OneMappingMore(points: seq<Point>, latest: map<Slot, LatestRow>, results: seq<Mapping>, n: nat)
    requires n < |results|
    ensures points + Written(results[..n + 1]) == AppendMapping(points + Written(results[..n]), results[n])
    ensures Upserts(latest, Written(results[..n + 1])) == UpsertMapping(Upserts(latest, Written(results[..n])),
      results[n])
  {
    assert results[..n + 1][..n] == results[..n];
    var done := Written(results[..n]);
    if results[n].NoReading? {
      assert Written(results[..n + 1]) == done;
    } else {
      assert Written(results[..n + 1]) == done + [results[n].point];
      assert (done + [results[n].point])[..|done|] == done;
    }
  }
}
