/** The polling scheduler: each tick enqueues the most overdue configurations up to a batch limit. */
module PollScheduler {
  import opened Prelude

  datatype Protocol = Snmp | ModbusTcp | Unsupported

  /** `enabled` joins the three switches of the due query: configuration, device and profile. */
  datatype Config = Config(protocol: Protocol, intervalSeconds: nat, enabled: bool, nextPollAt: Option<Time>)

  predicate Due(c: Config, now: Time)
  {
    c.enabled && c.nextPollAt.Some? && c.nextPollAt.value <= now
  }

  function Interval(c: Config): (n: nat)
    ensures n >= 1
  {
    if c.intervalSeconds == 0 then 60 else c.intervalSeconds
  }

  function MaxJitter(interval: nat): (n: nat)
    ensures 1 <= n <= 10
  {
    var tenth := if interval / 5 < 10 then interval / 5 else 10;
    if tenth < 1 then 1 else tenth
  }

  /** The interval, a minute if it is zero, and a jitter of whole seconds: up to a fifth of it, at least one and at most
      ten. */
  predicate OnSchedule(interval: nat, ahead: Time)
  {
    var seconds := if interval == 0 then 60 else interval;
    && ahead % 1_000_000 == 0
    && seconds * 1_000_000 <= ahead <= (seconds + 10) * 1_000_000
    && (ahead == (seconds + 1) * 1_000_000 || (ahead - seconds * 1_000_000) * 5 <= seconds * 1_000_000)
  }

  function NextPoll(c: Config, jitter: nat, now: Time): (t: Time)
    requires jitter <= MaxJitter(Interval(c))
    ensures now + SECOND <= t
    ensures OnSchedule(c.intervalSeconds, t - now)
  {
    assert ((Interval(c) + jitter) * SECOND) % SECOND == 0;
    now + (Interval(c) + jitter) * SECOND
  }

  /** These are the next polls there can be, and each of them does occur. */
  lemma NextPollMeaning(c: Config, now: Time, t: Time)
    ensures (exists jitter: nat | jitter <= MaxJitter(Interval(c)) :: NextPoll(c, jitter, now) == t)
      <==> OnSchedule(c.intervalSeconds, t - now)
  {
    var seconds, ahead := Interval(c), t - now;
    if jitter: nat :| jitter <= MaxJitter(Interval(c)) && NextPoll(c, jitter, now) == t {
      assert OnSchedule(c.intervalSeconds, NextPoll(c, jitter, now) - now);
    }
    if OnSchedule(c.intervalSeconds, ahead) {
      var jitter := ahead / SECOND - seconds;
      assert ahead == (ahead / SECOND) * SECOND;
      assert NextPoll(c, jitter, now) == t;
    }
  }

  /** What the due query may return: due rows, most overdue first (ties in any order), cut at the limit. */
  ghost predicate IsBatch(configs: seq<Config>, now: Time, limit: nat, batch: seq<nat>)
  {
    && |batch| <= limit
    && Distinct(batch)
    && (forall i :: 0 <= i < |batch| ==> batch[i] < |configs| && Due(configs[batch[i]], now))
    && (forall i, j :: 0 <= i < j < |batch| ==>
        configs[batch[i]].nextPollAt.value <= configs[batch[j]].nextPollAt.value)
    && (forall d :: 0 <= d < |configs| && Due(configs[d], now) && d !in batch ==>
          && |batch| == limit
          && forall i :: 0 <= i < |batch| ==> configs[batch[i]].nextPollAt.value <= configs[d].nextPollAt.value)
  }

  /** Unless the batch is full, it is exactly the enabled configurations whose next poll has come; and a full one leaves
      out only configurations that are no more overdue than any it takes. */
  lemma BatchMeaning(configs: seq<Config>, now: Time, limit: nat, batch: seq<nat>, d: nat)
    requires IsBatch(configs, now, limit, batch) && d < |configs|
    ensures d in batch ==> configs[d].enabled && configs[d].nextPollAt.Some? && now >= configs[d].nextPollAt.value
    ensures d !in batch && configs[d].enabled && configs[d].nextPollAt.Some? && now >= configs[d].nextPollAt.value ==>
      && |batch| == limit
      && forall i :: 0 <= i < |batch| ==> configs[batch[i]].nextPollAt.Some?
                                          && configs[batch[i]].nextPollAt.value <= configs[d].nextPollAt.value
  {
    if d in batch {
      var i :| 0 <= i < |batch| && batch[i] == d;
    }
  }

  predicate Later(c: Config, now: Time)
  {
    c.nextPollAt.Some? && c.nextPollAt.value > now
  }

  predicate Served(configs: seq<Config>, batch: seq<nat>, d: nat)
    requires d < |configs|
  {
    d in batch && configs[d].protocol != Unsupported
  }

  /** One tick: served configurations move past the clock, nothing else changes. */
  ghost predicate Ticked(before: seq<Config>, after: seq<Config>, batch: seq<nat>, now: Time)
  {
    && |after| == |before|
    && forall d :: 0 <= d < |before| ==>
         if Served(before, batch, d) then Later(after[d], now) &&
             after[d].(nextPollAt := None) == before[d].(nextPollAt := None)
         else after[d] == before[d]
  }

  // ----- The tick itself -----

  class Scheduler {
    var configs: seq<Config>

    constructor (configs: seq<Config>)
      ensures this.configs == configs
    {
      this.configs := configs;
    }

    /** `jitters` and `clocks` are the random numbers and clock readings taken while the loop runs. */
    method EnqueueDuePolls(batch: seq<nat>, now: Time, jitters: seq<nat>, clocks: seq<Time>)
        returns (enqueued: seq<nat>)
      requires Distinct(batch) && |jitters| == |clocks| == |batch|
      requires forall i :: 0 <= i < |batch| ==> batch[i] < |configs| && Due(configs[batch[i]], now)
      requires forall i :: 0 <= i < |batch| ==> jitters[i] <= MaxJitter(Interval(configs[batch[i]])) && now <= clocks[i]
      modifies this
      ensures Ticked(old(configs), configs, batch, now)
      ensures forall i :: 0 <= i < |batch| && old(configs)[batch[i]].protocol != Unsupported ==>
        configs[batch[i]].nextPollAt == Some(NextPoll(old(configs)[batch[i]], jitters[i], clocks[i]))
      ensures forall d: nat :: d in enqueued <==> d < |old(configs)| && Served(old(configs), batch, d)
      ensures Distinct(enqueued)
    {
      enqueued := [];
      var n := 0;
      while n < |batch|
        invariant n <= |batch| && |configs| == |old(configs)|
        invariant Ticked(old(configs), configs, batch[..n], now)
        invariant forall i :: 0 <= i < n && old(configs)[batch[i]].protocol != Unsupported ==>
          configs[batch[i]].nextPollAt == Some(NextPoll(old(configs)[batch[i]], jitters[i], clocks[i]))
        invariant forall d: nat :: d in enqueued <==> d < |old(configs)| && Served(old(configs), batch[..n], d)
        invariant Distinct(enqueued)
      {
        var d := batch[n];
        assert batch[..n + 1] == batch[..n] + [d];
        assert d !in batch[..n];
        var c := configs[d];
        if c.protocol == Snmp || c.protocol == ModbusTcp {
          enqueued := enqueued + [d];
          configs := configs[d := c.(nextPollAt := Some(NextPoll(c, jitters[n], clocks[n])))];
        }
        n := n + 1;
      }
      assert batch[..n] == batch;
    }
  }

  // ----- Bounded waiting -----

  /** Configurations that may be served before `c`: those due no later than `c` is. */
  function Ahead(configs: seq<Config>, c: nat): set<nat>
    requires c < |configs| && configs[c].nextPollAt.Some?
  {
    set d: nat | d < |configs| && d != c && Due(configs[d], configs[c].nextPollAt.value)
  }

  function AheadUnsupported(configs: seq<Config>, c: nat): set<nat>
    requires c < |configs| && configs[c].nextPollAt.Some?
  {
    set d: nat | d in Ahead(configs, c) && configs[d].protocol == Unsupported
  }

  datatype Tick = Tick(now: Time, batch: seq<nat>)

  /** Between two ticks poll workers may also move other configurations past the clock; `c` waits unless served. */
  ghost predicate Moved(before: seq<Config>, after: seq<Config>, tick: Tick, c: nat)
  {
    && c < |before| == |after|
    && (c !in tick.batch ==> after[c] == before[c])
    && forall d :: 0 <= d < |before| ==>
         && after[d].protocol == before[d].protocol
         && (Served(before, tick.batch, d) ==> Later(after[d], tick.now))
         && (d != c ==> after[d] == before[d] || Later(after[d], tick.now))
  }

  lemma TickIsAMove(before: seq<Config>, after: seq<Config>, tick: Tick, c: nat)
    requires c < |before| && Ticked(before, after, tick.batch, tick.now)
    ensures Moved(before, after, tick, c)
  {
  }

  ghost predicate TickAt(trace: seq<seq<Config>>, ticks: seq<Tick>, limit: nat, c: nat, n: nat)
    requires n < |ticks| && n + 1 < |trace|
  {
    IsBatch(trace[n], ticks[n].now, limit, ticks[n].batch) && Moved(trace[n], trace[n + 1], ticks[n], c)
  }

  ghost predicate IsRun(trace: seq<seq<Config>>, ticks: seq<Tick>, limit: nat, c: nat)
  {
    && |trace| == |ticks| + 1
    && (forall n :: 0 <= n < |ticks| ==> TickAt(trace, ticks, limit, c, n))
    && (forall n :: 0 <= n < |ticks| ==> ticks[0].now <= ticks[n].now)
  }

  function Elements(s: seq<nat>): set<nat>
  {
    set x | x in s
  }

  lemma {:induction false} DistinctCardinality(s: seq<nat>)
    requires Distinct(s)
    ensures |Elements(s)| == |s|
  {
    if s != [] {
      var front, x := s[..|s| - 1], s[|s| - 1];
      DistinctCardinality(front);
      assert x !in front;
      assert s == front + [x];
      assert Elements(s) == Elements(front) + {x};
    }
  }

  lemma SubsetCardinality(a: set<nat>, b: set<nat>)
    requires a <= b
    ensures |a| <= |b| && |b - a| == |b| - |a|
  {
  }

  /** A full batch without a due `c` consists of configurations ahead of `c`. */
  lemma BatchIsAhead(configs: seq<Config>, tick: Tick, limit: nat, c: nat)
    requires c < |configs| && Due(configs[c], tick.now) && c !in tick.batch &&
      IsBatch(configs, tick.now, limit, tick.batch)
    ensures Elements(tick.batch) <= Ahead(configs, c) && |Elements(tick.batch)| == limit
  {
    DistinctCardinality(tick.batch);
    forall d | d in tick.batch ensures d in Ahead(configs, c) {
      var i :| 0 <= i < |tick.batch| && tick.batch[i] == d;
    }
  }

  function ServedBy(configs: seq<Config>, batch: seq<nat>): set<nat>
  {
    set d: nat | d < |configs| && Served(configs, batch, d)
  }

  /** Nothing new gets ahead of `c`, and what was served falls behind it. */
  lemma AheadShrinks(before: seq<Config>, after: seq<Config>, tick: Tick, c: nat)
    requires c < |before| && Due(before[c], tick.now) && c !in tick.batch && Moved(before, after, tick, c)
    ensures Ahead(after, c) <= Ahead(before, c) - ServedBy(before, tick.batch)
    ensures AheadUnsupported(after, c) <= AheadUnsupported(before, c)
  {
  }

  /** A tick that passes `c` over serves at least `limit - k` of the configurations ahead of it, for good. */
  lemma PassedOver(before: seq<Config>, after: seq<Config>, tick: Tick, limit: nat, k: nat, c: nat)
    requires c < |before| && Due(before[c], tick.now) && c !in tick.batch
    requires IsBatch(before, tick.now, limit, tick.batch) && Moved(before, after, tick, c)
    requires |AheadUnsupported(before, c)| <= k <= limit
    ensures |Ahead(after, c)| + (limit - k) <= |Ahead(before, c)|
    ensures AheadUnsupported(after, c) <= AheadUnsupported(before, c)
  {
    var batch, served := Elements(tick.batch), ServedBy(before, tick.batch);
    BatchIsAhead(before, tick, limit, c);
    AheadShrinks(before, after, tick, c);
    assert served <= batch;
    assert batch - served <= AheadUnsupported(before, c);
    SubsetCardinality(batch - served, AheadUnsupported(before, c));
    SubsetCardinality(served, batch);
    SubsetCardinality(served, Ahead(before, c));
    SubsetCardinality(Ahead(after, c), Ahead(before, c) - served);
  }

  /** While `c` waits, every tick pays off `limit - k` of the configurations ahead of it. */
  lemma {:induction false} WaitingPaysOff(trace: seq<seq<Config>>, ticks: seq<Tick>, limit: nat, k: nat, c: nat, n: nat)
    requires IsRun(trace, ticks, limit, c) && 0 < n <= |ticks|
    requires c < |trace[0]| && Due(trace[0][c], ticks[0].now) && |AheadUnsupported(trace[0], c)| <= k <= limit
    requires forall m :: 0 <= m < n ==> c !in ticks[m].batch
    ensures |trace[n]| == |trace[0]| && trace[n][c] == trace[0][c]
    ensures |Ahead(trace[n], c)| + n * (limit - k) <= |Ahead(trace[0], c)|
    ensures AheadUnsupported(trace[n], c) <= AheadUnsupported(trace[0], c)
  {
    assert TickAt(trace, ticks, limit, c, n - 1);
    if n == 1 {
      PassedOver(trace[0], trace[1], ticks[0], limit, k, c);
    } else {
      WaitingPaysOff(trace, ticks, limit, k, c, n - 1);
      SubsetCardinality(AheadUnsupported(trace[n - 1], c), AheadUnsupported(trace[0], c));
      PassedOver(trace[n - 1], trace[n], ticks[n - 1], limit, k, c);
      assert n * (limit - k) == (n - 1) * (limit - k) + (limit - k);
    }
  }

  lemma {:induction false} ProtocolKept(trace: seq<seq<Config>>, ticks: seq<Tick>, limit: nat, c: nat, n: nat)
    requires IsRun(trace, ticks, limit, c) && n <= |ticks| && c < |trace[0]|
    ensures c < |trace[n]| && trace[n][c].protocol == trace[0][c].protocol
  {
    if n > 0 {
      ProtocolKept(trace, ticks, limit, c, n - 1);
      assert TickAt(trace, ticks, limit, c, n - 1);
    }
  }

  ghost predicate ServedAt(trace: seq<seq<Config>>, ticks: seq<Tick>, c: nat, n: nat)
    requires n < |ticks| && n < |trace|
  {
    c < |trace[n]| && Served(trace[n], ticks[n].batch, c)
  }

  /** A due supported configuration with `p` others ahead of it, at most `k` of them unsupported, is enqueued
      within `p / (limit - k) + 1` ticks. */
  lemma BoundedWaiting(trace: seq<seq<Config>>, ticks: seq<Tick>, limit: nat, k: nat, c: nat)
    requires IsRun(trace, ticks, limit, c) && ticks != [] && k < limit
    requires c < |trace[0]| && Due(trace[0][c], ticks[0].now) && trace[0][c].protocol != Unsupported
    requires |AheadUnsupported(trace[0], c)| <= k && |ticks| > |Ahead(trace[0], c)| / (limit - k)
    ensures exists m :: 0 <= m <= |Ahead(trace[0], c)| / (limit - k) && ServedAt(trace, ticks, c, m)
  {
    var p, rate := |Ahead(trace[0], c)|, limit - k;
    var n := p / rate + 1;
    assert p < n * rate;
    if m :| 0 <= m < n && c in ticks[m].batch {
      ProtocolKept(trace, ticks, limit, c, m);
      assert ServedAt(trace, ticks, c, m);
    } else {
      WaitingPaysOff(trace, ticks, limit, k, c, n);
      assert false;
    }
  }

  // ----- Starvation -----

  /** Unsupported configurations strictly more overdue than `c`: they go into every batch before it and never leave. */
  function Blockers(configs: seq<Config>, c: nat): set<nat>
    requires c < |configs| && configs[c].nextPollAt.Some?
  {
    set d: nat | d < |configs| && configs[d].protocol == Unsupported && configs[d].enabled
                 && configs[d].nextPollAt.Some? && configs[d].nextPollAt.value < configs[c].nextPollAt.value
  }

  /** A batch that selects `c` contains all its blockers, so it has more than `|Blockers|` members. */
  lemma SelectedAfterBlockers(configs: seq<Config>, now: Time, limit: nat, batch: seq<nat>, c: nat)
    requires c < |configs| && IsBatch(configs, now, limit, batch) && c in batch
    ensures configs[c].nextPollAt.Some? && |Blockers(configs, c)| < limit
  {
    var i :| 0 <= i < |batch| && batch[i] == c;
    forall d | d in Blockers(configs, c) ensures d in batch {
      assert Due(configs[d], now);
    }
    DistinctCardinality(batch);
    SubsetCardinality(Blockers(configs, c) + {c}, Elements(batch));
  }

  ghost predicate TaskTickAt(trace: seq<seq<Config>>, ticks: seq<Tick>, limit: nat, n: nat)
    requires n < |ticks| && n + 1 < |trace|
  {
    && IsBatch(trace[n], ticks[n].now, limit, ticks[n].batch)
    && Ticked(trace[n], trace[n + 1], ticks[n].batch, ticks[n].now)
  }

  /** A run of ticks with no other writer, at any clock readings. */
  ghost predicate IsTaskRun(trace: seq<seq<Config>>, ticks: seq<Tick>, limit: nat)
  {
    |trace| == |ticks| + 1 && forall n :: 0 <= n < |ticks| ==> TaskTickAt(trace, ticks, limit, n)
  }

  /** A tick that does not select `c` leaves it and its blockers as they were. */
  lemma BlockersStay(before: seq<Config>, after: seq<Config>, tick: Tick, c: nat)
    requires c < |before| && before[c].nextPollAt.Some? && c !in tick.batch &&
      Ticked(before, after, tick.batch, tick.now)
    ensures |after| == |before| && after[c] == before[c] && Blockers(before, c) <= Blockers(after, c)
  {
    forall d | d in Blockers(before, c) ensures d in Blockers(after, c) {
      assert !Served(before, tick.batch, d);
    }
  }

  /** The partner of `BoundedWaiting`: behind `limit` strictly more overdue unsupported configurations, a configuration
      is never selected, in any run of any length, and the blockers are there for good. */
  lemma {:induction false} BlockedForever(trace: seq<seq<Config>>, ticks: seq<Tick>, limit: nat, c: nat, n: nat)
    requires IsTaskRun(trace, ticks, limit) && n <= |ticks|
    requires c < |trace[0]| && trace[0][c].nextPollAt.Some? && |Blockers(trace[0], c)| >= limit
    ensures c < |trace[n]| && trace[n][c] == trace[0][c] && Blockers(trace[0], c) <= Blockers(trace[n], c)
    ensures n < |ticks| ==> c !in ticks[n].batch
  {
    if n > 0 {
      BlockedForever(trace, ticks, limit, c, n - 1);
      assert TaskTickAt(trace, ticks, limit, n - 1);
      BlockersStay(trace[n - 1], trace[n], ticks[n - 1], c);
    }
    if n < |ticks| && c in ticks[n].batch {
      assert TaskTickAt(trace, ticks, limit, n);
      SelectedAfterBlockers(trace[n], ticks[n].now, limit, ticks[n].batch, c);
      SubsetCardinality(Blockers(trace[0], c), Blockers(trace[n], c));
    }
  }

  /** One unsupported device ahead of a healthy one, batches of one: the healthy one is never polled. */
  lemma HealthyDeviceStarves(trace: seq<seq<Config>>, ticks: seq<Tick>, n: nat)
    requires IsTaskRun(trace, ticks, 1) && n < |ticks|
    requires trace[0] == [Config(Unsupported, 60, true, Some(0)), Config(Snmp, 60, true, Some(1))]
    ensures 1 !in ticks[n].batch
  {
    assert 0 in Blockers(trace[0], 1);
    SubsetCardinality({0}, Blockers(trace[0], 1));
    BlockedForever(trace, ticks, 1, 1, n);
  }

  /** Such a run exists, of any length. */
  lemma StarvingRunExists(length: nat)
    ensures
      var configs := [Config(Unsupported, 60, true, Some(0)), Config(Snmp, 60, true, Some(1))];
      IsTaskRun(seq(length + 1, i => configs), seq(length, i => Tick(i + 1, [0])), 1)
  {
    var configs := [Config(Unsupported, 60, true, Some(0)), Config(Snmp, 60, true, Some(1))];
    var trace, ticks := seq(length + 1, i => configs), seq(length, i => Tick(i + 1, [0]));
    forall n | 0 <= n < length ensures TaskTickAt(trace, ticks, 1, n) {
      assert !Served(configs, [0], 0) && !Served(configs, [0], 1);
    }
  }
}
