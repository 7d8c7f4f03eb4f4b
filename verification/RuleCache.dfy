/**
 The versioned-namespace cache in front of the rule query, under every interleaving of readers, rule commits,
 late invalidations, entry expiry and version eviction.  A fresh version is a fresh UUID; a failing cache call
 is outside the model.
 */
module RuleCache {
  import opened Prelude
  import opened RuleMatching

  type Version = nat
  type ReaderId = nat

  /** A cached list, with the number of the committed table it was read from (bookkeeping only). */
  datatype Entry = Entry(ids: seq<RuleId>, queriedAt: nat)

  /** When a read began: the table it found, and whether any committed change still awaited its invalidation. */
  datatype Start = Start(table: nat, settled: bool)

  /** A call of the matching-rule lookup, by program point. */
  datatype Reader =
    | NeedsVersion(subject: Subject, start: Start)
    | HasVersion(subject: Subject, start: Start, version: Version)
    | Hit(subject: Subject, start: Start, version: Version, entry: Entry)
    | Missed(subject: Subject, start: Start, version: Version)
    | Queried(subject: Subject, start: Start, version: Version, entry: Entry)
    | Answered(subject: Subject, start: Start, ids: seq<RuleId>, source: Entry, answeredAt: nat)

  datatype State = State(
    history: seq<Table>,              // committed rule tables, the current one last
    pending: nat,                     // committed changes whose invalidation has not run yet
    version: Option<Version>,         // the shared version key
    installed: map<Version, nat>,     // every version ever installed, with the table current at that moment
    entries: map<(Version, Subject), Entry>,
    readers: map<ReaderId, Reader>)
  {
    function Now(): nat
      requires history != []
    {
      |history| - 1
    }
  }

  datatype Step =
    | Commit(table: Table)
    | Invalidate(unused: Version)
    | Expire(version: Version, subject: Subject)
    | EvictVersion
    | ReadVersion(reader: ReaderId, subject: Subject)
    | CreateVersion(reader: ReaderId, unused: Version)
    | Lookup(reader: ReaderId)
    | Recheck(reader: ReaderId)
    | Query(reader: ReaderId, rows: seq<RuleId>)
    | Fill(reader: ReaderId)

  ghost predicate Enabled(st: State, step: Step)
  {
    && st.history != []
    && match step
       case Commit(_) => true
       case Invalidate(unused) => st.pending > 0 && unused !in st.installed
       case Expire(_, _) => true
       case EvictVersion => true
       case ReadVersion(_, _) => true
       case CreateVersion(r, unused) => r in st.readers && st.readers[r].NeedsVersion? && unused !in st.installed
       case Lookup(r) => r in st.readers && st.readers[r].HasVersion?
       case Recheck(r) => r in st.readers && st.readers[r].Hit?
       case Query(r, rows) =>
         && r in st.readers && st.readers[r].Missed? && Distinct(rows)
         && Within(st.history[st.Now()], rows)
         && forall id :: id in rows <==> Applies(st.history[st.Now()], st.readers[r].subject, id)
       case Fill(r) => r in st.readers && st.readers[r].Queried?
  }

  function Install(st: State, unused: Version): State
    requires st.history != []
  {
    st.(version := Some(unused), installed := st.installed[unused := st.Now()])
  }

  function SetReader(st: State, r: ReaderId, reader: Reader): State
  {
    st.(readers := st.readers[r := reader])
  }

  ghost function Next(st: State, step: Step): State
    requires Enabled(st, step)
  {
    match step
    case Commit(table) => st.(history := st.history + [table], pending := st.pending + 1)
    case Invalidate(unused) => Install(st, unused).(pending := st.pending - 1)
    case Expire(v, s) => st.(entries := st.entries - {(v, s)})
    case EvictVersion => st.(version := None)
    case ReadVersion(r, s) =>
      var start := Start(st.Now(), st.pending == 0);
      SetReader(st, r, if st.version.Some? then HasVersion(s, start, st.version.value) else NeedsVersion(s, start))
    case CreateVersion(r, unused) =>
      var reader := st.readers[r];
      SetReader(Install(st, unused), r, HasVersion(reader.subject, reader.start, unused))
    case Lookup(r) =>
      var HasVersion(s, start, v) := st.readers[r];
      SetReader(st, r, if (v, s) in st.entries then Hit(s, start, v, st.entries[(v, s)]) else Missed(s, start, v))
    case Recheck(r) =>
      var Hit(s, start, _, entry) := st.readers[r];
      SetReader(st, r, Answered(s, start, StillMatching(st.history[st.Now()], s, entry.ids), entry, st.Now()))
    case Query(r, rows) =>
      var Missed(s, start, v) := st.readers[r];
      SetReader(st, r, Queried(s, start, v, Entry(SortDescending(st.history[st.Now()], rows), st.Now())))
    case Fill(r) =>
      var Queried(s, start, v, entry) := st.readers[r];
      SetReader(st.(entries := st.entries[(v, s) := entry]), r, Answered(s, start, entry.ids, entry, entry.queriedAt))
  }

  // ----- The invariant -----

  /** The list was the uncached answer at some table at or after `from`. */
  ghost predicate EntryOk(history: seq<Table>, s: Subject, entry: Entry, from: nat)
  {
    from <= entry.queriedAt < |history| && IsFresh(history[entry.queriedAt], s, entry.ids)
  }

  /** A reader holds a version no older than its start, if nothing awaited invalidation then. */
  ghost predicate HoldsOk(st: State, start: Start, v: Version)
  {
    && start.table < |st.history|
    && v in st.installed && st.installed[v] < |st.history|
    && (start.settled ==> start.table <= st.installed[v])
  }

  ghost predicate AnswerOk(history: seq<Table>, s: Subject, start: Start, ids: seq<RuleId>, source: Entry, at: nat)
  {
    && start.table <= at < |history|
    && EntryOk(history, s, source, if start.settled then start.table else 0)
    && source.queriedAt <= at
    && ids == StillMatching(history[at], s, source.ids)
  }

  ghost predicate ReaderOk(st: State, reader: Reader)
  {
    match reader
    case NeedsVersion(_, start) => start.table < |st.history|
    case HasVersion(_, start, v) => HoldsOk(st, start, v)
    case Missed(_, start, v) => HoldsOk(st, start, v)
    case Hit(s, start, v, entry) => HoldsOk(st, start, v) && EntryOk(st.history, s, entry, st.installed[v])
    case Queried(s, start, v, entry) =>
      HoldsOk(st, start, v) && EntryOk(st.history, s, entry, st.installed[v]) && start.table <= entry.queriedAt
    case Answered(s, start, ids, source, at) => AnswerOk(st.history, s, start, ids, source, at)
  }

  ghost predicate VersionOk(st: State)
  {
    && (forall v :: v in st.installed ==> st.installed[v] < |st.history|)
    && (st.version.Some? ==> st.version.value in st.installed
                             && st.Now() - st.installed[st.version.value] <= st.pending)
  }

  ghost predicate EntriesOk(st: State)
  {
    forall v, s :: (v, s) in st.entries ==>
        v in st.installed && EntryOk(st.history, s, st.entries[(v, s)], st.installed[v])
  }

  ghost predicate ReadersOk(st: State)
  {
    forall r :: r in st.readers ==> ReaderOk(st, st.readers[r])
  }

  ghost predicate Inv(st: State)
  {
    st.history != [] && VersionOk(st) && EntriesOk(st) && ReadersOk(st)
  }

  ghost predicate Initial(st: State)
  {
    |st.history| == 1 && st.pending == 0 && st.version.None? && st.installed == map[] && st.entries == map[] &&
        st.readers == map[]
  }

  /** What was right stays right when tables are committed and versions installed. */
  lemma ReaderMonotone(d: State, e: State, reader: Reader)
    requires ReaderOk(d, reader) && d.history <= e.history
    requires forall v :: v in d.installed ==> v in e.installed && e.installed[v] == d.installed[v]
    ensures ReaderOk(e, reader)
  {
  }

  lemma ReadersMonotone(d: State, e: State)
    requires ReadersOk(d) && e.readers == d.readers && d.history <= e.history
    requires forall v :: v in d.installed ==> v in e.installed && e.installed[v] == d.installed[v]
    ensures ReadersOk(e)
  {
    forall r | r in e.readers ensures ReaderOk(e, e.readers[r]) {
      ReaderMonotone(d, e, d.readers[r]);
    }
  }

  lemma SetReaderOk(st: State, r: ReaderId, reader: Reader)
    requires Inv(st) && ReaderOk(st, reader)
    ensures Inv(SetReader(st, r, reader))
  {
    var after := SetReader(st, r, reader);
    forall q | q in after.readers ensures ReaderOk(after, after.readers[q]) {
      ReaderMonotone(st, after, after.readers[q]);
    }
  }

  lemma InstallOk(st: State, unused: Version)
    requires Inv(st) && unused !in st.installed
    ensures Inv(Install(st, unused)) && Install(st, unused).Now() == Install(st, unused).installed[unused]
  {
    ReadersMonotone(st, Install(st, unused));
  }

  lemma CommitOk(st: State, table: Table)
    requires Inv(st)
    ensures Inv(st.(history := st.history + [table], pending := st.pending + 1))
  {
    var after := st.(history := st.history + [table], pending := st.pending + 1);
    ReadersMonotone(st, after);
    forall v, s | (v, s) in after.entries
      ensures v in after.installed && EntryOk(after.history, s, after.entries[(v, s)], after.installed[v])
    {
      assert EntryOk(st.history, s, st.entries[(v, s)], st.installed[v]);
    }
  }

  lemma FreshAnswers(t: Table, s: Subject, ids: seq<RuleId>)
    requires IsFresh(t, s, ids)
    ensures StillMatching(t, s, ids) == ids
  {
    AllStillMatch(t, s, ids);
  }

  lemma FillOk(st: State, r: ReaderId)
    requires Inv(st) && r in st.readers && st.readers[r].Queried?
    ensures Inv(Next(st, Fill(r)))
  {
    var Queried(s, start, v, entry) := st.readers[r];
    assert ReaderOk(st, st.readers[r]);
    var filled := st.(entries := st.entries[(v, s) := entry]);
    ReadersMonotone(st, filled);
    FreshAnswers(st.history[entry.queriedAt], s, entry.ids);
    SetReaderOk(filled, r, Answered(s, start, entry.ids, entry, entry.queriedAt));
  }

  lemma ReaderStepOk(st: State, step: Step)
    requires Inv(st) && Enabled(st, step) &&
      (step.ReadVersion? || step.CreateVersion? || step.Lookup? || step.Recheck? || step.Query?)
    ensures Inv(Next(st, step))
  {
    match step
    case ReadVersion(r, s) =>
      SetReaderOk(st, r, Next(st, step).readers[r]);
    case CreateVersion(r, unused) =>
      assert ReaderOk(st, st.readers[r]);
      InstallOk(st, unused);
      SetReaderOk(Install(st, unused), r, Next(st, step).readers[r]);
    case Lookup(r) =>
      assert ReaderOk(st, st.readers[r]);
      SetReaderOk(st, r, Next(st, step).readers[r]);
    case Recheck(r) =>
      assert ReaderOk(st, st.readers[r]);
      SetReaderOk(st, r, Next(st, step).readers[r]);
    case Query(r, rows) =>
      assert ReaderOk(st, st.readers[r]);
      SortedQueryIsFresh(st.history[st.Now()], st.readers[r].subject, rows);
      SetReaderOk(st, r, Next(st, step).readers[r]);
  }

  lemma StepKeepsInv(st: State, step: Step)
    requires Inv(st) && Enabled(st, step)
    ensures Inv(Next(st, step))
  {
    match step
    case Commit(table) => CommitOk(st, table);
    case Invalidate(unused) =>
      InstallOk(st, unused);
      ReadersMonotone(st, Next(st, step));
    case Expire(_, _) => ReadersMonotone(st, Next(st, step));
    case EvictVersion => ReadersMonotone(st, Next(st, step));
    case Fill(r) => FillOk(st, r);
    case _ => ReaderStepOk(st, step);
  }

  ghost predicate StepAt(trace: seq<State>, steps: seq<Step>, n: nat)
    requires n < |steps| && n + 1 < |trace|
  {
    Enabled(trace[n], steps[n]) && trace[n + 1] == Next(trace[n], steps[n])
  }

  ghost predicate IsRun(trace: seq<State>, steps: seq<Step>)
  {
    && |trace| == |steps| + 1
    && Initial(trace[0])
    && forall n :: 0 <= n < |steps| ==> StepAt(trace, steps, n)
  }

  lemma {:induction false} RunsKeepInv(trace: seq<State>, steps: seq<Step>, n: nat)
    requires IsRun(trace, steps) && n <= |steps|
    ensures Inv(trace[n])
  {
    if n > 0 {
      RunsKeepInv(trace, steps, n - 1);
      assert StepAt(trace, steps, n - 1);
      StepKeepsInv(trace[n - 1], steps[n - 1]);
    }
  }

  // ----- What readers may rely on -----

  /** An entry under the current version lags behind by no more commits than still await invalidation. */
  lemma CurrentEntryLag(trace: seq<State>, steps: seq<Step>, n: nat, s: Subject)
    requires IsRun(trace, steps) && n <= |steps|
    requires trace[n].version.Some? && (trace[n].version.value, s) in trace[n].entries
    ensures
      var st := trace[n];
      var entry := st.entries[(st.version.value, s)];
      && entry.queriedAt < |st.history|
      && |st.history| - 1 - entry.queriedAt <= st.pending
      && IsFresh(st.history[entry.queriedAt], s, entry.ids)
  {
    RunsKeepInv(trace, steps, n);
    var st := trace[n];
    assert EntryOk(st.history, s, st.entries[(st.version.value, s)], st.installed[st.version.value]);
  }

  /** With nothing awaiting invalidation, every entry under the current version is the uncached answer. */
  lemma SettledCacheIsFresh(trace: seq<State>, steps: seq<Step>, n: nat, s: Subject, ids: seq<RuleId>)
    requires IsRun(trace, steps) && n <= |steps| && trace[n].pending == 0
    requires trace[n].version.Some? && (trace[n].version.value, s) in trace[n].entries
    ensures trace[n].history != []
    ensures IsFresh(trace[n].history[|trace[n].history| - 1], s, ids)
      <==> ids == trace[n].entries[(trace[n].version.value, s)].ids
  {
    CurrentEntryLag(trace, steps, n, s);
    var st := trace[n];
    if IsFresh(st.history[|st.history| - 1], s, ids) {
      FreshUnique(st.history[|st.history| - 1], s, ids, st.entries[(st.version.value, s)].ids);
    }
  }

  /** In every run an answer is duplicate-free and names rules that matched at a moment within the read. */
  lemma AnswersAlwaysMatch(trace: seq<State>, steps: seq<Step>, n: nat, r: ReaderId)
    requires IsRun(trace, steps) && n <= |steps| && r in trace[n].readers && trace[n].readers[r].Answered?
    ensures
      var st, reader := trace[n], trace[n].readers[r];
      && reader.start.table <= reader.answeredAt < |st.history|
      && Distinct(reader.ids)
      && forall id :: id in reader.ids ==> Applies(st.history[reader.answeredAt], reader.subject, id)
  {
    RunsKeepInv(trace, steps, n);
    var st, reader := trace[n], trace[n].readers[r];
    assert ReaderOk(st, reader);
    DescendingDistinct(st.history[reader.source.queriedAt], reader.source.ids);
    StillMatchingDistinct(st.history[reader.answeredAt], reader.subject, reader.source.ids);
  }

  /** A read that began with nothing awaiting invalidation never uses a list older than its own start. */
  lemma SettledReadIsRecent(trace: seq<State>, steps: seq<Step>, n: nat, r: ReaderId)
    requires IsRun(trace, steps) && n <= |steps| && r in trace[n].readers && trace[n].readers[r].Answered?
    requires trace[n].readers[r].start.settled
    ensures
      var st, reader := trace[n], trace[n].readers[r];
      var q := reader.source.queriedAt;
      && reader.start.table <= q <= reader.answeredAt < |st.history|
      && IsFresh(st.history[q], reader.subject, reader.source.ids)
      && reader.ids == StillMatching(st.history[reader.answeredAt], reader.subject, reader.source.ids)
      && (q == reader.answeredAt ==> IsFresh(st.history[q], reader.subject, reader.ids))
  {
    RunsKeepInv(trace, steps, n);
    var st, reader := trace[n], trace[n].readers[r];
    assert ReaderOk(st, reader);
    FreshAnswers(st.history[reader.source.queriedAt], reader.subject, reader.source.ids);
  }

  /** Refinement: with no commit during such a read, cached and uncached lookup give the same list. */
  lemma CachedLookupRefinesQuery(trace: seq<State>, steps: seq<Step>, n: nat, r: ReaderId, uncached: seq<RuleId>)
    requires IsRun(trace, steps) && n <= |steps| && r in trace[n].readers && trace[n].readers[r].Answered?
    requires trace[n].readers[r].start.settled && trace[n].readers[r].start.table + 1 == |trace[n].history|
    requires IsFresh(trace[n].history[|trace[n].history| - 1], trace[n].readers[r].subject, uncached)
    ensures trace[n].readers[r].ids == uncached
  {
    SettledReadIsRecent(trace, steps, n, r);
    FreshUnique(trace[n].history[|trace[n].history| - 1], trace[n].readers[r].subject, trace[n].readers[r].ids,
        uncached);
  }

  // ----- The cache caches -----

  /** A reader that looks up what another has just filled, with no other step in between, answers from the entry,
      without a query, and with the same list. */
  lemma FilledThenHit(st: State, r: ReaderId, q: ReaderId)
    requires Inv(st) && Enabled(st, Fill(r)) && st.version == Some(st.readers[r].version) && q != r
    requires st.readers[r].entry.queriedAt == |st.history| - 1
    ensures
      var s, ids := st.readers[r].subject, st.readers[r].entry.ids;
      var s1 := Next(st, Fill(r));
      && s1.readers[r].Answered? && s1.readers[r].ids == ids
      && Enabled(s1, ReadVersion(q, s))
      && var s2 := Next(s1, ReadVersion(q, s));
         && Enabled(s2, Lookup(q))
         && var s3 := Next(s2, Lookup(q));
            && Enabled(s3, Recheck(q))
            && var s4 := Next(s3, Recheck(q));
               s4.readers[q].Answered? && s4.readers[q].ids == ids && s4.entries == s1.entries
  {
    assert ReaderOk(st, st.readers[r]);
    FreshAnswers(st.history[|st.history| - 1], st.readers[r].subject, st.readers[r].entry.ids);
  }

  /** An expired entry or an evicted version is missed, and then the query answers. */
  lemma MissedThenQueried(st: State, q: ReaderId, rows: seq<RuleId>)
    requires Inv(st) && Enabled(st, Lookup(q)) && (st.readers[q].version, st.readers[q].subject) !in st.entries
    requires Distinct(rows) && Within(st.history[|st.history| - 1], rows)
    requires forall id :: id in rows <==> Applies(st.history[|st.history| - 1], st.readers[q].subject, id)
    ensures
      var s := st.readers[q].subject;
      var s1 := Next(st, Lookup(q));
      && Enabled(s1, Query(q, rows))
      && var s2 := Next(s1, Query(q, rows));
         && Enabled(s2, Fill(q))
         && var s3 := Next(s2, Fill(q));
            && s3.readers[q].Answered? && IsFresh(st.history[|st.history| - 1], s, s3.readers[q].ids)
            && (st.readers[q].version, s) in s3.entries
            && s3.entries[(st.readers[q].version, s)].ids == s3.readers[q].ids
  {
    SortedQueryIsFresh(st.history[|st.history| - 1], st.readers[q].subject, rows);
  }
}
