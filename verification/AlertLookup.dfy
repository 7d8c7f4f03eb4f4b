/** From the rule cache to the alerts: an evaluation pass over whatever a cached lookup answered. */
module AlertLookup {
  import opened Prelude
  import opened AlertData
  import opened AlertSpec
  import opened AlertEvaluation
  import opened RuleMatching
  import Cache = RuleCache

  /** What the engine reads of each rule, and the windows and clock of its turn. */
  type Turns = RuleId -> Turn

  function TurnsFor(turns: Turns, ids: seq<RuleId>): (r: seq<Turn>)
    ensures |r| == |ids| && forall i :: 0 <= i < |ids| ==> r[i] == turns(ids[i])
  {
    seq(|ids|, i requires 0 <= i < |ids| => turns(ids[i]))
  }

  predicate NamesRules(turns: Turns, ids: seq<RuleId>)
  {
    forall i :: 0 <= i < |ids| ==> turns(ids[i]).rule.id == ids[i]
  }

  /** The reader has its answer, began with nothing awaiting invalidation, and no rule was committed since. */
  ghost predicate Undisturbed(st: Cache.State, r: Cache.ReaderId)
  {
    && st.history != [] && r in st.readers && st.readers[r].Answered?
    && st.readers[r].start.settled && st.readers[r].start.table + 1 == |st.history|
  }

  /** In every run of the cache, a pass over the answer of an undisturbed lookup is the pass over the plain sorted
      query. */
  lemma CachedPassIsUncachedPass(trace: seq<Cache.State>, steps: seq<Cache.Step>, n: nat, r: Cache.ReaderId,
                                 uncached: seq<RuleId>, db: Db, latest: Latest, turns: Turns, now: Time)
    requires Cache.IsRun(trace, steps) && n <= |steps| && Undisturbed(trace[n], r)
    requires IsFresh(trace[n].history[|trace[n].history| - 1], trace[n].readers[r].subject, uncached)
    ensures EvaluateLatest(db, latest, TurnsFor(turns, trace[n].readers[r].ids), now)
         == EvaluateLatest(db, latest, TurnsFor(turns, uncached), now)
  {
    Cache.CachedLookupRefinesQuery(trace, steps, n, r, uncached);
  }

  /** What a pass over the matching rules does, for every rule there is: if the rule applies, its key ends up with an
      active alert exactly as it should; if not, its key is untouched. */
  lemma PassMeaning(table: Table, subject: Subject, ids: seq<RuleId>,
                    db: Db, latest: Latest, turns: Turns, now: Time, id: RuleId)
    requires IsFresh(table, subject, ids) && UniqueActive(db) && NamesRules(turns, ids)
    ensures
      var after := EvaluateLatest(db, latest, TurnsFor(turns, ids), now);
      var k := Key(latest.scope, latest.metric, id);
      if Applies(table, subject, id) then
        HasActive(after, k) <==> ShouldBeActive(db, latest, turns(id).rule, turns(id).windows, turns(id).now)
      else Slice(after, Keyed(k)) == Slice(db, Keyed(k))
  {
    var order := TurnsFor(turns, ids);
    DescendingDistinct(table, ids);
    assert DistinctRules(order);
    EvaluateLatestMeaning(db, latest, order, now, Key(latest.scope, latest.metric, id));
    if Applies(table, subject, id) {
      var i :| 0 <= i < |ids| && ids[i] == id;
      assert order[i].rule.id == id;
    }
  }

  /** The same over the answer of an undisturbed cached lookup, with the rules that apply in the current table. */
  lemma CachedPassMeaning(trace: seq<Cache.State>, steps: seq<Cache.Step>, n: nat, r: Cache.ReaderId,
                          db: Db, latest: Latest, turns: Turns, now: Time, id: RuleId)
    requires Cache.IsRun(trace, steps) && n <= |steps| && Undisturbed(trace[n], r)
    requires UniqueActive(db) && NamesRules(turns, trace[n].readers[r].ids)
    ensures
      var table, reader := trace[n].history[|trace[n].history| - 1], trace[n].readers[r];
      var after := EvaluateLatest(db, latest, TurnsFor(turns, reader.ids), now);
      var k := Key(latest.scope, latest.metric, id);
      if Applies(table, reader.subject, id) then
        HasActive(after, k) <==> ShouldBeActive(db, latest, turns(id).rule, turns(id).windows, turns(id).now)
      else Slice(after, Keyed(k)) == Slice(db, Keyed(k))
  {
    var table, reader := trace[n].history[|trace[n].history| - 1], trace[n].readers[r];
    Cache.SettledReadIsRecent(trace, steps, n, r);
    PassMeaning(table, reader.subject, reader.ids, db, latest, turns, now, id);
  }
}
