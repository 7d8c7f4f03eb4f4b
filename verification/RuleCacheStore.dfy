/** The rule cache as one worker sees it between interruptions: rule writes invalidate, lookups fill and reuse. */
module RuleCacheStore {
  import opened Prelude
  import opened RuleMatching

  class Service {
    var rules: Table
    var version: Option<nat>
    var unused: nat                                   // source of fresh version names
    var entries: map<(nat, Subject), seq<RuleId>>

    /** Versions in use are not fresh, and the current namespace agrees with the rule table. */
    ghost predicate Valid()
      reads this
    {
      && (version.Some? ==> version.value < unused)
      && (forall v, s :: (v, s) in entries ==> v < unused)
      && (version.Some? ==> forall s :: (version.value, s) in entries ==>
          IsFresh(rules, s, entries[(version.value, s)]))
    }

    constructor ()
      ensures Valid() && rules == map[] && version.None? && entries == map[]
    {
      rules, version, unused, entries := map[], None, 0, map[];
    }

    method GetVersion() returns (v: nat)
      requires Valid()
      modifies this`version, this`unused
      ensures Valid() && version == Some(v)
      ensures old(version).Some? ==> version == old(version) && unused == old(unused)
      ensures old(version).None? ==> forall s :: (v, s) !in entries
    {
      if version.None? {
        version := Some(unused);
        unused := unused + 1;
      }
      v := version.value;
    }

    /** Empties the current namespace by naming a new one; nothing is deleted. */
    method Invalidate()
      requires (version.Some? ==> version.value < unused) && forall v, s :: (v, s) in entries ==> v < unused
      modifies this`version, this`unused
      ensures Valid() && version.Some? && forall s :: (version.value, s) !in entries
    {
      version := Some(unused);
      unused := unused + 1;
    }

    method SaveRule(id: RuleId, row: RuleRow)
      requires Valid()
      modifies this`rules, this`version, this`unused
      ensures Valid() && rules == old(rules)[id := row]
    {
      rules := rules[id := row];
      Invalidate();
    }

    method DeleteRule(id: RuleId)
      requires Valid()
      modifies this`rules, this`version, this`unused
      ensures Valid() && rules == old(rules) - {id}
    {
      rules := rules - {id};
      Invalidate();
    }

    /** `rows` is what the query would return, in whatever order the database chooses. */
    method GetMatchingRules(s: Subject, rows: seq<RuleId>) returns (ids: seq<RuleId>)
      requires Valid()
      requires Distinct(rows) && forall id :: id in rows <==> Applies(rules, s, id)
      modifies this`version, this`unused, this`entries
      ensures Valid() && IsFresh(rules, s, ids)
      ensures version.Some? && (version.value, s) in entries && entries[(version.value, s)] == ids
    {
      var v := GetVersion();
      if (v, s) in entries {
        AllStillMatch(rules, s, entries[(v, s)]);
        ids := StillMatching(rules, s, entries[(v, s)]);
      } else {
        SortedQueryIsFresh(rules, s, rows);
        ids := SortDescending(rules, rows);
        entries := entries[(v, s) := ids];
      }
    }
  }
}
