/** Which alert rules apply to a reading, and in what order. */
module RuleMatching {
  import opened Prelude

  datatype RuleRow = RuleRow(organization: nat, dataCenter: Option<nat>, deviceType: Option<nat>, device: Option<nat>,
                             metric: nat, isActive: bool, createdAt: Time)

  /** The parts of a reading that decide matching; they also make up its cache key. */
  datatype Subject = Subject(organization: nat, dataCenter: Option<nat>, device: nat, deviceType: Option<nat>,
      metric: nat)

  type Table = map<RuleId, RuleRow>

  /** The five-way disjunction of the rule query. */
  predicate Matches(r: RuleRow, s: Subject)
  {
    && r.isActive && r.organization == s.organization && r.metric == s.metric
    && (|| r.device == Some(s.device)
        || (s.dataCenter.Some? && s.deviceType.Some?
            && r.device.None? && r.dataCenter == s.dataCenter && r.deviceType == s.deviceType)
        || (s.dataCenter.Some? && r.device.None? && r.dataCenter == s.dataCenter && r.deviceType.None?)
        || (s.deviceType.Some? && r.device.None? && r.dataCenter.None? && r.deviceType == s.deviceType)
        || (r.device.None? && r.dataCenter.None? && r.deviceType.None?))
  }

  predicate Wildcard(field: Option<nat>, value: Option<nat>)
  {
    field.None? || field == value
  }

  /** A device rule matches its device; any other rule matches field by field, with unset fields as wildcards. */
  lemma MatchesMeaning(r: RuleRow, s: Subject)
    ensures Matches(r, s) <==>
      && r.isActive && r.organization == s.organization && r.metric == s.metric
      && (r.device == Some(s.device)
          || (r.device.None? && Wildcard(r.dataCenter, s.dataCenter) && Wildcard(r.deviceType, s.deviceType)))
  {
  }

  function Rank(r: RuleRow): nat
  {
    if r.device.Some? then 4
    else if r.dataCenter.Some? && r.deviceType.Some? then 3
    else if r.dataCenter.Some? then 2
    else if r.deviceType.Some? then 1
    else 0
  }

  /** Strictly before, in the descending order of (rank, creation time, primary key). */
  predicate Above(t: Table, a: RuleId, b: RuleId)
    requires a in t && b in t
  {
    || Rank(t[a]) > Rank(t[b])
    || (Rank(t[a]) == Rank(t[b]) && t[a].createdAt > t[b].createdAt)
    || (Rank(t[a]) == Rank(t[b]) && t[a].createdAt == t[b].createdAt && a > b)
  }

  ghost predicate Within(t: Table, ids: seq<RuleId>)
  {
    forall i :: 0 <= i < |ids| ==> ids[i] in t
  }

  ghost predicate Descending(t: Table, ids: seq<RuleId>)
    requires Within(t, ids)
  {
    forall i, j :: 0 <= i < j < |ids| ==> Above(t, ids[i], ids[j])
  }

  predicate Applies(t: Table, s: Subject, id: RuleId)
  {
    id in t && Matches(t[id], s)
  }

  /** The uncached answer: all matching rules, most specific first. */
  ghost predicate IsFresh(t: Table, s: Subject, ids: seq<RuleId>)
  {
    Within(t, ids) && Descending(t, ids) && forall id :: id in ids <==> Applies(t, s, id)
  }

  lemma DescendingDistinct(t: Table, ids: seq<RuleId>)
    requires Within(t, ids) && Descending(t, ids)
    ensures Distinct(ids)
  {
  }

  /** A strictly descending list is determined by its elements. */
  lemma {:induction false} DescendingUnique(t: Table, a: seq<RuleId>, b: seq<RuleId>)
    requires Within(t, a) && Within(t, b) && Descending(t, a) && Descending(t, b)
    requires forall id :: id in a <==> id in b
    ensures a == b
  {
    if a == [] {
      assert forall i :: 0 <= i < |b| ==> b[i] in b;
    } else {
      assert a[0] in b && b[0] in a;
      DescendingDistinct(t, a);
      DescendingDistinct(t, b);
      forall id ensures id in a[1..] <==> id in b[1..] {
        assert id in a <==> id == a[0] || id in a[1..];
        assert id in b <==> id == b[0] || id in b[1..];
      }
      DescendingUnique(t, a[1..], b[1..]);
      assert a == [a[0]] + a[1..] && b == [b[0]] + b[1..];
    }
  }

  lemma FreshUnique(t: Table, s: Subject, a: seq<RuleId>, b: seq<RuleId>)
    requires IsFresh(t, s, a) && IsFresh(t, s, b)
    ensures a == b
  {
    DescendingUnique(t, a, b);
  }

  // ----- Sorting the query rows -----

  function Insert(t: Table, id: RuleId, ids: seq<RuleId>): (r: seq<RuleId>)
    requires id in t && Within(t, ids)
    ensures Within(t, r) && multiset(r) == multiset(ids) + multiset{id}
  {
    if ids == [] || Above(t, id, ids[0]) then
      assert multiset([id] + ids) == multiset{id} + multiset(ids);
      [id] + ids
    else
      assert ids == [ids[0]] + ids[1..];
      [ids[0]] + Insert(t, id, ids[1..])
  }

  function SortDescending(t: Table, ids: seq<RuleId>): (r: seq<RuleId>)
    requires Within(t, ids)
    ensures Within(t, r) && multiset(r) == multiset(ids)
  {
    if ids == [] then []
    else
      assert ids == [ids[0]] + ids[1..];
      Insert(t, ids[0], SortDescending(t, ids[1..]))
  }

  /** An element above the head of a descending list may be put in front of it. */
  lemma DescendingHead(t: Table, id: RuleId, ids: seq<RuleId>)
    requires id in t && Within(t, ids) && Descending(t, ids) && (ids == [] || Above(t, id, ids[0]))
    ensures Descending(t, [id] + ids)
  {
  }

  lemma {:induction false} InsertDescending(t: Table, id: RuleId, ids: seq<RuleId>)
    requires id in t && Within(t, ids) && Descending(t, ids) && id !in ids
    ensures Descending(t, Insert(t, id, ids))
  {
    if ids != [] && !Above(t, id, ids[0]) {
      var rest := Insert(t, id, ids[1..]);
      InsertDescending(t, id, ids[1..]);
      forall j | 0 <= j < |rest| ensures Above(t, ids[0], rest[j]) {
        assert rest[j] in multiset(rest);
        assert rest[j] == id || rest[j] in ids[1..];
      }
    } else {
      DescendingHead(t, id, ids);
    }
  }

  lemma {:induction false} SortSorts(t: Table, ids: seq<RuleId>)
    requires Within(t, ids) && Distinct(ids)
    ensures Descending(t, SortDescending(t, ids))
  {
    if ids != [] {
      SortSorts(t, ids[1..]);
      var rest := SortDescending(t, ids[1..]);
      assert ids[0] !in ids[1..];
      assert ids[0] in rest <==> ids[0] in multiset(ids[1..]);
      InsertDescending(t, ids[0], rest);
    }
  }

  /** Whatever order the database returns the rows in, sorting them gives the one fresh answer. */
  lemma SortedQueryIsFresh(t: Table, s: Subject, rows: seq<RuleId>)
    requires Distinct(rows) && forall id :: id in rows <==> Applies(t, s, id)
    ensures Within(t, rows) && IsFresh(t, s, SortDescending(t, rows))
  {
    assert Within(t, rows) by {
      forall i | 0 <= i < |rows| ensures rows[i] in t {
        assert Applies(t, s, rows[i]);
      }
    }
    SortSorts(t, rows);
    var r := SortDescending(t, rows);
    forall id ensures id in r <==> id in rows {
      assert id in r <==> id in multiset(r);
      assert id in rows <==> id in multiset(rows);
    }
  }

  // ----- What the order means -----

  /** Whether a rule is listed before another: rules for a device first, then rules for a data centre before rules
      without one, then rules for a device type before rules without one; within one such class the later created
      first, and the larger key of two created together. */
  predicate ListedBefore(t: Table, a: RuleId, b: RuleId)
    requires a in t && b in t
  {
    var x, y := t[a], t[b];
    if x.device.Some? != y.device.Some? then x.device.Some?
    else if x.device.None? && x.dataCenter.Some? != y.dataCenter.Some? then x.dataCenter.Some?
    else if x.device.None? && x.deviceType.Some? != y.deviceType.Some? then x.deviceType.Some?
    else x.createdAt > y.createdAt || (x.createdAt == y.createdAt && a > b)
  }

  /** What a rule must say to apply to a subject, field by field. */
  predicate AppliesByField(t: Table, s: Subject, id: RuleId)
  {
    && id in t && t[id].isActive && t[id].organization == s.organization && t[id].metric == s.metric
    && (if t[id].device.Some? then t[id].device.value == s.device
        else (t[id].dataCenter.Some? ==> t[id].dataCenter == s.dataCenter)
             && (t[id].deviceType.Some? ==> t[id].deviceType == s.deviceType))
  }

  /** A list is the uncached answer if and only if it holds exactly the rules that apply, each listed before all that
      follow it. */
  lemma FreshMeaning(t: Table, s: Subject, ids: seq<RuleId>)
    ensures IsFresh(t, s, ids) <==>
      && (forall id :: id in ids <==> AppliesByField(t, s, id))
      && forall i, j :: 0 <= i < j < |ids| ==> ids[i] in t && ids[j] in t && ListedBefore(t, ids[i], ids[j])
  {
    forall id ensures Applies(t, s, id) <==> AppliesByField(t, s, id) {
      if id in t {
        MatchesMeaning(t[id], s);
      }
    }
    forall a, b | a in t && b in t ensures Above(t, a, b) <==> ListedBefore(t, a, b) {
    }
    if forall id :: id in ids <==> AppliesByField(t, s, id) {
      assert forall i :: 0 <= i < |ids| ==> ids[i] in ids;
    }
  }

  /** A device rule comes before every rule without a device; a rule for a data centre and a device type before one for
      either alone, a data centre alone before a device type alone, and either before neither. */
  lemma SpecificRulesFirst(t: Table, s: Subject, ids: seq<RuleId>, i: nat, j: nat)
    requires IsFresh(t, s, ids) && i < |ids| && j < |ids|
    ensures
      var x, y := t[ids[i]], t[ids[j]];
      && (x.device.Some? && y.device.None? ==> i < j)
      && (x.device.None? && y.device.None? ==>
            && (x.dataCenter.Some? && x.deviceType.Some? && !(y.dataCenter.Some? && y.deviceType.Some?) ==> i < j)
            && (x.dataCenter.Some? && y.dataCenter.None? ==> i < j)
            && (x.dataCenter.None? && x.deviceType.Some? && y.dataCenter.None? && y.deviceType.None? ==> i < j))
  {
    FreshMeaning(t, s, ids);
  }

  // ----- Re-checking cached ids -----

  /** The hit path: cached ids that still match, in cached order. */
  function StillMatching(t: Table, s: Subject, ids: seq<RuleId>): (r: seq<RuleId>)
    ensures forall id :: id in r <==> id in ids && Applies(t, s, id)
  {
    if ids == [] then []
    else (if Applies(t, s, ids[0]) then [ids[0]] else []) + StillMatching(t, s, ids[1..])
  }

  lemma {:induction false} StillMatchingDistinct(t: Table, s: Subject, ids: seq<RuleId>)
    requires Distinct(ids)
    ensures Distinct(StillMatching(t, s, ids))
  {
    if ids != [] {
      StillMatchingDistinct(t, s, ids[1..]);
      assert ids[0] !in ids[1..];
    }
  }

  lemma {:induction false} AllStillMatch(t: Table, s: Subject, ids: seq<RuleId>)
    requires forall id :: id in ids ==> Applies(t, s, id)
    ensures StillMatching(t, s, ids) == ids
  {
    if ids != [] {
      AllStillMatch(t, s, ids[1..]);
    }
  }
}
