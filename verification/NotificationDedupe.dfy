/** Creation of alert notifications: dedupe keys, adoption of rows that predate them, and repeated creation loops. */
module NotificationDedupe {
  import opened Prelude

  // ----- Keys -----

  predicate ColonFree(s: string)
  {
    ':' !in s
  }

  predicate Parts(parts: seq<string>)
  {
    parts != [] && forall i :: 0 <= i < |parts| ==> ColonFree(parts[i])
  }

  function Join(parts: seq<string>): string
    requires parts != []
  {
    if |parts| == 1 then parts[0] else parts[0] + ":" + Join(parts[1..])
  }

  lemma SameHead(a: string, b: string, x: string, y: string)
    requires ColonFree(a) && ColonFree(b) && a + ":" + x == b + ":" + y
    ensures a == b && x == y
  {
    var s := a + ":" + x;
    assert s[|a|] == ':' && s[|b|] == ':';
    assert forall i :: 0 <= i < |a| ==> s[i] == a[i];
    assert forall i :: 0 <= i < |b| ==> s[i] == b[i];
    assert a == s[..|a|] && b == s[..|b|];
    assert x == s[|a| + 1..] && y == s[|b| + 1..];
  }

  lemma JoinHasColon(parts: seq<string>)
    requires |parts| > 1
    ensures ':' in Join(parts)
  {
  }

  /** Joining colon-free parts with colons loses nothing, not even how many there were. */
  lemma {:induction false} JoinInjective(a: seq<string>, b: seq<string>)
    requires Parts(a) && Parts(b) && Join(a) == Join(b)
    ensures a == b
  {
    if |a| > 1 && |b| > 1 {
      SameHead(a[0], b[0], Join(a[1..]), Join(b[1..]));
      JoinInjective(a[1..], b[1..]);
      assert a == [a[0]] + a[1..] && b == [b[0]] + b[1..];
    } else {
      if |a| > 1 {
        JoinHasColon(a);
      }
      if |b| > 1 {
        JoinHasColon(b);
      }
    }
  }

  datatype Channel = Email | Sms | Web | Webhook
  {
    function Name(): string {
      match this
      case Email => "EMAIL"
      case Sms => "SMS"
      case Web => "WEB"
      case Webhook => "WEBHOOK"
    }
  }

  datatype Action = Opened | Resolved
  {
    function Name(): string {
      match this
      case Opened => "OPENED"
      case Resolved => "RESOLVED"
    }
  }

  /** What one notification is for; identifiers are printed UUIDs. */
  datatype Purpose =
    | ForAlert(alert: string, action: Action, channel: Channel, user: string)
    | ForEscalation(alert: string, policy: string, channel: Channel, user: string)
  {
    predicate Printable() {
      ColonFree(alert) && ColonFree(user) && (ForEscalation? ==> ColonFree(policy))
    }

    function KeyParts(): (r: seq<string>)
      ensures r != []
    {
      match this
      case ForAlert(a, action, c, u) => ["alert", a, action.Name(), c.Name(), u]
      case ForEscalation(a, p, c, u) => ["alert", a, "ESCALATED", p, c.Name(), u]
    }

    function Key(): string {
      Join(KeyParts())
    }
  }

  lemma ChannelNames(c: Channel, d: Channel)
    ensures c.Name() == d.Name() ==> c == d
    ensures ColonFree(c.Name())
  {
  }

  /** The two key formats are injective and never collide. */
  lemma KeysAreInjective(p: Purpose, q: Purpose)
    requires p.Printable() && q.Printable()
    ensures p.Key() == q.Key() <==> p == q
  {
    if p.Key() == q.Key() {
      ChannelNames(p.channel, q.channel);
      ChannelNames(q.channel, p.channel);
      JoinInjective(p.KeyParts(), q.KeyParts());
      var x, y := p.KeyParts(), q.KeyParts();
      assert x[1] == y[1] && x[3] == y[3] && x[4] == y[4];
      if p.ForAlert? {
        assert |Opened.Name()| == 6 && |Resolved.Name()| == 8;
        assert x[2] == p.action.Name() && y[2] == q.action.Name();
      } else {
        assert x[5] == y[5];
      }
    }
  }

  /** The keys as they are stored. */
  lemma KeyText(alert: string, action: Action, policy: string, c: Channel, user: string)
    ensures
      var channel := match c case Email => "EMAIL" case Sms => "SMS" case Web => "WEB" case Webhook => "WEBHOOK";
      var happened := match action case Opened => "OPENED" case Resolved => "RESOLVED";
      && ForAlert(alert, action, c, user).Key() == "alert:" + alert + ":" + happened + ":" + channel + ":" + user
      && ForEscalation(alert, policy, c, user).Key() ==
           "alert:" + alert + ":ESCALATED:" + policy + ":" + channel + ":" + user
  {
    var p, q := ForAlert(alert, action, c, user), ForEscalation(alert, policy, c, user);
    JoinFive("alert", alert, action.Name(), c.Name(), user);
    JoinFive(alert, "ESCALATED", policy, c.Name(), user);
    assert p.KeyParts() == ["alert", alert, action.Name(), c.Name(), user];
    assert q.KeyParts()[1..] == [alert, "ESCALATED", policy, c.Name(), user];
    assert "alert" + ":" == "alert:" && ":" + "ESCALATED" + ":" == ":ESCALATED:";
  }

  lemma JoinFive(a: string, b: string, c: string, d: string, e: string)
    ensures Join([a, b, c, d, e]) == a + ":" + b + ":" + c + ":" + d + ":" + e
  {
    assert [a, b, c, d, e][1..] == [b, c, d, e] && [b, c, d, e][1..] == [c, d, e];
    assert [c, d, e][1..] == [d, e] && [d, e][1..] == [e];
    assert Join([d, e]) == d + ":" + e;
    assert Join([c, d, e]) == c + ":" + d + ":" + e;
    assert Join([b, c, d, e]) == b + ":" + c + ":" + d + ":" + e;
  }

  // ----- Rows -----

  /** A stored notification: its key may be missing on rows written before keys existed. */
  datatype Row = Row(purpose: Purpose, key: Option<string>)

  datatype User = User(id: string, hasEmail: bool, hasPhone: bool)

  predicate Reachable(user: User, channel: Channel)
  {
    (channel == Email ==> user.hasEmail) && (channel == Sms ==> user.hasPhone)
  }

  predicate HasRowKey(rows: seq<Row>, key: string)
  {
    exists i :: 0 <= i < |rows| && rows[i].key == Some(key)
  }

  /** The newest row about the same thing, whatever its key. */
  function Legacy(rows: seq<Row>, p: Purpose): (r: Option<nat>)
    ensures r.Some? ==> r.value < |rows| && rows[r.value].purpose == p
    ensures r.None? ==> forall i :: 0 <= i < |rows| ==> rows[i].purpose != p
  {
    if rows == [] then None
    else if rows[|rows| - 1].purpose == p then Some(|rows| - 1)
    else Legacy(rows[..|rows| - 1], p)
  }

  /** Creation for one purpose; only alert notifications look for a row to adopt. */
  function Create(rows: seq<Row>, p: Purpose): seq<Row>
  {
    if HasRowKey(rows, p.Key()) then rows
    else if p.ForAlert? && Legacy(rows, p).Some? then
      var i := Legacy(rows, p).value;
      if rows[i].key.None? then rows[i := rows[i].(key := Some(p.Key()))] else rows
    else rows + [Row(p, Some(p.Key()))]
  }

  function CreateAll(rows: seq<Row>, ps: seq<Purpose>): seq<Row>
  {
    if ps == [] then rows else Create(CreateAll(rows, ps[..|ps| - 1]), ps[|ps| - 1])
  }

  lemma {:induction false} LegacyIsNewest(rows: seq<Row>, p: Purpose, i: nat)
    ensures Legacy(rows, p) == Some(i) <==>
      i < |rows| && rows[i].purpose == p && forall j :: i < j < |rows| ==> rows[j].purpose != p
  {
    if rows != [] && rows[|rows| - 1].purpose != p {
      LegacyIsNewest(rows[..|rows| - 1], p, i);
    }
  }

  /** One creation: nothing if the key is taken; for an alert notification with earlier rows, the key on the newest of
      them if that has none, and nothing if it has one; otherwise a new row. */
  lemma CreateMeaning(rows: seq<Row>, p: Purpose)
    ensures (exists i :: 0 <= i < |rows| && rows[i].key == Some(p.Key())) ==> Create(rows, p) == rows
    ensures (forall i :: 0 <= i < |rows| ==> rows[i].key != Some(p.Key()))
            && (p.ForEscalation? || forall i :: 0 <= i < |rows| ==> rows[i].purpose != p)
      ==> Create(rows, p) == rows + [Row(p, Some(p.Key()))]
    ensures forall i |
      && (forall j :: 0 <= j < |rows| ==> rows[j].key != Some(p.Key()))
      && p.ForAlert? && 0 <= i < |rows| && rows[i].purpose == p && (forall j :: i < j < |rows| ==>
          rows[j].purpose != p) ::
      Create(rows, p) == if rows[i].key.None? then rows[i := Row(p, Some(p.Key()))] else rows
  {
    forall i: nat ensures Legacy(rows, p) == Some(i) <==>
      i < |rows| && rows[i].purpose == p && forall j :: i < j < |rows| ==> rows[j].purpose != p
    {
      LegacyIsNewest(rows, p, i);
    }
  }

  // ----- Uniqueness -----

  ghost predicate UniqueKeys(rows: seq<Row>)
  {
    forall i, j :: 0 <= i < j < |rows| && rows[i].key.Some? ==> rows[i].key != rows[j].key
  }

  lemma CreateKeepsUnique(rows: seq<Row>, p: Purpose)
    requires UniqueKeys(rows)
    ensures UniqueKeys(Create(rows, p))
  {
  }

  lemma {:induction false} CreateAllKeepsUnique(rows: seq<Row>, ps: seq<Purpose>)
    requires UniqueKeys(rows)
    ensures UniqueKeys(CreateAll(rows, ps))
  {
    if ps != [] {
      CreateAllKeepsUnique(rows, ps[..|ps| - 1]);
      CreateKeepsUnique(CreateAll(rows, ps[..|ps| - 1]), ps[|ps| - 1]);
    }
  }

  // ----- Repeating a loop -----

  /** Another creation for this purpose would do nothing. */
  predicate Settled(rows: seq<Row>, p: Purpose)
  {
    HasRowKey(rows, p.Key()) || (p.ForAlert? && Legacy(rows, p).Some? && rows[Legacy(rows, p).value].key.Some?)
  }

  lemma CreateSettles(rows: seq<Row>, p: Purpose)
    ensures Settled(Create(rows, p), p)
    ensures Settled(rows, p) ==> Create(rows, p) == rows
  {
    var after := Create(rows, p);
    if !HasRowKey(rows, p.Key()) {
      if p.ForAlert? && Legacy(rows, p).Some? {
        var i := Legacy(rows, p).value;
        assert rows[i].key.None? ==> after[i].key == Some(p.Key());
      } else {
        assert after[|rows|].key == Some(p.Key());
      }
    }
  }

  lemma {:induction false} LegacyUnderUpdate(rows: seq<Row>, i: nat, key: Option<string>, p: Purpose)
    requires i < |rows|
    ensures Legacy(rows[i := rows[i].(key := key)], p) == Legacy(rows, p)
  {
    var last := |rows| - 1;
    var changed := rows[i := rows[i].(key := key)];
    assert changed[last].purpose == rows[last].purpose;
    if rows[last].purpose != p {
      if i < last {
        assert changed[..last] == rows[..last][i := rows[..last][i].(key := key)];
        LegacyUnderUpdate(rows[..last], i, key, p);
      } else {
        assert changed[..last] == rows[..last];
      }
    }
  }

  lemma CreateKeepsKeys(rows: seq<Row>, q: Purpose)
    ensures |rows| <= |Create(rows, q)|
    ensures forall i :: 0 <= i < |rows| && rows[i].key.Some? ==> Create(rows, q)[i] == rows[i]
  {
  }

  /** No later creation undoes a settled purpose. */
  lemma SettledIsStable(rows: seq<Row>, p: Purpose, q: Purpose)
    requires Settled(rows, p)
    ensures Settled(Create(rows, q), p)
  {
    var after := Create(rows, q);
    CreateKeepsKeys(rows, q);
    if HasRowKey(rows, p.Key()) {
      var i :| 0 <= i < |rows| && rows[i].key == Some(p.Key());
      assert after[i].key == Some(p.Key());
    } else if |after| > |rows| {
      assert after[..|rows|] == rows && after[|rows|].purpose == q;
    } else if after != rows {
      LegacyUnderUpdate(rows, Legacy(rows, q).value, Some(q.Key()), p);
    }
  }

  lemma {:induction false} LoopSettles(rows: seq<Row>, ps: seq<Purpose>)
    ensures forall i :: 0 <= i < |ps| ==> Settled(CreateAll(rows, ps), ps[i])
  {
    if ps != [] {
      var front, p := ps[..|ps| - 1], ps[|ps| - 1];
      LoopSettles(rows, front);
      CreateSettles(CreateAll(rows, front), p);
      forall i | 0 <= i < |ps| ensures Settled(CreateAll(rows, ps), ps[i]) {
        if i < |front| {
          assert ps[i] == front[i];
          SettledIsStable(CreateAll(rows, front), ps[i], p);
        }
      }
    }
  }

  lemma {:induction false} SettledLoopIsIdle(rows: seq<Row>, ps: seq<Purpose>)
    requires forall i :: 0 <= i < |ps| ==> Settled(rows, ps[i])
    ensures CreateAll(rows, ps) == rows
  {
    if ps != [] {
      SettledLoopIsIdle(rows, ps[..|ps| - 1]);
      CreateSettles(rows, ps[|ps| - 1]);
    }
  }

  /** Repeating a creation loop, even after any other creations, changes nothing. */
  lemma {:induction false} RepeatedLoopIsIdle(rows: seq<Row>, ps: seq<Purpose>, others: seq<Purpose>)
    ensures
      var later := CreateAll(CreateAll(rows, ps), others);
      CreateAll(later, ps) == later
  {
    LoopSettles(rows, ps);
    StaysSettled(CreateAll(rows, ps), ps, others);
    SettledLoopIsIdle(CreateAll(CreateAll(rows, ps), others), ps);
  }

  lemma {:induction false} StaysSettled(rows: seq<Row>, ps: seq<Purpose>, others: seq<Purpose>)
    requires forall i :: 0 <= i < |ps| ==> Settled(rows, ps[i])
    ensures forall i :: 0 <= i < |ps| ==> Settled(CreateAll(rows, others), ps[i])
  {
    if others != [] {
      var front := others[..|others| - 1];
      StaysSettled(rows, ps, front);
      forall i | 0 <= i < |ps| ensures Settled(CreateAll(rows, others), ps[i]) {
        SettledIsStable(CreateAll(rows, front), ps[i], others[|others| - 1]);
      }
    }
  }

  // ----- How many rows each -----

  /** Every row carries the key of its own purpose, or none because it predates keys. */
  ghost predicate OwnKeys(rows: seq<Row>)
  {
    forall i :: 0 <= i < |rows| ==>
      rows[i].purpose.Printable() && (rows[i].key.Some? ==> rows[i].key.value == rows[i].purpose.Key())
  }

  function RowsFor(rows: seq<Row>, p: Purpose): nat
  {
    if rows == [] then 0
    else RowsFor(rows[..|rows| - 1], p) + if rows[|rows| - 1].purpose == p then 1 else 0
  }

  /** How many rows there are for a purpose once a loop has covered it: rows that predate keys are adopted by alert
      notifications and ignored by escalations. */
  function RowsAfter(rows: seq<Row>, p: Purpose): nat
  {
    if HasRowKey(rows, p.Key()) || (p.ForAlert? && RowsFor(rows, p) > 0) then RowsFor(rows, p) else RowsFor(rows, p) + 1
  }

  lemma RowsForAppend(rows: seq<Row>, row: Row, p: Purpose)
    ensures RowsFor(rows + [row], p) == RowsFor(rows, p) + if row.purpose == p then 1 else 0
  {
    assert (rows + [row])[..|rows|] == rows;
  }

  lemma {:induction false} RowsForUpdate(rows: seq<Row>, i: nat, key: Option<string>, p: Purpose)
    requires i < |rows|
    ensures RowsFor(rows[i := rows[i].(key := key)], p) == RowsFor(rows, p)
  {
    var last := |rows| - 1;
    var changed := rows[i := rows[i].(key := key)];
    assert changed[last].purpose == rows[last].purpose;
    if i < last {
      assert changed[..last] == rows[..last][i := rows[..last][i].(key := key)];
      RowsForUpdate(rows[..last], i, key, p);
    } else {
      assert changed[..last] == rows[..last];
    }
  }

  lemma {:induction false} LegacyCounts(rows: seq<Row>, p: Purpose)
    ensures Legacy(rows, p).Some? <==> RowsFor(rows, p) > 0
  {
    if rows != [] {
      LegacyCounts(rows[..|rows| - 1], p);
    }
  }

  lemma OwnKeyIsOwn(rows: seq<Row>, i: nat, p: Purpose)
    requires OwnKeys(rows) && p.Printable() && i < |rows| && rows[i].key.Some?
    ensures rows[i].key.value == p.Key() <==> rows[i].purpose == p
  {
    KeysAreInjective(rows[i].purpose, p);
  }

  lemma CreateKeepsOwn(rows: seq<Row>, q: Purpose)
    requires OwnKeys(rows) && q.Printable()
    ensures OwnKeys(Create(rows, q))
  {
  }

  /** Creating for `q` gives no other purpose a row or a key. */
  lemma CreateForOther(rows: seq<Row>, q: Purpose, p: Purpose)
    requires q.Printable() && p.Printable() && p != q
    ensures RowsFor(Create(rows, q), p) == RowsFor(rows, p)
    ensures HasRowKey(Create(rows, q), p.Key()) <==> HasRowKey(rows, p.Key())
  {
    KeysAreInjective(p, q);
    KeysKept(rows, q, p.Key());
    RowsForAppend(rows, Row(q, Some(q.Key())), p);
    if Legacy(rows, q).Some? {
      RowsForUpdate(rows, Legacy(rows, q).value, Some(q.Key()), p);
    }
  }

  lemma KeysKept(rows: seq<Row>, q: Purpose, key: string)
    requires key != q.Key()
    ensures HasRowKey(Create(rows, q), key) <==> HasRowKey(rows, key)
  {
    var after := Create(rows, q);
    CreateKeepsKeys(rows, q);
    if i :| 0 <= i < |rows| && rows[i].key == Some(key) {
      assert after[i].key == Some(key);
    }
    if i :| 0 <= i < |after| && after[i].key == Some(key) {
      assert i < |rows| && rows[i].key == Some(key);
    }
  }

  lemma LegacyIsKeyless(rows: seq<Row>, q: Purpose)
    requires OwnKeys(rows) && q.Printable() && !HasRowKey(rows, q.Key()) && Legacy(rows, q).Some?
    ensures rows[Legacy(rows, q).value].key.None?
  {
    var i := Legacy(rows, q).value;
    if rows[i].key.Some? {
      OwnKeyIsOwn(rows, i, q);
    }
  }

  lemma CreateForOwn(rows: seq<Row>, q: Purpose)
    requires OwnKeys(rows) && q.Printable()
    ensures RowsFor(Create(rows, q), q) == RowsAfter(rows, q) && HasRowKey(Create(rows, q), q.Key())
  {
    LegacyCounts(rows, q);
    if !HasRowKey(rows, q.Key()) {
      if q.ForAlert? && Legacy(rows, q).Some? {
        LegacyIsKeyless(rows, q);
        RowsForUpdate(rows, Legacy(rows, q).value, Some(q.Key()), q);
        assert Create(rows, q)[Legacy(rows, q).value].key == Some(q.Key());
      } else {
        RowsForAppend(rows, Row(q, Some(q.Key())), q);
        assert Create(rows, q)[|rows|].key == Some(q.Key());
      }
    }
  }

  /** What a loop that may have `covered` a purpose does to it. */
  ghost predicate Counted(rows: seq<Row>, after: seq<Row>, p: Purpose, covered: bool)
  {
    && OwnKeys(after)
    && RowsFor(after, p) == (if covered then RowsAfter(rows, p) else RowsFor(rows, p))
    && (HasRowKey(after, p.Key()) <==> covered || HasRowKey(rows, p.Key()))
  }

  lemma CountedStep(rows: seq<Row>, mid: seq<Row>, q: Purpose, p: Purpose, covered: bool)
    requires Counted(rows, mid, p, covered) && p.Printable() && q.Printable()
    ensures Counted(rows, Create(mid, q), p, covered || p == q)
  {
    CreateKeepsOwn(mid, q);
    if p == q {
      CreateForOwn(mid, q);
    } else {
      CreateForOther(mid, q, p);
    }
  }

  /** The exact effect of a loop on every purpose, from any rows that carry their own key or none: a purpose it covers
      ends up with its key on a row and with the rows it had, plus one if there was none to use; any other purpose
      keeps what it had. */
  lemma {:induction false} LoopCounts(rows: seq<Row>, ps: seq<Purpose>, p: Purpose)
    requires OwnKeys(rows) && p.Printable() && forall i :: 0 <= i < |ps| ==> ps[i].Printable()
    ensures Counted(rows, CreateAll(rows, ps), p, p in ps)
  {
    if ps != [] {
      var front := ps[..|ps| - 1];
      LoopCounts(rows, front, p);
      CountedStep(rows, CreateAll(rows, front), ps[|ps| - 1], p, p in front);
      assert p in ps <==> p in front || p == ps[|ps| - 1];
    }
  }

  /** In particular, where every row has its key, a loop leaves exactly one row for every purpose it covers. */
  lemma ExactlyOneRowEach(rows: seq<Row>, ps: seq<Purpose>, n: nat)
    requires OwnKeys(rows) && UniqueKeys(rows) && (forall i :: 0 <= i < |rows| ==> rows[i].key.Some?)
    requires n < |ps| && forall i :: 0 <= i < |ps| ==> ps[i].Printable()
    ensures RowsFor(CreateAll(rows, ps), ps[n]) == 1
  {
    LoopCounts(rows, ps, ps[n]);
    KeyedRowsFor(rows, ps[n]);
  }

  lemma FrontHasKey(front: seq<Row>, row: Row, key: string)
    ensures HasRowKey(front + [row], key) <==> HasRowKey(front, key) || row.key == Some(key)
  {
    var rows := front + [row];
    assert rows[|front|] == row;
    forall i | 0 <= i < |front| ensures rows[i] == front[i] {
    }
  }

  lemma LastKeyIsNew(front: seq<Row>, row: Row, key: string)
    requires UniqueKeys(front + [row]) && row.key == Some(key)
    ensures !HasRowKey(front, key)
  {
    var rows := front + [row];
    forall i | 0 <= i < |front| ensures front[i].key != Some(key) {
      assert rows[i] == front[i] && rows[|front|] == row;
    }
  }

  lemma {:induction false} KeyedRowsFor(rows: seq<Row>, p: Purpose)
    requires OwnKeys(rows) && UniqueKeys(rows) && (forall i :: 0 <= i < |rows| ==> rows[i].key.Some?) && p.Printable()
    ensures RowsFor(rows, p) == if HasRowKey(rows, p.Key()) then 1 else 0
  {
    if rows != [] {
      var last := |rows| - 1;
      KeyedRowsFor(rows[..last], p);
      OwnKeyIsOwn(rows, last, p);
      assert rows == rows[..last] + [rows[last]];
      FrontHasKey(rows[..last], rows[last], p.Key());
      if rows[last].purpose == p {
        LastKeyIsNew(rows[..last], rows[last], p.Key());
      }
    }
  }

  // ----- The loops -----

  lemma OneMore(rows: seq<Row>, ps: seq<Purpose>, p: Purpose)
    ensures CreateAll(rows, ps + [p]) == Create(CreateAll(rows, ps), p)
  {
  }

  lemma {:induction false} LoopsCompose(rows: seq<Row>, a: seq<Purpose>, b: seq<Purpose>)
    ensures CreateAll(rows, a + b) == CreateAll(CreateAll(rows, a), b)
  {
    if b == [] {
      assert a + b == a;
    } else {
      var front, p := b[..|b| - 1], b[|b| - 1];
      assert CreateAll(rows, a + b) == Create(CreateAll(rows, a + front), p) by {
        assert a + b == (a + front) + [p];
        OneMore(rows, a + front, p);
      }
      LoopsCompose(rows, a, front);
    }
  }

  /** What a creation loop is about: an alert action, or an escalation by one policy. */
  datatype Occasion = Happened(action: Action) | EscalatedBy(policy: string)

  function PurposeOf(alert: string, occasion: Occasion, channel: Channel, user: User): Purpose
  {
    match occasion
    case Happened(action) => ForAlert(alert, action, channel, user.id)
    case EscalatedBy(policy) => ForEscalation(alert, policy, channel, user.id)
  }

  /** Escalations go to the web inbox and, if it is another one, to the policy's channel. */
  function EscalationChannels(channel: Option<Channel>): seq<Channel>
  {
    if channel.Some? && channel.value != Web then [Web, channel.value] else [Web]
  }

  /** The notification a recipient is due on one channel, if the channel reaches them. */
  function DueOn(alert: string, occasion: Occasion, user: User, channel: Channel): seq<Purpose>
  {
    if Reachable(user, channel) then [PurposeOf(alert, occasion, channel, user)] else []
  }

  /** The notifications one recipient is due, in channel order. */
  function PurposesOf(alert: string, occasion: Occasion, user: User, channels: seq<Channel>): seq<Purpose>
  {
    if channels == [] then []
    else
      var last := |channels| - 1;
      PurposesOf(alert, occasion, user, channels[..last]) + DueOn(alert, occasion, user, channels[last])
  }

  function PurposesFor(alert: string, occasion: Occasion, users: seq<User>, channels: seq<Channel>): seq<Purpose>
  {
    if users == [] then []
    else
      var last := |users| - 1;
      PurposesFor(alert, occasion, users[..last], channels) + PurposesOf(alert, occasion, users[last], channels)
  }

  // ----- What the loops cover -----

  /** The recipient has what the channel needs: an address for mail, a number for text messages. */
  predicate CanReceive(user: User, c: Channel)
  {
    match c
    case Email => user.hasEmail
    case Sms => user.hasPhone
    case Web => true
    case Webhook => true
  }

  lemma {:induction false} PurposesOfMeaning(alert: string, occasion: Occasion, user: User, channels: seq<Channel>,
                                             p: Purpose)
    ensures p in PurposesOf(alert, occasion, user, channels) <==>
      exists c | c in channels :: CanReceive(user, c) && p == PurposeOf(alert, occasion, c, user)
  {
    if channels != [] {
      var front, last := channels[..|channels| - 1], channels[|channels| - 1];
      PurposesOfMeaning(alert, occasion, user, front, p);
      assert forall c :: c in channels <==> c in front || c == last;
      assert p in DueOn(alert, occasion, user, last) <==>
          CanReceive(user, last) && p == PurposeOf(alert, occasion, last, user);
    }
  }

  /** A loop covers a purpose exactly if it is the notification of the occasion for one of the recipients, on one of the
      channels, that can receive it. */
  lemma {:induction false} PurposesForMeaning(alert: string, occasion: Occasion, users: seq<User>,
      channels: seq<Channel>,
                                              p: Purpose)
    ensures p in PurposesFor(alert, occasion, users, channels) <==>
      exists u, c | u in users && c in channels :: CanReceive(u, c) && p == PurposeOf(alert, occasion, c, u)
  {
    if users != [] {
      var front, last := users[..|users| - 1], users[|users| - 1];
      PurposesForMeaning(alert, occasion, front, channels, p);
      PurposesOfMeaning(alert, occasion, last, channels, p);
      assert forall u :: u in users <==> u in front || u == last;
    }
  }

  /** What the notification of an occasion says of itself. */
  lemma PurposeMeaning(alert: string, occasion: Occasion, c: Channel, user: User)
    ensures
      var p := PurposeOf(alert, occasion, c, user);
      && p.alert == alert && p.channel == c && p.user == user.id
      && (occasion.Happened? ==> p.ForAlert? && p.action == occasion.action)
      && (occasion.EscalatedBy? ==> p.ForEscalation? && p.policy == occasion.policy)
  {
  }

  /** Escalations go to the web inbox and to the policy's channel, once each. */
  lemma EscalationChannelsMeaning(channel: Option<Channel>)
    ensures
      var cs := EscalationChannels(channel);
      cs[0] == Web && Distinct(cs) && forall c :: c in cs <==> c == Web || channel == Some(c)
  {
  }

  /** After a loop over rows that all have their keys: one row for each reachable recipient and channel, and for
      anything else the rows there were. */
  lemma LoopMeaning(rows: seq<Row>, alert: string, occasion: Occasion, users: seq<User>, channels: seq<Channel>,
      p: Purpose)
    requires OwnKeys(rows) && UniqueKeys(rows) && (forall i :: 0 <= i < |rows| ==> rows[i].key.Some?)
    requires ColonFree(alert) && (occasion.EscalatedBy? ==> ColonFree(occasion.policy)) && p.Printable()
    requires forall u :: u in users ==> ColonFree(u.id)
    ensures RowsFor(CreateAll(rows, PurposesFor(alert, occasion, users, channels)), p) ==
      if exists u, c | u in users && c in channels :: CanReceive(u, c) && p == PurposeOf(alert, occasion, c, u) then 1
      else RowsFor(rows, p)
  {
    var ps := PurposesFor(alert, occasion, users, channels);
    PurposesForMeaning(alert, occasion, users, channels, p);
    forall i | 0 <= i < |ps| ensures ps[i].Printable() {
      PurposesForMeaning(alert, occasion, users, channels, ps[i]);
      assert ps[i] in ps;
    }
    LoopCounts(rows, ps, p);
    KeyedRowsFor(rows, p);
  }

  class Outbox {
    var rows: seq<Row>

    constructor ()
      ensures rows == []
    {
      rows := [];
    }

    method CreateOne(p: Purpose) returns (created: bool)
      modifies this
      ensures rows == Create(old(rows), p)
      ensures created <==> |rows| == |old(rows)| + 1
      ensures !created ==> |rows| == |old(rows)|
    {
      created := false;
      if HasRowKey(rows, p.Key()) {
        return;
      }
      if p.ForAlert? {
        var legacy := Legacy(rows, p);
        if legacy.Some? {
          if rows[legacy.value].key.None? {
            rows := rows[legacy.value := rows[legacy.value].(key := Some(p.Key()))];
          }
          return;
        }
      }
      rows := rows + [Row(p, Some(p.Key()))];
      created := true;
    }

    /** The inner loop's body. */
    method CreateOn(alert: string, occasion: Occasion, user: User, channel: Channel) returns (created: nat)
      modifies this
      ensures rows == CreateAll(old(rows), DueOn(alert, occasion, user, channel))
      ensures created == |rows| - |old(rows)|
    {
      created := 0;
      if Reachable(user, channel) {
        var p := PurposeOf(alert, occasion, channel, user);
        OneMore(rows, [], p);
        assert [] + [p] == [p];
        var done := CreateOne(p);
        if done {
          created := 1;
        }
      }
    }

    /** The inner loop, over the channels of one recipient. */
    method CreateForUser(alert: string, occasion: Occasion, user: User, channels: seq<Channel>) returns (created: nat)
      modifies this
      ensures rows == CreateAll(old(rows), PurposesOf(alert, occasion, user, channels))
      ensures created == |rows| - |old(rows)|
    {
      created := 0;
      var m := 0;
      while m < |channels|
        invariant m <= |channels|
        invariant rows == CreateAll(old(rows), PurposesOf(alert, occasion, user, channels[..m]))
        invariant created == |rows| - |old(rows)|
      {
        assert channels[..m + 1][..m] == channels[..m];
        LoopsCompose(old(rows), PurposesOf(alert, occasion, user, channels[..m]),
            DueOn(alert, occasion, user, channels[m]));
        var more := CreateOn(alert, occasion, user, channels[m]);
        created := created + more;
        m := m + 1;
      }
      assert channels[..m] == channels;
    }

    /** The nested loop over recipients and channels. */
    method CreateForAlert(alert: string, occasion: Occasion, recipients: seq<User>, channels: seq<Channel>)
      returns (created: nat)
      modifies this
      ensures rows == CreateAll(old(rows), PurposesFor(alert, occasion, recipients, channels))
      ensures created == |rows| - |old(rows)|
    {
      created := 0;
      var n := 0;
      while n < |recipients|
        invariant n <= |recipients|
        invariant rows == CreateAll(old(rows), PurposesFor(alert, occasion, recipients[..n], channels))
        invariant created == |rows| - |old(rows)|
      {
        assert recipients[..n + 1][..n] == recipients[..n];
        LoopsCompose(old(rows), PurposesFor(alert, occasion, recipients[..n], channels),
                     PurposesOf(alert, occasion, recipients[n], channels));
        var more := CreateForUser(alert, occasion, recipients[n], channels);
        created := created + more;
        n := n + 1;
      }
      assert recipients[..n] == recipients;
    }

    /** The escalation loop. */
    method CreateForEscalation(alert: string, policy: string, channel: Option<Channel>, recipients: seq<User>)
      returns (created: nat)
      modifies this
      ensures rows == CreateAll(old(rows),
        PurposesFor(alert, EscalatedBy(policy), recipients, EscalationChannels(channel)))
      ensures created == |rows| - |old(rows)|
    {
      var channels := [Web];
      if channel.Some? && channel.value != Web {
        channels := channels + [channel.value];
      }
      assert channels == EscalationChannels(channel);
      created := CreateForAlert(alert, EscalatedBy(policy), recipients, channels);
    }
  }
}
