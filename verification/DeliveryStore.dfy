/** The delivery service's row updates in place, tied to the row operations of the delivery machine. */
module DeliveryStore {
  import opened Prelude
  import opened Delivery

  /** A row to send: new, taken back, or failed before. */
  predicate ToSend(n: Notification)
  {
    n.status == Pending || n.status == Failed
  }

  /** A row whose worker has shown no sign of life for the timeout. */
  predicate Abandoned(n: Notification, asOf: Time, timeout: Time)
  {
    n.status == Delivering && asOf - n.updatedAt >= timeout
  }

  class Mailbox {
    var rows: seq<Notification>

    constructor (rows: seq<Notification>)
      ensures this.rows == rows
    {
      this.rows := rows;
    }

    /** `None` stands for a notification that does not exist. */
    method ClaimForDelivery(id: Option<nat>, now: Time) returns (claimed: bool)
      modifies this
      ensures claimed <==> id.Some? && id.value < |old(rows)|
                           && (old(rows)[id.value].status == Pending || old(rows)[id.value].status == Failed)
      ensures !claimed ==> rows == old(rows)
      ensures claimed ==> rows == old(rows)[id.value := Notification(Delivering, "", now, old(rows)[id.value].sentAt)]
    {
      if id.None? || id.value >= |rows| {
        return false;
      }
      var n := rows[id.value];
      if n.status == Sent || n.status == Delivering {
        return false;
      }
      n := n.(status := Delivering);
      n := n.(errorMessage := "");
      rows := rows[id.value := n.(updatedAt := now)];
      claimed := true;
    }

    /** The locked re-check: only listed rows that are still DELIVERING and still stale are taken back. */
    method RequeueStale(matched: seq<nat>, asOf: Time, now: Time, timeout: Time) returns (requeued: seq<nat>)
      requires Distinct(matched) && forall i :: 0 <= i < |matched| ==> matched[i] < |rows|
      modifies this
      ensures |rows| == |old(rows)|
      ensures forall n :: 0 <= n < |rows| ==>
        rows[n] == if n in matched && Abandoned(old(rows)[n], asOf, timeout)
                   then Notification(Pending, "Requeued after stale DELIVERING timeout", now, old(rows)[n].sentAt)
                   else old(rows)[n]
      ensures forall n :: n in requeued <==> n in matched && Abandoned(old(rows)[n], asOf, timeout)
    {
      requeued := [];
      var i := 0;
      while i < |matched|
        invariant i <= |matched| && |rows| == |old(rows)|
        invariant forall n :: 0 <= n < |rows| ==>
          rows[n] == if n in matched[..i] && Abandoned(old(rows)[n], asOf, timeout)
                     then Requeued(old(rows)[n], now) else old(rows)[n]
        invariant forall n :: n in requeued <==> n in matched[..i] && Abandoned(old(rows)[n], asOf, timeout)
      {
        var n := matched[i];
        assert matched[..i + 1] == matched[..i] + [n];
        assert n !in matched[..i];
        var row := rows[n];
        if row.status == Delivering && !(row.updatedAt > asOf - timeout) {
          row := row.(status := Pending);
          row := row.(errorMessage := REQUEUE_MESSAGE);
          rows := rows[n := row.(updatedAt := now)];
          requeued := requeued + [n];
        }
        i := i + 1;
      }
      assert matched[..i] == matched;
    }

    /** The synchronous delivery loop; `errors[i]` is what sending the i-th listed row raises, if anything. */
    method DeliverPending(pending: seq<nat>, errors: seq<Option<string>>, now: Time) returns (delivered: seq<nat>)
      requires Distinct(pending) && |errors| == |pending|
      requires forall i :: 0 <= i < |pending| ==> pending[i] < |rows|
      modifies this
      ensures |rows| == |old(rows)|
      ensures forall i :: 0 <= i < |pending| && ToSend(old(rows)[pending[i]]) ==>
        rows[pending[i]] == if errors[i].None? then Notification(Sent, "", now, Some(now))
                            else Notification(Failed, errors[i].value, now, old(rows)[pending[i]].sentAt)
      ensures forall n :: 0 <= n < |rows| && (n !in pending || !ToSend(old(rows)[n])) ==> rows[n] == old(rows)[n]
      ensures forall n :: n in delivered <==> n in pending && ToSend(old(rows)[n])
    {
      delivered := [];
      var i := 0;
      while i < |pending|
        invariant i <= |pending| && |rows| == |old(rows)|
        invariant forall j :: 0 <= j < i && ToSend(old(rows)[pending[j]]) ==>
          rows[pending[j]] == if errors[j].None? then Notification(Sent, "", now, Some(now))
                              else Notification(Failed, errors[j].value, now, old(rows)[pending[j]].sentAt)
        invariant forall n :: 0 <= n < |rows| && (n !in pending[..i] || !ToSend(old(rows)[n])) ==>
          rows[n] == old(rows)[n]
        invariant forall n :: n in delivered <==> n in pending[..i] && ToSend(old(rows)[n])
      {
        var n := pending[i];
        assert pending[..i + 1] == pending[..i] + [n];
        assert n !in pending[..i];
        var claimed := ClaimForDelivery(Some(n), now);
        if claimed {
          if errors[i].None? {
            rows := rows[n := rows[n].(status := Sent, sentAt := Some(now), errorMessage := "", updatedAt := now)];
          } else {
            rows := rows[n := rows[n].(status := Failed, errorMessage := errors[i].value, updatedAt := now)];
          }
          delivered := delivered + [n];
        }
        i := i + 1;
      }
      assert pending[..i] == pending;
    }
  }
}
