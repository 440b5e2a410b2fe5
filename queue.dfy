/**
 * The queue engine (queue.go): per-tenant, per-namespace messages with a
 * visibility timeout. send appends an immediately claimable message,
 * receive claims the oldest eligible one by pushing its visibleAt into the
 * future, and delete removes a message by id.
 */
module Queue {
  import opened Db
  import opened Api
  import opened Auth

  /** sendMessage's body (queue.go:12-15). */
  datatype SendRequest = SendRequest(namespace: string, message: string)

  /** receiveMessage's body (queue.go:17-20); the timeout is in milliseconds. */
  datatype ReceiveRequest = ReceiveRequest(namespace: string, visibilityTimeout: int)

  /** deleteMessage's body (queue.go:28-31), with the id as the number clients send. */
  datatype DeleteRequest = DeleteRequest(namespace: string, id: nat)

  /** receiveMessage's answer (queue.go:22-26). */
  datatype Delivery = Delivery(id: nat, namespace: string, message: string)

  /** The visibleAt of a message just sent (queue.go:52). */
  const SentVisibleAt: int := 0

  /** What the queue handlers answer with 400 when the body does not decode. */
  const BadBodyMessage: string := ""

  predicate InQueue(item: QueueItem, userId: nat, namespace: string)
  {
    item.userId == userId && item.namespace == namespace
  }

  /** A message may be claimed once its visibleAt is not after `now`. */
  predicate Eligible(item: QueueItem, now: int)
    ensures item.visibleAt == SentVisibleAt && now >= 0 ==> Eligible(item, now)
    ensures item.visibleAt > now ==> !Eligible(item, now)
  {
    item.visibleAt <= now
  }

  /** The eligibility test queue.go:81 actually writes: `visible_at >= now`. */
  predicate EligibleAsWritten(item: QueueItem, now: int)
    ensures item.visibleAt == SentVisibleAt && now > 0 ==> !EligibleAsWritten(item, now)
    ensures EligibleAsWritten(item, now) && Eligible(item, now) ==> item.visibleAt == now
  {
    item.visibleAt >= now
  }

  /** The queue table's invariant: ids from FirstId up, increasing, below the counter. */
  predicate WellFormed(items: seq<QueueItem>, nextId: nat)
  {
    && FirstId <= nextId
    && QueueIdsIncreasing(items)
    && (forall i :: 0 <= i < |items| ==> FirstId <= items[i].id < nextId)
  }

  /**
   * receiveMessage's selection (queue.go:81-82): the first row of the
   * tenant's namespace that may be claimed at `now`; in a well-numbered
   * table that is the eligible message with the lowest id.
   */
  function FirstEligible(items: seq<QueueItem>, userId: nat, namespace: string, now: int): (r: Option<nat>)
    ensures r.Some? ==> r.value < |items| && InQueue(items[r.value], userId, namespace) && Eligible(items[r.value], now)
    ensures r.Some? ==> forall j :: 0 <= j < r.value ==> !(InQueue(items[j], userId, namespace) && Eligible(items[j], now))
    ensures r.None? ==> forall j :: 0 <= j < |items| ==> !(InQueue(items[j], userId, namespace) && Eligible(items[j], now))
    ensures r.Some? && QueueIdsIncreasing(items) ==>
              forall j :: 0 <= j < |items| && InQueue(items[j], userId, namespace) && Eligible(items[j], now) ==>
                items[r.value].id <= items[j].id
  {
    if |items| == 0 then None
    else if InQueue(items[0], userId, namespace) && Eligible(items[0], now) then Some(0)
    else match FirstEligible(items[1..], userId, namespace, now)
      case None => None
      case Some(i) => Some(i + 1)
  }

  /** The table after row `i` is claimed until `visibleAt` (queue.go:85-86). */
  function Claimed(items: seq<QueueItem>, i: nat, visibleAt: int): (r: seq<QueueItem>)
    requires i < |items|
    ensures |r| == |items|
    ensures r[i].visibleAt == visibleAt
    ensures r[i].id == items[i].id && r[i].userId == items[i].userId
    ensures r[i].namespace == items[i].namespace && r[i].message == items[i].message
    ensures forall j :: 0 <= j < |items| && j != i ==> r[j] == items[j]
  {
    items[i := items[i].(visibleAt := visibleAt)]
  }

  /** deleteMessage's predicate (queue.go:129): the row with this tenant, namespace and id. */
  function FindMessage(items: seq<QueueItem>, userId: nat, namespace: string, id: nat): (r: Option<nat>)
    ensures r.Some? ==> r.value < |items| && InQueue(items[r.value], userId, namespace) && items[r.value].id == id
    ensures r.None? ==> forall j :: 0 <= j < |items| ==> !(InQueue(items[j], userId, namespace) && items[j].id == id)
  {
    if |items| == 0 then None
    else if InQueue(items[0], userId, namespace) && items[0].id == id then Some(0)
    else match FindMessage(items[1..], userId, namespace, id)
      case None => None
      case Some(i) => Some(i + 1)
  }

  /** The table after deleteMessage's statement removes row `i` (queue.go:129). */
  function Without(items: seq<QueueItem>, i: nat): (r: seq<QueueItem>)
    requires i < |items|
    ensures |r| == |items| - 1
    ensures forall k :: 0 <= k < i ==> r[k] == items[k]
    ensures forall k :: i <= k < |r| ==> r[k] == items[k + 1]
  {
    items[..i] + items[i + 1..]
  }

  lemma WithoutWellFormed(items: seq<QueueItem>, nextId: nat, i: nat)
    requires WellFormed(items, nextId) && i < |items|
    ensures WellFormed(Without(items, i), nextId)
  {
    var r := Without(items, i);
    assert forall k :: 0 <= k < |r| ==> r[k] == if k < i then items[k] else items[k + 1];
  }

  /**
   * Deleting the found row removes exactly the rows with that tenant,
   * namespace and id, and nothing else.
   */
  lemma DeleteRemovesExactly(items: seq<QueueItem>, userId: nat, namespace: string, id: nat)
    requires QueueIdsIncreasing(items)
    requires FindMessage(items, userId, namespace, id).Some?
    ensures var i := FindMessage(items, userId, namespace, id).value;
      forall x :: x in Without(items, i) <==> x in items && !(InQueue(x, userId, namespace) && x.id == id)
  {
    var i := FindMessage(items, userId, namespace, id).value;
    var r := Without(items, i);
    assert forall k :: 0 <= k < |r| ==> r[k] == if k < i then items[k] else items[k + 1];
    forall x
      ensures x in r <==> x in items && !(InQueue(x, userId, namespace) && x.id == id)
    {
      if x in r {
        var k :| 0 <= k < |r| && r[k] == x;
        if k < i {
          assert items[k].id < items[i].id;
        } else {
          assert items[i].id < items[k + 1].id;
        }
      }
      if x in items && !(InQueue(x, userId, namespace) && x.id == id) {
        var k :| 0 <= k < |items| && items[k] == x;
        assert k != i;
        if k < i {
          assert r[k] == x;
        } else {
          assert r[k - 1] == x;
        }
      }
    }
  }

  /**
   * A message is sent behind the others: appending it never changes which
   * message receive claims while an older one is eligible, and it is claimed
   * when nothing older is.
   */
  lemma {:induction false} SendKeepsOldestFirst(items: seq<QueueItem>, row: QueueItem, userId: nat, namespace: string, now: int)
    ensures FirstEligible(items + [row], userId, namespace, now) ==
      if FirstEligible(items, userId, namespace, now).Some? then FirstEligible(items, userId, namespace, now)
      else if InQueue(row, userId, namespace) && Eligible(row, now) then Some(|items|)
      else None
  {
    if |items| > 0 {
      assert (items + [row])[1..] == items[1..] + [row];
      SendKeepsOldestFirst(items[1..], row, userId, namespace, now);
    }
  }

  /**
   * Claiming with a positive timeout hides the claimed message from a
   * receive at the same instant: the next receive claims a later message,
   * or finds none when the claimed one was the only eligible message.
   */
  lemma ReceiveTwice(items: seq<QueueItem>, userId: nat, namespace: string, now: int, timeout: int)
    requires FirstEligible(items, userId, namespace, now).Some?
    requires timeout > 0
    ensures var i := FirstEligible(items, userId, namespace, now).value;
      var again := FirstEligible(Claimed(items, i, now + timeout), userId, namespace, now);
      && (again.Some? ==> again.value > i)
      && (again.None? <==>
            forall j :: 0 <= j < |items| && j != i ==> !(InQueue(items[j], userId, namespace) && Eligible(items[j], now)))
  {
    var i := FirstEligible(items, userId, namespace, now).value;
    var s := Claimed(items, i, now + timeout);
    var again := FirstEligible(s, userId, namespace, now);
    assert !Eligible(s[i], now);
    if again.None? {
      forall j | 0 <= j < |items| && j != i
        ensures !(InQueue(items[j], userId, namespace) && Eligible(items[j], now))
      {
        assert s[j] == items[j];
      }
    } else {
      assert s[again.value] == items[again.value];
    }
  }

  /**
   * Redelivery: once the timeout has elapsed the claimed message is eligible
   * again and no message sent after it is delivered ahead of it.
   */
  lemma RedeliveredBeforeLater(items: seq<QueueItem>, userId: nat, namespace: string, now: int, timeout: int, later: int)
    requires FirstEligible(items, userId, namespace, now).Some?
    requires later >= now + timeout
    ensures var i := FirstEligible(items, userId, namespace, now).value;
      var again := FirstEligible(Claimed(items, i, now + timeout), userId, namespace, later);
      again.Some? && again.value <= i
  {
    var i := FirstEligible(items, userId, namespace, now).value;
    var s := Claimed(items, i, now + timeout);
    assert InQueue(s[i], userId, namespace) && Eligible(s[i], later);
  }

  /**
   * queue.go:81 as written contradicts queue_test.go on both of its tests:
   * a message just sent is refused at any instant after the epoch
   * (queue_test.go:60-75 expects it delivered), and a message claimed with
   * a positive timeout can be claimed again at once (queue_test.go:169-185
   * expects 404 for a message hidden until later).
   */
  lemma AsWrittenContradictsTests(items: seq<QueueItem>, i: nat, now: int, timeout: int)
    requires i < |items| && now > 0 && timeout > 0
    ensures !EligibleAsWritten(QueueItem(1, 1, "a", "b", SentVisibleAt), now)
    ensures EligibleAsWritten(Claimed(items, i, now + timeout)[i], now)
  {
  }

  /**
   * The rule the model uses agrees with both tests: a message just sent is
   * claimable from the epoch on, and a claimed one stays hidden until its
   * timeout has elapsed.
   */
  lemma EligibleMatchesTests(items: seq<QueueItem>, i: nat, row: QueueItem, now: int, timeout: int, t: int)
    requires i < |items| && row.visibleAt == SentVisibleAt && now >= 0
    ensures Eligible(row, now)
    ensures now <= t < now + timeout ==> !Eligible(Claimed(items, i, now + timeout)[i], t)
    ensures t >= now + timeout ==> Eligible(Claimed(items, i, now + timeout)[i], t)
  {
  }

  class QueueTable {
    var items: seq<QueueItem>
    var nextId: nat

    ghost predicate Valid()
      reads this
    {
      WellFormed(items, nextId)
    }

    constructor ()
      ensures Valid() && items == [] && nextId == FirstId
    {
      items := [];
      nextId := FirstId;
    }

    /**
     * sendMessage (queue.go:33-58): no validation, so an empty namespace or
     * message is stored as given. `faults.write` says the insert failed.
     */
    method SendMessage(users: seq<User>, req: Request<SendRequest>, faults: Faults) returns (o: Outcome<()>)
      requires Valid()
      modifies this
      ensures Valid()
      ensures var a := Authenticate(users, req.authorization, faults.auth);
        && (!a.Authenticated? ==> o == Rejection(a) && unchanged(this))
        && (a.Authenticated? && req.body.Malformed? ==> o == UserError(BadBodyMessage) && unchanged(this))
        && (a.Authenticated? && req.body.Parsed? && faults.write ==> o == ServerError && unchanged(this))
        && (a.Authenticated? && req.body.Parsed? && !faults.write ==>
              var m := req.body.value;
              && o == Ok(())
              && items == old(items) + [QueueItem(old(nextId), a.user.id, m.namespace, m.message, SentVisibleAt)]
              && nextId == old(nextId) + 1
              && forall x :: x in old(items) ==> x.id < items[|items| - 1].id)
    {
      var a := Authenticate(users, req.authorization, faults.auth);
      if !a.Authenticated? {
        return Rejection(a);
      }
      if req.body.Malformed? {
        return UserError(BadBodyMessage);
      }
      if faults.write {
        return ServerError;
      }
      var m := req.body.value;
      items := items + [QueueItem(nextId, a.user.id, m.namespace, m.message, SentVisibleAt)];
      nextId := nextId + 1;
      o := Ok(());
    }

    /**
     * receiveMessage (queue.go:60-108): in one transaction, select the
     * oldest eligible message of the tenant's namespace and set its
     * visibleAt to now + visibilityTimeout. `faults.read` fails the select,
     * `faults.write` the save; either rolls the transaction back.
     */
    method ReceiveMessage(users: seq<User>, req: Request<ReceiveRequest>, now: int, faults: Faults) returns (o: Outcome<Delivery>)
      requires Valid()
      modifies this
      ensures Valid() && nextId == old(nextId)
      ensures var a := Authenticate(users, req.authorization, faults.auth);
        && (!a.Authenticated? ==> o == Rejection(a) && unchanged(this))
        && (a.Authenticated? && req.body.Malformed? ==> o == UserError(BadBodyMessage) && unchanged(this))
        && (a.Authenticated? && req.body.Parsed? && faults.read ==> o == ServerError && unchanged(this))
        && (a.Authenticated? && req.body.Parsed? && !faults.read ==>
              var q := req.body.value;
              var pick := FirstEligible(old(items), a.user.id, q.namespace, now);
              && (pick.None? ==> o == NotFound && unchanged(this))
              && (pick.Some? && faults.write ==> o == ServerError && unchanged(this))
              && (pick.Some? && !faults.write ==>
                    var row := old(items)[pick.value];
                    && o == Ok(Delivery(row.id, row.namespace, row.message))
                    && items == Claimed(old(items), pick.value, now + q.visibilityTimeout)))
    {
      var a := Authenticate(users, req.authorization, faults.auth);
      if !a.Authenticated? {
        return Rejection(a);
      }
      if req.body.Malformed? {
        return UserError(BadBodyMessage);
      }
      if faults.read {
        return ServerError;
      }
      var q := req.body.value;
      var pick := FirstEligible(items, a.user.id, q.namespace, now);
      if pick.None? {
        return NotFound;
      }
      if faults.write {
        return ServerError;
      }
      var i := pick.value;
      var row := items[i];
      items := items[i := row.(visibleAt := now + q.visibilityTimeout)];
      o := Ok(Delivery(row.id, row.namespace, row.message));
    }

    /**
     * deleteMessage (queue.go:110-139): remove the tenant's message with this
     * namespace and id; when no row matches the answer is NotFound.
     * `faults.write` says the delete statement failed, which answers 500
     * whether or not a row matches.
     */
    method DeleteMessage(users: seq<User>, req: Request<DeleteRequest>, faults: Faults) returns (o: Outcome<()>)
      requires Valid()
      modifies this
      ensures Valid() && nextId == old(nextId)
      ensures var a := Authenticate(users, req.authorization, faults.auth);
        && (!a.Authenticated? ==> o == Rejection(a) && unchanged(this))
        && (a.Authenticated? && req.body.Malformed? ==> o == UserError(BadBodyMessage) && unchanged(this))
        && (a.Authenticated? && req.body.Parsed? ==>
              var d := req.body.value;
              var found := FindMessage(old(items), a.user.id, d.namespace, d.id);
              && (faults.write ==> o == ServerError && unchanged(this))
              && (!faults.write && found.None? ==> o == NotFound && unchanged(this))
              && (!faults.write && found.Some? ==> o == Ok(()) && items == Without(old(items), found.value)))
    {
      var a := Authenticate(users, req.authorization, faults.auth);
      if !a.Authenticated? {
        return Rejection(a);
      }
      if req.body.Malformed? {
        return UserError(BadBodyMessage);
      }
      if faults.write {
        return ServerError;
      }
      var d := req.body.value;
      var found := FindMessage(items, a.user.id, d.namespace, d.id);
      if found.None? {
        return NotFound;
      }
      WithoutWellFormed(items, nextId, found.value);
      items := Without(items, found.value);
      o := Ok(());
    }
  }
}
