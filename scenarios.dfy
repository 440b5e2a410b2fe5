/**
 * Clients of the three engines that use nothing but their contracts: the
 * end-to-end walk of e2e.py and the redelivery order queue_test.go relies
 * on.
 */
module Scenarios {
  import opened Db
  import opened Api
  import opened Auth
  import opened Users
  import opened KV
  import opened Queue

  /**
   * e2e.py's walk: a new tenant sets and gets a key without ttl, then sends,
   * receives and deletes a message. A last receive finds the queue empty.
   */
  method EndToEnd(token: string, now: int)
      returns (created: Outcome<string>, got: Outcome<KeyValue>, received: Outcome<Delivery>, deleted: Outcome<()>)
    requires IsIssuedToken(token)
    requires now >= 0
    ensures created == Ok(token)
    ensures got == Ok(KeyValue("a", "b", NoExpiry))
    ensures received == Ok(Delivery(FirstId, "a", "b"))
    ensures deleted == Ok(())
  {
    var directory := new UserTable();
    created := directory.CreateUser(Some(token), false);
    assert created == Ok(token);
    var header := BearerPrefix + token;
    AuthenticatesNewUser([], FirstId, token);
    assert Authenticate(directory.users, header, false) == Authenticated(User(FirstId, token));

    var cache := new KVTable();
    var stored := cache.SetKey(directory.users, Request(header, Parsed(SetRequest("a", "b", None))), NoFaults);
    assert stored == Ok(());
    SetThenGet([], FirstId, directory.users, header, SetRequest("a", "b", None), now);
    got := GetKey(cache.items, directory.users, Request(header, Parsed("a")), now, NoFaults);
    assert got == Ok(KeyValue("a", "b", NoExpiry));

    var queue := new QueueTable();
    var sent := queue.SendMessage(directory.users, Request(header, Parsed(SendRequest("a", "b"))), NoFaults);
    assert sent == Ok(());
    received := queue.ReceiveMessage(directory.users, Request(header, Parsed(ReceiveRequest("a", 20000))), now, NoFaults);
    assert received == Ok(Delivery(FirstId, "a", "b"));
    deleted := queue.DeleteMessage(directory.users, Request(header, Parsed(DeleteRequest("a", FirstId))), NoFaults);
    assert deleted == Ok(());
    var again := queue.ReceiveMessage(directory.users, Request(header, Parsed(ReceiveRequest("a", 20000))), now, NoFaults);
    assert again == NotFound;
  }

  /**
   * Messages "b" then "c": receive gives "b"; while "b" is hidden, the next
   * receive gives "c".
   */
  method OldestFirst(users: seq<User>, header: string, now: int)
      returns (queue: QueueTable, first: Outcome<Delivery>, hidden: Outcome<Delivery>)
    requires Authenticate(users, header, false).Authenticated?
    requires now >= 0
    ensures first == Ok(Delivery(1, "a", "b"))
    ensures hidden == Ok(Delivery(2, "a", "c"))
    ensures fresh(queue) && queue.Valid()
    ensures var u := Authenticate(users, header, false).user.id;
      queue.items == [QueueItem(1, u, "a", "b", now + 20000), QueueItem(2, u, "a", "c", now + 20000)]
  {
    var u := Authenticate(users, header, false).user.id;
    queue := new QueueTable();
    var s1 := queue.SendMessage(users, Request(header, Parsed(SendRequest("a", "b"))), NoFaults);
    var s2 := queue.SendMessage(users, Request(header, Parsed(SendRequest("a", "c"))), NoFaults);
    var b, c := QueueItem(1, u, "a", "b", 0), QueueItem(2, u, "a", "c", 0);
    assert queue.items == [b, c];
    first := queue.ReceiveMessage(users, Request(header, Parsed(ReceiveRequest("a", 20000))), now, NoFaults);
    assert first == Ok(Delivery(1, "a", "b"));
    assert queue.items == [b.(visibleAt := now + 20000), c];
    hidden := queue.ReceiveMessage(users, Request(header, Parsed(ReceiveRequest("a", 20000))), now, NoFaults);
    assert hidden == Ok(Delivery(2, "a", "c"));
  }

  /**
   * Continuing: after the timeout "b" comes back before "c"; once "b" is
   * deleted, "c" is delivered.
   */
  method RedeliveryThenDelete(users: seq<User>, header: string, now: int)
      returns (redelivered: Outcome<Delivery>, deleted: Outcome<()>, next: Outcome<Delivery>)
    requires Authenticate(users, header, false).Authenticated?
    requires now >= 0
    ensures redelivered == Ok(Delivery(1, "a", "b"))
    ensures deleted == Ok(())
    ensures next == Ok(Delivery(2, "a", "c"))
  {
    var u := Authenticate(users, header, false).user.id;
    var queue, _, _ := OldestFirst(users, header, now);
    var b, c := QueueItem(1, u, "a", "b", now + 20000), QueueItem(2, u, "a", "c", now + 20000);
    redelivered := queue.ReceiveMessage(users, Request(header, Parsed(ReceiveRequest("a", 20000))), now + 20000, NoFaults);
    assert redelivered == Ok(Delivery(1, "a", "b"));
    assert queue.items == [b.(visibleAt := now + 40000), c];
    deleted, next := DeleteThenNext(queue, users, header, now);
  }

  /** Deleting "b" (id 1) while it is hidden leaves "c" to be delivered at its instant. */
  method DeleteThenNext(queue: QueueTable, users: seq<User>, header: string, now: int)
      returns (deleted: Outcome<()>, next: Outcome<Delivery>)
    requires queue.Valid()
    requires Authenticate(users, header, false).Authenticated?
    requires var u := Authenticate(users, header, false).user.id;
      queue.items == [QueueItem(1, u, "a", "b", now + 40000), QueueItem(2, u, "a", "c", now + 20000)]
    modifies queue
    ensures deleted == Ok(())
    ensures next == Ok(Delivery(2, "a", "c"))
  {
    var u := Authenticate(users, header, false).user.id;
    var c := QueueItem(2, u, "a", "c", now + 20000);
    deleted := queue.DeleteMessage(users, Request(header, Parsed(DeleteRequest("a", 1))), NoFaults);
    assert queue.items == [c];
    next := queue.ReceiveMessage(users, Request(header, Parsed(ReceiveRequest("a", 20000))), now + 40000, NoFaults);
  }
}
