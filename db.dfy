/**
 * The three tables of the store (db.go). Every row carries the auto-increment
 * primary key that gorm.Model gives it; ids start at 1 and only grow.
 */
module Db {

  datatype Option<+T> = None | Some(value: T)

  /** A tenant (db.go `User`): its id and the credential it authenticates with. */
  datatype User = User(id: nat, token: string)

  /**
   * A cache entry (db.go `KVItem`). `ttl` is an absolute expiry instant in
   * Unix milliseconds, or NoExpiry.
   */
  datatype KVItem = KVItem(id: nat, key: string, value: string, ttl: int, userId: nat)

  /**
   * A queued message. None of the files modelled here declares `QueueItem`; its fields are the ones
   * queue.go and queue_test.go use. `visibleAt` is the instant (Unix
   * milliseconds) from which the message may be claimed again.
   */
  datatype QueueItem = QueueItem(id: nat, userId: nat, namespace: string, message: string, visibleAt: int)

  /** The ttl that means "never expires". */
  const NoExpiry: int := -1

  /** The id the first row of an empty table receives. */
  const FirstId: nat := 1

  predicate UserIdsIncreasing(users: seq<User>)
  {
    forall i, j :: 0 <= i < j < |users| ==> users[i].id < users[j].id
  }

  predicate KVIdsIncreasing(items: seq<KVItem>)
  {
    forall i, j :: 0 <= i < j < |items| ==> items[i].id < items[j].id
  }

  predicate QueueIdsIncreasing(items: seq<QueueItem>)
  {
    forall i, j :: 0 <= i < j < |items| ==> items[i].id < items[j].id
  }
}
