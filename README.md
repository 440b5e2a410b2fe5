# tinyinfra: the KV cache, the message queue and the tenant directory, in Dafny

tinyinfra is a small multi-tenant backend. Every request carries a bearer
token that resolves to a tenant. A tenant owns a key-value cache whose
entries carry an absolute expiry, and message queues partitioned by
namespace, with SQS-style visibility timeouts.

This project models the table-backed core of the three engines. The HTTP
handler is reduced to its decisions: authenticate, decode, validate, run the
store operation, and return one outcome per status code. The store is a set of
in-memory tables of rows, each with an auto-increment id. A transaction is one
atomic method body.

- `db.dfy` (module `Db`): the rows `User`, `KVItem` and `QueueItem`, the
  `NoExpiry` sentinel (-1), and the "ids increase" invariant of each table.
- `api.dfy` (module `Api`): `Outcome` (Ok 200, NotFound 404, UserError 400,
  ServerError 500, AuthError 401), the decoded `Request`, and `Faults`.
  `Faults` says which store calls of a request fail with an error other than
  "record not found".
- `auth.dfy` (module `Auth`): `auth`, a pure function. It strips `"Bearer "`,
  finds the first user with that token, and separates authError from other
  store errors.
- `users.dfy` (module `Users`): `createUser`, a class `UserTable` whose method
  inserts one user.
- `kv.dfy` (module `KV`): class `KVTable` with `SetKey`, the upsert, and
  `Reap`, the reaper, as state-changing methods. `GetKey` is a pure function
  of the table.
  - Both methods are specified by functions on the rows (`Upserted`,
    `Reaped`).
  - Lemmas about those functions cover set-then-get, expiry, and the fact that
    reaping never changes what get returns.
- `queue.dfy` (module `Queue`): class `QueueTable` with `SendMessage`,
  `ReceiveMessage` and `DeleteMessage`.
  - They are specified through `FirstEligible`, `Claimed`, `FindMessage` and
    `Without`.
  - Lemmas cover oldest-first delivery, no double claim, redelivery order and
    exact deletion.
- `scenarios.dfy` (module `Scenarios`): three client methods that use only
  the contracts above.
  - `EndToEnd` walks through e2e.py: create a tenant, set and get a key, send,
    receive, delete. e2e.py stops at the delete; the method adds one more
    receive, which finds the queue empty.
  - `OldestFirst` and `RedeliveryThenDelete` follow the "b then c" order of
    queue_test.go:123-154 and go on to redelivery and deletion.

Time (`now`, in Unix milliseconds) is a parameter. The random token is a
parameter. Store failures are parameters.

### Where the code and its tests differ

- `QueueItem` is not declared in db.go, and db.go:43 does not migrate it. Its
  fields come from its uses (queue.go:52, queue_test.go:38, queue_test.go:64).
- queue.go:81 selects `visible_at >= now`, the opposite of what the tests
  expect. The model uses `visibleAt <= now` (see Findings).
- `QueueMessageToDelete.ID` is a string (queue.go:29), but the tests and
  e2e.py send a number (queue_test.go:193, queue_test.go:235, e2e.py:66).
  Decoding a JSON number into a Go string fails, so as coded every such
  request is answered 400 at queue.go:123-125. The model's id is a `nat`, so
  where the source answers 400 for a numeric id the model answers Ok or
  NotFound, as the tests expect.
- deleteMessage answers 404 only when the store reports "record not found"
  (queue.go:130). A delete that matches no row reports no such error. So a
  request whose id is a string and matches no row gets 200 as coded. The
  tests expect 404 for a missing message (queue_test.go:229-245). The model
  makes the zero-match case explicit and answers `NotFound`.
- sendMessage does not validate its body (queue.go:50). An empty namespace or
  message is stored as given. It is not rejected with 400, as setKey rejects
  an empty key (kv.go:50-51); the model follows the code.
- `APIError` (queue.go, user.go) is declared in none of the files modelled here. Its 500 is modelled as
  `ServerError`. Its 400 is modelled as `UserError` with an empty message,
  because the body it writes is unknown.
- A delete in the store is gorm's soft delete: the row stays, with
  `deleted_at` set. Soft-deleted rows are invisible to every query, so the
  model removes the row.

## Model

| member | source | states |
|---|---|---|
| `Auth.TrimBearer` | utils.go:48-50 | the token is the header with one leading "Bearer " removed (prefix + token = header), or the whole header when it has no such prefix |
| `Auth.TrimBearerRoundTrip` | utils.go:48-50 | trimming "Bearer " + t gives back exactly t |
| `Auth.FindByToken` | utils.go:52-53 | the index found holds the token and no earlier row does; None exactly when no row holds it |
| `Auth.Authenticate` | utils.go:47-60 | a failing lookup gives LookupFailed; otherwise the result is Authenticated iff some user holds the trimmed token; that user is returned and, with increasing ids, it has the lowest id among the holders |
| `Auth.Rejection` | kv.go:36-43 | handlers answer authError with 401 (AuthError) and any other auth failure with 500 (ServerError) |
| `Auth.MissingHeaderRejected` | utils.go:48-55 | an absent header is the empty token, which is refused when no user has an empty token |
| `Users.UserTable.constructor` | db.go:8-11 | the user table starts empty, with the first id 1 |
| `Users.UserTable.CreateUser` | user.go:10-32 | a failed token generation or insert gives ServerError and adds no user; otherwise exactly one user, with the next id and the token, is appended, existing users are unchanged, and the token returned is the stored one and non-empty |
| `Users.AuthenticatesNewUser` | user.go:17-18 | after the insert, auth with "Bearer " + token resolves to the new user, given no older user holds that token |
| `Users.IssuedTokensRejectMissingHeader` | utils.go:15-22 | tokens of the newToken32 shape are never empty, so a request without a header is refused |
| `KV.Expired` | kv.go:19 | the reaper's condition `ttl != -1 && ttl < now` is exactly the negation of getKey's visibility `ttl == -1` or `ttl >= now` |
| `KV.RequestedTtl` | kv.go:45 | the stored ttl is the one sent; it is -1 (never expires) exactly when the ttl was omitted or sent as -1 |
| `KV.Live` | kv.go:94 | a row with ttl -1 is visible at every instant; a row with a ttl t >= 0 is visible exactly at the instants up to and including t |
| `KV.FindRow` | kv.go:58 | the first row for (user, key), whatever its ttl; None iff there is none |
| `KV.FindLive` | kv.go:94 | the first row for (user, key) with `ttl == -1` or `ttl >= now`; None iff there is none |
| `KV.Lookup` | kv.go:93-109 | None iff no row of the tenant with that key is live at now; otherwise the key, value and ttl of a live row of that tenant and key |
| `KV.GetKey` | kv.go:71-111 | auth failures give 401/500, an unreadable body or an empty key gives the source's UserError messages, a read failure gives ServerError; otherwise Ok with the live row's key, value and ttl, or NotFound when there is none |
| `KV.Reaped` | kv.go:19 | the rows kept are exactly those that are not expired at now |
| `KV.Upserted` | kv.go:56-62 | the row count grows by one exactly when (user, key) had no row; afterwards the first row for (user, key) holds the value and ttl just set |
| `KV.UpsertedNextId` | kv.go:56-60 | the id counter moves on by one exactly when no row for (user, key) existed, and stays put otherwise |
| `KV.UpsertedSpec` | kv.go:56-62 | the upsert keeps one row per (user, key) and increasing ids; afterwards (user, key) has a row with the new value and ttl; the row count grows by one iff the key was absent; an existing row keeps its id; no row of another user or key is added, changed or removed |
| `KV.LookupAfterUpsert` | kv.go:56-109 | after set, get at any now with ttl -1 or ttl >= now returns exactly the key, value and ttl set |
| `KV.LookupAfterUpsertExpired` | kv.go:94 | after set with a concrete ttl before now, get reports nothing without any reap |
| `KV.SetThenGet` | e2e.py:22-37 | through the handlers: an authenticated set of a non-empty key followed by get returns Ok with that key, value and ttl |
| `KV.OmittedTtlNeverExpires` | kv.go:45 | a set without ttl stores -1 and get returns the value with ttl -1 at every instant |
| `KV.ReapedWellFormed` | kv.go:19 | reaping keeps the table's invariant (increasing ids, one row per user and key) |
| `KV.ReapPreservesLookup` | kv.go:12-19 | reaping at now never changes what get returns at the same now |
| `KV.KVTable.SetKey` | kv.go:34-69 | auth failure, unreadable body, empty key ("key must not be empty or missing") and a failed write answer 401/500, 400, 400 and 500 and leave the table unchanged; otherwise Ok and the table becomes the upsert of (user, key, value, ttl, with -1 for an omitted ttl) |
| `KV.KVTable.constructor` | db.go:13-20 | the KV table starts empty, with the first id 1 |
| `KV.KVTable.Reap` | kv.go:14-22 | the table becomes exactly its non-expired rows, or is unchanged when the delete fails; the invariant and the id counter are kept |
| `Queue.FirstEligible` | queue.go:81-82 | the row chosen belongs to the tenant and namespace and has visibleAt <= now, no earlier row qualifies, and with increasing ids it has the lowest id of all qualifying rows; None iff none qualifies |
| `Queue.Eligible` | queue_test.go:60-75 | a message just sent (visibleAt 0) is claimable at every instant from the epoch on; a message hidden until after now is not claimable |
| `Queue.EligibleAsWritten` | queue.go:81 | with `visible_at >= now` a message just sent is refused at every instant after the epoch, and the only messages both the written rule and `visibleAt <= now` accept are those with visibleAt equal to now |
| `Queue.Claimed` | queue.go:85-86 | claiming changes only the chosen row, and of it only visibleAt, which becomes the given instant; the row count is kept |
| `Queue.FindMessage` | queue.go:129 | the row found has the tenant, namespace and id asked for; None iff no row has all three |
| `Queue.Without` | queue.go:129 | removing row i shortens the table by one, keeps the rows before i and shifts the rows after i down by one, in order |
| `Queue.DeleteRemovesExactly` | queue.go:129 | deleting removes exactly the rows matching (user, namespace, id) and keeps every other row |
| `Queue.SendKeepsOldestFirst` | queue_test.go:123-154 | a newly sent message never overtakes an older eligible one, and it is the one claimed when nothing older is eligible |
| `Queue.ReceiveTwice` | queue.go:80-90 | after a claim with a positive timeout, a receive at the same now claims only a later message, and finds none iff the first was the only eligible one |
| `Queue.RedeliveredBeforeLater` | queue.go:85 | once the visibility timeout has elapsed, the claimed message is claimable again and no message sent after it is delivered first |
| `Queue.AsWrittenContradictsTests` | queue.go:81 | with `visible_at >= now`, a freshly sent message is refused and a just-claimed message is claimable again |
| `Queue.EligibleMatchesTests` | queue_test.go:60-75 | with `visibleAt <= now`, a sent message is claimable from the epoch on and a claimed one is hidden exactly until now + timeout |
| `Queue.QueueTable.SendMessage` | queue.go:33-58 | auth failure, unreadable body and failed insert leave the table unchanged; otherwise exactly one row {next id, user, namespace, message, visibleAt 0} is appended, with an id above all existing ones, and nothing else changes |
| `Queue.QueueTable.constructor` | queue.go:52 | the queue table starts empty, with the first id 1 |
| `Queue.QueueTable.ReceiveMessage` | queue.go:60-108 | with no eligible row: NotFound, unchanged; a failed select or save: ServerError, unchanged; otherwise only the chosen row's visibleAt becomes now + timeout and its id, namespace and message are returned |
| `Scenarios.OldestFirst` | queue_test.go:123-154 | through the handlers: after sending "b" then "c", the first receive returns Ok with "b" (id 1) and the second, while "b" is hidden, Ok with "c" (id 2); the table ends with both rows hidden until now + 20000 |
| `Scenarios.RedeliveryThenDelete` | queue_test.go:123-154 | continuing OldestFirst: after the timeout "b" (id 1) is delivered again before "c"; deleting id 1 answers Ok; the next receive delivers "c" (id 2) |
| `Scenarios.EndToEnd` | e2e.py:13-68 | through the handlers: creating a tenant returns its token; set then get of key "a" returns value "b" with ttl -1; send, receive and delete of message "b" in namespace "a" return Ok with id 1, then Ok |
| `Queue.QueueTable.DeleteMessage` | queue.go:110-139 | auth failure and an unreadable body answer 401/500 and 400; a failed delete statement answers ServerError whether or not a row matches; otherwise the row matching (user, namespace, id) is removed and nothing else changes, or, with no match, NotFound with the table unchanged |

## Findings

| source | as written | input that shows it | evidently intended | confidence | as-written member | corrected member |
|---|---|---|---|---|---|---|
| queue.go:81 | `visible_at >= now` selects messages hidden until the future and skips claimable ones | a message sent with VisibleAt 0 and received at any now > 0 gets 404; a message just claimed for 20000 ms is claimed again at once | `visible_at <= now`, which queue_test.go:60-75 and queue_test.go:169-185 assert | high (not executed) | `Queue.AsWrittenContradictsTests` | `Queue.EligibleMatchesTests` |

## Left out

- HTTP plumbing: routing (server.go), JSON encoding and decoding, the
  ResponseWriter and the log lines of `APIServerError`/`APIUserError`. A body
  that fails to decode is `Malformed`. The JSON literal `null` as a body is
  not modelled for setKey and sendMessage: they decode into a pointer
  (kv.go:45-46, queue.go:44-45), which `null` sets to nil, and the next field
  access panics. The other three handlers decode into a struct value
  (kv.go:82-83, queue.go:71-72, queue.go:121-122), which `null` leaves at its
  zero value, so they treat `null` as an empty body. For getKey and
  receiveMessage that is `Parsed("")` and `Parsed(ReceiveRequest("", 0))`.
  For deleteMessage it is namespace "" and the string id "", which the
  model's numeric id does not express.
- Randomness and base64: `newToken32` is described only by the shape of its
  result (`Users.IsIssuedToken`: 44 characters, the base64 alphabet, one `=`).
  Its result, or its failure, is a parameter of `CreateUser`.
- The KVCron ticker and goroutine (kv.go:15-21): only one run of the deletion
  is modelled, as `Reap(now)`.
- gorm, sqlite and the transaction machinery (`getDB`, db.go:28-45). The
  CreatedAt, UpdatedAt and DeletedAt columns of gorm.Model are not modelled.
- Wall-clock time: `now` is passed in. receiveMessage reads the clock twice
  (queue.go:82 and queue.go:85). The model uses one instant for both.
- Concurrency: concurrent requests, competing receives, and the reaper running
  beside requests. Each operation is one atomic step.
- KV.KVTable.SetKey: does not model gorm's `Updates(struct)` rule, which skips
  zero-valued fields (kv.go:61). An empty value or ttl 0 would not overwrite in
  the source; the model always replaces both.
- KV.KVTable.SetKey: does not model a failing lookup inside the transaction.
  The source takes the create branch on any lookup error (kv.go:58-59), which
  could add a second row for the key. Only a failing write is modelled.
- Users.UserTable.CreateUser: takes a generated token and trusts
  `IsIssuedToken` for it. Like the source, it does not check the token for
  uniqueness.
- Queue.QueueTable.ReceiveMessage: does not model the 64-bit wrap-around of
  `now + visibilityTimeout` (queue.go:85). Integers are unbounded. Negative
  timeouts are accepted, as in the source.
- Queue.QueueTable.DeleteMessage: answers NotFound when no row matches,
  following the tests. As noted above, the store the source uses reports no
  error for a zero-row delete. The id is a number, not the string of
  queue.go:29, so the 400 the source gives a numeric id is not modelled.
- Integer widths in general: ids, ttl and visibleAt are unbounded integers.
