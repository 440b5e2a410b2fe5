/**
 * The KV engine (kv.go): a per-tenant cache with an absolute expiry per
 * entry. setKey upserts the (user, key) row, getKey reads it unless it has
 * expired, and the reaper deletes expired rows.
 */
module KV {
  import opened Db
  import opened Api
  import opened Auth

  /** setKey's body (kv.go:28-32); an omitted ttl is None. */
  datatype SetRequest = SetRequest(key: string, value: string, ttl: Option<int>)

  /** getKey's answer (kv.go:105-109). */
  datatype KeyValue = KeyValue(key: string, value: string, ttl: int)

  const SetEmptyKeyMessage: string := "key must not be empty or missing"
  const GetEmptyKeyMessage: string := "expected key to be non-empty"

  /** kv.go:45 decodes into a KeyValue whose ttl starts at -1, so an omitted ttl is NoExpiry. */
  function RequestedTtl(req: SetRequest): (r: int)
    ensures r == NoExpiry <==> req.ttl.None? || req.ttl == Some(NoExpiry)
    ensures req.ttl.Some? ==> r == req.ttl.value
  {
    if req.ttl.Some? then req.ttl.value else NoExpiry
  }

  predicate IsRow(item: KVItem, userId: nat, key: string)
  {
    item.userId == userId && item.key == key
  }

  /** getKey's visibility rule (kv.go:94): `ttl = -1 OR ttl >= now`. */
  predicate Live(item: KVItem, now: int)
    ensures item.ttl == NoExpiry ==> Live(item, now)
    ensures item.ttl >= 0 ==> (Live(item, now) <==> now <= item.ttl)
  {
    item.ttl == NoExpiry || item.ttl >= now
  }

  /** The reaper's delete condition (kv.go:19): exactly the rows getKey no longer shows. */
  predicate Expired(item: KVItem, now: int)
    ensures Expired(item, now) <==> !Live(item, now)
  {
    item.ttl != NoExpiry && item.ttl < now
  }

  predicate OneRowPerKey(items: seq<KVItem>)
  {
    forall i, j :: 0 <= i < j < |items| ==> !(items[i].userId == items[j].userId && items[i].key == items[j].key)
  }

  /** The KV table's invariant: well-numbered rows and at most one row per (user, key). */
  predicate WellFormed(items: seq<KVItem>, nextId: nat)
  {
    && FirstId <= nextId
    && KVIdsIncreasing(items)
    && (forall i :: 0 <= i < |items| ==> FirstId <= items[i].id < nextId)
    && OneRowPerKey(items)
  }

  /** setKey's lookup (kv.go:58): the first row for (user, key), live or not. */
  function FindRow(items: seq<KVItem>, userId: nat, key: string): (r: Option<nat>)
    ensures r.Some? ==> r.value < |items| && IsRow(items[r.value], userId, key)
    ensures r.Some? ==> forall j :: 0 <= j < r.value ==> !IsRow(items[j], userId, key)
    ensures r.None? ==> forall j :: 0 <= j < |items| ==> !IsRow(items[j], userId, key)
  {
    if |items| == 0 then None
    else if IsRow(items[0], userId, key) then Some(0)
    else match FindRow(items[1..], userId, key)
      case None => None
      case Some(i) => Some(i + 1)
  }

  /** getKey's query (kv.go:94): the first live row for (user, key). */
  function FindLive(items: seq<KVItem>, userId: nat, key: string, now: int): (r: Option<nat>)
    ensures r.Some? ==> r.value < |items| && IsRow(items[r.value], userId, key) && Live(items[r.value], now)
    ensures r.Some? ==> forall j :: 0 <= j < r.value ==> !(IsRow(items[j], userId, key) && Live(items[j], now))
    ensures r.None? ==> forall j :: 0 <= j < |items| ==> !(IsRow(items[j], userId, key) && Live(items[j], now))
  {
    if |items| == 0 then None
    else if IsRow(items[0], userId, key) && Live(items[0], now) then Some(0)
    else match FindLive(items[1..], userId, key, now)
      case None => None
      case Some(i) => Some(i + 1)
  }

  function View(item: KVItem): KeyValue
  {
    KeyValue(item.key, item.value, item.ttl)
  }

  /** What getKey reads for a tenant and a key at instant `now`. */
  function Lookup(items: seq<KVItem>, userId: nat, key: string, now: int): (r: Option<KeyValue>)
    ensures r.None? <==> forall x :: x in items && IsRow(x, userId, key) ==> !Live(x, now)
    ensures r.Some? ==> exists x :: x in items && IsRow(x, userId, key) && Live(x, now) && r.value == View(x)
    ensures r.Some? ==> r.value.key == key
  {
    match FindLive(items, userId, key, now)
    case None => None
    case Some(i) => Some(View(items[i]))
  }

  /**
   * getKey (kv.go:71-111) with the table as it stands; being a function it
   * cannot change the store.
   */
  function GetKey(items: seq<KVItem>, users: seq<User>, req: Request<string>, now: int, faults: Faults): (r: Outcome<KeyValue>)
    ensures var a := Authenticate(users, req.authorization, faults.auth);
      && (!a.Authenticated? ==> r == Rejection(a))
      && (a.Authenticated? && req.body.Malformed? ==> r == UserError(ParseErrorMessage))
      && (a.Authenticated? && req.body == Parsed("") ==> r == UserError(GetEmptyKeyMessage))
      && (a.Authenticated? && req.body.Parsed? && req.body.value != "" && faults.read ==> r == ServerError)
      && (a.Authenticated? && req.body.Parsed? && req.body.value != "" && !faults.read ==>
            && (r.Ok? || r.NotFound?)
            && (r.Ok? <==> Lookup(items, a.user.id, req.body.value, now).Some?)
            && (r.Ok? ==> r.value == Lookup(items, a.user.id, req.body.value, now).value))
  {
    var a := Authenticate(users, req.authorization, faults.auth);
    if !a.Authenticated? then Rejection(a)
    else if req.body.Malformed? then UserError(ParseErrorMessage)
    else if req.body.value == "" then UserError(GetEmptyKeyMessage)
    else if faults.read then ServerError
    else match Lookup(items, a.user.id, req.body.value, now)
      case None => NotFound
      case Some(kv) => Ok(kv)
  }

  /**
   * The table after setKey's transaction (kv.go:56-62): the row for
   * (user, key) has its value and ttl replaced, or a new row is created with
   * the next id.
   */
  function Upserted(items: seq<KVItem>, nextId: nat, userId: nat, key: string, value: string, ttl: int): (r: seq<KVItem>)
    ensures |r| == |items| + (if FindRow(items, userId, key).None? then 1 else 0)
    ensures FindRow(r, userId, key).Some?
    ensures var p := FindRow(r, userId, key).value;
      r[p].value == value && r[p].ttl == ttl
  {
    match FindRow(items, userId, key)
    case None =>
      var r := items + [KVItem(nextId, key, value, ttl, userId)];
      assert IsRow(r[|items|], userId, key);
      assert forall j :: 0 <= j < |items| ==> r[j] == items[j];
      r
    case Some(i) =>
      var r := items[i := items[i].(value := value, ttl := ttl)];
      assert IsRow(r[i], userId, key);
      assert forall j :: 0 <= j < i ==> r[j] == items[j];
      r
  }

  /** The id counter after setKey's transaction: it moves on exactly when a row is created. */
  function UpsertedNextId(items: seq<KVItem>, nextId: nat, userId: nat, key: string): (r: nat)
    ensures r >= nextId
    ensures r == nextId + 1 <==> forall j :: 0 <= j < |items| ==> !IsRow(items[j], userId, key)
    ensures r != nextId + 1 ==> r == nextId
  {
    if FindRow(items, userId, key).None? then nextId + 1 else nextId
  }

  /** The rows of the table the reaper keeps, in their order. */
  function Reaped(items: seq<KVItem>, now: int): (r: seq<KVItem>)
    ensures |r| <= |items|
    ensures forall x :: x in r <==> x in items && !Expired(x, now)
  {
    if |items| == 0 then []
    else
      var last := items[|items| - 1];
      var kept := Reaped(items[..|items| - 1], now);
      assert items == items[..|items| - 1] + [last];
      kept + (if Expired(last, now) then [] else [last])
  }

  lemma OnlyRow(items: seq<KVItem>, userId: nat, key: string, x: KVItem, y: KVItem)
    requires OneRowPerKey(items)
    requires x in items && IsRow(x, userId, key)
    requires y in items && IsRow(y, userId, key)
    ensures x == y
  {
    var i :| 0 <= i < |items| && items[i] == x;
    var j :| 0 <= j < |items| && items[j] == y;
    assert i == j;
  }

  /**
   * setKey's transaction keeps the table's invariant; afterwards (user, key)
   * has a row holding the new value and ttl, the row count grew by one
   * exactly when the key was absent, an existing row keeps its id, and no
   * row of another user or another key is added, changed or removed.
   */
  lemma UpsertedSpec(items: seq<KVItem>, nextId: nat, userId: nat, key: string, value: string, ttl: int)
    requires WellFormed(items, nextId)
    ensures var s := Upserted(items, nextId, userId, key, value, ttl);
      && WellFormed(s, UpsertedNextId(items, nextId, userId, key))
      && (exists p :: 0 <= p < |s| && IsRow(s[p], userId, key) && s[p].value == value && s[p].ttl == ttl)
      && |s| == |items| + (if FindRow(items, userId, key).None? then 1 else 0)
      && (FindRow(items, userId, key).Some? ==>
            var i := FindRow(items, userId, key).value; s[i].id == items[i].id)
      && (forall x :: !IsRow(x, userId, key) ==> (x in s <==> x in items))
  {
    var s := Upserted(items, nextId, userId, key, value, ttl);
    match FindRow(items, userId, key)
    case None =>
      var p := |items|;
      assert IsRow(s[p], userId, key);
      forall x | !IsRow(x, userId, key)
        ensures x in s <==> x in items
      {
        assert s == items + [s[p]];
      }
    case Some(i) =>
      assert IsRow(s[i], userId, key);
      forall x | !IsRow(x, userId, key)
        ensures x in s <==> x in items
      {
        if x in s {
          var k :| 0 <= k < |s| && s[k] == x;
          assert k != i;
          assert items[k] == x;
        }
        if x in items {
          var k :| 0 <= k < |items| && items[k] == x;
          assert k != i;
          assert s[k] == x;
        }
      }
  }

  /**
   * setKey then getKey: reading the key back at any instant at which the new
   * ttl is not past returns exactly the key, value and ttl just set.
   */
  lemma LookupAfterUpsert(items: seq<KVItem>, nextId: nat, userId: nat, key: string, value: string, ttl: int, now: int)
    requires WellFormed(items, nextId)
    requires ttl == NoExpiry || ttl >= now
    ensures Lookup(Upserted(items, nextId, userId, key, value, ttl), userId, key, now) == Some(KeyValue(key, value, ttl))
  {
    var s := Upserted(items, nextId, userId, key, value, ttl);
    UpsertedSpec(items, nextId, userId, key, value, ttl);
    var p :| 0 <= p < |s| && IsRow(s[p], userId, key) && s[p].value == value && s[p].ttl == ttl;
    assert s[p] in s && Live(s[p], now);
    var r := Lookup(s, userId, key, now);
    var x :| x in s && IsRow(x, userId, key) && Live(x, now) && r.value == View(x);
    OnlyRow(s, userId, key, x, s[p]);
  }

  /**
   * The same at instants past the new ttl: once the ttl is behind `now`,
   * getKey reports nothing, whether or not the reaper has run.
   */
  lemma LookupAfterUpsertExpired(items: seq<KVItem>, nextId: nat, userId: nat, key: string, value: string, ttl: int, now: int)
    requires WellFormed(items, nextId)
    requires ttl != NoExpiry && ttl < now
    ensures Lookup(Upserted(items, nextId, userId, key, value, ttl), userId, key, now) == None
  {
    var s := Upserted(items, nextId, userId, key, value, ttl);
    UpsertedSpec(items, nextId, userId, key, value, ttl);
    var p :| 0 <= p < |s| && IsRow(s[p], userId, key) && s[p].value == value && s[p].ttl == ttl;
    forall x | x in s && IsRow(x, userId, key)
      ensures !Live(x, now)
    {
      OnlyRow(s, userId, key, x, s[p]);
    }
  }

  /**
   * The e2e scenario through the handlers: a tenant sets a key and gets it
   * back unchanged; a ttl that is omitted or not yet past keeps it visible,
   * an expiry at exactly `now` included.
   */
  lemma SetThenGet(items: seq<KVItem>, nextId: nat, users: seq<User>, authorization: string, req: SetRequest, now: int)
    requires WellFormed(items, nextId)
    requires Authenticate(users, authorization, false).Authenticated?
    requires req.key != ""
    requires RequestedTtl(req) == NoExpiry || RequestedTtl(req) >= now
    ensures var user := Authenticate(users, authorization, false).user;
      var s := Upserted(items, nextId, user.id, req.key, req.value, RequestedTtl(req));
      GetKey(s, users, Request(authorization, Parsed(req.key)), now, NoFaults)
        == Ok(KeyValue(req.key, req.value, RequestedTtl(req)))
  {
    var user := Authenticate(users, authorization, false).user;
    LookupAfterUpsert(items, nextId, user.id, req.key, req.value, RequestedTtl(req), now);
  }

  /** A key set without a ttl is stored with ttl -1 and is read back at every instant. */
  lemma OmittedTtlNeverExpires(items: seq<KVItem>, nextId: nat, users: seq<User>, authorization: string, key: string, value: string, now: int)
    requires WellFormed(items, nextId)
    requires Authenticate(users, authorization, false).Authenticated?
    requires key != ""
    ensures var user := Authenticate(users, authorization, false).user;
      var s := Upserted(items, nextId, user.id, key, value, RequestedTtl(SetRequest(key, value, None)));
      GetKey(s, users, Request(authorization, Parsed(key)), now, NoFaults) == Ok(KeyValue(key, value, NoExpiry))
  {
    SetThenGet(items, nextId, users, authorization, SetRequest(key, value, None), now);
  }

  lemma PrefixWellFormed(items: seq<KVItem>, nextId: nat, n: nat)
    requires WellFormed(items, nextId) && n <= |items|
    ensures WellFormed(items[..n], nextId)
  {
    assert forall i :: 0 <= i < n ==> items[..n][i] == items[i];
  }

  lemma AppendWellFormed(kept: seq<KVItem>, last: KVItem, nextId: nat)
    requires WellFormed(kept, nextId)
    requires FirstId <= last.id < nextId
    requires forall x :: x in kept ==> x.id < last.id && !(x.userId == last.userId && x.key == last.key)
    ensures WellFormed(kept + [last], nextId)
  {
    var r := kept + [last];
    forall i, j | 0 <= i < j < |r|
      ensures r[i].id < r[j].id && !(r[i].userId == r[j].userId && r[i].key == r[j].key)
    {
      if j == |kept| {
        assert r[i] in kept;
      } else {
        assert r[i] == kept[i] && r[j] == kept[j];
      }
    }
  }

  /** Reaping keeps the table's invariant: it only drops rows. */
  lemma {:induction false} ReapedWellFormed(items: seq<KVItem>, nextId: nat, now: int)
    requires WellFormed(items, nextId)
    ensures WellFormed(Reaped(items, now), nextId)
  {
    if |items| > 0 {
      var n := |items| - 1;
      var last := items[n];
      var prefix := items[..n];
      PrefixWellFormed(items, nextId, n);
      ReapedWellFormed(prefix, nextId, now);
      var kept := Reaped(prefix, now);
      forall x | x in kept
        ensures x.id < last.id && !(x.userId == last.userId && x.key == last.key)
      {
        var k :| 0 <= k < n && prefix[k] == x;
        assert items[k] == x;
      }
      if !Expired(last, now) {
        AppendWellFormed(kept, last, nextId);
      }
    }
  }

  /**
   * The reaper never changes what getKey returns at the same instant: it
   * deletes only rows that getKey already hides.
   */
  lemma ReapPreservesLookup(items: seq<KVItem>, nextId: nat, userId: nat, key: string, now: int)
    requires WellFormed(items, nextId)
    ensures Lookup(Reaped(items, now), userId, key, now) == Lookup(items, userId, key, now)
  {
    var kept := Reaped(items, now);
    ReapedWellFormed(items, nextId, now);
    var before := Lookup(items, userId, key, now);
    var after := Lookup(kept, userId, key, now);
    if before.Some? {
      var x :| x in items && IsRow(x, userId, key) && Live(x, now) && before.value == View(x);
      assert x in kept;
      var y :| y in kept && IsRow(y, userId, key) && Live(y, now) && after.value == View(y);
      OnlyRow(items, userId, key, x, y);
    }
  }

  class KVTable {
    var items: seq<KVItem>
    var nextId: nat

    ghost predicate Valid()
      reads this
    {
      WellFormed(items, nextId)
    }

    constructor ()
      ensures Valid() && items == [] && nextId == FirstId
    {
      items := [];
      nextId := FirstId;
    }

    /**
     * setKey (kv.go:34-69): authenticate, decode, reject an empty key, then
     * upsert (user, key) in one transaction. `faults.write` says the
     * transaction's create or update failed, which rolls it back.
     */
    method SetKey(users: seq<User>, req: Request<SetRequest>, faults: Faults) returns (o: Outcome<()>)
      requires Valid()
      modifies this
      ensures Valid()
      ensures var a := Authenticate(users, req.authorization, faults.auth);
        && (!a.Authenticated? ==> o == Rejection(a) && unchanged(this))
        && (a.Authenticated? && req.body.Malformed? ==> o == UserError(ParseErrorMessage) && unchanged(this))
        && (a.Authenticated? && req.body.Parsed? && req.body.value.key == "" ==>
              o == UserError(SetEmptyKeyMessage) && unchanged(this))
        && (a.Authenticated? && req.body.Parsed? && req.body.value.key != "" && faults.write ==>
              o == ServerError && unchanged(this))
        && (a.Authenticated? && req.body.Parsed? && req.body.value.key != "" && !faults.write ==>
              var kv := req.body.value;
              && o == Ok(())
              && items == Upserted(old(items), old(nextId), a.user.id, kv.key, kv.value, RequestedTtl(kv))
              && nextId == UpsertedNextId(old(items), old(nextId), a.user.id, kv.key))
    {
      var a := Authenticate(users, req.authorization, faults.auth);
      if !a.Authenticated? {
        return Rejection(a);
      }
      if req.body.Malformed? {
        return UserError(ParseErrorMessage);
      }
      var kv := req.body.value;
      if kv.key == "" {
        return UserError(SetEmptyKeyMessage);
      }
      if faults.write {
        return ServerError;
      }
      var ttl := RequestedTtl(kv);
      UpsertedSpec(items, nextId, a.user.id, kv.key, kv.value, ttl);
      var found := FindRow(items, a.user.id, kv.key);
      if found.None? {
        items := items + [KVItem(nextId, kv.key, kv.value, ttl, a.user.id)];
        nextId := nextId + 1;
      } else {
        var i := found.value;
        items := items[i := items[i].(value := kv.value, ttl := ttl)];
      }
      o := Ok(());
    }

    /**
     * One run of the reaper (kv.go:19): delete every row whose ttl is a
     * concrete instant before `now`. A failed delete changes nothing and is
     * ignored.
     */
    method Reap(now: int, deleteFails: bool)
      requires Valid()
      modifies this
      ensures Valid() && nextId == old(nextId)
      ensures items == if deleteFails then old(items) else Reaped(old(items), now)
    {
      if deleteFails {
        return;
      }
      var rows := items;
      var kept: seq<KVItem> := [];
      var i := 0;
      while i < |rows|
        invariant 0 <= i <= |rows|
        invariant kept == Reaped(rows[..i], now)
      {
        assert rows[..i + 1][..i] == rows[..i];
        if !Expired(rows[i], now) {
          kept := kept + [rows[i]];
        }
        i := i + 1;
      }
      assert rows[..|rows|] == rows;
      ReapedWellFormed(rows, nextId, now);
      items := kept;
    }
  }
}
