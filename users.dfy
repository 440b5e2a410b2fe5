/**
 * The tenant directory's write side (user.go): createUser inserts one user
 * holding a freshly issued token and answers with that token.
 */
module Users {
  import opened Db
  import opened Api
  import opened Auth

  predicate Base64Symbol(c: char)
  {
    'A' <= c <= 'Z' || 'a' <= c <= 'z' || '0' <= c <= '9' || c == '+' || c == '/'
  }

  /**
   * What newToken32 (utils.go:15-22) returns: 32 random bytes in standard
   * base64, that is 43 symbols and one '=' of padding.
   */
  predicate IsIssuedToken(t: string)
  {
    |t| == 44 && (forall i :: 0 <= i < 43 ==> Base64Symbol(t[i])) && t[43] == '='
  }

  /** The user table's invariant: ids from FirstId up, increasing, below the counter. */
  predicate WellFormed(users: seq<User>, nextId: nat)
  {
    && FirstId <= nextId
    && UserIdsIncreasing(users)
    && (forall i :: 0 <= i < |users| ==> FirstId <= users[i].id < nextId)
  }

  class UserTable {
    var users: seq<User>
    var nextId: nat

    ghost predicate Valid()
      reads this
    {
      WellFormed(users, nextId)
    }

    constructor ()
      ensures Valid() && users == [] && nextId == FirstId
    {
      users := [];
      nextId := FirstId;
    }

    /**
     * createUser. `issued` is newToken32's result (None when reading random
     * bytes fails); `insertFails` says the insert reported an error.
     */
    method CreateUser(issued: Option<string>, insertFails: bool) returns (o: Outcome<string>)
      requires Valid()
      requires issued.Some? ==> IsIssuedToken(issued.value)
      modifies this
      ensures Valid()
      ensures issued.None? || insertFails ==> o == ServerError && users == old(users) && nextId == old(nextId)
      ensures issued.Some? && !insertFails ==>
                && o == Ok(issued.value)
                && users == old(users) + [User(old(nextId), issued.value)]
                && nextId == old(nextId) + 1
      ensures o.Ok? ==> o.value != "" && users[|users| - 1].token == o.value
    {
      if issued.None? {
        return ServerError;
      }
      if insertFails {
        return ServerError;
      }
      var token := issued.value;
      users := users + [User(nextId, token)];
      nextId := nextId + 1;
      o := Ok(token);
    }
  }

  /**
   * The new tenant can authenticate with "Bearer " + its token, provided no
   * older tenant holds the same token.
   */
  lemma AuthenticatesNewUser(users: seq<User>, id: nat, token: string)
    requires forall u :: u in users ==> u.token != token
    ensures Authenticate(users + [User(id, token)], BearerPrefix + token, false) == Authenticated(User(id, token))
  {
    TrimBearerRoundTrip(token);
    var after := users + [User(id, token)];
    assert User(id, token) == after[|users|];
  }

  /** In a directory filled by CreateUser, a request without a header is refused. */
  lemma IssuedTokensRejectMissingHeader(users: seq<User>)
    requires forall u :: u in users ==> IsIssuedToken(u.token)
    ensures Authenticate(users, "", false) == Unauthorized
  {
    forall u | u in users
      ensures u.token != ""
    {
      assert |u.token| == 44;
    }
    MissingHeaderRejected(users);
  }
}
