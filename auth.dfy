/**
 * Resolving a tenant from a request (utils.go:41-60): the bearer token is
 * the Authorization header without its "Bearer " prefix, and the tenant is
 * the first user row holding exactly that token.
 */
module Auth {
  import opened Db
  import opened Api

  const BearerPrefix: string := "Bearer "

  /**
   * strings.TrimPrefix(header, "Bearer "): one leading prefix is removed; a
   * header without it is the token as it stands.
   */
  function TrimBearer(header: string): (token: string)
    ensures BearerPrefix <= header ==> BearerPrefix + token == header
    ensures !(BearerPrefix <= header) ==> token == header
  {
    if BearerPrefix <= header then header[|BearerPrefix|..] else header
  }

  lemma TrimBearerRoundTrip(token: string)
    ensures TrimBearer(BearerPrefix + token) == token
  {
    assert BearerPrefix <= BearerPrefix + token;
  }

  /** The row `First` returns for `token = ?`: the first one holding the token. */
  function FindByToken(users: seq<User>, token: string): (r: Option<nat>)
    ensures r.Some? ==> r.value < |users| && users[r.value].token == token
    ensures r.Some? ==> forall j :: 0 <= j < r.value ==> users[j].token != token
    ensures r.None? ==> forall j :: 0 <= j < |users| ==> users[j].token != token
  {
    if |users| == 0 then None
    else if users[0].token == token then Some(0)
    else match FindByToken(users[1..], token)
      case None => None
      case Some(i) => Some(i + 1)
  }

  /** The two ways auth fails: authError (no such token) and any other store error. */
  datatype AuthResult = Authenticated(user: User) | Unauthorized | LookupFailed

  lemma FirstHasLowestId(users: seq<User>, i: nat, token: string)
    requires i < |users| && users[i].token == token
    requires forall j :: 0 <= j < i ==> users[j].token != token
    ensures UserIdsIncreasing(users) ==> forall u :: u in users && u.token == token ==> users[i].id <= u.id
  {
    forall u | UserIdsIncreasing(users) && u in users && u.token == token
      ensures users[i].id <= u.id
    {
      var k :| 0 <= k < |users| && users[k] == u;
      assert i <= k;
    }
  }

  /**
   * auth: the user whose token is the trimmed header. `lookupFails` says the
   * query reported an error other than "record not found".
   */
  function Authenticate(users: seq<User>, header: string, lookupFails: bool): (r: AuthResult)
    ensures r.LookupFailed? <==> lookupFails
    ensures !lookupFails ==> (r.Authenticated? <==> exists u :: u in users && u.token == TrimBearer(header))
    ensures r.Authenticated? ==> r.user in users && r.user.token == TrimBearer(header)
    ensures r.Authenticated? && UserIdsIncreasing(users) ==>
              forall u :: u in users && u.token == TrimBearer(header) ==> r.user.id <= u.id
  {
    var token := TrimBearer(header);
    if lookupFails then LookupFailed
    else match FindByToken(users, token)
      case None => Unauthorized
      case Some(i) =>
        FirstHasLowestId(users, i, token);
        Authenticated(users[i])
  }

  /**
   * How every handler answers a failed auth: authError becomes 401, any other
   * error 500.
   */
  function Rejection<T>(a: AuthResult): (o: Outcome<T>)
    requires !a.Authenticated?
    ensures o.AuthError? <==> a.Unauthorized?
    ensures o.ServerError? <==> a.LookupFailed?
  {
    if a.Unauthorized? then AuthError else ServerError
  }

  /** A missing header is the empty token, which no user with a non-empty token holds. */
  lemma MissingHeaderRejected(users: seq<User>)
    requires forall u :: u in users ==> u.token != ""
    ensures Authenticate(users, "", false) == Unauthorized
  {
    assert TrimBearer("") == "";
  }
}
