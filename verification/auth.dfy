/** The authentication middleware: resolving the caller from the request's
    `Authorization` header, and the two guards the resolvers call before
    they touch the store. */
module Auth {
  import opened Base
  import opened Text
  import opened EmployeeSchema

  /** A user account as the guards see it (the password hash is not part of
      this model; see `Resolvers.Login`). `role` is stored lower-case. */
  datatype User = User(id: UserId, username: string, email: string, role: string, isActive: bool)

  const AdminRole: string := "admin"
  const BearerPrefix: string := "Bearer "

  /** `requireAuth`: an absent user is refused, any present user is passed
      through unchanged. */
  function RequireAuth(user: Option<User>): (r: Result<User>)
    ensures r.Failure? <==> user.None?
    ensures r.Failure? ==> r.error == AuthenticationRequired
    ensures r.Success? ==> r.value == user.value
  {
    match user
    case None => Failure(AuthenticationRequired)
    case Some(u) => Success(u)
  }

  /** `requireAdmin`: the authentication check first, then the role must be
      exactly `"admin"`. */
  function RequireAdmin(user: Option<User>): (r: Result<User>)
    ensures user.None? ==> r == Failure(AuthenticationRequired)
    ensures user.Some? && user.value.role != AdminRole ==> r == Failure(AdminRequired)
    ensures user.Some? && user.value.role == AdminRole ==> r == Success(user.value)
  {
    match RequireAuth(user)
    case Failure(e) => Failure(e)
    case Success(u) => if u.role != AdminRole then Failure(AdminRequired) else Success(u)
  }

  /** Whatever `requireAdmin` lets through, `requireAuth` lets through too. */
  lemma AdminImpliesAuthenticated(user: Option<User>)
    ensures RequireAdmin(user).Success? ==> RequireAuth(user) == RequireAdmin(user)
  {
  }

  /** `req.headers.authorization?.replace('Bearer ', '')`: no header gives no
      token; otherwise the header with its first `"Bearer "` removed. */
  function ExtractToken(header: Option<string>): (r: Option<string>)
    ensures r.Some? <==> header.Some?
    ensures header.Some? ==> r == Some(RemoveFirst(header.value, BearerPrefix))
    ensures header.Some? && (forall j :: !OccursAt(header.value, BearerPrefix, j)) ==> r == header
    ensures header.Some? && OccursAt(header.value, BearerPrefix, 0) ==>
              r == Some(header.value[|BearerPrefix|..])
  {
    match header
    case None => None
    case Some(h) =>
      assert OccursAt(h, BearerPrefix, 0) ==> RemoveFirst(h, BearerPrefix) == h[|BearerPrefix|..] by {
        if OccursAt(h, BearerPrefix, 0) { RemoveLeading(h, BearerPrefix); }
      }
      Some(RemoveFirst(h, BearerPrefix))
  }

  /** The header the client sends, `Bearer <token>`, yields that token. */
  lemma BearerHeaderYieldsToken(token: string)
    ensures ExtractToken(Some(BearerPrefix + token)) == Some(token)
  {
    RemovePrefix(BearerPrefix, token);
  }

  /** `getUser`. Token verification and the user lookup are calls into code
      outside this model, so they are parameters: `verify` gives the user id a
      token carries or `None` where the library throws, and `findById` gives
      the stored user or `None` (missing, or the lookup failed). */
  function GetUser(header: Option<string>, verify: string -> Option<UserId>,
                   findById: UserId -> Option<User>): (r: Option<User>)
    ensures var token := ExtractToken(header);
      r.Some? <==> token.Some? && token.value != [] && verify(token.value).Some? &&
                   findById(verify(token.value).value).Some?
    ensures r.Some? ==> r == findById(verify(ExtractToken(header).value).value)
  {
    var token := ExtractToken(header);
    if token.None? || token.value == [] then None
    else
      match verify(token.value)
      case None => None
      case Some(id) => findById(id)
  }

  /** A missing header and the bare prefix `"Bearer "` both leave the caller
      anonymous, whatever the verifier and the lookup would say. */
  lemma NoTokenIsAnonymous(verify: string -> Option<UserId>, findById: UserId -> Option<User>)
    ensures GetUser(None, verify, findById) == None
    ensures GetUser(Some(BearerPrefix), verify, findById) == None
  {
    BearerHeaderYieldsToken([]);
    assert BearerPrefix + [] == BearerPrefix;
  }

  /** A token the verifier rejects is treated exactly like no token at all:
      failing to authenticate is indistinguishable from being anonymous. */
  lemma RejectedTokenIsAnonymous(header: Option<string>, verify: string -> Option<UserId>,
                                 findById: UserId -> Option<User>)
    requires forall t :: verify(t).None?
    ensures GetUser(header, verify, findById) == GetUser(None, verify, findById)
    ensures RequireAuth(GetUser(header, verify, findById)) == Failure(AuthenticationRequired)
  {
  }

  /** The active flag is not consulted: a deactivated account whose token
      still verifies is authenticated. */
  lemma InactiveUserStillAuthenticated(token: string, u: User,
                                       verify: string -> Option<UserId>,
                                       findById: UserId -> Option<User>)
    requires token != [] && verify(token) == Some(u.id) && findById(u.id) == Some(u)
    requires !u.isActive
    ensures GetUser(Some(BearerPrefix + token), verify, findById) == Some(u)
    ensures RequireAuth(GetUser(Some(BearerPrefix + token), verify, findById)) == Success(u)
  {
    BearerHeaderYieldsToken(token);
  }
}
