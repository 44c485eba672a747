/**
 Sequences of authentication requests served one after another against the
 same store, for the properties that span several requests: rows are never
 removed or rewritten, the table constraints always hold, a revoked token
 stays refused, and a registered user can always log in.
 */
module Traces {
  import opened Query
  import opened Security
  import opened Models
  import opened Routes

  datatype Request =
    | RegisterRequest(username: Option<string>, password: Option<string>, salt: string)
    | LoginRequest(username: Option<string>, password: Option<string>, jti: string)
    | LogoutRequest(bearer: Option<AccessToken>)

  /** One request: its response and the store afterwards. */
  function Handle(kdf: Kdf, s: Store, req: Request): (out: (Response, Store))
    ensures req.LoginRequest? ==> out.1 == s
    ensures s.users <= out.1.users && s.revoked <= out.1.revoked
    ensures Usernames(s) <= Usernames(out.1) && RevokedJtis(s) <= RevokedJtis(out.1)
    ensures Consistent(s) ==> Consistent(out.1)
  {
    match req
    case RegisterRequest(username, password, salt) => RegisterStep(kdf, s, username, password, salt)
    case LoginRequest(username, password, jti) => (Login(kdf, s, username, password, jti), s)
    case LogoutRequest(bearer) => LogoutStep(s, bearer)
  }

  /** The store after serving the requests in order. */
  function Run(kdf: Kdf, s: Store, reqs: seq<Request>): (t: Store)
    ensures s.users <= t.users && s.revoked <= t.revoked
    ensures Usernames(s) <= Usernames(t) && RevokedJtis(s) <= RevokedJtis(t)
    ensures Consistent(s) ==> Consistent(t)
    decreases |reqs|
  {
    if reqs == [] then s
    else Run(kdf, Handle(kdf, s, reqs[0]).1, reqs[1..])
  }

  /** Once logged out, a token is refused at the gate whatever requests
      follow. */
  lemma LoggedOutTokenStaysRefused(kdf: Kdf, s: Store, token: AccessToken, reqs: seq<Request>)
    requires JwtRequired(s, Some(token)).Admitted?
    ensures var t := Run(kdf, LogoutStep(s, Some(token)).1, reqs);
              JwtRequired(t, Some(token)) == Refused(Unauthorized401(TokenHasBeenRevoked))
  {
  }

  /** Once registered, a user can log in with the same password, under the
      same primary key, whatever requests follow. */
  lemma RegisteredUserCanAlwaysLogIn(kdf: Kdf, s: Store, username: string, password: string,
                                     salt: string, reqs: seq<Request>, jti: string)
    requires Consistent(s)
    requires username != "" && password != ""
    requires username !in Usernames(s)
    ensures var t := Run(kdf, RegisterStep(kdf, s, Some(username), Some(password), salt).1, reqs);
              Login(kdf, t, Some(username), Some(password), jti) ==
                TokenIssued200(AccessToken(NextId(|s.users|), jti))
  {
  }
}
