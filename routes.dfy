/**
 The authentication routes: register, login, logout, the blocklist callback
 `check_if_token_revoked`, and the `@jwt_required` gate that consults it
 before a protected handler runs.

 Request parsing is reduced to the two JSON fields the routes read, each
 `None` when the body lacks it. A bearer token is `None` when the token
 library itself rejects the request (no token, bad signature, expired), and
 otherwise the claims it decoded. The salt of a new hash and the jti of a
 new token are drawn by the libraries and are parameters here.
 */
module Routes {
  import opened Query
  import opened Security
  import opened Models

  const UsernamePasswordRequired := "Username and password are required"
  const UserAlreadyExists := "User already exists"
  const UserRegistered := "User registered successfully"
  const InvalidCredentials := "Invalid credentials"
  const AccessTokenRevoked := "Access token revoked"
  /** The token library's default answer to a token on the blocklist. */
  const TokenHasBeenRevoked := "Token has been revoked"

  /** The claims of an access token: its identity (`sub`) and its unique
      identifier (`jti`). */
  datatype AccessToken = AccessToken(identity: nat, jti: string)

  datatype Response =
    | Created201(message: string)
    | Ok200(message: string)
    | TokenIssued200(token: AccessToken)
    | BadRequest400(message: string)
    | Unauthorized401(message: string)
      /** The token library's own error for a missing, malformed, badly
          signed or expired token. */
    | TokenRejected

  /** The persistent state the routes share: the two tables. */
  datatype Store = Store(users: seq<User>, revoked: seq<RevokedToken>)

  ghost predicate Consistent(s: Store)
  {
    UserTableValid(s.users) && RevokedTableValid(s.revoked)
  }

  ghost function Usernames(s: Store): set<string>
  {
    set i | 0 <= i < |s.users| :: s.users[i].username
  }

  ghost function RevokedJtis(s: Store): set<string>
  {
    set i | 0 <= i < |s.revoked| :: s.revoked[i].jti
  }

  /** Python's `not field` holds for a missing field and for "". */
  predicate Provided(field: Option<string>)
    ensures Provided(field) <==> field != None && field != Some("")
  {
    field.Some? && field.value != ""
  }

  /** `User.query.filter_by(username=username).first()`. */
  function FindUser(users: seq<User>, username: string): (r: Option<nat>)
    ensures r.Some? ==> r.value < |users| && users[r.value].username == username
    ensures r.Some? ==> forall j :: 0 <= j < r.value ==> users[j].username != username
    ensures r.None? <==> forall j :: 0 <= j < |users| ==> users[j].username != username
  {
    FirstWhere(users, (u: User) => u.username == username)
  }

  /** `check_if_token_revoked`: the blocklist callback, a lookup of the
      token's jti in `revoked_tokens`. */
  function CheckIfTokenRevoked(s: Store, payload: AccessToken): (revoked: bool)
    ensures revoked <==> payload.jti in RevokedJtis(s)
  {
    var found := FirstWhere(s.revoked, (t: RevokedToken) => t.jti == payload.jti);
    assert found.Some? ==> s.revoked[found.value].jti in RevokedJtis(s);
    found.Some?
  }

  datatype Gate = Admitted(token: AccessToken) | Refused(response: Response)

  /** `@jwt_required()`: the library's own checks, then the blocklist. */
  function JwtRequired(s: Store, bearer: Option<AccessToken>): (g: Gate)
    ensures g.Admitted? <==> bearer.Some? && bearer.value.jti !in RevokedJtis(s)
    ensures g.Admitted? ==> g.token == bearer.value
    ensures bearer.None? ==> g == Refused(TokenRejected)
    ensures bearer.Some? && bearer.value.jti in RevokedJtis(s) ==>
              g == Refused(Unauthorized401(TokenHasBeenRevoked))
  {
    match bearer
    case None => Refused(TokenRejected)
    case Some(token) =>
      if CheckIfTokenRevoked(s, token) then Refused(Unauthorized401(TokenHasBeenRevoked))
      else Admitted(token)
  }

  /** `login`: a read-only lookup. It never changes the store, since it
      returns no store. */
  function Login(kdf: Kdf, s: Store, username: Option<string>, password: Option<string>, jti: string): (r: Response)
    ensures !Provided(username) || !Provided(password) ==> r == BadRequest400(UsernamePasswordRequired)
    ensures Provided(username) && Provided(password) ==>
              r == Unauthorized401(InvalidCredentials) || r.TokenIssued200?
    ensures r.TokenIssued200? ==>
              Provided(username) && Provided(password) &&
              FindUser(s.users, username.value).Some? &&
              var user := s.users[FindUser(s.users, username.value).value];
              Verify(kdf, user.password, password.value) && r.token == AccessToken(user.id, jti)
  {
    if !Provided(username) || !Provided(password) then
      BadRequest400(UsernamePasswordRequired)
    else
      var found := FindUser(s.users, username.value);
      if found.None? || !Verify(kdf, s.users[found.value].password, password.value) then
        Unauthorized401(InvalidCredentials)
      else
        TokenIssued200(AccessToken(s.users[found.value].id, jti))
  }

  /** With usernames unique, login succeeds exactly when some row carries
      the name, its stored hash verifies the password, and then the token's
      identity is that row's primary key. */
  lemma LoginSucceedsIff(kdf: Kdf, s: Store, username: string, password: string, jti: string, i: nat)
    requires Consistent(s)
    requires username != "" && password != ""
    requires i < |s.users| && s.users[i].username == username
    ensures Login(kdf, s, Some(username), Some(password), jti).TokenIssued200? <==>
              Verify(kdf, s.users[i].password, password)
    ensures Login(kdf, s, Some(username), Some(password), jti).TokenIssued200? ==>
              Login(kdf, s, Some(username), Some(password), jti).token == AccessToken(NextId(i), jti)
  {
  }

  /** An unknown username and a wrong password give the same answer. */
  lemma FailedLoginsLookAlike(kdf: Kdf, s: Store,
                              unknown: string, p1: string, j1: string,
                              known: string, p2: string, j2: string, i: nat)
    requires Consistent(s)
    requires unknown != "" && p1 != "" && known != "" && p2 != ""
    requires unknown !in Usernames(s)
    requires i < |s.users| && s.users[i].username == known && !Verify(kdf, s.users[i].password, p2)
    ensures Login(kdf, s, Some(unknown), Some(p1), j1) == Unauthorized401(InvalidCredentials)
    ensures Login(kdf, s, Some(known), Some(p2), j2) == Login(kdf, s, Some(unknown), Some(p1), j1)
  {
  }

  /** `register` on the store: validate, refuse a taken name, otherwise
      insert one row holding the hash of the password. */
  function RegisterStep(kdf: Kdf, s: Store, username: Option<string>, password: Option<string>, salt: string): (out: (Response, Store))
    ensures !Provided(username) || !Provided(password) ==>
              out == (BadRequest400(UsernamePasswordRequired), s)
    ensures Provided(username) && Provided(password) && username.value in Usernames(s) ==>
              out == (BadRequest400(UserAlreadyExists), s)
    ensures out.0.Created201? <==>
              Provided(username) && Provided(password) && username.value !in Usernames(s)
    ensures out.0.Created201? ==>
              && out.0 == Created201(UserRegistered)
              && out.1.revoked == s.revoked
              && out.1.users == s.users + [User(NextId(|s.users|), username.value, Hash(kdf, salt, password.value))]
              && Usernames(out.1) == Usernames(s) + {username.value}
              && Verify(kdf, out.1.users[|s.users|].password, password.value)
              && (NeverPlaintext(kdf) ==> out.1.users[|s.users|].password.digest != password.value)
    ensures Consistent(s) ==> Consistent(out.1)
  {
    if !Provided(username) || !Provided(password) then
      (BadRequest400(UsernamePasswordRequired), s)
    else
      var found := FindUser(s.users, username.value);
      assert found.Some? ==> s.users[found.value].username in Usernames(s);
      if found.Some? then
        (BadRequest400(UserAlreadyExists), s)
      else
        var row := User(NextId(|s.users|), username.value, Hash(kdf, salt, password.value));
        var s' := s.(users := s.users + [row]);
        assert Usernames(s') == Usernames(s) + {username.value} by {
          assert forall i :: 0 <= i < |s.users| ==> s'.users[i] == s.users[i];
          assert s'.users[|s.users|] == row;
        }
        (Created201(UserRegistered), s')
  }

  /** `logout` behind `@jwt_required()`: a revoked or rejected token never
      reaches the handler; an admitted one has its jti recorded. */
  function LogoutStep(s: Store, bearer: Option<AccessToken>): (out: (Response, Store))
    ensures JwtRequired(s, bearer).Refused? ==> out == (JwtRequired(s, bearer).response, s)
    ensures out.0 == Ok200(AccessTokenRevoked) <==> JwtRequired(s, bearer).Admitted?
    ensures out.0.Ok200? ==>
              && bearer.Some?
              && bearer.value.jti !in RevokedJtis(s)
              && out.1.users == s.users
              && out.1.revoked == s.revoked + [RevokedToken(NextId(|s.revoked|), bearer.value.jti)]
              && RevokedJtis(out.1) == RevokedJtis(s) + {bearer.value.jti}
    ensures RevokedJtis(s) <= RevokedJtis(out.1)
    ensures Consistent(s) ==> Consistent(out.1)
  {
    match JwtRequired(s, bearer)
    case Refused(response) => (response, s)
    case Admitted(token) =>
      var row := RevokedToken(NextId(|s.revoked|), token.jti);
      var s' := s.(revoked := s.revoked + [row]);
      assert forall i :: 0 <= i < |s.revoked| ==> s.revoked[i].jti in RevokedJtis(s);
      assert RevokedJtis(s') == RevokedJtis(s) + {token.jti} by {
        assert forall i :: 0 <= i < |s.revoked| ==> s'.revoked[i] == s.revoked[i];
        assert s'.revoked[|s.revoked|] == row;
      }
      (Ok200(AccessTokenRevoked), s')
  }

  /** A token issued with a fresh jti passes the gate. */
  lemma IssuedTokenAdmitted(kdf: Kdf, s: Store, username: Option<string>, password: Option<string>, jti: string)
    requires jti !in RevokedJtis(s)
    requires Login(kdf, s, username, password, jti).TokenIssued200?
    ensures JwtRequired(s, Some(Login(kdf, s, username, password, jti).token)).Admitted?
  {
  }

  /** After logout, the same token is refused at the gate, and logging out
      with it again is refused rather than repeated. */
  lemma LogoutThenRefused(s: Store, token: AccessToken)
    requires JwtRequired(s, Some(token)).Admitted?
    ensures var s' := LogoutStep(s, Some(token)).1;
              JwtRequired(s', Some(token)) == Refused(Unauthorized401(TokenHasBeenRevoked)) &&
              LogoutStep(s', Some(token)) == (Unauthorized401(TokenHasBeenRevoked), s')
  {
  }

  /** Registering a new name and then logging in with the same password
      issues a token for the new row. */
  lemma RegisterThenLogin(kdf: Kdf, s: Store, username: string, password: string, salt: string, jti: string)
    requires Consistent(s)
    requires username != "" && password != ""
    requires username !in Usernames(s)
    ensures RegisterStep(kdf, s, Some(username), Some(password), salt).0 == Created201(UserRegistered)
    ensures var s' := RegisterStep(kdf, s, Some(username), Some(password), salt).1;
              Login(kdf, s', Some(username), Some(password), jti) ==
                TokenIssued200(AccessToken(NextId(|s.users|), jti))
  {
  }

  /** The live store behind the routes: the two tables, updated in place by
      `register` and `logout`. */
  class AuthStore {
    const kdf: Kdf
    var users: seq<User>
    var revoked: seq<RevokedToken>

    function State(): Store
      reads this
    {
      Store(users, revoked)
    }

    ghost predicate Valid()
      reads this
    {
      NeverPlaintext(kdf) && Consistent(State())
    }

    constructor (kdf: Kdf)
      requires NeverPlaintext(kdf)
      ensures Valid() && this.kdf == kdf
      ensures users == [] && revoked == []
    {
      this.kdf := kdf;
      users := [];
      revoked := [];
    }

    /** `register`. */
    method Register(username: Option<string>, password: Option<string>, salt: string) returns (r: Response)
      requires Valid()
      modifies this
      ensures Valid()
      ensures (r, State()) == RegisterStep(kdf, old(State()), username, password, salt)
      ensures r.Created201? ==> users[|users| - 1].password.digest != password.value
    {
      if !Provided(username) || !Provided(password) {
        return BadRequest400(UsernamePasswordRequired);
      }
      if FindUser(users, username.value).Some? {
        return BadRequest400(UserAlreadyExists);
      }
      var hashed := Hash(kdf, salt, password.value);
      users := users + [User(NextId(|users|), username.value, hashed)];
      r := Created201(UserRegistered);
    }

    /** `logout`, reached only through `@jwt_required()`. */
    method Logout(bearer: Option<AccessToken>) returns (r: Response)
      requires Valid()
      modifies this
      ensures Valid()
      ensures (r, State()) == LogoutStep(old(State()), bearer)
    {
      var gate := JwtRequired(State(), bearer);
      if gate.Refused? {
        return gate.response;
      }
      var jti := gate.token.jti;
      revoked := revoked + [RevokedToken(NextId(|revoked|), jti)];
      r := Ok200(AccessTokenRevoked);
    }
  }
}
