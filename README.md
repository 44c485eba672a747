# Authentication and token revocation of car-flask-api, in Dafny

This project models the authentication core of a small Flask web service
that manages cars behind JWT bearer tokens: the `users` and `revoked_tokens`
tables with their column constraints, the `register`, `login` and `logout`
routes, the blocklist callback `check_if_token_revoked`, and the
`@jwt_required()` gate through which `logout` is reached.

- `query.dfy` (module `Query`): `Model.query.filter_by(...).first()` as a
  search for the first matching row of a table kept in insertion order.
- `security.dfy` (module `Security`): password hashing. The salted key
  derivation is a function value `Kdf` given by the caller; the salt is a
  parameter. The `password` column holds a `PasswordHash` (salt and
  digest). Its digest differs from the password whenever the derivation
  satisfies `NeverPlaintext` (it never returns its input), which the live
  store `AuthStore` requires of the derivation it is built with.
- `models.dfy` (module `Models`): the `User` and `RevokedToken` rows and
  the table invariants: primary key of row i is i + 1 (the database gives
  a new row the next id, and these rows are never deleted), usernames
  unique and non-empty, jtis unique.
- `routes.dfy` (module `Routes`): the store (`Store`, both tables), the
  read-only operations as functions of it (`Login`, `CheckIfTokenRevoked`,
  `JwtRequired`), the state changes as functions (`RegisterStep`,
  `LogoutStep`) and the class `AuthStore`, whose fields are the two tables
  and whose methods `Register` and `Logout` update them in place and are
  proved equal to those functions.
- `traces.dfy` (module `Traces`): requests served one after another, and the
  properties that span them.

Inputs the routes take from outside are parameters: the two JSON fields
(`None` when absent), the salt of a new hash, the jti of a new token, and
the bearer token (`None` when the token library itself rejects the
request: missing, malformed, badly signed or expired).

A second logout with the same token never reaches the handler:
`@jwt_required()` consults the blocklist first and answers 401
(routes.py:42, 52-57), so revoking is not repeated; `Routes.LogoutThenRefused`
states this.

## Model

| member | source | states |
|---|---|---|
| Query.FirstWhere | routes.py:33 | the result is the position of the first row passing the filter, and None exactly when no row passes |
| Query.FirstWhereStable | routes.py:33 | appending rows to a table never changes which row a query finds first once one matches |
| Security.Verify | routes.py:34 | a candidate password verifies exactly when deriving it with the stored salt reproduces the stored value |
| Security.Hash | routes.py:73 | the stored hash keeps the drawn salt, always verifies against the password it was made from, verifies another password exactly when the derivation maps it to the same digest, and its digest is not the password when the derivation never returns its input |
| Models.NextId | models.py:24 | the key given to a new row exceeds the number of existing rows (that it is above every existing key is stated by `Models.UserTableValid` and `Models.RevokedTableValid`) |
| Models.UserTableValid | models.py:22-26 | in a valid `users` table every primary key is positive and below the key the next row gets, and no two rows share a username |
| Models.RevokedTableValid | models.py:28-31 | in a valid `revoked_tokens` table every primary key is positive and below the key the next row gets, and no two rows share a jti |
| Models.UserIdsDistinct | models.py:24-25 | in a valid `users` table no two rows share a primary key or a username |
| Models.RevokedIdsDistinct | models.py:30-31 | in a valid `revoked_tokens` table no two rows share a primary key or a jti |
| Models.InsertUserKeepsValid | models.py:22-26 | inserting a new non-empty username under the next key keeps key, uniqueness and non-null constraints of `users` |
| Models.InsertRevokedKeepsValid | models.py:28-31 | inserting a jti not yet present under the next key keeps key and uniqueness constraints of `revoked_tokens` |
| Routes.Provided | routes.py:30 | a field counts as given exactly when it is present and not the empty string, as Python's `not field` decides for strings |
| Routes.FindUser | routes.py:33 | the lookup returns the first row whose username matches, and None exactly when no row has that username |
| Routes.CheckIfTokenRevoked | routes.py:52-57 | true exactly when the token's jti is in `revoked_tokens`; a function, so it has no side effect |
| Routes.JwtRequired | routes.py:42 | admits a decoded token exactly when its jti is not revoked; a rejected token or a revoked one is refused, the latter with 401 |
| Routes.Login | routes.py:23-38 | missing or empty field gives 400; otherwise 401 "Invalid credentials" or a token, and a token only for the found row whose hash verifies the password, with that row's id as identity; no store is returned, so nothing changes |
| Routes.LoginSucceedsIff | routes.py:33-37 | with unique usernames, login succeeds exactly when the row with that name verifies the password, and the token identity is that row's primary key |
| Routes.FailedLoginsLookAlike | routes.py:33-35 | an unknown username and a wrong password give the identical 401 response |
| Routes.RegisterStep | routes.py:60-77 | missing or empty field gives 400, a taken name gives 400, both leaving the store unchanged; otherwise 201 and exactly one row appended holding the hash of the password, usernames grow by exactly the new name, the stored digest is not the password when the derivation never returns its input, revoked tokens unchanged, and the table constraints are kept |
| Routes.LogoutStep | routes.py:41-49 | a token refused by the gate leaves the store unchanged with the gate's response; an admitted one returns 200, its jti was not revoked before, one row is appended, the revoked jtis grow by exactly that jti, users unchanged, and the table constraints are kept |
| Routes.IssuedTokenAdmitted | routes.py:37 | a token issued with a fresh jti passes the blocklist gate |
| Routes.LogoutThenRefused | routes.py:42-49 | after logout the same token is refused with 401, and a second logout with it changes nothing |
| Routes.RegisterThenLogin | routes.py:70-77 | registering a new name and then logging in with the same password issues a token for the new row's id |
| Routes.AuthStore.constructor | app.py:13-14 | a store over a newly created database starts with empty, valid tables, and accepts only a derivation that never returns its input |
| Routes.AuthStore.Register | routes.py:61-77 | the method's response and new tables are those of `RegisterStep`, the table constraints are kept, and a newly stored digest is not the password |
| Routes.AuthStore.Logout | routes.py:43-49 | the method's response and new tables are those of `LogoutStep`, and the table constraints are kept |
| Traces.Handle | routes.py:23-77 | any one request keeps both tables as prefixes of the new ones, never removes a username or a revoked jti, keeps the constraints, and login changes nothing |
| Traces.Run | routes.py:23-77 | over any sequence of requests rows are never removed or rewritten, revoked jtis and usernames only grow, and the constraints always hold |
| Traces.LoggedOutTokenStaysRefused | routes.py:42-57 | a logged-out token is refused with 401 whatever requests follow |
| Traces.RegisteredUserCanAlwaysLogIn | routes.py:33-38 | a registered user can log in with the same password, under the same id, whatever requests follow |

## Left out

- Car CRUD routes and the protected example route (routes.py:82-154) and `Car.to_dict`: pass-through persistence with no authentication logic beyond the same gate.
- Flask request parsing and `jsonify`: responses are a datatype with the status and message; a request body that is not JSON, or fields of JSON types other than strings, are not modelled.
- Security.Hash: the werkzeug format (`method$salt$hash`), the hashing algorithm and the constant-time comparison are not modelled; the derivation is any function the caller supplies, so collisions are possible, as with a real hash, and one-wayness is not modelled: the only property assumed of it is `NeverPlaintext`.
- Routes.FailedLoginsLookAlike: states that the two failures give the same response value, not the same timing; at routes.py:34 `not user or ...` skips the slow hash check for an unknown name, so the response time can reveal whether a username exists.
- Routes.IssuedTokenAdmitted: assumes the token library decodes the token it issued; routes.py:37 passes an integer identity, and some releases of the token libraries refuse a non-string subject when decoding, which would make every protected route refuse such tokens.
- Token signing and expiry inside flask_jwt_extended: the library's verdict on signature and expiry is an input (`None` bearer), and `TokenRejected` stands for its own error response, whatever status it uses.
- Column lengths (`String(80)`, `String(120)`): the database may or may not enforce them; not modelled.
- Database session mechanics (`add`, `commit`, `rollback`), commit failures, and the uniqueness errors that concurrent requests could raise: requests are served one at a time.
- app.py startup and configuration, and seed.py: process setup. `db.create_all()` only creates missing tables, so after a restart against an existing database the rows remain; the constructor models only a first start, and a restarted store is any store satisfying the table constraints, which every lemma over `Store` values covers.
