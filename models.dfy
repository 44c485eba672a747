/**
 The two authentication tables: `users` and `revoked_tokens`, each a sequence
 of rows in insertion order, and the column constraints the schema declares
 on them, stated as table invariants.
 */
module Models {
  import opened Security

  /** A row of `users`. */
  datatype User = User(id: nat, username: string, password: PasswordHash)

  /** A row of `revoked_tokens`. */
  datatype RevokedToken = RevokedToken(id: nat, jti: string)

  /** The database gives a new row the next integer primary key; rows of
      these tables are never deleted, so the row at position i has id i + 1. */
  function NextId(rowCount: nat): (id: nat)
    ensures id > rowCount
  {
    rowCount + 1
  }

  /** `users`: integer primary key; `username` unique and not null (the
      register route also refuses the empty name); `password` not null. */
  ghost predicate UserTableValid(users: seq<User>)
    ensures UserTableValid(users) ==>
              forall i :: 0 <= i < |users| ==> 0 < users[i].id < NextId(|users|)
    ensures UserTableValid(users) ==>
              forall i, j ::
                0 <= i < |users| && 0 <= j < |users| && users[i].username == users[j].username ==> i == j
  {
    && (forall i :: 0 <= i < |users| ==> users[i].id == NextId(i))
    && (forall i :: 0 <= i < |users| ==> users[i].username != "")
    && (forall i, j :: 0 <= i < j < |users| ==> users[i].username != users[j].username)
  }

  /** `revoked_tokens`: integer primary key; `jti` unique and not null. */
  ghost predicate RevokedTableValid(revoked: seq<RevokedToken>)
    ensures RevokedTableValid(revoked) ==>
              forall i :: 0 <= i < |revoked| ==> 0 < revoked[i].id < NextId(|revoked|)
    ensures RevokedTableValid(revoked) ==>
              forall i, j ::
                0 <= i < |revoked| && 0 <= j < |revoked| && revoked[i].jti == revoked[j].jti ==> i == j
  {
    && (forall i :: 0 <= i < |revoked| ==> revoked[i].id == NextId(i))
    && (forall i, j :: 0 <= i < j < |revoked| ==> revoked[i].jti != revoked[j].jti)
  }

  /** Primary keys of `users` are distinct. */
  lemma UserIdsDistinct(users: seq<User>, i: nat, j: nat)
    requires UserTableValid(users)
    requires i < |users| && j < |users| && i != j
    ensures users[i].id != users[j].id
    ensures users[i].username != users[j].username
  {
  }

  /** Primary keys of `revoked_tokens` are distinct. */
  lemma RevokedIdsDistinct(revoked: seq<RevokedToken>, i: nat, j: nat)
    requires RevokedTableValid(revoked)
    requires i < |revoked| && j < |revoked| && i != j
    ensures revoked[i].id != revoked[j].id
    ensures revoked[i].jti != revoked[j].jti
  {
  }

  /** Appending a user whose name is new and non-empty, under the next
      primary key, keeps every constraint of `users`. */
  lemma InsertUserKeepsValid(users: seq<User>, username: string, password: PasswordHash)
    requires UserTableValid(users)
    requires username != ""
    requires forall i :: 0 <= i < |users| ==> users[i].username != username
    ensures UserTableValid(users + [User(NextId(|users|), username, password)])
  {
  }

  /** Appending a jti not yet present, under the next primary key, keeps
      every constraint of `revoked_tokens`. */
  lemma InsertRevokedKeepsValid(revoked: seq<RevokedToken>, jti: string)
    requires RevokedTableValid(revoked)
    requires forall i :: 0 <= i < |revoked| ==> revoked[i].jti != jti
    ensures RevokedTableValid(revoked + [RevokedToken(NextId(|revoked|), jti)])
  {
  }
}
