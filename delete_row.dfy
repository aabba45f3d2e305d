/** DELETE /api/user-management/delete-row: permanently removes the user
    with the given email. */
module DeleteRow {
  import opened Store
  import opened Http

  /** What the handler answers and the user table it leaves. The course table
      is never written. */
  function Outcome(users: map<string, User>, email: string): (Response, map<string, User>)
  {
    if email !in users then
      (Response(404, Error(NotAValidUser)), users)
    else
      (Response(200, Deleted(email)), users - {email})
  }

  /** The handler: look the user up by the email exactly as given, then delete
      the row and echo the deleted row's email. */
  method Delete(db: Database, email: string) returns (resp: Response)
    requires db.Valid()
    modifies db
    ensures db.Valid()
    ensures (resp, db.users) == Outcome(old(db.users), email)
    ensures db.courses == old(db.courses)
  {
    var requestor := db.FindUser(email);
    if requestor.None? {
      return Response(404, Error(NotAValidUser));
    }
    var deletedUser := db.DeleteUser(email);
    return Response(200, Deleted(deletedUser.email));
  }

  /** An email no user has gets 404 and nothing changes. */
  lemma UnknownEmailNotFound(users: map<string, User>, email: string)
    requires email !in users
    ensures Outcome(users, email) == (Response(404, Error(NotAValidUser)), users)
  {
  }

  /** An existing user is removed, whatever its role, and the response echoes
      its email; every other user keeps its row. */
  lemma ExistingUserDeleted(users: map<string, User>, email: string)
    requires email in users
    ensures var (resp, after) := Outcome(users, email);
      && resp == Response(200, Deleted(email))
      && email !in after
      && after.Keys == users.Keys - {email}
      && forall k :: k in after ==> after[k] == users[k]
  {
  }

  /** Deleting the same email twice gets 200 and then 404, and the second call
      changes nothing. */
  lemma DeleteTwice(users: map<string, User>, email: string)
    requires email in users
    ensures var after := Outcome(users, email).1;
      && Outcome(users, email).0.status == 200
      && Outcome(after, email) == (Response(404, Error(NotAValidUser)), after)
  {
  }

  /** The lookup is by the exact string: with only "Alice@x.com" in the table,
      deleting "alice@x.com" gets 404 and nothing changes. */
  lemma NoCaseFolding(u: User)
    ensures var users := map["Alice@x.com" := u];
      Outcome(users, "alice@x.com") == (Response(404, Error(NotAValidUser)), users)
  {
  }
}
