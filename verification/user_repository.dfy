/** The derived queries of the user repository over the user table. */
module UserRepository {
  import opened Common
  import opened Entities

  /** `findByUsername`: the id of a user with that username, if any. */
  ghost function FindByUsername(users: map<UserId, User>, name: string): (r: Option<UserId>)
    ensures r.Some? ==> r.value in users && users[r.value].username == name
    ensures r.None? <==> forall id :: id in users ==> users[id].username != name
  {
    if exists id :: id in users && users[id].username == name then
      var id :| id in users && users[id].username == name; Some(id)
    else
      None
  }

  /** `findByEmail`: the id of a user with that email, if any. */
  ghost function FindByEmail(users: map<UserId, User>, email: string): (r: Option<UserId>)
    ensures r.Some? ==> r.value in users && users[r.value].email == email
    ensures r.None? <==> forall id :: id in users ==> users[id].email != email
  {
    if exists id :: id in users && users[id].email == email then
      var id :| id in users && users[id].email == email; Some(id)
    else
      None
  }

  ghost predicate UsernamesUnique(users: map<UserId, User>) {
    forall a, b :: a in users && b in users && users[a].username == users[b].username ==> a == b
  }

  ghost predicate EmailsUnique(users: map<UserId, User>) {
    forall a, b :: a in users && b in users && users[a].email == users[b].email ==> a == b
  }

  /** With unique usernames the lookup finds exactly the user holding the name. */
  lemma FindByUsernameIsExact(users: map<UserId, User>, id: UserId)
    requires UsernamesUnique(users)
    requires id in users
    ensures FindByUsername(users, users[id].username) == Some(id)
  {
  }

  /** With unique emails the lookup finds exactly the user holding the address. */
  lemma FindByEmailIsExact(users: map<UserId, User>, id: UserId)
    requires EmailsUnique(users)
    requires id in users
    ensures FindByEmail(users, users[id].email) == Some(id)
  {
  }
}
