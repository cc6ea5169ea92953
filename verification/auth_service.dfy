/**
 * The user registry: registration with field validation and unique
 * username and email, login against an abstract password matcher, and
 * account deletion only for a user in no room. Hashing and token signing
 * are outside the model: the hash of the submitted password is a
 * parameter, and a login answers with the subject the token is issued for.
 */
module AuthService {
  import opened Common
  import opened Entities
  import opened Store
  import Users = UserRepository
  import Members = MemberRepository

  /** The email test of register and login: has text and contains '@'. */
  predicate EmailAccepted(email: Option<string>) {
    HasText(email) && '@' in email.value
  }

  /**
   * `register`: blank username, blank password, blank or '@'-less email
   * (all BadRequest), then a taken username or email (Forbidden); success
   * stores exactly one new user. `passwordHash` is the encoder's output
   * for the submitted password.
   */
  ghost function Register(s: Store, username: Option<string>, password: Option<string>, email: Option<string>,
                          passwordHash: string): (r: Reply<UserId>)
    ensures r.status in {Created, BadRequest, Forbidden}
    ensures !HasText(username) ==> r.status == BadRequest
    ensures HasText(username) && !HasText(password) ==> r.status == BadRequest
    ensures HasText(username) && HasText(password) && !EmailAccepted(email) ==> r.status == BadRequest
    ensures r.status == BadRequest <==> !(HasText(username) && HasText(password) && EmailAccepted(email))
    ensures r.status == Forbidden <==>
      HasText(username) && HasText(password) && EmailAccepted(email)
      && (Users.FindByUsername(s.users, username.value).Some? || Users.FindByEmail(s.users, email.value).Some?)
    ensures r.status != Created ==> r.store == s && r.body.None?
    ensures r.status == Created ==>
      && r.body.Some? && username.Some? && email.Some?
      && var id := r.body.value;
      && r.store.users.Keys == s.users.Keys + {id}
      && (forall k :: k in s.users && k != id ==> r.store.users[k] == s.users[k])
      && r.store.users[id] == User(id, username.value, email.value, passwordHash)
      && (forall k :: k in s.users ==> s.users[k].username != username.value && s.users[k].email != email.value)
      && r.store.(users := s.users, nextUserId := s.nextUserId) == s
      && r.store.nextUserId > id
  {
    if !HasText(username) then Reply(BadRequest, s, None)
    else if !HasText(password) then Reply(BadRequest, s, None)
    else if !EmailAccepted(email) then Reply(BadRequest, s, None)
    else if Users.FindByUsername(s.users, username.value).Some? || Users.FindByEmail(s.users, email.value).Some?
    then Reply(Forbidden, s, None)
    else
      var id := s.nextUserId;
      Reply(Created, s.(users := s.users[id := User(id, username.value, email.value, passwordHash)],
                        nextUserId := id + 1), Some(id))
  }

  /** Registration keeps usernames and emails unique and the store valid. */
  lemma RegisterPreservesValid(s: Store, username: Option<string>, password: Option<string>, email: Option<string>,
                               passwordHash: string)
    requires Valid(s)
    ensures var r := Register(s, username, password, email, passwordHash);
      && Valid(r.store)
      && (r.status == Created ==> r.body.value !in s.users)
  {
    var r := Register(s, username, password, email, passwordHash);
    if r.status == Created {
      var t := r.store;
      forall k | k in t.rooms
        ensures Members.ExistsByChatRoomAndUser(t.members, k, t.rooms[k].creator)
      {
        var w :| w in s.members && w.room == k && w.user == s.rooms[k].creator;
        assert w in t.members;
      }
    }
  }

  /** What a successful login's token is issued for. */
  datatype TokenGrant = TokenGrant(subject: string, userId: UserId)

  /** A login never writes the store, so its answer carries none. */
  datatype LoginAnswer = LoginAnswer(status: Status, grant: Option<TokenGrant>)

  /**
   * `login`: bad email, blank password (both BadRequest), unknown email,
   * password mismatch (both Unauthorized); success issues a token for the
   * matched user's username. `matches` is the encoder's check of a raw
   * password against a stored hash.
   */
  ghost function Login(s: Store, email: Option<string>, password: Option<string>,
                       matches: (string, string) -> bool): (r: LoginAnswer)
    ensures r.status in {Ok, BadRequest, Unauthorized}
    ensures r.status == BadRequest <==> !EmailAccepted(email) || !HasText(password)
    ensures r.status == Unauthorized <==>
      EmailAccepted(email) && HasText(password)
      && (Users.FindByEmail(s.users, email.value).None?
          || !matches(password.value, s.users[Users.FindByEmail(s.users, email.value).value].passwordHash))
    ensures r.status != Ok <==> r.grant.None?
    ensures r.status == Ok ==>
      && email.Some? && password.Some?
      && r.grant.value.userId in s.users
      && s.users[r.grant.value.userId].email == email.value
      && r.grant.value.subject == s.users[r.grant.value.userId].username
      && matches(password.value, s.users[r.grant.value.userId].passwordHash)
  {
    if !EmailAccepted(email) then LoginAnswer(BadRequest, None)
    else if !HasText(password) then LoginAnswer(BadRequest, None)
    else match Users.FindByEmail(s.users, email.value)
      case None => LoginAnswer(Unauthorized, None)
      case Some(id) =>
        if !matches(password.value, s.users[id].passwordHash) then LoginAnswer(Unauthorized, None)
        else LoginAnswer(Ok, Some(TokenGrant(s.users[id].username, id)))
  }

  /**
   * In a valid store a user whose password matches logs in with their own
   * email and receives a token for exactly their own username.
   */
  lemma LoginIssuesTokenForOwner(s: Store, id: UserId, password: string, matches: (string, string) -> bool)
    requires Valid(s)
    requires id in s.users
    requires EmailAccepted(Some(s.users[id].email)) && HasText(Some(password))
    requires matches(password, s.users[id].passwordHash)
    ensures Login(s, Some(s.users[id].email), Some(password), matches)
            == LoginAnswer(Ok, Some(TokenGrant(s.users[id].username, id)))
  {
    Users.FindByEmailIsExact(s.users, id);
  }

  /**
   * `user.getChatRooms()`: the rooms the user holds a membership in. When
   * every membership row resolves, the list is empty exactly when the user
   * has no membership row at all.
   */
  ghost function UserChatRooms(s: Store, user: UserId): (r: set<RoomId>)
    ensures forall id :: id in r ==> id in s.rooms && Members.ExistsByChatRoomAndUser(s.members, id, user)
    ensures MembersReferenced(s) ==> (r == {} <==> forall m :: m in s.members ==> m.user != user)
  {
    var rooms := Members.FindChatRoomsByUser(s.rooms.Keys, s.members, user);
    assert MembersReferenced(s) ==> forall m :: m in s.members && m.user == user ==> m.room in rooms;
    rooms
  }

  /** Some stored message names the user as its author. */
  ghost predicate HasAuthored(s: Store, user: UserId) {
    exists id :: id in s.messages && s.messages[id].author == user
  }

  /**
   * `deleteUser`: unknown user is NotFound, a user still in some room is
   * BadRequest; otherwise the user row is deleted. A user who authored
   * messages is still referenced by them, so the database rejects that
   * delete and nothing changes; any other user is removed, and only them.
   */
  ghost function DeleteUser(s: Store, caller: string): (r: Step)
    ensures r.status in {Ok, NotFound, BadRequest, StorageFailure}
    ensures r.status == NotFound <==> Caller(s, caller).None?
    ensures r.status == BadRequest <==>
      Caller(s, caller).Some? && UserChatRooms(s, Caller(s, caller).value) != {}
    ensures r.status == StorageFailure <==>
      Caller(s, caller).Some? && UserChatRooms(s, Caller(s, caller).value) == {}
      && HasAuthored(s, Caller(s, caller).value)
    ensures r.status != Ok ==> r.store == s
    ensures r.status == Ok ==>
      && var id := Caller(s, caller).value;
      && id in s.users
      && !HasAuthored(s, id)
      && r.store.users.Keys == s.users.Keys - {id}
      && (forall k :: k in r.store.users ==> r.store.users[k] == s.users[k])
      && r.store.(users := s.users) == s
  {
    match Caller(s, caller)
    case None => Step(NotFound, s)
    case Some(id) =>
      if UserChatRooms(s, id) != {} then Step(BadRequest, s)
      else if HasAuthored(s, id) then Step(StorageFailure, s)
      else Step(Ok, s.(users := s.users - {id}))
  }

  /**
   * In a valid store a deletable user has no membership row, created no
   * room and wrote no message, so removing them leaves no membership, room
   * or message pointing at a missing user.
   */
  lemma DeleteUserPreservesValid(s: Store, caller: string)
    requires Valid(s)
    ensures var r := DeleteUser(s, caller);
      && Valid(r.store)
      && (r.status == Ok ==>
            && (forall m :: m in r.store.members ==> m.user in r.store.users)
            && (forall id :: id in r.store.rooms ==> r.store.rooms[id].creator in r.store.users)
            && (forall id :: id in r.store.messages ==> r.store.messages[id].author in r.store.users))
  {
    var r := DeleteUser(s, caller);
    if r.status == Ok {
      var id := Caller(s, caller).value;
      assert UserChatRooms(s, id) == {};
      RemoveUnreferencedUserPreservesValid(s, id);
    }
  }

  /** Removing a user no membership row and no message refers to keeps the store valid. */
  lemma RemoveUnreferencedUserPreservesValid(s: Store, id: UserId)
    requires Valid(s)
    requires forall m :: m in s.members ==> m.user != id
    requires !HasAuthored(s, id)
    ensures var t := s.(users := s.users - {id});
      && Valid(t)
      && (forall k :: k in t.rooms ==> t.rooms[k].creator in t.users)
  {
    var t := s.(users := s.users - {id});
    forall k | k in s.rooms
      ensures s.rooms[k].creator in t.users
    {
      var w :| w in s.members && w.room == k && w.user == s.rooms[k].creator;
    }
    assert MembersReferenced(t);
    assert MessagesKeyed(t);
  }
}
