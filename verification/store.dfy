/**
 * The one abstract store all services read and write, the shapes of a
 * service call's answer, and the integrity the database schema and the
 * services together keep.
 */
module Store {
  import opened Common
  import opened Entities
  import Members = MemberRepository
  import Users = UserRepository
  import Codes = InviteCodeRepository

  /**
   * Users, rooms and messages are keyed by their generated id; memberships
   * and invite codes are sets of rows. The `next…` counters play the part
   * of the identity columns: every stored id lies below its counter.
   */
  datatype Store = Store(
    users: map<UserId, User>,
    rooms: map<RoomId, ChatRoom>,
    members: set<ChatRoomMember>,
    codes: set<InviteCode>,
    messages: map<MessageId, Message>,
    nextUserId: UserId,
    nextRoomId: RoomId,
    nextMessageId: MessageId)

  /** A mutating call's answer with a response body. */
  datatype Reply<T> = Reply(status: Status, store: Store, body: Option<T>)

  /** A mutating call's answer without a response body. */
  datatype Step = Step(status: Status, store: Store)

  /** A read-only call's answer; on an error the list is empty. */
  datatype Listing<C> = Listing(status: Status, items: C)

  /** The caller's user id, looked up by the username the request's token carries. */
  ghost function Caller(s: Store, caller: string): Option<UserId> {
    Users.FindByUsername(s.users, caller)
  }

  const EmptyStore: Store := Store(map[], map[], {}, {}, map[], 1, 1, 1)

  ghost predicate UsersKeyed(s: Store) {
    forall id :: id in s.users ==> s.users[id].id == id && id < s.nextUserId
  }

  ghost predicate RoomsKeyed(s: Store) {
    forall id :: id in s.rooms ==> s.rooms[id].id == id && id < s.nextRoomId
  }

  /** Column limits and the range createChatRoom enforces. */
  ghost predicate RoomsWellFormed(s: Store) {
    forall id :: id in s.rooms ==>
      && |s.rooms[id].title| <= TitleMaxLength
      && 1 <= s.rooms[id].maxMembers <= 20
      && s.rooms[id].createdAt <= s.rooms[id].updatedAt
  }

  /** Both foreign keys of a membership row are non-null and resolve. */
  ghost predicate MembersReferenced(s: Store) {
    forall m :: m in s.members ==> m.room in s.rooms && m.user in s.users
  }

  /** The unique constraint on (chatroom_id, user_id). */
  ghost predicate MembershipPairsUnique(ms: set<ChatRoomMember>) {
    forall a, b :: a in ms && b in ms && a.room == b.room && a.user == b.user ==> a == b
  }

  /** Every room's creator holds a membership in it. */
  ghost predicate CreatorsAreMembers(s: Store) {
    forall id :: id in s.rooms ==> Members.ExistsByChatRoomAndUser(s.members, id, s.rooms[id].creator)
  }

  ghost predicate CodesReferenced(s: Store) {
    forall c :: c in s.codes ==> c.room in s.rooms
  }

  /** Column limit on the value and the expiry stamped by prePersist. */
  ghost predicate CodesWellFormed(codes: set<InviteCode>) {
    forall c :: c in codes ==> |c.code| <= CodeMaxLength && c.expirationDate == c.createdAt + OneHour
  }

  /** Both foreign keys of a message, its room and its author, resolve. */
  ghost predicate MessagesKeyed(s: Store) {
    forall id :: id in s.messages ==>
      && s.messages[id].id == id
      && id < s.nextMessageId
      && s.messages[id].room in s.rooms
      && s.messages[id].author in s.users
  }

  /** The integrity every service call preserves. */
  ghost predicate Valid(s: Store) {
    && UsersKeyed(s)
    && Users.UsernamesUnique(s.users)
    && Users.EmailsUnique(s.users)
    && RoomsKeyed(s)
    && RoomsWellFormed(s)
    && MembersReferenced(s)
    && MembershipPairsUnique(s.members)
    && CreatorsAreMembers(s)
    && CodesReferenced(s)
    && Codes.OneCodePerRoom(s.codes)
    && Codes.CodeValuesUnique(s.codes)
    && CodesWellFormed(s.codes)
    && MessagesKeyed(s)
  }

  lemma EmptyStoreIsValid()
    ensures Valid(EmptyStore)
  {
  }

  /**
   * Deleting a room with `cascade = ALL` on its members, messages and
   * invite code: the room and everything that refers to it go, nothing else.
   */
  function CascadeDeleteRoom(s: Store, room: RoomId): (t: Store)
    ensures t.rooms.Keys == s.rooms.Keys - {room}
    ensures forall id :: id in t.rooms ==> t.rooms[id] == s.rooms[id]
    ensures forall m :: m in t.members <==> m in s.members && m.room != room
    ensures forall c :: c in t.codes <==> c in s.codes && c.room != room
    ensures forall id :: id in t.messages <==> id in s.messages && s.messages[id].room != room
    ensures forall id :: id in t.messages ==> t.messages[id] == s.messages[id]
    ensures t.users == s.users
  {
    var rooms := map id | id in s.rooms && id != room :: s.rooms[id];
    var members := set m | m in s.members && m.room != room;
    var codes := set c | c in s.codes && c.room != room;
    var messages := map id | id in s.messages && s.messages[id].room != room :: s.messages[id];
    s.(rooms := rooms, members := members, codes := codes, messages := messages)
  }

  /** Cascade deletion leaves no dangling reference behind. */
  lemma CascadeDeletePreservesValid(s: Store, room: RoomId)
    requires Valid(s)
    ensures Valid(CascadeDeleteRoom(s, room))
  {
    var t := CascadeDeleteRoom(s, room);
    forall id | id in t.rooms
      ensures Members.ExistsByChatRoomAndUser(t.members, id, t.rooms[id].creator)
    {
      var m :| m in s.members && m.room == id && m.user == s.rooms[id].creator;
      assert m in t.members;
    }
  }
}
