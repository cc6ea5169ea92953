/**
 * The backend as one state machine: every mutating service call is a
 * transition of the store, and the store's integrity holds along any
 * sequence of calls. Read-only calls (the listings, message reads and
 * login) answer without a store, so they cannot change it. The sweep step
 * is the corrected one, which deletes every expired code.
 */
module Backend {
  import opened Common
  import opened Entities
  import opened Store
  import InviteCodeFormat
  import ChatRoomService
  import InviteCodeService
  import InviteCodeScheduler
  import MessageService
  import AuthService

  /** A random integer as `Math.random()` scales it for a code. */
  type CodeDraw = n: nat | n < InviteCodeFormat.CodeSpace

  datatype Request =
    | CreateRoom(caller: string, title: Option<string>, maxMembers: int, isPrivate: bool)
    | JoinRoom(caller: string, roomId: Option<RoomId>)
    | LeaveOrDelete(caller: string, room: RoomId)
    | IssueCode(caller: string, roomId: Option<RoomId>, draw: CodeDraw)
    | RedeemCode(caller: string, code: Option<string>)
    | SendMessage(caller: string, room: RoomId, content: string)
    | EditMessage(caller: string, room: RoomId, messageId: MessageId, content: string)
    | RegisterUser(username: Option<string>, password: Option<string>, email: Option<string>, passwordHash: string)
    | DeleteAccount(caller: string)
    | SweepCodes

  /**
   * The store after serving one request at time `now`. Only registration
   * and account deletion touch the users, only room creation adds a room,
   * and the identity counters never go back.
   */
  ghost function Apply(s: Store, req: Request, now: Time): (t: Store)
    ensures !req.RegisterUser? && !req.DeleteAccount? ==> t.users == s.users
    ensures !req.CreateRoom? ==> t.rooms.Keys <= s.rooms.Keys
    ensures t.nextUserId >= s.nextUserId && t.nextRoomId >= s.nextRoomId && t.nextMessageId >= s.nextMessageId
  {
    match req
    case CreateRoom(caller, title, maxMembers, isPrivate) =>
      ChatRoomService.CreateChatRoom(s, caller, title, maxMembers, isPrivate, now).store
    case JoinRoom(caller, roomId) => ChatRoomService.JoinChatRoom(s, caller, roomId, now).store
    case LeaveOrDelete(caller, room) => ChatRoomService.LeaveOrDeleteChatRoom(s, caller, room).store
    case IssueCode(caller, roomId, draw) =>
      InviteCodeService.CreateInviteCode(s, caller, roomId, draw, now).store
    case RedeemCode(caller, code) => InviteCodeService.JoinByInviteCode(s, caller, code, now).store
    case SendMessage(caller, room, content) => MessageService.SendMessage(s, caller, room, content, now).store
    case EditMessage(caller, room, messageId, content) =>
      MessageService.UpdateMessage(s, caller, room, messageId, content).store
    case RegisterUser(username, password, email, passwordHash) =>
      AuthService.Register(s, username, password, email, passwordHash).store
    case DeleteAccount(caller) => AuthService.DeleteUser(s, caller).store
    case SweepCodes => InviteCodeScheduler.SweepIntended(s, now)
  }

  /** Every request keeps the store valid. */
  lemma ApplyPreservesValid(s: Store, req: Request, now: Time)
    requires Valid(s)
    ensures Valid(Apply(s, req, now))
  {
    match req
    case CreateRoom(caller, title, maxMembers, isPrivate) =>
      ChatRoomService.CreateChatRoomPreservesValid(s, caller, title, maxMembers, isPrivate, now);
    case JoinRoom(caller, roomId) => ChatRoomService.JoinChatRoomPreservesValid(s, caller, roomId, now);
    case LeaveOrDelete(caller, room) => ChatRoomService.LeaveOrDeletePreservesValid(s, caller, room);
    case IssueCode(caller, roomId, draw) =>
      InviteCodeService.CreateInviteCodePreservesValid(s, caller, roomId, draw, now);
    case RedeemCode(caller, code) => InviteCodeService.JoinByInviteCodePreservesValid(s, caller, code, now);
    case SendMessage(caller, room, content) => MessageService.SendMessagePreservesValid(s, caller, room, content, now);
    case EditMessage(caller, room, messageId, content) =>
      MessageService.UpdateMessagePreservesValid(s, caller, room, messageId, content);
    case RegisterUser(username, password, email, passwordHash) =>
      AuthService.RegisterPreservesValid(s, username, password, email, passwordHash);
    case DeleteAccount(caller) => AuthService.DeleteUserPreservesValid(s, caller);
    case SweepCodes => InviteCodeScheduler.SweepIntendedPreservesValid(s, now);
  }

  /** Serving a sequence of timed requests in order. */
  ghost function Run(s: Store, trace: seq<(Request, Time)>): Store
    decreases |trace|
  {
    if trace == [] then s else Run(Apply(s, trace[0].0, trace[0].1), trace[1..])
  }

  /**
   * Along any sequence of requests from a valid store: one membership per
   * (room, user), one code per room, every creator a member of their room.
   */
  lemma {:induction false} RunPreservesValid(s: Store, trace: seq<(Request, Time)>)
    requires Valid(s)
    ensures Valid(Run(s, trace))
    decreases |trace|
  {
    if trace != [] {
      ApplyPreservesValid(s, trace[0].0, trace[0].1);
      RunPreservesValid(Apply(s, trace[0].0, trace[0].1), trace[1..]);
    }
  }

  /**
   * Once the sweep has run, a room whose code has expired can be given a
   * new one by its creator, provided the draw does not collide with a live
   * code.
   */
  lemma SweepUnblocksIssuance(s: Store, caller: string, room: RoomId, draw: CodeDraw, now: Time)
    requires Caller(s, caller).Some?
    requires room in s.rooms && s.rooms[room].creator == Caller(s, caller).value
    requires forall c :: c in s.codes && c.room == room ==> c.expirationDate < now
    requires forall c :: c in s.codes && now <= c.expirationDate ==> c.code != InviteCodeFormat.FormatCode(draw)
    ensures InviteCodeService.CreateInviteCode(Apply(s, SweepCodes, now), caller, Some(room), draw, now).status == Created
  {
    var t := Apply(s, SweepCodes, now);
    assert t.users == s.users && t.rooms == s.rooms;
    assert forall c :: c in t.codes ==> c.room != room && c.code != InviteCodeFormat.FormatCode(draw);
  }

  /**
   * Every membership row and invite code row of `t` that is not in `s` was
   * created at `now`, for a pair (or a room) that had no row in `s`.
   */
  ghost predicate OnlyFreshRowsAdded(s: Store, t: Store, now: Time) {
    && (forall m :: m in t.members && m !in s.members ==>
          m.joinedAt == now && !Members.ExistsByChatRoomAndUser(s.members, m.room, m.user))
    && (forall c :: c in t.codes && c !in s.codes ==>
          c.createdAt == now && forall d :: d in s.codes ==> d.room != c.room)
  }

  /**
   * Membership rows and invite code rows are never rewritten: a row after
   * a request either was there before or was created by it, stamped `now`,
   * for a pair (or room) that had no row yet. So an existing row is never
   * replaced by a re-stamped copy, and `joinedAt` and a code's `createdAt`
   * never change.
   */
  lemma ApplyNeverRewritesRows(s: Store, req: Request, now: Time)
    requires Valid(s)
    ensures var t := Apply(s, req, now);
      forall m :: m in t.members && m !in s.members ==>
        m.joinedAt == now && !Members.ExistsByChatRoomAndUser(s.members, m.room, m.user)
    ensures var t := Apply(s, req, now);
      forall c :: c in t.codes && c !in s.codes ==>
        c.createdAt == now && forall d :: d in s.codes ==> d.room != c.room
  {
    var t := Apply(s, req, now);
    match req
    case CreateRoom(caller, title, maxMembers, isPrivate) =>
      var r := ChatRoomService.CreateChatRoom(s, caller, title, maxMembers, isPrivate, now);
      if r.status == Created {
        ChatRoomService.CreateChatRoomPreservesValid(s, caller, title, maxMembers, isPrivate, now);
        RowAddedIsFresh(s, t, ChatRoomMember(r.body.value, Caller(s, caller).value, now), now);
      } else {
        NothingAddedIsFresh(s, t, now);
      }
    case JoinRoom(caller, roomId) =>
      if t != s {
        RowAddedIsFresh(s, t, ChatRoomMember(roomId.value, Caller(s, caller).value, now), now);
      } else {
        NothingAddedIsFresh(s, t, now);
      }
    case RedeemCode(caller, code) =>
      var r := InviteCodeService.JoinByInviteCode(s, caller, code, now);
      if r.status == Ok {
        var c :| c in s.codes && c.code == code.value && InviteCodeService.Redeemable(c, now)
          && !Members.ExistsByChatRoomAndUser(s.members, c.room, Caller(s, caller).value)
          && r.store == s.(members := s.members + {ChatRoomMember(c.room, Caller(s, caller).value, now)});
        RowAddedIsFresh(s, t, ChatRoomMember(c.room, Caller(s, caller).value, now), now);
      } else {
        NothingAddedIsFresh(s, t, now);
      }
    case IssueCode(caller, roomId, draw) =>
      var r := InviteCodeService.CreateInviteCode(s, caller, roomId, draw, now);
      if r.status == Created {
        assert t.members == s.members;
        assert forall c :: c in t.codes && c !in s.codes ==> c.room == roomId.value && c.createdAt == now;
      } else {
        NothingAddedIsFresh(s, t, now);
      }
    case LeaveOrDelete(caller, room) =>
      assert t.members <= s.members && t.codes <= s.codes;
      NothingAddedIsFresh(s, t, now);
    case SweepCodes =>
      NothingAddedIsFresh(s, t, now);
    case SendMessage(caller, room, content) =>
      NothingAddedIsFresh(s, t, now);
    case EditMessage(caller, room, messageId, content) =>
      NothingAddedIsFresh(s, t, now);
    case RegisterUser(username, password, email, passwordHash) =>
      NothingAddedIsFresh(s, t, now);
    case DeleteAccount(caller) =>
      NothingAddedIsFresh(s, t, now);
  }

  /** A step that only drops rows adds none. */
  lemma NothingAddedIsFresh(s: Store, t: Store, now: Time)
    requires t.members <= s.members && t.codes <= s.codes
    ensures OnlyFreshRowsAdded(s, t, now)
  {
  }

  /** A step that adds one membership row for a new pair, stamped `now`, adds only that. */
  lemma RowAddedIsFresh(s: Store, t: Store, m: ChatRoomMember, now: Time)
    requires t.members == s.members + {m} && t.codes == s.codes
    requires m.joinedAt == now && !Members.ExistsByChatRoomAndUser(s.members, m.room, m.user)
    ensures OnlyFreshRowsAdded(s, t, now)
  {
  }

  /**
   * Every request except redeeming a code keeps each room within its
   * `maxMembers`: creation starts a room at one member, direct joins check
   * the count, and leaving only lowers it.
   */
  lemma ApplyKeepsCapacityUnlessRedeem(s: Store, req: Request, now: Time)
    requires Valid(s)
    requires ChatRoomService.AllWithinCapacity(s)
    requires !req.RedeemCode?
    ensures ChatRoomService.AllWithinCapacity(Apply(s, req, now))
  {
    match req
    case CreateRoom(caller, title, maxMembers, isPrivate) =>
      ChatRoomService.CreateChatRoomKeepsCapacity(s, caller, title, maxMembers, isPrivate, now);
    case JoinRoom(caller, roomId) => ChatRoomService.JoinChatRoomKeepsCapacity(s, caller, roomId, now);
    case LeaveOrDelete(caller, room) => ChatRoomService.LeaveOrDeleteKeepsCapacity(s, caller, room);
    case IssueCode(caller, roomId, draw) =>
      SameRoomsAndMembersKeepCapacity(s, InviteCodeService.CreateInviteCode(s, caller, roomId, draw, now).store);
    case SendMessage(caller, room, content) =>
      SameRoomsAndMembersKeepCapacity(s, MessageService.SendMessage(s, caller, room, content, now).store);
    case EditMessage(caller, room, messageId, content) =>
      SameRoomsAndMembersKeepCapacity(s, MessageService.UpdateMessage(s, caller, room, messageId, content).store);
    case RegisterUser(username, password, email, passwordHash) =>
      SameRoomsAndMembersKeepCapacity(s, AuthService.Register(s, username, password, email, passwordHash).store);
    case DeleteAccount(caller) =>
      SameRoomsAndMembersKeepCapacity(s, AuthService.DeleteUser(s, caller).store);
    case SweepCodes =>
      SameRoomsAndMembersKeepCapacity(s, InviteCodeScheduler.SweepIntended(s, now));
  }

  /** Capacity depends only on the rooms and the membership rows. */
  lemma SameRoomsAndMembersKeepCapacity(s: Store, t: Store)
    requires ChatRoomService.AllWithinCapacity(s)
    requires t.rooms == s.rooms && t.members == s.members
    ensures ChatRoomService.AllWithinCapacity(t)
  {
  }
}
