/**
 * The room registry: creating a room, joining it directly, listing rooms
 * and members, and the creator/non-creator asymmetry of leaving.
 * The caller is the username carried by the request's token.
 */
module ChatRoomService {
  import opened Common
  import opened Entities
  import opened Store
  import Users = UserRepository
  import Members = MemberRepository

  /** The policy range of `maxMembers` accepted at creation. */
  predicate MaxMembersInRange(n: int) {
    1 <= n <= 20
  }

  /**
   * `createChatRoom`: the title and range checks come before the user
   * lookup; a successful call persists the room and then the creator's
   * membership, and answers with the new room's id.
   */
  ghost function CreateChatRoom(s: Store, caller: string, title: Option<string>, maxMembers: int,
                                isPrivate: bool, now: Time): (r: Reply<RoomId>)
    ensures r.status in {Created, BadRequest, NotFound, StorageFailure}
    ensures r.status == BadRequest <==> !IsPresentAndNonEmpty(title) || !MaxMembersInRange(maxMembers)
    ensures r.status == NotFound <==>
      IsPresentAndNonEmpty(title) && MaxMembersInRange(maxMembers) && Caller(s, caller).None?
    ensures IsPresentAndNonEmpty(title) && MaxMembersInRange(maxMembers) && Caller(s, caller).Some? ==>
      (r.status == StorageFailure <==> |title.value| > TitleMaxLength)
    ensures r.status == StorageFailure ==> title.Some? && |title.value| > TitleMaxLength
    ensures r.status != Created ==> r.store == s && r.body.None?
    ensures r.status == Created ==>
      && title.Some? && r.body.Some? && Caller(s, caller).Some?
      && var id, uid := r.body.value, Caller(s, caller).value;
      && r.store.rooms.Keys == s.rooms.Keys + {id}
      && (forall k :: k in s.rooms && k != id ==> r.store.rooms[k] == s.rooms[k])
      && r.store.rooms[id].creator == uid
      && r.store.rooms[id].title == title.value
      && r.store.rooms[id].maxMembers == maxMembers
      && r.store.rooms[id].isPrivate == isPrivate
      && r.store.members == s.members + {ChatRoomMember(id, uid, now)}
      && r.store.users == s.users && r.store.codes == s.codes && r.store.messages == s.messages
      && r.store.nextRoomId > id
  {
    if !IsPresentAndNonEmpty(title) then Reply(BadRequest, s, None)
    else if !MaxMembersInRange(maxMembers) then Reply(BadRequest, s, None)
    else match Caller(s, caller)
      case None => Reply(NotFound, s, None)
      case Some(uid) =>
        if |title.value| > TitleMaxLength then Reply(StorageFailure, s, None)
        else
          var id := s.nextRoomId;
          var room := RoomPrePersist(ChatRoom(id, title.value, maxMembers, isPrivate, uid, 0, 0), now);
          var s' := s.(rooms := s.rooms[id := room],
                       members := s.members + {ChatRoomMember(id, uid, now)},
                       nextRoomId := id + 1);
          Reply(Created, s', Some(id))
  }

  /**
   * A created room is fresh, its creator is its one and only member, so
   * its count starts at 1, within its capacity; the store stays valid.
   */
  lemma CreateChatRoomPreservesValid(s: Store, caller: string, title: Option<string>, maxMembers: int,
                                     isPrivate: bool, now: Time)
    requires Valid(s)
    ensures var r := CreateChatRoom(s, caller, title, maxMembers, isPrivate, now);
      && Valid(r.store)
      && (r.status == Created ==>
            && r.body.value !in s.rooms
            && Members.CountByChatRoom(r.store.members, r.body.value) == 1
            && 1 <= r.store.rooms[r.body.value].maxMembers
            && Members.ExistsByChatRoomAndUser(r.store.members, r.body.value, r.store.rooms[r.body.value].creator))
  {
    var r := CreateChatRoom(s, caller, title, maxMembers, isPrivate, now);
    if r.status == Created {
      var uid := Caller(s, caller).value;
      var room := RoomPrePersist(ChatRoom(s.nextRoomId, title.value, maxMembers, isPrivate, uid, 0, 0), now);
      InsertRoomWithCreatorPreservesValid(s, room, now);
    }
  }

  /** Persisting a fresh room together with its creator's membership keeps the store valid. */
  lemma InsertRoomWithCreatorPreservesValid(s: Store, room: ChatRoom, now: Time)
    requires Valid(s)
    requires room.id == s.nextRoomId && room.creator in s.users
    requires |room.title| <= TitleMaxLength && MaxMembersInRange(room.maxMembers)
    requires room.createdAt <= room.updatedAt
    ensures var m := ChatRoomMember(room.id, room.creator, now);
      var t := s.(rooms := s.rooms[room.id := room], members := s.members + {m}, nextRoomId := room.id + 1);
      && Valid(t)
      && room.id !in s.rooms
      && Members.CountByChatRoom(t.members, room.id) == 1
      && Members.ExistsByChatRoomAndUser(t.members, room.id, room.creator)
  {
    var id := room.id;
    var m := ChatRoomMember(id, room.creator, now);
    var t := s.(rooms := s.rooms[id := room], members := s.members + {m}, nextRoomId := id + 1);
    assert id !in s.rooms;
    Members.CountOfFreshRoom(s.members, m);
    assert m in t.members;
    forall k | k in t.rooms
      ensures Members.ExistsByChatRoomAndUser(t.members, k, t.rooms[k].creator)
    {
      if k != id {
        var w :| w in s.members && w.room == k && w.user == s.rooms[k].creator;
        assert w in t.members;
      }
    }
    assert CreatorsAreMembers(t);
    assert MembershipPairsUnique(t.members);
    assert MembersReferenced(t);
    assert RoomsKeyed(t) && RoomsWellFormed(t);
    assert CodesReferenced(t) && MessagesKeyed(t);
  }

  /** Everything `joinChatRoom` checks before it inserts the membership. */
  ghost predicate CanJoinDirectly(s: Store, caller: string, room: RoomId) {
    && Caller(s, caller).Some?
    && room in s.rooms
    && !Members.ExistsByChatRoomAndUser(s.members, room, Caller(s, caller).value)
    && Members.CountByChatRoom(s.members, room) < s.rooms[room].maxMembers
  }

  /**
   * `joinChatRoom`: missing id, unknown user, unknown room, already a
   * member (Forbidden), room full (BadRequest), in that order; success adds
   * exactly the caller's membership.
   */
  ghost function JoinChatRoom(s: Store, caller: string, roomId: Option<RoomId>, now: Time): (r: Step)
    ensures r.status in {Ok, BadRequest, NotFound, Forbidden}
    ensures roomId.None? ==> r.status == BadRequest
    ensures roomId.Some? && Caller(s, caller).None? ==> r.status == NotFound
    ensures roomId.Some? && Caller(s, caller).Some? && roomId.value !in s.rooms ==> r.status == NotFound
    ensures roomId.Some? && Caller(s, caller).Some? && roomId.value in s.rooms
            && Members.ExistsByChatRoomAndUser(s.members, roomId.value, Caller(s, caller).value)
            ==> r.status == Forbidden
    ensures roomId.Some? && Caller(s, caller).Some? && roomId.value in s.rooms
            && !Members.ExistsByChatRoomAndUser(s.members, roomId.value, Caller(s, caller).value)
            && Members.CountByChatRoom(s.members, roomId.value) >= s.rooms[roomId.value].maxMembers
            ==> r.status == BadRequest
    ensures r.status == Ok <==> roomId.Some? && CanJoinDirectly(s, caller, roomId.value)
    ensures r.status != Ok ==> r.store == s
    ensures r.status == Ok ==>
      r.store == s.(members := s.members + {ChatRoomMember(roomId.value, Caller(s, caller).value, now)})
  {
    if roomId.None? then Step(BadRequest, s)
    else match Caller(s, caller)
      case None => Step(NotFound, s)
      case Some(uid) =>
        var id := roomId.value;
        if id !in s.rooms then Step(NotFound, s)
        else if Members.ExistsByChatRoomAndUser(s.members, id, uid) then Step(Forbidden, s)
        else if Members.CountByChatRoom(s.members, id) >= s.rooms[id].maxMembers then Step(BadRequest, s)
        else Step(Ok, s.(members := s.members + {ChatRoomMember(id, uid, now)}))
  }

  /** A direct join raises the room's count by one and never past `maxMembers`. */
  lemma JoinChatRoomRespectsCapacity(s: Store, caller: string, roomId: Option<RoomId>, now: Time)
    requires JoinChatRoom(s, caller, roomId, now).status == Ok
    ensures var t := JoinChatRoom(s, caller, roomId, now).store;
      && Members.CountByChatRoom(t.members, roomId.value) == Members.CountByChatRoom(s.members, roomId.value) + 1
      && Members.CountByChatRoom(t.members, roomId.value) <= s.rooms[roomId.value].maxMembers
      && forall other :: other != roomId.value ==>
           Members.CountByChatRoom(t.members, other) == Members.CountByChatRoom(s.members, other)
  {
    Members.CountAfterInsert(s.members, ChatRoomMember(roomId.value, Caller(s, caller).value, now));
  }

  /** Rooms within capacity before a direct join are all still within capacity after it. */
  ghost predicate AllWithinCapacity(s: Store) {
    forall id :: id in s.rooms ==> Members.CountByChatRoom(s.members, id) <= s.rooms[id].maxMembers
  }

  lemma JoinChatRoomKeepsCapacity(s: Store, caller: string, roomId: Option<RoomId>, now: Time)
    requires AllWithinCapacity(s)
    ensures AllWithinCapacity(JoinChatRoom(s, caller, roomId, now).store)
  {
    if JoinChatRoom(s, caller, roomId, now).status == Ok {
      JoinChatRoomRespectsCapacity(s, caller, roomId, now);
    }
  }

  /** A new room starts at one member, and no other room's count moves. */
  lemma CreateChatRoomKeepsCapacity(s: Store, caller: string, title: Option<string>, maxMembers: int,
                                    isPrivate: bool, now: Time)
    requires Valid(s)
    requires AllWithinCapacity(s)
    ensures AllWithinCapacity(CreateChatRoom(s, caller, title, maxMembers, isPrivate, now).store)
  {
    var r := CreateChatRoom(s, caller, title, maxMembers, isPrivate, now);
    if r.status == Created {
      var id := r.body.value;
      var m := ChatRoomMember(id, Caller(s, caller).value, now);
      CreateChatRoomPreservesValid(s, caller, title, maxMembers, isPrivate, now);
      assert !Members.ExistsByChatRoomAndUser(s.members, id, m.user);
      Members.CountAfterInsert(s.members, m);
    }
  }

  /** Leaving or deleting only removes rows, so no count goes up. */
  lemma LeaveOrDeleteKeepsCapacity(s: Store, caller: string, roomId: RoomId)
    requires AllWithinCapacity(s)
    ensures AllWithinCapacity(LeaveOrDeleteChatRoom(s, caller, roomId).store)
  {
    var t := LeaveOrDeleteChatRoom(s, caller, roomId).store;
    forall k | k in t.rooms
      ensures Members.CountByChatRoom(t.members, k) <= t.rooms[k].maxMembers
    {
      Members.CountMonotone(t.members, s.members, k);
    }
  }

  lemma JoinChatRoomPreservesValid(s: Store, caller: string, roomId: Option<RoomId>, now: Time)
    requires Valid(s)
    ensures Valid(JoinChatRoom(s, caller, roomId, now).store)
  {
    var r := JoinChatRoom(s, caller, roomId, now);
    if r.status == Ok {
      var t := r.store;
      forall k | k in t.rooms
        ensures Members.ExistsByChatRoomAndUser(t.members, k, t.rooms[k].creator)
      {
        var w :| w in s.members && w.room == k && w.user == s.rooms[k].creator;
        assert w in t.members;
      }
    }
  }

  /** One entry of the room lists. */
  datatype RoomSummary = RoomSummary(id: RoomId, title: string, maxMembers: int, isPrivate: bool, currentMembers: nat)

  function Summarize(s: Store, id: RoomId): RoomSummary
    requires id in s.rooms
  {
    var room := s.rooms[id];
    RoomSummary(id, room.title, room.maxMembers, room.isPrivate, Members.CountByChatRoom(s.members, id))
  }

  /** `x` describes a stored room and its live member count. */
  ghost predicate DescribesRoom(s: Store, x: RoomSummary) {
    && x.id in s.rooms
    && x.title == s.rooms[x.id].title
    && x.maxMembers == s.rooms[x.id].maxMembers
    && x.isPrivate == s.rooms[x.id].isPrivate
    && x.currentMembers == |Members.FindByChatRoom(s.members, x.id)|
  }

  /** `getAllChatRooms`: every room once, each with its live member count. */
  ghost function GetAllChatRooms(s: Store, caller: string): (r: Listing<set<RoomSummary>>)
    ensures r.status in {Ok, NotFound}
    ensures r.status == NotFound <==> Caller(s, caller).None?
    ensures r.status == NotFound ==> r.items == {}
    ensures r.status == Ok ==> forall x :: x in r.items ==> DescribesRoom(s, x)
    ensures r.status == Ok ==> forall id :: id in s.rooms ==> exists x :: x in r.items && x.id == id
    ensures forall x, y :: x in r.items && y in r.items && x.id == y.id ==> x == y
  {
    if Caller(s, caller).None? then Listing(NotFound, {})
    else
      var items := set id | id in s.rooms :: Summarize(s, id);
      assert forall id :: id in s.rooms ==> Summarize(s, id) in items;
      Listing(Ok, items)
  }

  /** `getMyChatRooms`: exactly the rooms the caller holds a membership in. */
  ghost function GetMyChatRooms(s: Store, caller: string): (r: Listing<set<RoomSummary>>)
    ensures r.status in {Ok, NotFound}
    ensures r.status == NotFound <==> Caller(s, caller).None?
    ensures r.status == NotFound ==> r.items == {}
    ensures r.status == Ok ==> forall x :: x in r.items ==>
      DescribesRoom(s, x) && Members.ExistsByChatRoomAndUser(s.members, x.id, Caller(s, caller).value)
    ensures r.status == Ok ==> forall id ::
      id in s.rooms && Members.ExistsByChatRoomAndUser(s.members, id, Caller(s, caller).value) ==>
      exists x :: x in r.items && x.id == id
    ensures forall x, y :: x in r.items && y in r.items && x.id == y.id ==> x == y
  {
    match Caller(s, caller)
    case None => Listing(NotFound, {})
    case Some(uid) =>
      var mine := Members.FindChatRoomsByUser(s.rooms.Keys, s.members, uid);
      var items := set id | id in mine :: Summarize(s, id);
      assert forall id :: id in mine ==> Summarize(s, id) in items;
      Listing(Ok, items)
  }

  /** A direct join puts the room on the caller's own list, with its new count. */
  lemma JoinedRoomIsListed(s: Store, caller: string, roomId: Option<RoomId>, now: Time)
    requires JoinChatRoom(s, caller, roomId, now).status == Ok
    ensures var t := JoinChatRoom(s, caller, roomId, now).store;
      var l := GetMyChatRooms(t, caller);
      && l.status == Ok
      && exists x :: x in l.items && x.id == roomId.value
           && x.currentMembers == Members.CountByChatRoom(s.members, roomId.value) + 1
  {
    var t := JoinChatRoom(s, caller, roomId, now).store;
    var uid := Caller(s, caller).value;
    assert Caller(t, caller) == Some(uid);
    var m := ChatRoomMember(roomId.value, uid, now);
    assert m in t.members;
    JoinChatRoomRespectsCapacity(s, caller, roomId, now);
  }

  /** Every room a valid store lists has at least its creator as member. */
  lemma ListedRoomsAreNeverEmpty(s: Store, caller: string)
    requires Valid(s)
    ensures forall x :: x in GetAllChatRooms(s, caller).items ==> x.currentMembers >= 1
  {
    forall x | x in GetAllChatRooms(s, caller).items
      ensures x.currentMembers >= 1
    {
      var w :| w in s.members && w.room == x.id && w.user == s.rooms[x.id].creator;
      assert w in Members.FindByChatRoom(s.members, x.id);
    }
  }

  /** One entry of a room's member list. */
  datatype MemberView = MemberView(userId: UserId, username: string, joinedAt: Time)

  /** The view of a membership row; every row's user exists in a valid store. */
  function ViewOf(s: Store, m: ChatRoomMember): MemberView {
    MemberView(m.user, if m.user in s.users then s.users[m.user].username else "", m.joinedAt)
  }

  /**
   * `getChatRoomMembers`: unknown user or room is NotFound, a non-member is
   * Forbidden; a member sees one entry per membership row of the room.
   */
  ghost function GetChatRoomMembers(s: Store, caller: string, roomId: RoomId): (r: Listing<set<MemberView>>)
    ensures r.status in {Ok, NotFound, Forbidden}
    ensures r.status == NotFound <==> Caller(s, caller).None? || roomId !in s.rooms
    ensures r.status == Forbidden <==>
      Caller(s, caller).Some? && roomId in s.rooms
      && !Members.ExistsByChatRoomAndUser(s.members, roomId, Caller(s, caller).value)
    ensures r.status != Ok ==> r.items == {}
    ensures r.status == Ok ==> forall v :: v in r.items <==>
      exists m :: m in s.members && m.room == roomId && v == ViewOf(s, m)
  {
    match Caller(s, caller)
    case None => Listing(NotFound, {})
    case Some(uid) =>
      if roomId !in s.rooms then Listing(NotFound, {})
      else if !Members.ExistsByChatRoomAndUser(s.members, roomId, uid) then Listing(Forbidden, {})
      else Listing(Ok, set m | m in Members.FindByChatRoom(s.members, roomId) :: ViewOf(s, m))
  }

  /** Distinct membership rows give distinct views: the image is as large as the set of rows. */
  lemma {:induction false} ViewsCount(s: Store, rows: set<ChatRoomMember>)
    requires forall a, b :: a in rows && b in rows && ViewOf(s, a) == ViewOf(s, b) ==> a == b
    ensures |set m | m in rows :: ViewOf(s, m)| == |rows|
    decreases |rows|
  {
    if rows != {} {
      var a :| a in rows;
      var rest := rows - {a};
      ViewsCount(s, rest);
      assert (set m | m in rows :: ViewOf(s, m)) == (set m | m in rest :: ViewOf(s, m)) + {ViewOf(s, a)};
      assert ViewOf(s, a) !in (set m | m in rest :: ViewOf(s, m));
    } else {
      assert (set m | m in rows :: ViewOf(s, m)) == {};
    }
  }

  /**
   * A member list has one entry per membership row of the room: in a valid
   * store two rows of one room never share a view, so a member sees as many
   * entries as the room's count, and the creator is always among them.
   */
  lemma MemberListOnePerRow(s: Store, caller: string, roomId: RoomId)
    requires Valid(s)
    ensures forall a, b ::
      (a in Members.FindByChatRoom(s.members, roomId) && b in Members.FindByChatRoom(s.members, roomId)
       && ViewOf(s, a) == ViewOf(s, b)) ==> a == b
    ensures var r := GetChatRoomMembers(s, caller, roomId);
      r.status == Ok ==>
        && |r.items| == Members.CountByChatRoom(s.members, roomId)
        && exists v :: v in r.items && v.userId == s.rooms[roomId].creator
  {
    var rows := Members.FindByChatRoom(s.members, roomId);
    forall a, b | a in rows && b in rows && ViewOf(s, a) == ViewOf(s, b)
      ensures a == b
    {
      assert a.user == b.user;
    }
    var r := GetChatRoomMembers(s, caller, roomId);
    if r.status == Ok {
      ViewsCount(s, rows);
      var w :| w in s.members && w.room == roomId && w.user == s.rooms[roomId].creator;
      assert ViewOf(s, w) in r.items;
    }
  }

  /**
   * `leaveOrDeleteChatRoom`: the creator may only delete, and only while
   * alone; anyone else only leaves, with no count check and no membership
   * check (leaving a room one is not in still answers Ok).
   */
  ghost function LeaveOrDeleteChatRoom(s: Store, caller: string, roomId: RoomId): (r: Step)
    ensures r.status in {Ok, NotFound, Forbidden}
    ensures r.status == NotFound <==> Caller(s, caller).None? || roomId !in s.rooms
    ensures r.status == Forbidden <==>
      Caller(s, caller).Some? && roomId in s.rooms && s.rooms[roomId].creator == Caller(s, caller).value
      && Members.CountByChatRoom(s.members, roomId) != 1
    ensures r.status != Ok ==> r.store == s
    ensures r.status == Ok && s.rooms[roomId].creator == Caller(s, caller).value ==>
      r.store == CascadeDeleteRoom(s, roomId)
    ensures r.status == Ok && s.rooms[roomId].creator != Caller(s, caller).value ==>
      r.store == s.(members := Members.DeleteByChatRoomAndUser(s.members, roomId, Caller(s, caller).value))
  {
    match Caller(s, caller)
    case None => Step(NotFound, s)
    case Some(uid) =>
      if roomId !in s.rooms then Step(NotFound, s)
      else if s.rooms[roomId].creator == uid then
        if Members.CountByChatRoom(s.members, roomId) == 1 then Step(Ok, CascadeDeleteRoom(s, roomId))
        else Step(Forbidden, s)
      else Step(Ok, s.(members := Members.DeleteByChatRoomAndUser(s.members, roomId, uid)))
  }

  /**
   * In a valid store a creator's delete succeeds only when the creator is
   * the room's sole member, and a creator facing other members is refused.
   */
  lemma CreatorDeletesOnlyWhenAlone(s: Store, caller: string, roomId: RoomId)
    requires Valid(s)
    requires Caller(s, caller).Some? && roomId in s.rooms && s.rooms[roomId].creator == Caller(s, caller).value
    ensures var r := LeaveOrDeleteChatRoom(s, caller, roomId);
      && (r.status == Ok <==> forall m :: m in s.members && m.room == roomId ==> m.user == Caller(s, caller).value)
      && (r.status == Ok ==> roomId !in r.store.rooms)
      && (r.status == Forbidden ==> r.store == s)
  {
    var uid := Caller(s, caller).value;
    var mine :| mine in s.members && mine.room == roomId && mine.user == uid;
    var rows := Members.FindByChatRoom(s.members, roomId);
    assert mine in rows;
    if forall m :: m in s.members && m.room == roomId ==> m.user == uid {
      assert rows == {mine};
    } else {
      var other :| other in s.members && other.room == roomId && other.user != uid;
      Members.TwoMembersCountAtLeastTwo(s.members, roomId, uid, other.user);
    }
  }

  /** A non-creator's call never deletes the room and always ends with the caller out of it. */
  lemma NonCreatorOnlyLeaves(s: Store, caller: string, roomId: RoomId)
    requires Caller(s, caller).Some? && roomId in s.rooms && s.rooms[roomId].creator != Caller(s, caller).value
    ensures var r := LeaveOrDeleteChatRoom(s, caller, roomId);
      && r.status == Ok
      && r.store.rooms == s.rooms
      && !Members.ExistsByChatRoomAndUser(r.store.members, roomId, Caller(s, caller).value)
      && Members.ExistsByChatRoomAndUser(r.store.members, roomId, s.rooms[roomId].creator)
         == Members.ExistsByChatRoomAndUser(s.members, roomId, s.rooms[roomId].creator)
  {
    var uid := Caller(s, caller).value;
    var t := LeaveOrDeleteChatRoom(s, caller, roomId).store;
    var c := s.rooms[roomId].creator;
    if Members.ExistsByChatRoomAndUser(s.members, roomId, c) {
      var w :| w in s.members && w.room == roomId && w.user == c;
      assert w in t.members;
    }
  }

  /**
   * After a successful leave or delete the room is off the caller's own
   * list: a non-creator's row is gone, and a deleted room is gone entirely.
   */
  lemma LeftRoomIsNotListed(s: Store, caller: string, roomId: RoomId)
    requires LeaveOrDeleteChatRoom(s, caller, roomId).status == Ok
    ensures var l := GetMyChatRooms(LeaveOrDeleteChatRoom(s, caller, roomId).store, caller);
      && l.status == Ok
      && forall x :: x in l.items ==> x.id != roomId
  {
    var t := LeaveOrDeleteChatRoom(s, caller, roomId).store;
    assert t.users == s.users;
    assert Caller(t, caller) == Caller(s, caller);
  }

  /** Leaving or deleting keeps every remaining room's creator a member. */
  lemma LeaveOrDeletePreservesValid(s: Store, caller: string, roomId: RoomId)
    requires Valid(s)
    ensures Valid(LeaveOrDeleteChatRoom(s, caller, roomId).store)
  {
    var r := LeaveOrDeleteChatRoom(s, caller, roomId);
    if r.status == Ok {
      var uid := Caller(s, caller).value;
      if s.rooms[roomId].creator == uid {
        CascadeDeletePreservesValid(s, roomId);
      } else {
        var t := r.store;
        forall k | k in t.rooms
          ensures Members.ExistsByChatRoomAndUser(t.members, k, t.rooms[k].creator)
        {
          var w :| w in s.members && w.room == k && w.user == s.rooms[k].creator;
          assert w in t.members;
        }
      }
    }
  }
}
