/**
 * The derived queries of the membership repository over the set of
 * membership rows.
 */
module MemberRepository {
  import opened Entities

  /** `existsByChatRoomAndUser`: some row joins this user to this room. */
  predicate ExistsByChatRoomAndUser(ms: set<ChatRoomMember>, room: RoomId, user: UserId) {
    exists m :: m in ms && m.room == room && m.user == user
  }

  /** `findByChatRoom`: the rows of one room, in no particular order. */
  function FindByChatRoom(ms: set<ChatRoomMember>, room: RoomId): (r: set<ChatRoomMember>)
    ensures r <= ms
    ensures forall m :: m in ms && m.room == room ==> m in r
    ensures forall m :: m in r ==> m.room == room
  {
    set m | m in ms && m.room == room
  }

  /** `countByChatRoom`: the number of rows of one room. */
  function CountByChatRoom(ms: set<ChatRoomMember>, room: RoomId): nat {
    |FindByChatRoom(ms, room)|
  }

  /** `findChatRoomsByUser`: the rooms (among `rooms`) the user has a row in. */
  function FindChatRoomsByUser(rooms: set<RoomId>, ms: set<ChatRoomMember>, user: UserId): (r: set<RoomId>)
    ensures forall id :: id in r <==> id in rooms && ExistsByChatRoomAndUser(ms, id, user)
  {
    set id | id in rooms && ExistsByChatRoomAndUser(ms, id, user)
  }

  /** `deleteByChatRoomAndUser`: drop that pair's rows; a no-op when there are none. */
  function DeleteByChatRoomAndUser(ms: set<ChatRoomMember>, room: RoomId, user: UserId): (r: set<ChatRoomMember>)
    ensures r <= ms
    ensures !ExistsByChatRoomAndUser(r, room, user)
    ensures forall m :: m in ms && (m.room != room || m.user != user) ==> m in r
    ensures !ExistsByChatRoomAndUser(ms, room, user) ==> r == ms
  {
    set m | m in ms && (m.room != room || m.user != user)
  }

  /** Inserting a row for a pair not yet present raises that room's count by exactly one. */
  lemma CountAfterInsert(ms: set<ChatRoomMember>, m: ChatRoomMember)
    requires !ExistsByChatRoomAndUser(ms, m.room, m.user)
    ensures CountByChatRoom(ms + {m}, m.room) == CountByChatRoom(ms, m.room) + 1
    ensures forall other :: other != m.room ==> CountByChatRoom(ms + {m}, other) == CountByChatRoom(ms, other)
  {
    assert m !in ms;
    assert FindByChatRoom(ms + {m}, m.room) == FindByChatRoom(ms, m.room) + {m};
    forall other | other != m.room
      ensures CountByChatRoom(ms + {m}, other) == CountByChatRoom(ms, other)
    {
      assert FindByChatRoom(ms + {m}, other) == FindByChatRoom(ms, other);
    }
  }

  /** A room nobody has a row in has count zero, and one row gives count one. */
  lemma CountOfFreshRoom(ms: set<ChatRoomMember>, m: ChatRoomMember)
    requires forall x :: x in ms ==> x.room != m.room
    ensures CountByChatRoom(ms, m.room) == 0
    ensures CountByChatRoom(ms + {m}, m.room) == 1
  {
    assert FindByChatRoom(ms, m.room) == {};
    assert FindByChatRoom(ms + {m}, m.room) == {m};
  }

  /**
   * `existsByChatRoomAndUser` agrees with the room's row list: the pair is
   * present exactly when one of the room's rows is the user's, and then the
   * room counts at least one member.
   */
  lemma ExistsIffRowOfRoom(ms: set<ChatRoomMember>, room: RoomId, user: UserId)
    ensures ExistsByChatRoomAndUser(ms, room, user) <==> exists m :: m in FindByChatRoom(ms, room) && m.user == user
    ensures ExistsByChatRoomAndUser(ms, room, user) ==> CountByChatRoom(ms, room) >= 1
  {
    if ExistsByChatRoomAndUser(ms, room, user) {
      var m :| m in ms && m.room == room && m.user == user;
      assert m in FindByChatRoom(ms, room);
    }
  }

  /** The count is zero exactly when no row belongs to the room. */
  lemma CountZeroIffNoRows(ms: set<ChatRoomMember>, room: RoomId)
    ensures CountByChatRoom(ms, room) == 0 <==> forall m :: m in ms ==> m.room != room
  {
    if CountByChatRoom(ms, room) == 0 {
      assert FindByChatRoom(ms, room) == {};
    } else {
      var m :| m in FindByChatRoom(ms, room);
    }
  }

  /** A room holding rows for two different users has count at least two. */
  lemma TwoMembersCountAtLeastTwo(ms: set<ChatRoomMember>, room: RoomId, a: UserId, b: UserId)
    requires a != b
    requires ExistsByChatRoomAndUser(ms, room, a) && ExistsByChatRoomAndUser(ms, room, b)
    ensures CountByChatRoom(ms, room) >= 2
  {
    var ma :| ma in ms && ma.room == room && ma.user == a;
    var mb :| mb in ms && mb.room == room && mb.user == b;
    assert {ma, mb} <= FindByChatRoom(ms, room);
    assert |{ma, mb}| == 2;
    SubsetCardinality({ma, mb}, FindByChatRoom(ms, room));
  }

  /** Removing rows never raises any room's count. */
  lemma CountMonotone(small: set<ChatRoomMember>, big: set<ChatRoomMember>, room: RoomId)
    requires small <= big
    ensures CountByChatRoom(small, room) <= CountByChatRoom(big, room)
  {
    SubsetCardinality(FindByChatRoom(small, room), FindByChatRoom(big, room));
  }

  lemma SubsetCardinality<T>(a: set<T>, b: set<T>)
    requires a <= b
    ensures |a| <= |b|
  {
    assert b == a + (b - a);
  }
}
