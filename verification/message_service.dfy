/**
 * The message log: members send and read a room's messages; editing is
 * gated by authorship alone. Content is stored as given.
 */
module MessageService {
  import opened Common
  import opened Entities
  import opened Store
  import Members = MemberRepository

  /** The stored messages of one room. */
  ghost function RoomMessages(s: Store, room: RoomId): (r: set<Message>)
    ensures forall m :: m in r <==> m in s.messages.Values && m.room == room
  {
    set m | m in s.messages.Values && m.room == room
  }

  ghost predicate SortedByCreatedAt(ms: seq<Message>) {
    forall i, j :: 0 <= i < j < |ms| ==> ms[i].createdAt <= ms[j].createdAt
  }

  ghost predicate NoRepeats(ms: seq<Message>) {
    forall i, j :: 0 <= i < j < |ms| ==> ms[i] != ms[j]
  }

  /** Every non-empty finite set of messages has an earliest one. */
  lemma {:induction false} EarliestExists(ms: set<Message>)
    requires ms != {}
    ensures exists m :: m in ms && forall x :: x in ms ==> m.createdAt <= x.createdAt
    decreases |ms|
  {
    var y :| y in ms;
    if ms - {y} != {} {
      EarliestExists(ms - {y});
      var m :| m in ms - {y} && forall x :: x in ms - {y} ==> m.createdAt <= x.createdAt;
      if y.createdAt < m.createdAt {
        assert forall x :: x in ms ==> y.createdAt <= x.createdAt;
      } else {
        assert forall x :: x in ms ==> m.createdAt <= x.createdAt;
      }
    } else {
      assert ms == {y};
    }
  }

  /**
   * `findByChatRoomOrderByCreatedAtAsc`: the messages in ascending creation
   * time. The order among equal timestamps is left to the database; this
   * picks any earliest message first.
   */
  ghost function OrderByCreatedAt(ms: set<Message>): (r: seq<Message>)
    ensures |r| == |ms|
    ensures forall x :: x in r <==> x in ms
    ensures SortedByCreatedAt(r)
    ensures NoRepeats(r)
    decreases |ms|
  {
    if ms == {} then []
    else
      EarliestExists(ms);
      var m :| m in ms && forall x :: x in ms ==> m.createdAt <= x.createdAt;
      [m] + OrderByCreatedAt(ms - {m})
  }

  /**
   * `sendMessage`: unknown user, unknown room (both NotFound), non-member
   * (Forbidden), in that order; success appends one message stamped now,
   * with the content exactly as given, and answers with its id.
   */
  ghost function SendMessage(s: Store, caller: string, roomId: RoomId, content: string, now: Time)
    : (r: Reply<MessageId>)
    ensures r.status in {Created, NotFound, Forbidden}
    ensures r.status == NotFound <==> Caller(s, caller).None? || roomId !in s.rooms
    ensures r.status == Forbidden <==>
      Caller(s, caller).Some? && roomId in s.rooms
      && !Members.ExistsByChatRoomAndUser(s.members, roomId, Caller(s, caller).value)
    ensures r.status != Created ==> r.store == s && r.body.None?
    ensures r.status == Created ==>
      && r.body.Some? && Caller(s, caller).Some?
      && var id := r.body.value;
      && r.store.messages.Keys == s.messages.Keys + {id}
      && (forall k :: k in s.messages && k != id ==> r.store.messages[k] == s.messages[k])
      && r.store.messages[id] == Message(id, roomId, Caller(s, caller).value, content, now, now)
      && r.store.(messages := s.messages, nextMessageId := s.nextMessageId) == s
      && r.store.nextMessageId > id
  {
    match Caller(s, caller)
    case None => Reply(NotFound, s, None)
    case Some(uid) =>
      if roomId !in s.rooms then Reply(NotFound, s, None)
      else if !Members.ExistsByChatRoomAndUser(s.members, roomId, uid) then Reply(Forbidden, s, None)
      else
        var id := s.nextMessageId;
        var msg := Message(id, roomId, uid, content, now, now);
        Reply(Created, s.(messages := s.messages[id := msg], nextMessageId := id + 1), Some(id))
  }

  /** A new message gets a fresh id and the store stays valid. */
  lemma SendMessagePreservesValid(s: Store, caller: string, roomId: RoomId, content: string, now: Time)
    requires Valid(s)
    ensures var r := SendMessage(s, caller, roomId, content, now);
      && Valid(r.store)
      && (r.status == Created ==> r.body.value !in s.messages)
  {
  }

  /**
   * `getMessages`: the same gate as sending; a member gets exactly the
   * room's messages, each once, in non-decreasing creation time.
   */
  ghost function GetMessages(s: Store, caller: string, roomId: RoomId): (r: Listing<seq<Message>>)
    ensures r.status in {Ok, NotFound, Forbidden}
    ensures r.status == NotFound <==> Caller(s, caller).None? || roomId !in s.rooms
    ensures r.status == Forbidden <==>
      Caller(s, caller).Some? && roomId in s.rooms
      && !Members.ExistsByChatRoomAndUser(s.members, roomId, Caller(s, caller).value)
    ensures r.status != Ok ==> r.items == []
    ensures r.status == Ok ==>
      && (forall m :: m in r.items <==> m in s.messages.Values && m.room == roomId)
      && SortedByCreatedAt(r.items)
      && NoRepeats(r.items)
  {
    match Caller(s, caller)
    case None => Listing(NotFound, [])
    case Some(uid) =>
      if roomId !in s.rooms then Listing(NotFound, [])
      else if !Members.ExistsByChatRoomAndUser(s.members, roomId, uid) then Listing(Forbidden, [])
      else Listing(Ok, OrderByCreatedAt(RoomMessages(s, roomId)))
  }

  /** A known non-member can neither write to nor read from an existing room. */
  lemma NonMemberCannotSendOrRead(s: Store, caller: string, roomId: RoomId, content: string, now: Time)
    requires Caller(s, caller).Some? && roomId in s.rooms
    requires !Members.ExistsByChatRoomAndUser(s.members, roomId, Caller(s, caller).value)
    ensures SendMessage(s, caller, roomId, content, now) == Reply(Forbidden, s, None)
    ensures GetMessages(s, caller, roomId) == Listing(Forbidden, [])
  {
  }

  /**
   * `updateMessage`: unknown user, unknown message (both NotFound), caller
   * not the author (Forbidden). The room argument is never read, and room
   * membership is not checked. Success replaces only that message's content.
   */
  ghost function UpdateMessage(s: Store, caller: string, roomId: RoomId, messageId: MessageId, content: string)
    : (r: Step)
    ensures r.status in {Ok, NotFound, Forbidden}
    ensures r.status == NotFound <==> Caller(s, caller).None? || messageId !in s.messages
    ensures r.status == Ok <==>
      Caller(s, caller).Some? && messageId in s.messages && s.messages[messageId].author == Caller(s, caller).value
    ensures r.status != Ok ==> r.store == s
    ensures r.status == Ok ==>
      && r.store.messages.Keys == s.messages.Keys
      && r.store.messages[messageId] == s.messages[messageId].(content := content)
      && (forall k :: k in s.messages && k != messageId ==> r.store.messages[k] == s.messages[k])
      && r.store.(messages := s.messages) == s
  {
    match Caller(s, caller)
    case None => Step(NotFound, s)
    case Some(uid) =>
      if messageId !in s.messages then Step(NotFound, s)
      else if s.messages[messageId].author != uid then Step(Forbidden, s)
      else Step(Ok, s.(messages := s.messages[messageId := s.messages[messageId].(content := content)]))
  }

  /** The room argument of an edit has no effect on its outcome. */
  lemma UpdateMessageIgnoresRoomArgument(s: Store, caller: string, a: RoomId, b: RoomId, messageId: MessageId, content: string)
    ensures UpdateMessage(s, caller, a, messageId, content) == UpdateMessage(s, caller, b, messageId, content)
  {
  }

  /** An edit keeps the message's id, room, author and timestamps. */
  lemma UpdateMessagePreservesValid(s: Store, caller: string, roomId: RoomId, messageId: MessageId, content: string)
    requires Valid(s)
    ensures var r := UpdateMessage(s, caller, roomId, messageId, content);
      && Valid(r.store)
      && (r.status == Ok ==>
            && r.store.messages[messageId].id == s.messages[messageId].id
            && r.store.messages[messageId].room == s.messages[messageId].room
            && r.store.messages[messageId].author == s.messages[messageId].author
            && r.store.messages[messageId].createdAt == s.messages[messageId].createdAt)
  {
  }
}
