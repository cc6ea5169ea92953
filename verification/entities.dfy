/**
 * The persistent entities the services touch, reduced to the fields the
 * services read or write, together with the JPA lifecycle hooks and column
 * constraints declared on them.
 */
module Entities {
  import opened Common

  type UserId = nat
  type RoomId = nat
  type MessageId = nat

  /** Column `title`: `length = 100`. */
  const TitleMaxLength: nat := 100
  /** Column `invite_code`: `length = 50`. */
  const CodeMaxLength: nat := 50

  datatype User = User(id: UserId, username: string, email: string, passwordHash: string)

  datatype ChatRoom = ChatRoom(
    id: RoomId,
    title: string,
    maxMembers: int,
    isPrivate: bool,
    creator: UserId,
    createdAt: Time,
    updatedAt: Time)

  /** One row of the membership table: a user joined to a room at `joinedAt`. */
  datatype ChatRoomMember = ChatRoomMember(room: RoomId, user: UserId, joinedAt: Time)

  /** The owning room is the row's key: the `chatroom_id` column is unique. */
  datatype InviteCode = InviteCode(room: RoomId, code: string, createdAt: Time, expirationDate: Time)

  datatype Message = Message(
    id: MessageId,
    room: RoomId,
    author: UserId,
    content: string,
    createdAt: Time,
    updatedAt: Time)

  /** `ChatRoom.prePersist`: both timestamps are stamped with the persist time. */
  function RoomPrePersist(r: ChatRoom, now: Time): (p: ChatRoom)
    ensures p.createdAt == now && p.updatedAt == now
    ensures p.(createdAt := r.createdAt, updatedAt := r.updatedAt) == r
  {
    r.(createdAt := now, updatedAt := now)
  }

  /**
   * `ChatRoom.preUpdate`: `updatedAt` becomes the update time whatever it
   * was; `createdAt` is not updatable, so a room whose timestamps were
   * ordered stays ordered when the clock does not run backwards.
   */
  function RoomPreUpdate(r: ChatRoom, now: Time): (p: ChatRoom)
    ensures p.createdAt == r.createdAt
    ensures p.updatedAt == now
    ensures r.createdAt <= r.updatedAt <= now ==> p.createdAt <= p.updatedAt
    ensures p.(updatedAt := r.updatedAt) == r
  {
    r.(updatedAt := now)
  }

  /** `InviteCode.prePersist`: creation is stamped now and expiry one hour later. */
  function CodePrePersist(c: InviteCode, now: Time): (p: InviteCode)
    ensures p.createdAt == now
    ensures p.expirationDate == p.createdAt + OneHour
    ensures p.room == c.room && p.code == c.code
  {
    c.(createdAt := now, expirationDate := now + OneHour)
  }
}
