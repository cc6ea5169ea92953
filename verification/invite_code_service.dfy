/**
 * The invite code lifecycle: the room's creator issues one six-digit code
 * per room, valid for one hour; anyone may redeem a code that has not
 * expired, without any capacity check, and redeeming does not consume it.
 */
module InviteCodeService {
  import opened Common
  import opened Entities
  import opened Store
  import Members = MemberRepository
  import Codes = InviteCodeRepository
  import opened InviteCodeFormat
  import ChatRoomService

  /**
   * `createInviteCode`: missing id, unknown user, unknown room, caller not
   * the creator (Forbidden), a code already stored for the room
   * (BadRequest), in that order. `random` is the integer `Math.random()`
   * yields, scaled to [0, 999999]. A value colliding with a stored code
   * breaks the unique column and nothing is saved.
   */
  ghost function CreateInviteCode(s: Store, caller: string, roomId: Option<RoomId>, random: nat, now: Time)
    : (r: Reply<string>)
    requires random < CodeSpace
    ensures r.status in {Created, BadRequest, NotFound, Forbidden, StorageFailure}
    ensures roomId.None? ==> r.status == BadRequest
    ensures roomId.Some? && Caller(s, caller).None? ==> r.status == NotFound
    ensures roomId.Some? && Caller(s, caller).Some? && roomId.value !in s.rooms ==> r.status == NotFound
    ensures roomId.Some? && Caller(s, caller).Some? && roomId.value in s.rooms
            && s.rooms[roomId.value].creator != Caller(s, caller).value
            ==> r.status == Forbidden
    ensures roomId.Some? && Caller(s, caller).Some? && roomId.value in s.rooms
            && s.rooms[roomId.value].creator == Caller(s, caller).value
            && (exists c :: c in s.codes && c.room == roomId.value)
            ==> r.status == BadRequest
    ensures r.status == StorageFailure ==> exists c :: c in s.codes && c.code == FormatCode(random)
    ensures roomId.Some? && Caller(s, caller).Some? && roomId.value in s.rooms
            && s.rooms[roomId.value].creator == Caller(s, caller).value
            && (forall c :: c in s.codes ==> c.room != roomId.value)
            ==> (r.status == Created <==> forall c :: c in s.codes ==> c.code != FormatCode(random))
    ensures r.status != Created ==> r.store == s && r.body.None?
    ensures r.status == Created ==>
      && roomId.Some? && roomId.value in s.rooms
      && Caller(s, caller) == Some(s.rooms[roomId.value].creator)
      && (forall c :: c in s.codes ==> c.room != roomId.value && c.code != FormatCode(random))
      && r.body == Some(FormatCode(random))
      && r.store == s.(codes := s.codes + {InviteCode(roomId.value, FormatCode(random), now, now + OneHour)})
  {
    if roomId.None? then Reply(BadRequest, s, None)
    else match Caller(s, caller)
      case None => Reply(NotFound, s, None)
      case Some(uid) =>
        var id := roomId.value;
        if id !in s.rooms then Reply(NotFound, s, None)
        else if s.rooms[id].creator != uid then Reply(Forbidden, s, None)
        else if Codes.FindByChatRoom(s.codes, id).Some? then Reply(BadRequest, s, None)
        else
          var value := FormatCode(random);
          if Codes.FindByInviteCode(s.codes, value).Some? then Reply(StorageFailure, s, None)
          else
            var code := CodePrePersist(InviteCode(id, value, 0, 0), now);
            Reply(Created, s.(codes := s.codes + {code}), Some(value))
  }

  /** A stored code blocks a new one whatever its expiry: an expired, unswept code still does. */
  lemma ExpiredCodeStillBlocksIssuance(s: Store, caller: string, room: RoomId, random: nat, now: Time, c: InviteCode)
    requires random < CodeSpace
    requires Caller(s, caller).Some? && room in s.rooms && s.rooms[room].creator == Caller(s, caller).value
    requires c in s.codes && c.room == room && c.expirationDate < now
    ensures CreateInviteCode(s, caller, Some(room), random, now).status == BadRequest
    ensures CreateInviteCode(s, caller, Some(room), random, now).store == s
  {
  }

  /** Issuing keeps one code per room, unique values, and the one-hour expiry. */
  lemma CreateInviteCodePreservesValid(s: Store, caller: string, roomId: Option<RoomId>, random: nat, now: Time)
    requires random < CodeSpace
    requires Valid(s)
    ensures Valid(CreateInviteCode(s, caller, roomId, random, now).store)
  {
    var r := CreateInviteCode(s, caller, roomId, random, now);
    if r.status == Created {
      var code := InviteCode(roomId.value, FormatCode(random), now, now + OneHour);
      var t := s.(codes := s.codes + {code});
      assert r.store == t;
      assert CodesReferenced(t);
      assert Codes.OneCodePerRoom(t.codes);
      assert Codes.CodeValuesUnique(t.codes);
      assert CodesWellFormed(t.codes);
    }
  }

  /** A code is accepted until and including its expiration instant (`isBefore` is strict). */
  predicate Redeemable(c: InviteCode, now: Time) {
    !(c.expirationDate < now)
  }

  /**
   * `joinByInviteCode`: missing code, unknown user, unknown or expired code
   * (both NotFound), already a member (Forbidden), in that order; success
   * adds the caller's membership to the code's room and nothing else.
   */
  ghost function JoinByInviteCode(s: Store, caller: string, code: Option<string>, now: Time): (r: Step)
    ensures r.status in {Ok, BadRequest, NotFound, Forbidden}
    ensures r.status == BadRequest <==> code.None?
    ensures code.Some? && Caller(s, caller).None? ==> r.status == NotFound
    ensures code.Some? && Caller(s, caller).Some?
            && (forall c :: c in s.codes && c.code == code.value ==> !Redeemable(c, now))
            ==> r.status == NotFound
    ensures code.Some? && Caller(s, caller).Some? && Codes.CodeValuesUnique(s.codes) ==>
      forall c :: c in s.codes && c.code == code.value && Redeemable(c, now) ==>
        && (r.status == Forbidden <==> Members.ExistsByChatRoomAndUser(s.members, c.room, Caller(s, caller).value))
        && (r.status == Ok <==> !Members.ExistsByChatRoomAndUser(s.members, c.room, Caller(s, caller).value))
    ensures r.status != Ok ==> r.store == s
    ensures r.status == Ok ==>
      && code.Some? && Caller(s, caller).Some?
      && (exists c :: c in s.codes && c.code == code.value && Redeemable(c, now)
            && !Members.ExistsByChatRoomAndUser(s.members, c.room, Caller(s, caller).value)
            && r.store == s.(members := s.members + {ChatRoomMember(c.room, Caller(s, caller).value, now)}))
  {
    if code.None? then Step(BadRequest, s)
    else match Caller(s, caller)
      case None => Step(NotFound, s)
      case Some(uid) =>
        match Codes.FindByInviteCode(s.codes, code.value)
        case None => Step(NotFound, s)
        case Some(c) =>
          if !Redeemable(c, now) then Step(NotFound, s)
          else if Members.ExistsByChatRoomAndUser(s.members, c.room, uid) then Step(Forbidden, s)
          else Step(Ok, s.(members := s.members + {ChatRoomMember(c.room, uid, now)}))
  }

  /**
   * In a valid store a stored, unexpired code admits any known user who is
   * not yet a member: the room's count and `maxMembers` play no part, so
   * a full room still grows by one.
   */
  lemma RedeemIgnoresCapacity(s: Store, caller: string, c: InviteCode, now: Time)
    requires Valid(s)
    requires c in s.codes && Redeemable(c, now)
    requires Caller(s, caller).Some?
    requires !Members.ExistsByChatRoomAndUser(s.members, c.room, Caller(s, caller).value)
    ensures var r := JoinByInviteCode(s, caller, Some(c.code), now);
      && r.status == Ok
      && Members.CountByChatRoom(r.store.members, c.room) == Members.CountByChatRoom(s.members, c.room) + 1
  {
    Codes.FindByInviteCodeIsExact(s.codes, c);
    Members.CountAfterInsert(s.members, ChatRoomMember(c.room, Caller(s, caller).value, now));
  }

  /** A code expiring exactly now is still accepted. */
  lemma CodeExpiringNowIsAccepted(s: Store, caller: string, c: InviteCode)
    requires Valid(s)
    requires c in s.codes
    requires Caller(s, caller).Some?
    requires !Members.ExistsByChatRoomAndUser(s.members, c.room, Caller(s, caller).value)
    ensures JoinByInviteCode(s, caller, Some(c.code), c.expirationDate).status == Ok
    ensures JoinByInviteCode(s, caller, Some(c.code), c.expirationDate + 1).status == NotFound
  {
    Codes.FindByInviteCodeIsExact(s.codes, c);
  }

  /**
   * Redeeming leaves the code stored, so the same caller trying again at
   * any later (or earlier) instant never gets in a second time: while the
   * code is live they are refused as already a member, afterwards the code
   * is NotFound.
   */
  lemma RedeemKeepsCodeAndRepeatIsForbidden(s: Store, caller: string, code: Option<string>, now: Time, later: Time)
    requires JoinByInviteCode(s, caller, code, now).status == Ok
    ensures var t := JoinByInviteCode(s, caller, code, now).store;
      && t.codes == s.codes
      && JoinByInviteCode(t, caller, code, later).status in {Forbidden, NotFound}
      && (JoinByInviteCode(t, caller, code, later).status == Forbidden <==>
            later <= Codes.FindByInviteCode(s.codes, code.value).value.expirationDate)
  {
    var t := JoinByInviteCode(s, caller, code, now).store;
    assert t.users == s.users;
    var uid := Caller(s, caller).value;
    var c := Codes.FindByInviteCode(s.codes, code.value).value;
    assert Caller(t, caller) == Some(uid);
    assert ChatRoomMember(c.room, uid, now) in t.members;
  }

  /**
   * Issue then redeem: within the hour, the code just issued admits any
   * other known user who is not yet a member of the room.
   */
  lemma IssuedCodeAdmitsWithinTheHour(s: Store, creator: string, roomId: Option<RoomId>, random: nat, now: Time,
                                      joiner: string, later: Time)
    requires random < CodeSpace
    requires Valid(s)
    requires CreateInviteCode(s, creator, roomId, random, now).status == Created
    requires Caller(s, joiner).Some?
    requires !Members.ExistsByChatRoomAndUser(s.members, roomId.value, Caller(s, joiner).value)
    requires later <= now + OneHour
    ensures var r := CreateInviteCode(s, creator, roomId, random, now);
      var j := JoinByInviteCode(r.store, joiner, r.body, later);
      && j.status == Ok
      && Members.ExistsByChatRoomAndUser(j.store.members, roomId.value, Caller(s, joiner).value)
  {
    var r := CreateInviteCode(s, creator, roomId, random, now);
    var c := InviteCode(roomId.value, FormatCode(random), now, now + OneHour);
    CreateInviteCodePreservesValid(s, creator, roomId, random, now);
    assert c in r.store.codes;
    assert r.store.users == s.users;
    Codes.FindByInviteCodeIsExact(r.store.codes, c);
    var j := JoinByInviteCode(r.store, joiner, r.body, later);
    assert ChatRoomMember(roomId.value, Caller(s, joiner).value, later) in j.store.members;
  }

  lemma JoinByInviteCodePreservesValid(s: Store, caller: string, code: Option<string>, now: Time)
    requires Valid(s)
    ensures Valid(JoinByInviteCode(s, caller, code, now).store)
  {
    var r := JoinByInviteCode(s, caller, code, now);
    if r.status == Ok {
      var t := r.store;
      forall k | k in t.rooms
        ensures Members.ExistsByChatRoomAndUser(t.members, k, t.rooms[k].creator)
      {
        var w :| w in s.members && w.room == k && w.user == s.rooms[k].creator;
        assert w in t.members;
      }
    }
  }
}
