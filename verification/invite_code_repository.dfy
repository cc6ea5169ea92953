/** The derived queries of the invite code repository over the set of code rows. */
module InviteCodeRepository {
  import opened Common
  import opened Entities

  /** `findByChatRoom`: the room's code, if one is stored. */
  ghost function FindByChatRoom(codes: set<InviteCode>, room: RoomId): (r: Option<InviteCode>)
    ensures r.Some? ==> r.value in codes && r.value.room == room
    ensures r.None? <==> forall c :: c in codes ==> c.room != room
  {
    if exists c :: c in codes && c.room == room then
      var c :| c in codes && c.room == room; Some(c)
    else
      None
  }

  /** `findByInviteCode`: the code row whose value matches exactly, if any. */
  ghost function FindByInviteCode(codes: set<InviteCode>, value: string): (r: Option<InviteCode>)
    ensures r.Some? ==> r.value in codes && r.value.code == value
    ensures r.None? <==> forall c :: c in codes ==> c.code != value
  {
    if exists c :: c in codes && c.code == value then
      var c :| c in codes && c.code == value; Some(c)
    else
      None
  }

  /** `findByExpirationDate`: the codes expiring at exactly that instant. */
  function FindByExpirationDate(codes: set<InviteCode>, t: Time): (r: set<InviteCode>)
    ensures forall c :: c in r <==> c in codes && c.expirationDate == t
  {
    set c | c in codes && c.expirationDate == t
  }

  /** `deleteExpiredInviteCodes`: drop every code with `expirationDate < now`, keep the rest. */
  function DeleteExpiredInviteCodes(codes: set<InviteCode>, now: Time): (r: set<InviteCode>)
    ensures forall c :: c in r <==> c in codes && now <= c.expirationDate
  {
    set c | c in codes && !(c.expirationDate < now)
  }

  ghost predicate OneCodePerRoom(codes: set<InviteCode>) {
    forall a, b :: a in codes && b in codes && a.room == b.room ==> a == b
  }

  ghost predicate CodeValuesUnique(codes: set<InviteCode>) {
    forall a, b :: a in codes && b in codes && a.code == b.code ==> a == b
  }

  /** With one code per room the room lookup returns that code whenever it is stored. */
  lemma FindByChatRoomIsExact(codes: set<InviteCode>, c: InviteCode)
    requires OneCodePerRoom(codes)
    requires c in codes
    ensures FindByChatRoom(codes, c.room) == Some(c)
  {
  }

  /** With unique values the value lookup returns the stored code carrying that value. */
  lemma FindByInviteCodeIsExact(codes: set<InviteCode>, c: InviteCode)
    requires CodeValuesUnique(codes)
    requires c in codes
    ensures FindByInviteCode(codes, c.code) == Some(c)
  {
  }
}
