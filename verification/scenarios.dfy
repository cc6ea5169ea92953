/**
 * A worked scenario over a concrete store: a room for two is filled by
 * direct joins, a third direct join is refused as full, and an invite code
 * then lets the third user in anyway.
 */
module Scenarios {
  import opened Common
  import opened Entities
  import opened Store
  import Users = UserRepository
  import Members = MemberRepository
  import InviteCodeFormat
  import ChatRoomService
  import InviteCodeService

  const Alice: User := User(1, "alice", "alice@example.com", "h1")
  const Bob: User := User(2, "bob", "bob@example.com", "h2")
  const Carol: User := User(3, "carol", "carol@example.com", "h3")

  /** Three registered users and nothing else. */
  const ThreeUsers: Store := EmptyStore.(users := map[1 := Alice, 2 := Bob, 3 := Carol], nextUserId := 4)

  lemma ThreeUsersValid()
    ensures Valid(ThreeUsers)
    ensures Caller(ThreeUsers, "alice") == Some(1)
    ensures Caller(ThreeUsers, "bob") == Some(2)
    ensures Caller(ThreeUsers, "carol") == Some(3)
  {
    var u := ThreeUsers.users;
    assert Users.UsernamesUnique(u);
    assert Users.EmailsUnique(u);
    Users.FindByUsernameIsExact(u, 1);
    Users.FindByUsernameIsExact(u, 2);
    Users.FindByUsernameIsExact(u, 3);
  }

  ghost function AfterCreate(): Reply<RoomId> {
    ChatRoomService.CreateChatRoom(ThreeUsers, "alice", Some("general"), 2, false, 10)
  }

  ghost function AfterBobJoins(): Step {
    ChatRoomService.JoinChatRoom(AfterCreate().store, "bob", Some(1), 20)
  }

  ghost function AfterCarolJoins(): Step {
    ChatRoomService.JoinChatRoom(AfterBobJoins().store, "carol", Some(1), 30)
  }

  ghost function AfterIssue(): Reply<string> {
    InviteCodeService.CreateInviteCode(AfterCarolJoins().store, "alice", Some(1), 42, 40)
  }

  ghost function AfterRedeem(): Step {
    InviteCodeService.JoinByInviteCode(AfterIssue().store, "carol", AfterIssue().body, 50)
  }

  /** Alice's room for two is created with her as its only member. */
  lemma CreateStep()
    ensures AfterCreate().status == Created && AfterCreate().body == Some(1)
    ensures Valid(AfterCreate().store)
    ensures AfterCreate().store.users == ThreeUsers.users
    ensures AfterCreate().store.rooms[1].maxMembers == 2
    ensures AfterCreate().store.rooms[1].creator == 1
    ensures AfterCreate().store.members == {ChatRoomMember(1, 1, 10)}
    ensures AfterCreate().store.codes == {}
  {
    ThreeUsersValid();
    ChatRoomService.CreateChatRoomPreservesValid(ThreeUsers, "alice", Some("general"), 2, false, 10);
  }

  /** Bob joins directly: the room is now at capacity. */
  lemma BobJoinsStep()
    ensures AfterBobJoins().status == Ok
    ensures Valid(AfterBobJoins().store)
    ensures Members.CountByChatRoom(AfterBobJoins().store.members, 1) == 2
    ensures !Members.ExistsByChatRoomAndUser(AfterBobJoins().store.members, 1, 3)
    ensures AfterBobJoins().store.(members := AfterCreate().store.members) == AfterCreate().store
  {
    CreateStep();
    ThreeUsersValid();
    var s1 := AfterCreate().store;
    assert Members.FindByChatRoom(s1.members, 1) == {ChatRoomMember(1, 1, 10)};
    assert !Members.ExistsByChatRoomAndUser(s1.members, 1, 2);
    ChatRoomService.JoinChatRoomRespectsCapacity(s1, "bob", Some(1), 20);
    ChatRoomService.JoinChatRoomPreservesValid(s1, "bob", Some(1), 20);
  }

  /** Carol's direct join is refused as full and changes nothing. */
  lemma CarolRefusedStep()
    ensures AfterCarolJoins().status == BadRequest
    ensures AfterCarolJoins().store == AfterBobJoins().store
  {
    BobJoinsStep();
    CreateStep();
    ThreeUsersValid();
  }

  /** Alice issues the code for draw 42. */
  lemma IssueStep()
    ensures AfterIssue().status == Created && AfterIssue().body == Some("000042")
  {
    CarolRefusedStep();
    BobJoinsStep();
    CreateStep();
    ThreeUsersValid();
    InviteCodeFormat.LeadingZerosKept();
  }

  /**
   * Alice creates a room with `maxMembers = 2`; Bob joins directly; Carol's
   * direct join is refused as full (BadRequest); Alice issues a code and
   * Carol redeems it, leaving three members in a room for two.
   */
  lemma InviteCodeBypassesCapacity()
    ensures AfterCreate().status == Created
    ensures AfterBobJoins().status == Ok
    ensures AfterCarolJoins().status == BadRequest
    ensures AfterIssue().status == Created && AfterIssue().body == Some("000042")
    ensures AfterRedeem().status == Ok
    ensures Members.CountByChatRoom(AfterRedeem().store.members, 1) == 3
    ensures AfterRedeem().store.rooms[1].maxMembers == 2
  {
    CreateStep();
    BobJoinsStep();
    CarolRefusedStep();
    IssueStep();
    ThreeUsersValid();
    var s2 := AfterCarolJoins().store;
    InviteCodeService.CreateInviteCodePreservesValid(s2, "alice", Some(1), 42, 40);
    var c := InviteCode(1, "000042", 40, 40 + OneHour);
    assert c in AfterIssue().store.codes;
    InviteCodeService.RedeemIgnoresCapacity(AfterIssue().store, "carol", c, 50);
  }
}
