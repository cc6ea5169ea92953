# Toy chat backend: room membership, invite codes and messages in Dafny

This project models the domain core of a Spring chat backend.

- **Room registry.** Users create chat rooms of bounded size (`maxMembers` between 1 and 20). They join rooms directly, list rooms and members, and leave. The creator may only delete a room, and only while they are its sole member.
- **Invite codes.** A room's creator issues one six-digit invite code per room. It expires one hour after creation. Anyone may redeem a live code, and redeeming bypasses the room's capacity check.
- **Expiry sweeper.** A scheduled job is meant to purge expired invite codes. As written, it purges only when some code expires at exactly the sweep instant, so expired codes usually stay stored (see Findings).
- **Message log.** Members post and read a room's messages in creation order. Only a message's author may edit it.
- **User registry.** Users register with a unique username and email, log in, and may delete their account once they are in no room and have authored no message (a message's author reference would otherwise break).

Every service method is a pure transition over one immutable `Store`. The store holds:

- users, rooms and messages, as maps keyed by their generated ids;
- memberships and invite codes, as sets of rows;
- the identity counters.

A call takes the store, the caller's username (what the token names), the request fields and the current time. It answers with a `Status` and the new store. Read-only calls answer with a status and a listing, and cannot change the store.

`Store.Valid` collects the integrity that the schema and the services keep together:

- one membership per (room, user) pair;
- one invite code per room;
- unique code values, usernames and emails;
- every foreign key resolves: a membership's room and user, a code's room, a message's room and author;
- every room's creator is a member of it.

Every mutating request preserves `Valid` (`Backend.ApplyPreservesValid`), and so does every sequence of requests (`Backend.RunPreservesValid`). Every request except redeeming an invite code keeps rooms within `maxMembers` (`Backend.ApplyKeepsCapacityUnlessRedeem`). Redemption breaks that bound: `InviteCodeService.RedeemIgnoresCapacity` proves it in general, and `Scenarios.InviteCodeBypassesCapacity` shows it concretely.

Modules follow the source layout:

- `Common`: the null-able `Option`, `Status`, `hasText` and Java whitespace.
- `Entities`: entities and their JPA hooks.
- `MemberRepository`, `UserRepository`, `InviteCodeRepository`: the derived queries.
- `Store`: the store, its invariant and cascade delete.
- `ChatRoomService`, `InviteCodeService`, `InviteCodeFormat`, `InviteCodeScheduler`, `MessageService`, `AuthService`: the services.
- `Backend`: all mutations as one state machine.
- `Scenarios`: a worked example over a concrete store.

Where the code departs from its documented intent, the model follows the code:

- A code whose expiry equals the current instant is still redeemable, because the code uses a strict `isBefore`.
- Issuing is blocked by any stored code for the room, expired or not.
- The scheduler's sweep as written deletes only codes strictly before `now`, and only when its guard fires (see Findings). `InviteCodeScheduler.Sweep` models it as written. The state machine `Backend.Apply` runs the corrected `InviteCodeScheduler.SweepIntended`, which deletes every expired code.
- Sending a message does not validate its content.
- An edit sets only the content.
- "Already a member" answers Forbidden, "room full" answers BadRequest and "code exists" answers BadRequest, rather than a conflict or capacity error.

## Model

| member | source | states |
|---|---|---|
| Common.ContainsTextIffSomeNonWhitespace | backend/src/main/java/com/example/toychat/service/AuthService.java:75 | Spring's left-to-right scan for a non-whitespace character finds one exactly when some character of the string is not Java whitespace |
| Common.HasText | backend/src/main/java/com/example/toychat/service/AuthService.java:75-90 | `hasText` holds exactly when the value is not null and the left-to-right scan finds a non-whitespace character |
| Common.HasTextIsStricter | backend/src/main/java/com/example/toychat/service/ChatRoomService.java:59-65 | Every text that passes `hasText` is non-empty, but a blank title such as `" "` passes the room title check (`isEmpty` only) while failing `hasText` |
| Entities.RoomPrePersist | backend/src/main/java/com/example/toychat/entity/ChatRoom.java:49-53 | Persisting a room stamps both `createdAt` and `updatedAt` with the persist time and changes no other field |
| Entities.RoomPreUpdate | backend/src/main/java/com/example/toychat/entity/ChatRoom.java:55-58 | An update sets `updatedAt` to the update time whatever it was and keeps every other field; `createdAt` is kept, so a room with `createdAt <= updatedAt <= now` stays ordered |
| Entities.CodePrePersist | backend/src/main/java/com/example/toychat/entity/InviteCode.java:33-37 | Persisting a code stamps `createdAt` now and `expirationDate` exactly one hour later, keeping its room and value |
| MemberRepository.FindByChatRoom | backend/src/main/java/com/example/toychat/repository/ChatRoomMemberRepository.java:24 | Returns exactly the stored membership rows of the room |
| MemberRepository.FindChatRoomsByUser | backend/src/main/java/com/example/toychat/repository/ChatRoomMemberRepository.java:20-21 | A room is returned iff it exists and the user holds a membership row in it |
| MemberRepository.DeleteByChatRoomAndUser | backend/src/main/java/com/example/toychat/repository/ChatRoomMemberRepository.java:27 | Removes that pair's rows only: afterwards the pair has no row, every other row is kept, and an absent pair leaves the rows unchanged |
| MemberRepository.ExistsIffRowOfRoom | backend/src/main/java/com/example/toychat/repository/ChatRoomMemberRepository.java:14 | `existsByChatRoomAndUser` holds exactly when one of the rows `findByChatRoom` returns for the room is the user's, and then the room's count is at least 1 |
| MemberRepository.CountAfterInsert | backend/src/main/java/com/example/toychat/repository/ChatRoomMemberRepository.java:17 | Inserting a row for a pair not yet present raises that room's count by exactly one and no other room's count |
| MemberRepository.CountOfFreshRoom | backend/src/main/java/com/example/toychat/repository/ChatRoomMemberRepository.java:17 | A room without rows counts 0, and adding one row makes it count 1 |
| MemberRepository.CountZeroIffNoRows | backend/src/main/java/com/example/toychat/repository/ChatRoomMemberRepository.java:17 | The count of a room is 0 iff no membership row refers to it |
| MemberRepository.TwoMembersCountAtLeastTwo | backend/src/main/java/com/example/toychat/repository/ChatRoomMemberRepository.java:14-17 | Rows for two different users in one room make its count at least 2 |
| MemberRepository.CountMonotone | backend/src/main/java/com/example/toychat/repository/ChatRoomMemberRepository.java:17 | Removing rows never raises a room's count |
| UserRepository.FindByUsername | backend/src/main/java/com/example/toychat/repository/UserRepository.java:11 | Finds a user holding the name when one exists and answers empty iff no user holds it |
| UserRepository.FindByEmail | backend/src/main/java/com/example/toychat/repository/UserRepository.java:14 | Finds a user holding the email when one exists and answers empty iff no user holds it |
| UserRepository.FindByUsernameIsExact | backend/src/main/java/com/example/toychat/repository/UserRepository.java:11 | With unique usernames the lookup of a stored user's name returns that very user |
| UserRepository.FindByEmailIsExact | backend/src/main/java/com/example/toychat/repository/UserRepository.java:14 | With unique emails the lookup of a stored user's email returns that very user |
| InviteCodeRepository.FindByChatRoom | backend/src/main/java/com/example/toychat/repository/InviteCodeRepository.java:17 | Returns a stored code of the room, and answers empty iff the room has none |
| InviteCodeRepository.FindByInviteCode | backend/src/main/java/com/example/toychat/repository/InviteCodeRepository.java:20 | Returns a stored code with exactly that value, and answers empty iff there is none |
| InviteCodeRepository.FindByExpirationDate | backend/src/main/java/com/example/toychat/repository/InviteCodeRepository.java:23 | Returns exactly the codes whose expiry equals the argument |
| InviteCodeRepository.DeleteExpiredInviteCodes | backend/src/main/java/com/example/toychat/repository/InviteCodeRepository.java:26-28 | Keeps exactly the codes with `now <= expirationDate` and removes those strictly before `now` |
| InviteCodeRepository.FindByChatRoomIsExact | backend/src/main/java/com/example/toychat/entity/InviteCode.java:20-22 | Under the unique `chatroom_id` column, the room lookup returns the room's one stored code |
| InviteCodeRepository.FindByInviteCodeIsExact | backend/src/main/java/com/example/toychat/entity/InviteCode.java:24-25 | Under the unique `invite_code` column, the value lookup returns the one code with that value |
| Store.EmptyStoreIsValid | backend/src/main/java/com/example/toychat/entity/ChatRoomMember.java:10-30 | The empty database satisfies every schema constraint `Valid` collects (the membership table's unique pair and non-null foreign keys; the room title length and creator reference of ChatRoom.java; the unique room and value columns and one-hour expiry of InviteCode.java) and every service invariant |
| Store.CascadeDeleteRoom | backend/src/main/java/com/example/toychat/entity/ChatRoom.java:40-47 | Deleting a room removes it and exactly its memberships, code and messages; users and all other rows are untouched |
| Store.CascadeDeletePreservesValid | backend/src/main/java/com/example/toychat/entity/ChatRoom.java:40-47 | Cascade deletion leaves no dangling membership, code or message and keeps every other room's creator a member |
| ChatRoomService.CreateChatRoom | backend/src/main/java/com/example/toychat/service/ChatRoomService.java:55-113 | BadRequest iff the title is null/empty or `maxMembers` is outside [1,20], before the user lookup; NotFound iff those pass and the user is unknown; once all of those pass, StorageFailure iff the title is longer than 100 characters; error paths leave the store alone; success adds one room with the caller as creator and the given title, size and privacy, plus the creator's membership, and nothing else |
| ChatRoomService.CreateChatRoomPreservesValid | backend/src/main/java/com/example/toychat/service/ChatRoomService.java:89-101 | The created room is new, its creator is a member and its count is 1, and the store stays valid |
| ChatRoomService.InsertRoomWithCreatorPreservesValid | backend/src/main/java/com/example/toychat/service/ChatRoomService.java:89-101 | Saving a room with a fresh id and then its creator's membership keeps every invariant and makes the room's count exactly 1 |
| ChatRoomService.JoinChatRoom | backend/src/main/java/com/example/toychat/service/ChatRoomService.java:122-175 | Null id BadRequest, unknown user NotFound, unknown room NotFound, already a member Forbidden, count >= maxMembers BadRequest, in that order; Ok iff all pass; success adds exactly the caller's membership and nothing else |
| ChatRoomService.JoinChatRoomRespectsCapacity | backend/src/main/java/com/example/toychat/service/ChatRoomService.java:161-170 | A successful direct join raises the room's count by one, to at most `maxMembers`, and no other room's count moves |
| ChatRoomService.JoinChatRoomKeepsCapacity | backend/src/main/java/com/example/toychat/service/ChatRoomService.java:161-170 | If every room is within `maxMembers` before a direct join, every room still is after it |
| ChatRoomService.CreateChatRoomKeepsCapacity | backend/src/main/java/com/example/toychat/service/ChatRoomService.java:89-101 | Creating a room keeps every room within `maxMembers` |
| ChatRoomService.LeaveOrDeleteKeepsCapacity | backend/src/main/java/com/example/toychat/service/ChatRoomService.java:356-373 | Leaving or deleting keeps every room within `maxMembers` |
| ChatRoomService.JoinChatRoomPreservesValid | backend/src/main/java/com/example/toychat/service/ChatRoomService.java:167-170 | A direct join keeps the store valid (the duplicate check keeps the membership pairs unique) |
| ChatRoomService.GetAllChatRooms | backend/src/main/java/com/example/toychat/service/ChatRoomService.java:183-220 | NotFound with an empty list iff the user is unknown; otherwise every room appears exactly once, each entry carrying its room's title, size, privacy and live membership count |
| ChatRoomService.GetMyChatRooms | backend/src/main/java/com/example/toychat/service/ChatRoomService.java:228-267 | NotFound with an empty list iff the user is unknown; otherwise the entries are exactly the rooms the caller holds a membership in, once each, with live counts |
| ChatRoomService.JoinedRoomIsListed | backend/src/main/java/com/example/toychat/service/ChatRoomService.java:228-267 | After a successful direct join the room is on the caller's own list, with the count one higher than before |
| ChatRoomService.LeftRoomIsNotListed | backend/src/main/java/com/example/toychat/service/ChatRoomService.java:330-373 | After a successful leave or delete the room is no longer on the caller's own list |
| ChatRoomService.ListedRoomsAreNeverEmpty | backend/src/main/java/com/example/toychat/service/ChatRoomService.java:198-216 | In a valid store every listed room reports at least one current member, its creator |
| ChatRoomService.GetChatRoomMembers | backend/src/main/java/com/example/toychat/service/ChatRoomService.java:276-320 | NotFound iff the user or room is unknown, Forbidden iff the caller is not a member; a member gets exactly the views (user id, username, joinedAt) of the room's membership rows |
| ChatRoomService.MemberListOnePerRow | backend/src/main/java/com/example/toychat/service/ChatRoomService.java:310-316 | The source returns a list with one entry per row; in a valid store two rows of one room never share a view, so a member's list has as many entries as the room's count, and the creator is on it |
| ChatRoomService.LeaveOrDeleteChatRoom | backend/src/main/java/com/example/toychat/service/ChatRoomService.java:330-374 | NotFound iff user or room unknown; Forbidden iff the caller is the creator and the count is not 1; the creator's Ok cascades the room away; a non-creator's Ok removes only their own membership, with no membership check |
| ChatRoomService.CreatorDeletesOnlyWhenAlone | backend/src/main/java/com/example/toychat/service/ChatRoomService.java:356-368 | In a valid store the creator's call succeeds iff every membership row of the room is the creator's own; then the room is gone, otherwise nothing changes |
| ChatRoomService.NonCreatorOnlyLeaves | backend/src/main/java/com/example/toychat/service/ChatRoomService.java:369-373 | A non-creator always gets Ok, the rooms are unchanged, the caller is no longer a member and the creator's membership is untouched |
| ChatRoomService.LeaveOrDeletePreservesValid | backend/src/main/java/com/example/toychat/service/ChatRoomService.java:356-373 | Leaving or deleting keeps the store valid; in particular every remaining room's creator is still a member |
| InviteCodeFormat.ZeroPad | backend/src/main/java/com/example/toychat/service/InviteCodeService.java:104 | Rendering a number below 10^width gives exactly `width` characters, all decimal digits |
| InviteCodeFormat.ParseZeroPad | backend/src/main/java/com/example/toychat/service/InviteCodeService.java:104 | Reading a zero-padded rendering back as decimal gives the original number |
| InviteCodeFormat.FormatCode | backend/src/main/java/com/example/toychat/service/InviteCodeService.java:104 | The code for n in [0, 999999] is six characters, all digits, and parses back to n |
| InviteCodeFormat.FormatCodeInjective | backend/src/main/java/com/example/toychat/service/InviteCodeService.java:104 | Two draws give the same code iff they are the same number |
| InviteCodeFormat.LeadingZerosKept | backend/src/main/java/com/example/toychat/service/InviteCodeService.java:104 | The draw 42 yields the code `000042`: the padding is zeros on the left |
| InviteCodeService.CreateInviteCode | backend/src/main/java/com/example/toychat/service/InviteCodeService.java:57-115 | Null id BadRequest, unknown user NotFound, unknown room NotFound, non-creator Forbidden, a code already stored for the room BadRequest, in that order; once those pass, the answer is Created exactly when the drawn value collides with no stored code (else StorageFailure); errors change nothing; success stores exactly one code for the room with the formatted value, created now and expiring an hour later, and answers that value |
| InviteCodeService.ExpiredCodeStillBlocksIssuance | backend/src/main/java/com/example/toychat/service/InviteCodeService.java:97-101 | A stored code of the room blocks issuing even after it has expired |
| InviteCodeService.CreateInviteCodePreservesValid | backend/src/main/java/com/example/toychat/service/InviteCodeService.java:104-114 | Issuing keeps one code per room, unique code values and the one-hour expiry |
| InviteCodeService.JoinByInviteCode | backend/src/main/java/com/example/toychat/service/InviteCodeService.java:124-171 | BadRequest iff the code is null; unknown user NotFound; no live code with that value NotFound; for a known user and a live code (values unique), Forbidden iff the caller is already in the code's room and Ok iff not; success means a stored, unexpired code whose room the caller was not in, and adds exactly the caller's membership to that room |
| InviteCodeService.RedeemIgnoresCapacity | backend/src/main/java/com/example/toychat/service/InviteCodeService.java:153-167 | A live code admits any known non-member and raises the room's count by one, whatever the count and `maxMembers` |
| InviteCodeService.CodeExpiringNowIsAccepted | backend/src/main/java/com/example/toychat/service/InviteCodeService.java:148-152 | A code is accepted at exactly its expiry instant and refused one second later |
| InviteCodeService.RedeemKeepsCodeAndRepeatIsForbidden | backend/src/main/java/com/example/toychat/service/InviteCodeService.java:149-170 | Redeeming leaves the codes untouched; the same caller redeeming again at any instant never gets in: Forbidden as already a member exactly while the code is live (up to its expiry), NotFound afterwards |
| InviteCodeService.IssuedCodeAdmitsWithinTheHour | backend/src/main/java/com/example/toychat/service/InviteCodeService.java:104-170 | The code just issued lets any known non-member join the room at any time up to one hour after issue |
| InviteCodeService.JoinByInviteCodePreservesValid | backend/src/main/java/com/example/toychat/service/InviteCodeService.java:164-167 | Redeeming keeps the store valid |
| InviteCodeScheduler.Sweep | backend/src/main/java/com/example/toychat/scheduler/InviteCodeScheduler.java:24-34 | Only codes change and none is added; with no code expiring at exactly `now` nothing changes; otherwise exactly the codes with `now <= expirationDate` remain |
| InviteCodeScheduler.SweepKeepsRedeemableCodes | backend/src/main/java/com/example/toychat/scheduler/InviteCodeScheduler.java:25-31 | The sweep never removes a code that redemption would still accept |
| InviteCodeScheduler.SweepIdempotent | backend/src/main/java/com/example/toychat/scheduler/InviteCodeScheduler.java:24-34 | Sweeping twice at the same instant equals sweeping once |
| InviteCodeScheduler.SweepPreservesValid | backend/src/main/java/com/example/toychat/scheduler/InviteCodeScheduler.java:24-34 | The sweep keeps the store valid |
| InviteCodeScheduler.ExpiredCodeSurvivesSweep | backend/src/main/java/com/example/toychat/scheduler/InviteCodeScheduler.java:27-29 | When no code expires at exactly `now`, an already expired code is still stored after the sweep |
| InviteCodeScheduler.SweepGuardCounterexample | backend/src/main/java/com/example/toychat/scheduler/InviteCodeScheduler.java:27-31 | A store holding one code that expired at 3600 still holds it after a sweep at 3601 |
| InviteCodeScheduler.SweepIntended | backend/src/main/java/com/example/toychat/repository/InviteCodeRepository.java:26-28 | The corrected sweep changes only codes and keeps exactly the codes redemption would still accept |
| InviteCodeScheduler.SweepIntendedProperties | backend/src/main/java/com/example/toychat/scheduler/InviteCodeScheduler.java:24-34 | After the corrected sweep no expired code remains; it is idempotent; it agrees with the as-written sweep whenever that sweep's guard fires |
| InviteCodeScheduler.SweepIntendedPreservesValid | backend/src/main/java/com/example/toychat/repository/InviteCodeRepository.java:26-28 | The corrected sweep keeps the store valid |
| MessageService.RoomMessages | backend/src/main/java/com/example/toychat/repository/MessageRepository.java:11 | The stored messages whose room is the given room, and only those |
| MessageService.EarliestExists | backend/src/main/java/com/example/toychat/repository/MessageRepository.java:11 | Every non-empty set of messages has one created no later than all others |
| MessageService.OrderByCreatedAt | backend/src/main/java/com/example/toychat/repository/MessageRepository.java:11 | Lists each message of the set exactly once, in non-decreasing `createdAt` |
| MessageService.SendMessage | backend/src/main/java/com/example/toychat/service/MessageService.java:56-80 | NotFound iff user or room unknown, Forbidden iff the caller is not a member; success adds exactly one message under a new id, in that room, by the caller, with the content as given (no validation), stamped now |
| MessageService.SendMessagePreservesValid | backend/src/main/java/com/example/toychat/service/MessageService.java:73-79 | The new message gets an id not used before, and the store stays valid |
| MessageService.GetMessages | backend/src/main/java/com/example/toychat/service/MessageService.java:88-111 | The same gate as sending; a member gets exactly the room's messages, each once, ordered by non-decreasing creation time |
| MessageService.NonMemberCannotSendOrRead | backend/src/main/java/com/example/toychat/service/MessageService.java:67-70 | A known user who is not a member of an existing room gets Forbidden for both sending and reading, with the store unchanged |
| MessageService.UpdateMessage | backend/src/main/java/com/example/toychat/service/MessageService.java:122-142 | NotFound iff the user or message is unknown; Ok iff the caller authored the message, whatever their membership; success replaces only that message's content |
| MessageService.UpdateMessageIgnoresRoomArgument | backend/src/main/java/com/example/toychat/service/MessageService.java:122-139 | The room id passed to an edit has no influence on its outcome |
| MessageService.UpdateMessagePreservesValid | backend/src/main/java/com/example/toychat/service/MessageService.java:138-139 | An edit keeps the message's id, room, author and creation time, and the store valid |
| AuthService.Register | backend/src/main/java/com/example/toychat/service/AuthService.java:71-113 | Blank username, blank password, then blank or '@'-less email are BadRequest, in that order; a taken username or email is Forbidden; errors change nothing; success adds exactly one user with the given name, email and hash under a new id |
| AuthService.RegisterPreservesValid | backend/src/main/java/com/example/toychat/service/AuthService.java:93-106 | Registration keeps usernames and emails unique and the store valid |
| AuthService.Login | backend/src/main/java/com/example/toychat/service/AuthService.java:121-159 | BadRequest iff the email is blank or lacks '@' or the password is blank; Unauthorized iff the email is unknown or the password does not match; success grants a token for the username of the user holding that email and matching password |
| AuthService.LoginIssuesTokenForOwner | backend/src/main/java/com/example/toychat/service/AuthService.java:137-158 | In a valid store a user whose password matches logs in with their own email and gets a token for exactly their own username |
| AuthService.UserChatRooms | backend/src/main/java/com/example/toychat/service/AuthService.java:183 | `user.getChatRooms()`: every listed room is stored and holds a membership row of the user, and in a store whose rows are referenced the list is empty exactly when the user has no membership row |
| AuthService.DeleteUser | backend/src/main/java/com/example/toychat/service/AuthService.java:167-195 | NotFound iff the user is unknown; BadRequest iff the user is in some room; StorageFailure iff the user is in no room but authored a message (the delete breaks the message's foreign key); otherwise exactly that user is removed, no message of theirs remains, and nothing else changes |
| AuthService.DeleteUserPreservesValid | backend/src/main/java/com/example/toychat/service/AuthService.java:183-189 | Any answer of `deleteUser` leaves the store valid; after a successful delete every membership's user, every room's creator and every message's author is still a stored user |
| AuthService.RemoveUnreferencedUserPreservesValid | backend/src/main/java/com/example/toychat/service/AuthService.java:183-189 | Removing a user with no membership and no message keeps the store valid, and every room's creator is still stored (a creator is always a member) |
| Backend.Apply | backend/src/main/java/com/example/toychat/service/ChatRoomService.java:55-373 | One request to any service entry point (room creation, join and leave/delete here; code issue and redeem, message send and edit, registration and account deletion, and the corrected sweep in their own services): only registration and account deletion change the users, only room creation adds rooms, and the id counters never decrease |
| Backend.ApplyPreservesValid | backend/src/main/java/com/example/toychat/entity/ChatRoomMember.java:10-11 | Every mutating request keeps the store valid |
| Backend.RunPreservesValid | backend/src/main/java/com/example/toychat/entity/ChatRoomMember.java:10-30 | Any sequence of requests from a valid store ends in a valid store: one membership per (room, user) pair with both references resolving, one code per room with unique values and a one-hour expiry (InviteCode.java), every room's creator a member |
| Backend.SweepUnblocksIssuance | backend/src/main/java/com/example/toychat/service/InviteCodeService.java:97-114 | After the corrected sweep, a creator whose room's code has expired can issue a new code, unless the draw collides with a live code |
| Backend.ApplyNeverRewritesRows | backend/src/main/java/com/example/toychat/entity/ChatRoomMember.java:29-30 | In a valid store, a membership or code row after a request that was not there before is stamped now and is for a pair (or room) that had no row, so no row is re-stamped and neither `joinedAt` nor a code's `createdAt` (InviteCode.java:30-31) ever changes |
| Backend.SameRoomsAndMembersKeepCapacity | backend/src/main/java/com/example/toychat/service/ChatRoomService.java:161-164 | A request that leaves the rooms and the membership rows alone keeps every room within `maxMembers` |
| Backend.ApplyKeepsCapacityUnlessRedeem | backend/src/main/java/com/example/toychat/service/ChatRoomService.java:161-164 | Every request except a redemption keeps each room within `maxMembers` |
| Scenarios.ThreeUsersValid | backend/src/main/java/com/example/toychat/service/AuthService.java:93-99 | A store with three distinct users is valid and finds each by username |
| Scenarios.CreateStep | backend/src/main/java/com/example/toychat/service/ChatRoomService.java:89-101 | Alice's room for two is created as room 1 with her as its only member |
| Scenarios.BobJoinsStep | backend/src/main/java/com/example/toychat/service/ChatRoomService.java:161-170 | Bob joins directly, bringing the count to 2 |
| Scenarios.CarolRefusedStep | backend/src/main/java/com/example/toychat/service/ChatRoomService.java:161-164 | Carol's direct join to the full room is refused with BadRequest |
| Scenarios.IssueStep | backend/src/main/java/com/example/toychat/service/InviteCodeService.java:104-114 | Alice issues the code `000042` for the room |
| Scenarios.InviteCodeBypassesCapacity | backend/src/main/java/com/example/toychat/service/InviteCodeService.java:153-167 | Carol redeems the code and the room of two ends with three members |

## Left out

- Tokens. JWT issuance, parsing and validation are left out. The caller is the username that `extractUsername` yields, passed as a string.
- Password hashing. BCrypt is left out: `register` takes the encoder's output as a parameter, and `login` takes the `matches` check as a function parameter.
- `Math.random()`. The random draw scaled to [0, 999999] is a parameter. The floating-point product and its truncating cast are not modelled.
- The `@Scheduled` timer and `@Transactional` boundaries. Each operation is one atomic step of the store. Concurrent interleavings, e.g. two joins racing past the capacity check, are out of scope.
- WebSocket fan-out, REST controllers, bearer-header stripping and DTO/JSON mapping. The security configuration, the exception handler, the logging and the frontend are left out too. The model answers with a `Status` instead of an HTTP response.
- Exceptions. `ResponseStatusException` thrown in the message service is modelled as the error status it carries.
- Storage failures. A save rejected by a column constraint is the status `StorageFailure`. This covers a title over 100 characters and a random code colliding with a stored one. The database's exception handling is not modelled.
- Message and User entities. They are not part of this model. A message carries only id, room, author, content and two timestamps, with `createdAt = updatedAt = now` on send. A user carries only id, username, email and password hash. `User.getChatRooms()` is read as the rooms where the user holds a membership.
- AuthService.DeleteUser: the User entity's mapping of its messages is not part of this model. A message's author is read as a plain, non-cascading foreign key, so deleting a user who authored a message is the rejected save `StorageFailure`, not a cascade that also deletes the messages.
- MessageService.UpdateMessage: the edit does not refresh `updatedAt`. The service only sets the content, and the Message entity's hooks are not part of this model.
- MessageService.OrderByCreatedAt: the order among messages with equal `createdAt` is whatever the database returns. The model fixes only the non-decreasing order.
- Entity equality. `getCreator().equals(user)` and `getUser().equals(user)` are read as equality of ids.
- `maxMembers == null`. ChatRoomService.java:60 compares `getMaxMembers()` with `null`, but ChatRoomCreateRequestDTO.java:18 declares the field a primitive `int`, so that line does not compile as written. The model reads the request as carrying an `int` and drops the null test.
- `isPrivate` default. Its default of `false` is never observed, because `createChatRoom` always copies the request's flag.
- Room updates. `ChatRoom.preUpdate` is modelled as `Entities.RoomPreUpdate`. No service path updates a stored room, so no transition calls it.
- `loadUserByUsername` is left out. It is only the security framework's user lookup.
- Unicode whitespace. Java whitespace is modelled as the fixed set of code points that `Character.isWhitespace` accepts. Supplementary characters and surrogate pairs are not modelled.

## Findings

| source | as written | input that shows it | evidently intended | confidence | as-written member | corrected member |
|---|---|---|---|---|---|---|
| backend/src/main/java/com/example/toychat/scheduler/InviteCodeScheduler.java:27-31 | The bulk delete of expired codes runs only when `findByExpirationDate(now)` finds a code whose expiry equals the sweep instant exactly, so expired codes are almost never removed, and an expired code keeps blocking new codes for its room | One code expiring at 3600 and a sweep at 3601: no code expires at exactly 3601, so the expired code stays stored (and `createInviteCode` for its room keeps answering BadRequest) | Every sweep deletes all codes that expired before `now`, unconditionally | not executed | InviteCodeScheduler.SweepGuardCounterexample | InviteCodeScheduler.SweepIntendedProperties |
