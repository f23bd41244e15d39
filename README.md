# Chat backend core, modelled in Dafny

This project models the core of a NestJS/Sequelize chat backend:

- the chat **queue matcher**, which groups waiting users into rooms and notifies their sockets;
- the **membership table** (`user_room`), which is also the registry of live socket connections and holds each member's read cursor;
- the rules on **rooms and messages**;
- a set of **user-account decision rules**: login selection, email validation codes, bans, image clearing and finance accounts.

Tables are in-memory sequences held as fields of one class per service. Each service operation is one atomic method. Auto-increment keys are counters, and `createdAt` is a strictly increasing clock. Socket emits are appends to an outbox. Each method is proved against pure specification functions. The properties the source promises are proved about those functions as lemmas.

Files:

- `common.dfy`: `Option`, `Result`, the three-valued optional argument `Arg`, the service errors, and the decimal rendering of ids together with its parser.
- `chat.dfy` / `chat_service.dfy`: the queue matcher (`src/chat/chat.service.ts`).
- `messages.dfy` / `message_service.dfy`: rooms, memberships, cursors and messages (`src/messages/message.service.ts`).
- `users.dfy` / `users_service.dfy`: the account rules (`src/users/users.service.ts`).

Conventions:

- A row the code reads and then dereferences without a null check yields `Err(NullDereference)` when it is missing.
- An optional argument of the user rules is an `Arg`: `Omitted` (JavaScript `undefined`), `Null` or `Value(v)`. A Sequelize `update` ignores `undefined` values and writes `null`, so `Omitted` leaves its column unchanged and `Null` clears it. A strict comparison `!==` tells the two apart.
- Time in the user rules is whole minutes, passed in as `now`.

## Model

| member | source | states |
|---|---|---|
| Common.DecimalRoundTrip | src/chat/chat.service.ts:68 | the `${roomId}` text of an id parses back to the same id |
| Common.DecimalStringInjective | src/messages/message.service.ts:237 | two different room ids never give the same string |
| Chat.Oldest | src/chat/chat.service.ts:37-40 | the selection is the first `n` queue rows in creation order, or the whole queue when it is shorter |
| Chat.OldestAreOldest | src/chat/chat.service.ts:37-40 | every selected row is older than every row left behind, whatever each row's own `participants` |
| Chat.WithIdIn | src/chat/chat.service.ts:49-53 | only a length bound (the result is no longer than the selection); what survives is stated by WithIdInMembers |
| Chat.WithIdInMembers | src/chat/chat.service.ts:49-53 | exactly the selected rows whose id names a user survive the lookup, failed lookups dropped |
| Chat.WithIdInAll | src/chat/chat.service.ts:49-53 | when every lookup succeeds, every selected row becomes a member |
| Chat.WithIdInAppend | src/chat/chat.service.ts:48-55 | the lookup filter distributes over concatenation, so FIFO order is kept |
| Chat.MemberRowsSnoc | src/chat/chat.service.ts:51 | each found row adds one `(userId, roomId)` membership at the end |
| Chat.SocketIdsSnoc | src/chat/chat.service.ts:52 | each found row pushes its socket id at the end of `participantIds` |
| Chat.AssignedRoomIdReadsBack | src/chat/chat.service.ts:57-69 | each `roomAssigned` event carries the new room's id as decimal text that reads back as that id |
| Chat.SuffixKeepsOrder | src/chat/chat.service.ts:54 | destroying the oldest rows keeps the rest in order with unique ids |
| Chat.RemoveId | src/chat/chat.service.ts:54 | only a length bound; which rows remain is stated by RemoveAbsentId and RemoveOldest |
| Chat.RemoveAbsentId | src/chat/chat.service.ts:54 | destroying an id no row has changes nothing |
| Chat.RemoveOldest | src/chat/chat.service.ts:54 | destroying the oldest row's id removes exactly that row |
| Chat.RoomUsers | src/chat/chat.service.ts:84-91 | a user id belongs to the room's users iff a membership row links it to the room |
| Chat.MemberRows | src/chat/chat.service.ts:51 | a pointwise definition: one membership per found row, in order, for the new room |
| Chat.SocketIds | src/chat/chat.service.ts:52 | a pointwise definition: the socket ids of the found rows, in order |
| Chat.AssignEmits | src/chat/chat.service.ts:60-68 | a pointwise definition: one `roomAssigned` emit per socket id, in order, with the room id as text; its meaning is stated by AssignedRoomIdReadsBack |
| Chat.NewMessageEmits | src/chat/chat.service.ts:97-103 | a pointwise definition: one `newMessage` emit per target row, carrying the saved message's user id, text and creation time |
| Chat.RoomHistory | src/chat/chat.service.ts:107-118 | the history holds an entry for every message of the room and only entries of messages of that room |
| Chat.RoomHistoryAfter | src/chat/chat.service.ts:109-112 | a bound that every message exceeds is exceeded by every history entry |
| Chat.RoomHistoryAscending | src/chat/chat.service.ts:109-112 | the history is in strictly ascending creation order |
| Chat.RoomHistoryAppend | src/chat/chat.service.ts:77-81 | a message saved to a room becomes the last entry of that room's history; other rooms' histories are unchanged |
| ChatService.ChatService.JoinQueue | src/chat/chat.service.ts:25-33 | one entry is appended before matching; a room is created iff the queue then holds at least `participants` rows; otherwise the append is the only change |
| ChatService.ChatService.MatchQueue | src/chat/chat.service.ts:35-64 | on a match, every selected row is destroyed and the rest stays in order; members and notified sockets are the found rows in FIFO order; otherwise nothing changes |
| ChatService.ChatService.Admit | src/chat/chat.service.ts:47-55 | the loop destroys the selected rows oldest first; members and socket ids are the found rows in FIFO order |
| ChatService.ChatService.NotifyUser | src/chat/chat.service.ts:66-69 | one `roomAssigned` emit to the socket |
| ChatService.ChatService.NotifyAll | src/chat/chat.service.ts:60-62 | one notification per participant socket id, in order |
| ChatService.ChatService.FanOut | src/chat/chat.service.ts:97-103 | one `newMessage` emit per queue row found |
| ChatService.ChatService.SendMessage | src/chat/chat.service.ts:71-105 | the message is always saved; fan-out happens only for an existing room, to queue rows whose id is one of the room's user ids; queue, rooms and memberships are unchanged |
| Messages.WithEventId | src/messages/message.service.ts:62-67 | the display list keeps its length and order; each pick-meeting-date entry gets `eventId` and keeps its `scheduleId`; other entries are unchanged |
| Messages.WithEventIdLastWins | src/messages/message.service.ts:62-67 | stamping again replaces the event id, so applying it twice with one id equals applying it once |
| Messages.AddEventId | src/messages/message.service.ts:59-72 | null iff the message is missing or has no display; otherwise only the display is rewritten |
| Messages.FindMessage | src/messages/message.service.ts:60 | finds a message with that id, or reports that none has it |
| Messages.FindRoom | src/messages/message.service.ts:204 | finds a room with that id, or reports that none has it |
| Messages.FindRow | src/messages/message.service.ts:205-212 | the first row with the `(userId, roomId)` key; none iff the pair is not a member |
| Messages.Upsert | src/messages/message.service.ts:205-212 | afterwards the pair is a member; the table grows by one row iff the pair was not a member before |
| Messages.UpsertMakesMember | src/messages/message.service.ts:205-212 | after an upsert the pair is a member (with the given socket id, if one was given); other keys' rows are untouched; keys stay unique |
| Messages.UpsertExistingWithoutSocket | src/messages/message.service.ts:179-192 | upserting an existing membership without a socket id changes nothing |
| Messages.UpsertIdempotent | src/messages/message.service.ts:205-212 | repeating an upsert changes nothing |
| Messages.FindRowIsFirst | src/messages/message.service.ts:205-212 | the upsert targets the first row holding the key |
| Messages.BindSocket | src/messages/message.service.ts:227-233 | every row of the user gets the socket id; other users' rows are unchanged |
| Messages.RoomIdsOf | src/messages/message.service.ts:234-237 | at most one room id per membership row |
| Messages.RoomIdsOfExactly | src/messages/message.service.ts:234-237 | a room id string is returned iff the user is a member of that room |
| Messages.BindSocketKeepsRooms | src/messages/message.service.ts:223-238 | binding a socket changes no membership, so the returned room list is the same before and after |
| Messages.UnbindSocket | src/messages/message.service.ts:241-248 | every row holding the socket id loses it; no other row changes |
| Messages.UnbindSocketIdempotent | src/messages/message.service.ts:241-248 | afterwards no row holds the id; a second call, or a call with an unknown id, changes nothing |
| Messages.BindThenUnbind | src/messages/message.service.ts:223-248 | a connect then disconnect leaves the user's rows with no socket, and memberships and cursors as they were |
| Messages.AdvanceCursor | src/messages/message.service.ts:250-267 | only the `(userId, roomId)` rows whose cursor is null or strictly smaller get the new cursor |
| Messages.AdvancedCount | src/messages/message.service.ts:250-267 | the affected count is at most the number of rows, and 0 when the pair is not a member |
| Messages.AdvancedRows | src/messages/message.service.ts:250-267 | the rows the `returning` update hands back: as many as the affected count, each with the key and the new cursor |
| Messages.AdvancedRowsAreUpdated | src/messages/message.service.ts:250-267 | each returned row is a row of the updated table and comes from a row whose cursor was behind |
| Messages.CursorNeverDecreases | src/messages/message.service.ts:257-263 | a set cursor stays set and never moves back |
| Messages.ReadOlderIsNoOp | src/messages/message.service.ts:257-263 | reading an older or equal message after a newer one leaves the cursor; repeating a read changes nothing |
| Messages.RepeatedReadAffectsNothing | src/messages/message.service.ts:250-267 | a repeated read affects no row |
| Messages.CursorTime | src/messages/message.service.ts:282-283 | a cursor resolves to a time only when it names a stored message, and then to that message's creation time |
| Messages.CountAfter | src/messages/message.service.ts:278-284 | the count after a time is at most the number of messages |
| Messages.RowUnread | src/messages/message.service.ts:278-284 | a row with a null cursor contributes 0; no row contributes more than the number of messages |
| Messages.UnreadSum | src/messages/message.service.ts:278-292 | the summed count is at most rows times messages |
| Messages.CursorTimeAppend | src/messages/message.service.ts:282-283 | a new message does not change what an unrelated cursor resolves to |
| Messages.CountAfterAppend | src/messages/message.service.ts:278-284 | a newer message of the room adds one to the count after a time |
| Messages.UnreadAfterNewMessage | src/messages/message.service.ts:273-292 | a new message raises the user's unread count by the number of their rows in its room whose cursor names an existing message; rows with a null cursor contribute nothing |
| Messages.UserNullCursorsZero | src/messages/message.service.ts:278-284 | a user whose own rows all have a null cursor has 0 unread, whatever other users' rows hold |
| Messages.NullRowAddsNothing | src/messages/message.service.ts:278-284 | a row with a null cursor adds nothing to the count wherever it stands in the table |
| Messages.UnreadMessagesCount | src/messages/message.service.ts:273-292 | a falsy user id gives 0; a user whose own cursors are all null has 0 unread |
| Messages.CountAfterLatest | src/messages/message.service.ts:278-284 | nothing of a room is newer than a time at or after every message of that room |
| Messages.UnreadZeroWhenCaughtUp | src/messages/message.service.ts:273-292 | when every cursor of the user names the newest message of its own room, or nothing, the count is zero |
| Messages.NoRowNoLiveCursor | src/messages/message.service.ts:278-284 | a user with no row in a room has no live cursor there |
| Messages.LiveCursorsAtMostOne | src/messages/message.service.ts:278-284 | with the membership key unique, a user has at most one live cursor per room, so a new message adds at most one unread |
| Messages.SelectMessages | src/messages/message.service.ts:129-132 | results are exactly the messages of the room, and only the given author's when `query.userId` is set |
| Messages.PaginatedMessages | src/messages/message.service.ts:118-159 | a missing room is a null dereference; a caller with no membership gets NOT_FOUND; otherwise the selected messages, with the room meta iff `includeMeta` |
| Messages.Companions | src/messages/message.service.ts:310-346 | a companion is a room member other than the caller, and the requested user when `query.userId` is set |
| Messages.ListedRooms | src/messages/message.service.ts:348-365 | a room is listed iff the caller is a member and it has at least one companion |
| Messages.CompanionsExcludeCaller | src/messages/message.service.ts:310 | no companion is the caller; each is a member, and is the requested user when one is given |
| Messages.CompanionsOfNewRoom | src/messages/message.service.ts:90-104 | in a room whose only rows are the host's and the addressee's, the host's one companion is the addressee |
| Messages.FindRoomWhere | src/messages/message.service.ts:166-169 | the first room matching the dto fields that were given, and the host |
| Messages.FindOrCreate | src/messages/message.service.ts:161-171 | the returned room matches the dto and the host; it is an existing room when one matches, otherwise a new room appended with the next id |
| Messages.FindOrCreateIdempotent | src/messages/message.service.ts:161-171 | finding or creating again with the same criteria returns the same room and creates nothing |
| Messages.HireRoom | src/messages/message.service.ts:173-196 | the returned room is in the rooms table and matches the dto and the host; at most one room and two memberships are added |
| Messages.HireRoomMembers | src/messages/message.service.ts:173-196 | afterwards the host and the user are both members of the returned room, which matches the dto and the host |
| Messages.HireRoomIdempotent | src/messages/message.service.ts:173-196 | re-running with the same dto and host returns the same room and leaves both tables unchanged |
| MessageService.MessageService.AddEventId | src/messages/message.service.ts:59-72 | saves the rewritten message in place of the old one, or changes nothing and returns null |
| MessageService.MessageService.CreateMessageWithRoom | src/messages/message.service.ts:74-109 | one room hosted by `hostId`, exactly two memberships (host and addressee), one message with the text authored by the host; the returned users are the addressee only; a message to the host itself is an internal error with no change |
| MessageService.MessageService.FindOrCreateRoom | src/messages/message.service.ts:161-171 | the tables follow the find-or-create rule |
| MessageService.MessageService.UpsertMembership | src/messages/message.service.ts:205-212 | the membership table follows the upsert rule, with keys kept unique |
| MessageService.MessageService.CreateHireRoomWithUsers | src/messages/message.service.ts:173-196 | rooms and memberships follow the hire-room rule |
| MessageService.MessageService.AddUserToRoom | src/messages/message.service.ts:198-221 | NOT_FOUND with no membership change when the room is absent; otherwise the pair is upserted with the socket id and the room is returned |
| MessageService.MessageService.AddUserToAllRooms | src/messages/message.service.ts:223-239 | the socket is bound to all of the user's rows, and the user's room ids are returned as text |
| MessageService.MessageService.RemoveUserFromAllRooms | src/messages/message.service.ts:241-248 | the socket id is cleared everywhere, and the result is always `true` |
| MessageService.MessageService.ReadMessage | src/messages/message.service.ts:250-267 | the cursor update rule is applied; the affected-row count and the updated rows are returned, the rows being rows of the new table |
| Users.FirstWithRole | src/users/users.service.ts:262 | the first user with the role value, or none when no user has it |
| Users.SelectLogin | src/users/users.service.ts:250-276 | one or no user for the email is returned, whatever the role; among several, a missing role or no match is Unauthorized, else the first user with the role |
| Users.SingleUserIgnoresRole | src/users/users.service.ts:259-275 | with at most one user for the email, the role makes no difference |
| Users.WithEmail | src/users/users.service.ts:254-257 | exactly the users with the email |
| Users.WithEmailAppend | src/users/users.service.ts:254-257 | the email filter keeps table order |
| Users.ReactionDocumentKey | src/users/users.service.ts:320-336 | accepted iff the reaction table refers to the model's document kind; the join column is `vacancyId` for vacancies and `resumeId` for resumes; otherwise an internal error |
| Users.ResetEmail | src/users/users.service.ts:119-126 | new email, not validated, code and sent-at null; every other column unchanged |
| Users.Written | src/users/users.service.ts:144-147 | an omitted argument leaves the column, a null one clears it, a value is written |
| Users.SetValidationInfo | src/users/users.service.ts:136-150 | the validated flag is written; the code column follows the omitted/null/value rule; no other column but sent-at changes |
| Users.SentAtStampedIffCode | src/users/users.service.ts:136-150 | sent-at becomes now iff a non-empty code is supplied, and is unchanged otherwise |
| Users.Expired | src/users/users.service.ts:160-162 | expired only when a sent-at exists and is ten or more minutes before now |
| Users.CheckCode | src/users/users.service.ts:152-172 | as written: missing user gives a null dereference; conflict iff the stored code and the argument differ under `!==` (an omitted code never matches, a null code matches a null column); then ten or more elapsed minutes is gone; only success sets `emailValidated` |
| Users.NullCodeValidatesResetUser | src/users/users.service.ts:118-172 | as written, a null code validates a row that updateEmail has just reset |
| Users.CheckCodeIntended | src/users/users.service.ts:152-172 | corrected: conflict iff no code value is given or it differs from the stored one; success only for the stored code |
| Users.IntendedAgreesExceptNull | src/users/users.service.ts:152-172 | the corrected check equals the written one for every argument but null |
| Users.MismatchBeforeExpiry | src/users/users.service.ts:156-165 | a wrong code is a conflict at any time, so the mismatch is checked before expiry |
| Users.IssueThenCheck | src/users/users.service.ts:136-172 | a code issued at minute t is accepted before t+10 and gone from t+10 on |
| Users.ResetRejectsEveryCode | src/users/users.service.ts:119-134 | with the corrected check, after an email change every code, null included, is a conflict |
| Users.InitialCandidateStatus | src/users/users.service.ts:72-87 | a status is set only for a candidate or when one is supplied |
| Users.CandidateStatusRule | src/users/users.service.ts:72-87 | a supplied status wins; an omitted one leaves a candidate actively considering offers and other roles with none; a null one clears it |
| Users.FindRole | src/users/users.service.ts:69 | a role with the value, or none when no role has it |
| Users.SetBan | src/users/users.service.ts:490-507 | the flag is written; the reason follows the omitted/null/value rule; a ban stamps the date; nothing else changes |
| Users.UnbanKeepsRecord | src/users/users.service.ts:490-507 | lifting a ban with the reason omitted keeps the last ban date and reason; with a null reason the date is kept and the reason cleared |
| Users.DeleteImage | src/users/users.service.ts:530-548 | missing user gives a null dereference; the image is cleared iff no name is passed or it equals the stored one |
| Users.DeleteImageIdempotent | src/users/users.service.ts:541-547 | deleting twice with one name is deleting once; another name never clears a newer image |
| Users.FinanceAccountId | src/users/users.service.ts:213-226 | a missing user is a null dereference; an unloaded owned list is a null dereference unless the membered list is loaded and too long |
| Users.FinanceAccountIdAsWritten | src/users/users.service.ts:207-226 | as written the call never succeeds |
| Users.FinanceAccountIdAsWrittenAlwaysFails | src/users/users.service.ts:207-226 | as written, every call for an existing user dereferences an unloaded company list |
| Users.FinanceAccountIdLoaded | src/users/users.service.ts:213-226 | a missing user is a null dereference; more than one company of either kind is NOT_IMPLEMENTED; otherwise the owned company's account when it has one, else the membered company's, else none; any account returned belongs to an owned or membered company |
| Users.OwnedAccountFirst | src/users/users.service.ts:220-222 | the owned company's account wins; an owned company without one falls back to the membered company's; with no membered company the owned one's account, possibly none |
| UsersService.Lookup | src/users/users.service.ts:207-211 | the index of the first row with the primary key, or none when no row has it |
| UsersService.FindUser | src/users/users.service.ts:207-211 | a row of the table with the id, and none iff no row has it |
| UsersService.UsersService.Create | src/users/users.service.ts:65-105 | unknown role is NOT_FOUND with no change; otherwise one new row with the next id, the role and the candidate status rule |
| UsersService.UsersService.GetByEmailAndRoleWithPassword | src/users/users.service.ts:250-276 | scans the table for the email and applies the login selection rule |
| UsersService.UsersService.Put | src/users/users.service.ts:121-124 | one row is replaced in place, keeping its id |
| UsersService.UsersService.UpdateEmail | src/users/users.service.ts:119-134 | the user's row gets the new email with validation reset; a missing user changes nothing |
| UsersService.UsersService.UpdateEmailValidationInfo | src/users/users.service.ts:136-150 | the user's row gets the validation-info rule; a missing user changes nothing |
| UsersService.UsersService.CheckEmailValidationCode | src/users/users.service.ts:152-172 | with the corrected check (see Findings), success marks the row validated; any failure returns the error and changes nothing |
| UsersService.UsersService.ChangeIsBanned | src/users/users.service.ts:490-507 | the user's row gets the ban rule; a missing user changes nothing |
| UsersService.UsersService.DeleteImage | src/users/users.service.ts:530-548 | the row is cleared or left as the image rule says; a missing user is an error with no change |
| UsersService.UsersService.GetFinanceAccountId | src/users/users.service.ts:213-226 | the finance account rule with the company lists loaded |

## Findings

| source | as written | input that shows it | evidently intended | confidence | as-written member | corrected member |
|---|---|---|---|---|---|---|
| src/users/users.service.ts:213-226 | `getById` includes only `Role`, so `user.ownedCompanies` is undefined: the length guard is false and `user.ownedCompanies[0]` throws | any existing user id | load both company lists, then apply the guard and the fallback | medium, not executed | Users.FinanceAccountIdAsWrittenAlwaysFails | Users.FinanceAccountIdLoaded |
| src/users/users.service.ts:152-172 | `user.emailValidationCode !== emailValidationCode` is false for a null column and a `null` argument, and `moment().diff(null)` is NaN, so the row is validated without any code | `checkEmailValidationCode(id, null)` for a user just reset by `updateEmail` (or never sent a code) | a null or omitted code is a conflict | low (whether a caller can pass `null` depends on the controller, which is not part of this model), not executed | Users.NullCodeValidatesResetUser | Users.CheckCodeIntended |

## Left out

- Realtime transport (src/socket/socket.gateway.ts) is not part of this model. Two defects are noted there and not modelled. The constructor calls `setServer(this.server)` before the server is injected (lines 37-39). The gateway passes the socket id `client.id` as the user id (lines 55-57).
- HTTP controllers, modules, DTO validation and the Sequelize model decorators are not modelled; their shapes become the datatypes.
- Pagination (`paginate`, `getInfoPagination`) and ordering (`mapQueryToOrderCondition*`) are not modelled. `PaginatedMessages` and `ListedRooms` return every matching row, in table order.
- `getPaginatedAllRooms` search filters are not modelled: the `iLike` text search, the hire and vacancy includes, the rating and vacancy-count subqueries, and the per-room unread and last-message columns. Only the membership and companion filters are modelled.
- Masking of personal data (`mask*`), file storage (`fileService.upsert`/`delete` in `deleteImage`) and logging are not modelled.
- Transactions and concurrency are not modelled. Each operation is one atomic step.
- `ChatService.ChatService.SendMessage`: room and user ids are taken as integers; `parseInt` of the incoming strings is not modelled.
- `ChatService.ChatService.MatchQueue`: requires `participants >= 1`; a limit of zero or below is not modelled.
- The chat service and the messages service map the same `messages` and `rooms` tables (src/chat/models/message.model.ts:20 and src/messages/message.model.ts:35; src/chat/models/room.model.ts:21 and src/messages/room.model.ts:26), and the chat `user_room` model (src/chat/models/user-room.model.ts:18) names the table the messages service upserts into. The model keeps one store per service, so these cross-service effects are not captured:
  - `ChatService.ChatService.SendMessage` does not fan out to members added by `AddUserToRoom`, `CreateHireRoomWithUsers` or `CreateMessageWithRoom`;
  - the message created by `CreateMessageWithRoom` does not appear in the chat `RoomHistory`;
  - `Messages.UnreadMessagesCount` does not count messages sent through the chat `sendMessage`;
  - room ids are drawn from two counters, where the database has one sequence.
- `Messages.FindRoomWhere`, `Messages.FindOrCreate`, `Messages.FindOrCreateIdempotent` and `Messages.HireRoomIdempotent`: `findOrCreate` (src/messages/message.service.ts:166-169) has no `order`, so when several rooms match (an empty dto matches every room of the host, including those `createMessageWithRoom` creates) the database may return any of them. The model fixes the first in table order; the idempotency lemmas return "the same room" only under that choice, and without it only when exactly one room matches.
- `Users.FirstWithRole`, `Users.SelectLogin` and `UsersService.UsersService.GetByEmailAndRoleWithPassword`: the `findAll` by email (src/users/users.service.ts:254-257) has no `order`, so which of two users with the same email and role logs in is up to the database. The model fixes table order.
- `Messages.RoomIdsOf` and `MessageService.MessageService.AddUserToAllRooms`: the `findAll` of the user's rows (src/messages/message.service.ts:234-237) has no `order`; the model fixes table order for the returned room list.
- `ChatService.ChatService.FanOut`: the `findAll` of queue rows (src/chat/chat.service.ts:88-95) has no `order`, so the database may return them in any order; the model fixes table order.
- `MessageService.MessageService.ReadMessage`: the rows a `returning` update hands back are in no guaranteed order; the model fixes table order.
- `MessageService.MessageService.AddUserToRoom` and `Messages.Upsert`: the socket id is `Option`; an explicit `null` socket id, which would clear the column on an existing row, is not distinguished from an omitted one.
- `UsersService.UsersService.CheckEmailValidationCode` applies the corrected check (see Findings); the as-written check is `Users.CheckCode`.
- `Users.CandidateStatusRule`: the `...additional` spread is modelled only for `candidateStatus`. A present but `undefined` key is treated like `null` (`Arg.Null`), and `additional` overriding other columns is not modelled.
- `Users.CandidateRoleValue`: the `Roles` enum (src/roles/roles.model.ts) is not part of this model; the candidate value is a placeholder.
- `MessageService.MessageService.CreateMessageWithRoom`: a message addressed to the host itself repeats the `(userId, roomId)` key. The failed nested insert is an unhandled database error, modelled as `InternalServerError` with no change. The partial writes of a failed nested create are not modelled.
- The `(userId, roomId)` key of `user_room` is treated as unique (the key the upserts rely on). src/messages/user-room.model.ts is not part of this model.
- `Messages.UnreadMessagesCount`: the count is modelled as a number. The raw query result object it is returned in is not modelled.
- `Messages.PaginatedMessages`: the room is read in parallel with the message query, so a missing room fails only after the messages were read. The model has no such ordering.
- `UsersService.UsersService.GetFinanceAccountId` models the corrected rule (see Findings); the as-written rule is `Users.FinanceAccountIdAsWritten`.
