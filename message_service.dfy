/** MessageService of src/messages/message.service.ts: the rooms,
    `user_room` and messages tables as fields updated in place. Each
    operation is one atomic step. */
module MessageService {
  import opened Common
  import opened Messages

  class MessageService {
    var rooms: seq<Room>
    var userRooms: seq<UserRoom>
    var messages: seq<Message>
    /** Next auto-increment keys and the creation-time counter. */
    var nextRoomId: nat
    var nextMessageId: nat
    var clock: nat

    /** Keys are unique and below the next key, memberships refer to
        allocated rooms, and messages are in creation order. */
    ghost predicate Valid()
      reads this`rooms, this`userRooms, this`messages, this`nextRoomId, this`nextMessageId, this`clock
    {
      && (forall i :: 0 <= i < |rooms| ==> rooms[i].id < nextRoomId)
      && (forall i, j :: 0 <= i < j < |rooms| ==> rooms[i].id != rooms[j].id)
      && UniqueKeys(userRooms)
      && (forall i :: 0 <= i < |userRooms| ==> userRooms[i].roomId < nextRoomId)
      && (forall i :: 0 <= i < |messages| ==> messages[i].id < nextMessageId && messages[i].createdAt < clock)
      && (forall i, j :: 0 <= i < j < |messages| ==> messages[i].createdAt < messages[j].createdAt)
    }

    constructor ()
      ensures Valid()
      ensures rooms == [] && userRooms == [] && messages == []
    {
      rooms, userRooms, messages := [], [], [];
      nextRoomId, nextMessageId, clock := 1, 1, 0;
    }

    /** addEventId: rewrite and save the message's display list; null when
        the message is missing or has none. */
    method AddEventId(messageId: nat, eventId: int) returns (r: Option<Message>)
      requires Valid()
      modifies this`messages
      ensures Valid()
      ensures var k := FindMessage(old(messages), messageId);
        && r == Messages.AddEventId(if k.Some? then Some(old(messages)[k.value]) else None, eventId)
        && messages == (if r.Some? then old(messages)[k.value := r.value] else old(messages))
    {
      var k := FindMessage(messages, messageId);
      r := Messages.AddEventId(if k.Some? then Some(messages[k.value]) else None, eventId);
      if r.Some? {
        messages := messages[k.value := r.value];
      }
    }

    /** createMessageWithRoom: one room hosted by `hostId`, the memberships
        of the host and the addressee, and one message from the host. The
        returned user list is the room's users other than the host. A
        message addressed to the host itself repeats the membership key, so
        the nested insert fails and the caller sees an internal error. */
    method CreateMessageWithRoom(userId: nat, text: Option<string>, hostId: nat) returns (r: Result<(Room, seq<nat>)>)
      requires Valid()
      modifies this`rooms, this`userRooms, this`messages, this`nextRoomId, this`nextMessageId, this`clock
      ensures Valid()
      ensures userId == hostId ==>
        && r == Err(InternalServerError)
        && rooms == old(rooms) && userRooms == old(userRooms) && messages == old(messages)
      ensures userId != hostId ==>
        var room := Room(old(nextRoomId), None, Some(hostId), None);
        && r == Ok((room, [userId]))
        && rooms == old(rooms) + [room]
        && userRooms == old(userRooms) + [UserRoom(hostId, room.id, None, None), UserRoom(userId, room.id, None, None)]
        && messages == old(messages) + [Message(old(nextMessageId), room.id, hostId, text, None, old(clock))]
    {
      if userId == hostId {
        return Err(InternalServerError);
      }
      var room := Room(nextRoomId, None, Some(hostId), None);
      CompanionsOfNewRoom(userRooms, room.id, hostId, userId);
      rooms := rooms + [room];
      userRooms := userRooms + [UserRoom(hostId, room.id, None, None), UserRoom(userId, room.id, None, None)];
      messages := messages + [Message(nextMessageId, room.id, hostId, text, None, clock)];
      nextRoomId, nextMessageId, clock := nextRoomId + 1, nextMessageId + 1, clock + 1;
      r := Ok((room, Companions(userRooms, room.id, hostId, None)));
    }

    /** findOrCreateRoom. */
    method FindOrCreateRoom(c: RoomCriteria, hostId: nat) returns (room: Room)
      requires Valid()
      modifies this`rooms, this`nextRoomId
      ensures Valid()
      ensures (rooms, room) == FindOrCreate(old(rooms), c, hostId, old(nextRoomId))
      ensures room.id < nextRoomId
    {
      var found := FindRoomWhere(rooms, c, hostId);
      if found.Some? {
        room := rooms[found.value];
      } else {
        room := Room(nextRoomId, c.name, Some(hostId), c.hireId);
        rooms := rooms + [room];
        nextRoomId := nextRoomId + 1;
      }
    }

    /** `userRoomRepository.upsert({roomId, userId, socketId})`. */
    method UpsertMembership(userId: nat, roomId: nat, socketId: Option<string>)
      requires Valid() && roomId < nextRoomId
      modifies this`userRooms
      ensures Valid()
      ensures userRooms == Upsert(old(userRooms), userId, roomId, socketId)
    {
      UpsertMakesMember(userRooms, userId, roomId, socketId);
      userRooms := Upsert(userRooms, userId, roomId, socketId);
    }

    /** createHireRoomWithUsers: find or create the room, then upsert the
        host's and the user's memberships. */
    method CreateHireRoomWithUsers(c: RoomCriteria, hostId: nat, userId: nat) returns (room: Room)
      requires Valid()
      modifies this`rooms, this`nextRoomId, this`userRooms
      ensures Valid()
      ensures (rooms, userRooms, room) == HireRoom(old(rooms), old(userRooms), c, hostId, userId, old(nextRoomId))
    {
      room := FindOrCreateRoom(c, hostId);
      UpsertMembership(hostId, room.id, None);
      UpsertMembership(userId, room.id, None);
    }

    /** addUserToRoom: NOT_FOUND when the room is missing, else upsert the
        membership with the given socket id. */
    method AddUserToRoom(roomId: nat, userId: nat, socketId: Option<string>) returns (r: Result<Room>)
      requires Valid()
      modifies this`userRooms
      ensures Valid()
      ensures FindRoom(rooms, roomId).None? ==> r == Err(NotFound) && userRooms == old(userRooms)
      ensures FindRoom(rooms, roomId).Some? ==>
        r == Ok(FindRoom(rooms, roomId).value) && userRooms == Upsert(old(userRooms), userId, roomId, socketId)
    {
      var room := FindRoom(rooms, roomId);
      if room.None? {
        return Err(NotFound);
      }
      UpsertMembership(userId, roomId, socketId);
      r := Ok(room.value);
    }

    /** addUserToAllRooms: bind the socket id to every membership of the
        user and return the user's room ids as text. */
    method AddUserToAllRooms(socketId: string, userId: nat) returns (roomIds: seq<string>)
      requires Valid()
      modifies this`userRooms
      ensures Valid()
      ensures userRooms == BindSocket(old(userRooms), userId, socketId)
      ensures roomIds == RoomIdsOf(old(userRooms), userId)
    {
      userRooms := BindSocket(userRooms, userId, socketId);
      roomIds := RoomIdsOf(userRooms, userId);
      BindSocketKeepsRooms(old(userRooms), userId, socketId, userId);
    }

    /** removeUserFromAllRooms: clear the socket id wherever it is held. */
    method RemoveUserFromAllRooms(socketId: string) returns (ok: bool)
      requires Valid()
      modifies this`userRooms
      ensures Valid()
      ensures ok
      ensures userRooms == UnbindSocket(old(userRooms), socketId)
    {
      userRooms := UnbindSocket(userRooms, socketId);
      ok := true;
    }

    /** readMessage: advance the (userId, roomId) cursor when it is behind,
        returning, as the `returning` update does, the number of affected
        rows and those rows as updated. */
    method ReadMessage(userId: nat, roomId: nat, lastReadMessageId: nat) returns (affected: nat, rows: seq<UserRoom>)
      requires Valid()
      modifies this`userRooms
      ensures Valid()
      ensures userRooms == AdvanceCursor(old(userRooms), userId, roomId, lastReadMessageId)
      ensures affected == AdvancedCount(old(userRooms), userId, roomId, lastReadMessageId)
      ensures rows == AdvancedRows(old(userRooms), userId, roomId, lastReadMessageId)
      ensures |rows| == affected && forall x :: x in rows ==> x in userRooms
    {
      affected := AdvancedCount(userRooms, userId, roomId, lastReadMessageId);
      rows := AdvancedRows(userRooms, userId, roomId, lastReadMessageId);
      AdvancedRowsAreUpdated(userRooms, userId, roomId, lastReadMessageId);
      userRooms := AdvanceCursor(userRooms, userId, roomId, lastReadMessageId);
    }
  }
}
