/** ChatService of src/chat/chat.service.ts: the queue, room, membership
    and message tables as fields updated in place, and socket emits as
    appends to an outbox. */
module ChatService {
  import opened Common
  import opened Chat

  class ChatService {
    /** `queues` rows, oldest first. */
    var queue: seq<QueueEntry>
    /** Ids of the `rooms` rows. */
    var rooms: seq<nat>
    /** `user_room` rows written by matching. */
    var members: seq<Membership>
    /** `messages` rows, oldest first. */
    var messages: seq<ChatMessage>
    /** Every `server.to(socketId).emit(…)`, in order. */
    var outbox: seq<Emit>
    /** Primary keys of the `users` table; this service only reads it. */
    const users: set<int>
    /** Next auto-increment keys and the creation-time counter. */
    var nextQueueId: nat
    var nextRoomId: nat
    var nextMessageId: nat
    var clock: nat

    ghost predicate Valid()
      reads this`queue, this`nextQueueId, this`clock, this`rooms, this`nextRoomId, this`messages
    {
      && OrderedByCreation(queue)
      && DistinctIds(queue)
      && (forall i :: 0 <= i < |queue| ==> queue[i].id < nextQueueId && queue[i].createdAt < clock)
      && (forall i :: 0 <= i < |rooms| ==> rooms[i] < nextRoomId)
      && OrderedMessages(messages)
      && (forall i :: 0 <= i < |messages| ==> messages[i].createdAt < clock)
    }

    constructor (users: set<int>)
      ensures Valid()
      ensures this.users == users
      ensures queue == [] && rooms == [] && members == [] && messages == [] && outbox == []
    {
      this.users := users;
      queue, rooms, members, messages, outbox := [], [], [], [], [];
      nextQueueId, nextRoomId, nextMessageId, clock := 1, 1, 1, 0;
    }

    /** joinQueue: append one entry, then try to match `participants` entries. */
    method JoinQueue(name: string, participants: int, socketId: string)
      requires Valid() && participants >= 1
      modifies this
      ensures Valid()
      ensures var entry := QueueEntry(old(nextQueueId), name, participants, socketId, old(clock));
              var q := old(queue) + [entry];
              if |q| >= participants then
                var found := WithIdIn(q[..participants], users);
                && queue == q[participants..]
                && rooms == old(rooms) + [old(nextRoomId)]
                && members == old(members) + MemberRows(found, old(nextRoomId))
                && outbox == old(outbox) + AssignEmits(SocketIds(found), old(nextRoomId))
              else
                && queue == q
                && rooms == old(rooms) && members == old(members) && outbox == old(outbox)
      ensures messages == old(messages)
    {
      queue := queue + [QueueEntry(nextQueueId, name, participants, socketId, clock)];
      nextQueueId := nextQueueId + 1;
      clock := clock + 1;
      MatchQueue(participants);
    }

    /** matchQueue: if the whole queue holds at least `participants` rows,
        create a room from the oldest ones. Each selected row is destroyed;
        it becomes a member, and its socket is notified, only when a user
        with the row's id exists. */
    method MatchQueue(participants: int)
      requires Valid() && participants >= 1
      modifies this
      ensures Valid()
      ensures if |old(queue)| >= participants then
                var found := WithIdIn(old(queue)[..participants], users);
                && queue == old(queue)[participants..]
                && rooms == old(rooms) + [old(nextRoomId)]
                && members == old(members) + MemberRows(found, old(nextRoomId))
                && outbox == old(outbox) + AssignEmits(SocketIds(found), old(nextRoomId))
              else
                && queue == old(queue)
                && rooms == old(rooms) && members == old(members) && outbox == old(outbox)
      ensures messages == old(messages) && nextQueueId == old(nextQueueId) && clock == old(clock)
    {
      var selected := Oldest(queue, participants);
      if |selected| == participants {
        var roomId := nextRoomId;
        rooms := rooms + [roomId];
        nextRoomId := nextRoomId + 1;
        var participantIds := Admit(selected, roomId);
        NotifyAll(participantIds, roomId);
      }
    }

    /** The `for` loop of matchQueue: each selected row, oldest first,
        becomes a member when a user with its id exists, and is destroyed. */
    method Admit(selected: seq<QueueEntry>, roomId: nat) returns (participantIds: seq<string>)
      requires OrderedByCreation(queue) && DistinctIds(queue)
      requires |selected| <= |queue| && selected == queue[..|selected|]
      modifies this`queue, this`members
      ensures queue == old(queue)[|selected|..]
      ensures members == old(members) + MemberRows(WithIdIn(selected, users), roomId)
      ensures participantIds == SocketIds(WithIdIn(selected, users))
    {
      participantIds := [];
      ghost var q0 := queue;
      ghost var found: seq<QueueEntry> := [];
      for i := 0 to |selected|
        invariant queue == q0[i..]
        invariant found == WithIdIn(selected[..i], users)
        invariant members == old(members) + MemberRows(found, roomId)
        invariant participantIds == SocketIds(found)
      {
        var entry := selected[i];
        assert entry == queue[0];
        WithIdInAppend(selected[..i], [entry], users);
        assert selected[..i + 1] == selected[..i] + [entry];
        if entry.id in users {
          MemberRowsSnoc(found, entry, roomId);
          SocketIdsSnoc(found, entry);
          members := members + [Membership(entry.id, roomId)];
          participantIds := participantIds + [entry.socketId];
          found := found + [entry];
        }
        SuffixKeepsOrder(q0, i);
        RemoveOldest(queue);
        queue := RemoveId(queue, entry.id);
        assert queue == q0[i + 1..];
      }
      assert selected[..|selected|] == selected;
    }

    /** notifyUser: one `roomAssigned` event with the room id as decimal text. */
    method NotifyUser(socketId: string, roomId: nat)
      modifies this`outbox
      ensures outbox == old(outbox) + [Emit(socketId, RoomAssigned(DecimalString(roomId)))]
    {
      outbox := outbox + [Emit(socketId, RoomAssigned(DecimalString(roomId)))];
    }

    /** `participantIds.forEach(socketId => notifyUser(socketId, roomId))`. */
    method NotifyAll(participantIds: seq<string>, roomId: nat)
      modifies this`outbox
      ensures outbox == old(outbox) + AssignEmits(participantIds, roomId)
    {
      for k := 0 to |participantIds|
        invariant outbox == old(outbox) + AssignEmits(participantIds[..k], roomId)
      {
        NotifyUser(participantIds[k], roomId);
        assert participantIds[..k + 1] == participantIds[..k] + [participantIds[k]];
      }
      assert participantIds[..|participantIds|] == participantIds;
    }

    /** `queueEntries.forEach(entry => emit('newMessage', …))`. */
    method FanOut(entries: seq<QueueEntry>, saved: ChatMessage)
      modifies this`outbox
      ensures outbox == old(outbox) + NewMessageEmits(entries, saved)
    {
      for i := 0 to |entries|
        invariant outbox == old(outbox) + NewMessageEmits(entries[..i], saved)
      {
        outbox := outbox + [Emit(entries[i].socketId, NewMessage(saved.userId, saved.text, saved.createdAt))];
      }
      assert entries[..|entries|] == entries;
    }

    /** sendMessage: persist the message whether or not the room exists;
        if it exists, send `newMessage` to every queue row whose id is one
        of the room's user ids. */
    method SendMessage(roomId: int, userId: int, text: string)
      requires Valid()
      modifies this
      ensures Valid()
      ensures var saved := ChatMessage(old(nextMessageId), roomId, userId, text, old(clock));
              && messages == old(messages) + [saved]
              && outbox == old(outbox) +
                   (if roomId in rooms then NewMessageEmits(WithIdIn(queue, RoomUsers(members, roomId)), saved) else [])
      ensures queue == old(queue) && rooms == old(rooms) && members == old(members)
    {
      var saved := ChatMessage(nextMessageId, roomId, userId, text, clock);
      messages := messages + [saved];
      nextMessageId := nextMessageId + 1;
      clock := clock + 1;

      if roomId in rooms {
        FanOut(WithIdIn(queue, RoomUsers(members, roomId)), saved);
      }
    }
  }
}
