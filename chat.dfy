/** Specification of the queue matcher in src/chat/chat.service.ts: the
    rows of the `queues`, `user_room` and `messages` tables as values, and
    the pure functions the ChatService methods are proved against. */
module Chat {
  import opened Common

  /** A row of the `queues` table. `createdAt` is a strictly increasing
      counter standing for the row's creation time. */
  datatype QueueEntry = QueueEntry(id: nat, name: string, participants: int, socketId: string, createdAt: nat)

  /** A row of the chat `user_room` table as `room.$add('users', …)` writes it. */
  datatype Membership = Membership(userId: nat, roomId: nat)

  /** A row of the chat `messages` table. */
  datatype ChatMessage = ChatMessage(id: nat, roomId: int, userId: int, text: string, createdAt: nat)

  /** The `{userId, text, createdAt}` projection that getRoomHistory returns. */
  datatype HistoryEntry = HistoryEntry(userId: int, text: string, createdAt: nat)

  /** A socket.io event and the socket it is sent to. */
  datatype Event = RoomAssigned(roomId: string) | NewMessage(userId: int, text: string, createdAt: nat)
  datatype Emit = Emit(socketId: string, event: Event)

  /** Queue rows are kept in creation order. */
  predicate OrderedByCreation(q: seq<QueueEntry>)
  {
    forall i, j :: 0 <= i < j < |q| ==> q[i].createdAt < q[j].createdAt
  }

  /** Queue ids are an auto-increment primary key. */
  predicate DistinctIds(q: seq<QueueEntry>)
  {
    forall i, j :: 0 <= i < j < |q| ==> q[i].id != q[j].id
  }

  /** `findAll({limit: n, order: [['createdAt', 'ASC']]})` over the whole
      queue: the first n rows in creation order, or all when fewer. */
  function Oldest(q: seq<QueueEntry>, n: nat): (sel: seq<QueueEntry>)
    ensures |sel| == if |q| < n then |q| else n
    ensures sel == q[..|sel|]
  {
    if |q| < n then q else q[..n]
  }

  /** Every row Oldest selects is older than every row it leaves behind,
      whatever each row's own `participants` value. */
  lemma OldestAreOldest(q: seq<QueueEntry>, n: nat)
    requires OrderedByCreation(q)
    ensures forall i, j :: 0 <= i < |Oldest(q, n)| <= j < |q| ==> Oldest(q, n)[i].createdAt < q[j].createdAt
  {
  }

  /** The rows whose id is in `ids`, in their original order: the rows for
      which `findByPk(entry.id)` succeeds, and the rows of
      `findAll({where: {id: {[Op.in]: ids}}})`. */
  function WithIdIn(q: seq<QueueEntry>, ids: set<int>): (r: seq<QueueEntry>)
    ensures |r| <= |q|
  {
    if q == [] then []
    else (if q[0].id in ids then [q[0]] else []) + WithIdIn(q[1..], ids)
  }

  /** Exactly the rows whose id is in `ids` survive the filter. */
  lemma {:induction false} WithIdInMembers(q: seq<QueueEntry>, ids: set<int>)
    ensures forall e :: e in WithIdIn(q, ids) <==> e in q && e.id in ids
  {
    if q != [] {
      WithIdInMembers(q[1..], ids);
      assert forall e :: e in q <==> e == q[0] || e in q[1..];
    }
  }

  lemma {:induction false} WithIdInAppend(a: seq<QueueEntry>, b: seq<QueueEntry>, ids: set<int>)
    ensures WithIdIn(a + b, ids) == WithIdIn(a, ids) + WithIdIn(b, ids)
  {
    if a == [] {
      assert a + b == b;
    } else {
      var head := if a[0].id in ids then [a[0]] else [];
      assert (a + b)[0] == a[0];
      assert (a + b)[1..] == a[1..] + b;
      assert WithIdIn(a + b, ids) == head + WithIdIn(a[1..] + b, ids);
      WithIdInAppend(a[1..], b, ids);
      assert head + (WithIdIn(a[1..], ids) + WithIdIn(b, ids)) == (head + WithIdIn(a[1..], ids)) + WithIdIn(b, ids);
    }
  }

  /** When every selected id resolves, nobody is dropped. */
  lemma {:induction false} WithIdInAll(q: seq<QueueEntry>, ids: set<int>)
    requires forall e :: e in q ==> e.id in ids
    ensures WithIdIn(q, ids) == q
  {
    if q != [] {
      WithIdInAll(q[1..], ids);
    }
  }

  /** The membership rows a match adds for the found entries. */
  function MemberRows(found: seq<QueueEntry>, roomId: nat): (rows: seq<Membership>)
    ensures |rows| == |found|
    ensures forall i :: 0 <= i < |found| ==> rows[i] == Membership(found[i].id, roomId)
  {
    seq(|found|, i requires 0 <= i < |found| => Membership(found[i].id, roomId))
  }

  lemma MemberRowsSnoc(found: seq<QueueEntry>, e: QueueEntry, roomId: nat)
    ensures MemberRows(found + [e], roomId) == MemberRows(found, roomId) + [Membership(e.id, roomId)]
  {
    assert forall i :: 0 <= i < |found| ==> (found + [e])[i] == found[i];
  }

  /** The socket ids pushed onto `participantIds`. */
  function SocketIds(found: seq<QueueEntry>): (ids: seq<string>)
    ensures |ids| == |found|
    ensures forall i :: 0 <= i < |found| ==> ids[i] == found[i].socketId
  {
    seq(|found|, i requires 0 <= i < |found| => found[i].socketId)
  }

  lemma SocketIdsSnoc(found: seq<QueueEntry>, e: QueueEntry)
    ensures SocketIds(found + [e]) == SocketIds(found) + [e.socketId]
  {
    assert forall i :: 0 <= i < |found| ==> (found + [e])[i] == found[i];
  }

  /** One `roomAssigned` event per socket id, in order. */
  function AssignEmits(socketIds: seq<string>, roomId: nat): (out: seq<Emit>)
    ensures |out| == |socketIds|
    ensures forall i :: 0 <= i < |socketIds| ==> out[i] == Emit(socketIds[i], RoomAssigned(DecimalString(roomId)))
  {
    seq(|socketIds|, i requires 0 <= i < |socketIds| => Emit(socketIds[i], RoomAssigned(DecimalString(roomId))))
  }

  /** Every notified socket can recover the new room's id from its event. */
  lemma AssignedRoomIdReadsBack(socketIds: seq<string>, roomId: nat, k: nat)
    requires k < |socketIds|
    ensures AssignEmits(socketIds, roomId)[k].event.RoomAssigned?
    ensures ParseDecimal(AssignEmits(socketIds, roomId)[k].event.roomId) == Some(roomId)
  {
    DecimalRoundTrip(roomId);
  }

  /** Dropping rows from the front keeps a queue ordered and its ids unique. */
  lemma SuffixKeepsOrder(q: seq<QueueEntry>, k: nat)
    requires k <= |q| && OrderedByCreation(q) && DistinctIds(q)
    ensures OrderedByCreation(q[k..]) && DistinctIds(q[k..])
  {
    forall i, j | 0 <= i < j < |q[k..]|
      ensures q[k..][i].createdAt < q[k..][j].createdAt && q[k..][i].id != q[k..][j].id
    {
      assert q[k..][i] == q[k + i] && q[k..][j] == q[k + j];
    }
  }

  /** `queueModel.destroy({where: {id}})`. */
  function RemoveId(q: seq<QueueEntry>, id: nat): (r: seq<QueueEntry>)
    ensures |r| <= |q|
  {
    if q == [] then []
    else (if q[0].id == id then [] else [q[0]]) + RemoveId(q[1..], id)
  }

  lemma {:induction false} RemoveAbsentId(q: seq<QueueEntry>, id: nat)
    requires forall e :: e in q ==> e.id != id
    ensures RemoveId(q, id) == q
  {
    if q != [] {
      RemoveAbsentId(q[1..], id);
    }
  }

  /** With unique ids, destroying the oldest row's id removes exactly that row. */
  lemma RemoveOldest(q: seq<QueueEntry>)
    requires DistinctIds(q) && q != []
    ensures RemoveId(q, q[0].id) == q[1..]
  {
    forall e | e in q[1..] ensures e.id != q[0].id {
      var j :| 0 <= j < |q[1..]| && q[1..][j] == e;
      assert q[j + 1] == e;
    }
    RemoveAbsentId(q[1..], q[0].id);
  }

  /** The user ids of a room: `room.users` of `findByPk(roomId, {include: [User]})`. */
  function RoomUsers(members: seq<Membership>, roomId: int): (ids: set<int>)
    ensures forall u :: u in ids <==> exists m :: m in members && m.roomId == roomId && m.userId == u
  {
    set m | m in members && m.roomId == roomId :: m.userId as int
  }

  /** One `newMessage` event, carrying the saved message, per target row. */
  function NewMessageEmits(targets: seq<QueueEntry>, saved: ChatMessage): (out: seq<Emit>)
    ensures |out| == |targets|
    ensures forall i :: 0 <= i < |targets| ==>
      out[i] == Emit(targets[i].socketId, NewMessage(saved.userId, saved.text, saved.createdAt))
  {
    seq(|targets|, i requires 0 <= i < |targets| => Emit(targets[i].socketId, NewMessage(saved.userId, saved.text, saved.createdAt)))
  }

  /** Message rows are kept in creation order. */
  predicate OrderedMessages(ms: seq<ChatMessage>)
  {
    forall i, j :: 0 <= i < j < |ms| ==> ms[i].createdAt < ms[j].createdAt
  }

  function Entry(m: ChatMessage): HistoryEntry
  {
    HistoryEntry(m.userId, m.text, m.createdAt)
  }

  /** getRoomHistory: the messages of one room, oldest first, projected. */
  function RoomHistory(ms: seq<ChatMessage>, roomId: int): (h: seq<HistoryEntry>)
    ensures |h| <= |ms|
    ensures forall i :: 0 <= i < |ms| && ms[i].roomId == roomId ==> Entry(ms[i]) in h
    ensures forall e :: e in h ==> exists i :: 0 <= i < |ms| && ms[i].roomId == roomId && Entry(ms[i]) == e
  {
    if ms == [] then []
    else
      var rest := RoomHistory(ms[1..], roomId);
      assert forall i :: 1 <= i < |ms| ==> ms[i] == ms[1..][i - 1];
      (if ms[0].roomId == roomId then [Entry(ms[0])] else []) + rest
  }

  /** Every entry of a room's history is newer than any bound all messages exceed. */
  lemma {:induction false} RoomHistoryAfter(ms: seq<ChatMessage>, roomId: int, t: int)
    requires forall i :: 0 <= i < |ms| ==> t < ms[i].createdAt
    ensures forall k :: 0 <= k < |RoomHistory(ms, roomId)| ==> t < RoomHistory(ms, roomId)[k].createdAt
  {
    if ms != [] {
      RoomHistoryAfter(ms[1..], roomId, t);
    }
  }

  /** The history is in strictly ascending creation order. */
  lemma {:induction false} RoomHistoryAscending(ms: seq<ChatMessage>, roomId: int)
    requires OrderedMessages(ms)
    ensures forall i, j :: 0 <= i < j < |RoomHistory(ms, roomId)| ==>
      RoomHistory(ms, roomId)[i].createdAt < RoomHistory(ms, roomId)[j].createdAt
  {
    if ms != [] {
      RoomHistoryAscending(ms[1..], roomId);
      RoomHistoryAfter(ms[1..], roomId, ms[0].createdAt);
    }
  }

  /** Round trip: a message saved into a room is the last entry of that
      room's history, and no other room's history changes. */
  lemma {:induction false} RoomHistoryAppend(ms: seq<ChatMessage>, m: ChatMessage, roomId: int)
    ensures RoomHistory(ms + [m], roomId) ==
      RoomHistory(ms, roomId) + (if m.roomId == roomId then [Entry(m)] else [])
  {
    if ms == [] {
      assert ms + [m] == [m];
    } else {
      assert (ms + [m])[1..] == ms[1..] + [m];
      RoomHistoryAppend(ms[1..], m, roomId);
    }
  }
}
