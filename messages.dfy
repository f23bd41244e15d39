/** Specification of src/messages/message.service.ts: rooms, `user_room`
    memberships (which double as the registry of live socket ids and hold
    each member's read cursor) and messages as values, and the pure
    functions the MessageService methods are proved against. */
module Messages {
  import opened Common

  datatype Room = Room(id: nat, name: Option<string>, hostId: Option<nat>, hireId: Option<nat>)

  /** A `user_room` row: membership, read cursor and live connection. */
  datatype UserRoom = UserRoom(userId: nat, roomId: nat, lastReadMessageId: Option<nat>, socketId: Option<string>)

  datatype DisplayType = PickMeetingDate | OtherDisplay(name: string)
  datatype Payload = Payload(scheduleId: Option<int>, eventId: Option<int>)
  /** One entry of a message's `display` JSON list. */
  datatype Display = Display(kind: DisplayType, payload: Payload)

  datatype Message = Message(id: nat, roomId: nat, userId: nat, text: Option<string>,
                             display: Option<seq<Display>>, createdAt: nat)

  /** The fields of CreateRoomDto; None is a field the caller left out. */
  datatype RoomCriteria = RoomCriteria(name: Option<string>, hireId: Option<nat>)

  /** The parts of MessageFiltersQueryDto that decide access and content. */
  datatype MessageQuery = MessageQuery(roomId: nat, userId: Option<nat>, includeMeta: bool)
  datatype MessagePage = MessagePage(room: Option<Room>, results: seq<Message>)

  /** JavaScript truthiness of an optional numeric id: undefined and 0 are falsy. */
  predicate Given(x: Option<nat>) { x.Some? && x.value != 0 }

  // ---------------------------------------------------------------- addEventId

  function Stamp(d: Display, eventId: int): Display
  {
    if d.kind == PickMeetingDate then d.(payload := d.payload.(eventId := Some(eventId))) else d
  }

  /** `display.map(…)`: every pick-meeting-date entry gets `eventId` in its
      payload, keeping its `scheduleId`; other entries are left as they are. */
  function WithEventId(display: seq<Display>, eventId: int): (r: seq<Display>)
    ensures |r| == |display|
    ensures forall i :: 0 <= i < |display| ==>
      r[i].kind == display[i].kind && r[i].payload.scheduleId == display[i].payload.scheduleId
    ensures forall i :: 0 <= i < |display| ==>
      if display[i].kind == PickMeetingDate then r[i].payload.eventId == Some(eventId) else r[i] == display[i]
  {
    seq(|display|, i requires 0 <= i < |display| => Stamp(display[i], eventId))
  }

  /** Stamping twice with the same event is stamping once; a later event
      replaces an earlier one. */
  lemma WithEventIdLastWins(display: seq<Display>, e1: int, e2: int)
    ensures WithEventId(WithEventId(display, e1), e2) == WithEventId(display, e2)
  {
  }

  /** addEventId's outcome for the row `findByPk` returned: null when the
      message is missing or has no `display`, else the rewritten message. */
  function AddEventId(m: Option<Message>, eventId: int): (r: Option<Message>)
    ensures r.Some? <==> m.Some? && m.value.display.Some?
    ensures r.Some? ==> r.value == m.value.(display := Some(WithEventId(m.value.display.value, eventId)))
  {
    if m.Some? && m.value.display.Some? then
      Some(m.value.(display := Some(WithEventId(m.value.display.value, eventId))))
    else None
  }

  // ---------------------------------------------------------------- lookups

  /** `findByPk` on the messages table (ids are unique). */
  function FindMessage(ms: seq<Message>, id: nat): (r: Option<nat>)
    ensures r.Some? ==> r.value < |ms| && ms[r.value].id == id
    ensures r.None? ==> forall i :: 0 <= i < |ms| ==> ms[i].id != id
  {
    if ms == [] then None
    else if ms[|ms| - 1].id == id then Some(|ms| - 1)
    else FindMessage(ms[..|ms| - 1], id)
  }

  /** `findByPk` / `findOne({where: {id}})` on the rooms table. */
  function FindRoom(rooms: seq<Room>, id: nat): (r: Option<Room>)
    ensures r.Some? ==> r.value in rooms && r.value.id == id
    ensures r.None? ==> forall i :: 0 <= i < |rooms| ==> rooms[i].id != id
  {
    if rooms == [] then None
    else if rooms[0].id == id then Some(rooms[0])
    else FindRoom(rooms[1..], id)
  }

  predicate IsMember(rows: seq<UserRoom>, userId: nat, roomId: nat)
  {
    exists i :: 0 <= i < |rows| && rows[i].userId == userId && rows[i].roomId == roomId
  }

  /** The first row keyed (userId, roomId). */
  function FindRow(rows: seq<UserRoom>, userId: nat, roomId: nat): (r: Option<nat>)
    ensures r.Some? ==> r.value < |rows| && rows[r.value].userId == userId && rows[r.value].roomId == roomId
    ensures r.Some? ==> forall j :: 0 <= j < r.value ==> !(rows[j].userId == userId && rows[j].roomId == roomId)
    ensures r.None? <==> !IsMember(rows, userId, roomId)
  {
    if rows == [] then None
    else if rows[0].userId == userId && rows[0].roomId == roomId then Some(0)
    else
      var r := FindRow(rows[1..], userId, roomId);
      assert forall i :: 1 <= i < |rows| ==> rows[i] == rows[1..][i - 1];
      if r.Some? then Some(r.value + 1) else None
  }

  /** The (userId, roomId) key of `user_room` is unique. */
  predicate UniqueKeys(rows: seq<UserRoom>)
  {
    forall i, j :: 0 <= i < j < |rows| ==> !(rows[i].userId == rows[j].userId && rows[i].roomId == rows[j].roomId)
  }

  // ---------------------------------------------------------------- upsert

  /** `userRoomRepository.upsert({roomId, userId, socketId})` keyed on
      (userId, roomId). A new row starts with a null cursor; an omitted
      socket id (None) is written as null on insert and left alone on update. */
  function Upsert(rows: seq<UserRoom>, userId: nat, roomId: nat, socketId: Option<string>): (r: seq<UserRoom>)
    ensures IsMember(r, userId, roomId)
    ensures |r| == |rows| + (if IsMember(rows, userId, roomId) then 0 else 1)
  {
    match FindRow(rows, userId, roomId)
    case Some(i) =>
      var r := rows[i := rows[i].(socketId := if socketId.Some? then socketId else rows[i].socketId)];
      assert r[i].userId == userId && r[i].roomId == roomId;
      r
    case None =>
      var r := rows + [UserRoom(userId, roomId, None, socketId)];
      assert r[|rows|].userId == userId && r[|rows|].roomId == roomId;
      r
  }

  /** After an upsert the pair is a member, with the given socket id if one
      was given; every row of another key is untouched; the key stays unique. */
  lemma UpsertMakesMember(rows: seq<UserRoom>, userId: nat, roomId: nat, socketId: Option<string>)
    requires UniqueKeys(rows)
    ensures var r := Upsert(rows, userId, roomId, socketId);
      && UniqueKeys(r)
      && IsMember(r, userId, roomId)
      && (socketId.Some? ==> forall i :: 0 <= i < |r| && r[i].userId == userId && r[i].roomId == roomId ==> r[i].socketId == socketId)
      && |rows| <= |r| <= |rows| + 1
      && (forall i :: 0 <= i < |rows| && !(rows[i].userId == userId && rows[i].roomId == roomId) ==> r[i] == rows[i])
      && (forall k, m :: IsMember(rows, k, m) ==> IsMember(r, k, m))
      && (forall i :: 0 <= i < |r| ==> (r[i].userId == userId && r[i].roomId == roomId) || (i < |rows| && r[i] == rows[i]))
  {
    var r := Upsert(rows, userId, roomId, socketId);
    match FindRow(rows, userId, roomId)
    case Some(i) =>
      assert r[i].userId == userId && r[i].roomId == roomId;
      forall k, m | IsMember(rows, k, m) ensures IsMember(r, k, m) {
        var j :| 0 <= j < |rows| && rows[j].userId == k && rows[j].roomId == m;
        assert r[j].userId == k && r[j].roomId == m;
      }
    case None =>
      assert r[|rows|].userId == userId && r[|rows|].roomId == roomId;
      forall k, m | IsMember(rows, k, m) ensures IsMember(r, k, m) {
        var j :| 0 <= j < |rows| && rows[j].userId == k && rows[j].roomId == m;
        assert r[j] == rows[j];
      }
  }

  /** Upserting an existing pair without a socket id changes nothing. */
  lemma UpsertExistingWithoutSocket(rows: seq<UserRoom>, userId: nat, roomId: nat)
    requires IsMember(rows, userId, roomId)
    ensures Upsert(rows, userId, roomId, None) == rows
  {
    var i := FindRow(rows, userId, roomId).value;
    assert rows[i := rows[i]] == rows;
  }

  /** Repeating an upsert is a no-op. */
  lemma UpsertIdempotent(rows: seq<UserRoom>, userId: nat, roomId: nat, socketId: Option<string>)
    ensures Upsert(Upsert(rows, userId, roomId, socketId), userId, roomId, socketId) == Upsert(rows, userId, roomId, socketId)
  {
    var r := Upsert(rows, userId, roomId, socketId);
    match FindRow(rows, userId, roomId)
    case Some(i) =>
      assert FindRow(r, userId, roomId) == Some(i) by {
        assert forall j :: 0 <= j < i ==> r[j] == rows[j];
        FindRowIsFirst(r, userId, roomId, i);
      }
      assert r[i := r[i].(socketId := if socketId.Some? then socketId else r[i].socketId)] == r;
    case None =>
      assert FindRow(r, userId, roomId) == Some(|rows|) by {
        assert forall j :: 0 <= j < |rows| ==> r[j] == rows[j];
        FindRowIsFirst(r, userId, roomId, |rows|);
      }
      assert r[|rows| := r[|rows|].(socketId := if socketId.Some? then socketId else r[|rows|].socketId)] == r;
  }

  /** FindRow returns the first matching index. */
  lemma FindRowIsFirst(rows: seq<UserRoom>, userId: nat, roomId: nat, i: nat)
    requires i < |rows| && rows[i].userId == userId && rows[i].roomId == roomId
    requires forall j :: 0 <= j < i ==> !(rows[j].userId == userId && rows[j].roomId == roomId)
    ensures FindRow(rows, userId, roomId) == Some(i)
  {
    assert FindRow(rows, userId, roomId).Some?;
  }

  // ---------------------------------------------------------------- connection registry

  /** addUserToAllRooms' `update({socketId}, {where: {userId}})`. */
  function BindSocket(rows: seq<UserRoom>, userId: nat, socketId: string): (r: seq<UserRoom>)
    ensures |r| == |rows|
    ensures forall i :: 0 <= i < |rows| ==>
      if rows[i].userId == userId then r[i] == rows[i].(socketId := Some(socketId)) else r[i] == rows[i]
  {
    seq(|rows|, i requires 0 <= i < |rows| =>
      if rows[i].userId == userId then rows[i].(socketId := Some(socketId)) else rows[i])
  }

  /** The `${room.roomId}` of every row of a user, in table order. */
  function RoomIdsOf(rows: seq<UserRoom>, userId: nat): (r: seq<string>)
    ensures |r| <= |rows|
  {
    if rows == [] then []
    else (if rows[0].userId == userId then [DecimalString(rows[0].roomId)] else []) + RoomIdsOf(rows[1..], userId)
  }

  /** A string is returned iff it is the id of a room the user belongs to. */
  lemma {:induction false} RoomIdsOfExactly(rows: seq<UserRoom>, userId: nat)
    ensures forall roomId: nat :: DecimalString(roomId) in RoomIdsOf(rows, userId) <==> IsMember(rows, userId, roomId)
  {
    if rows != [] {
      RoomIdsOfExactly(rows[1..], userId);
      forall roomId: nat
        ensures DecimalString(roomId) in RoomIdsOf(rows, userId) <==> IsMember(rows, userId, roomId)
      {
        if IsMember(rows, userId, roomId) && !(rows[0].userId == userId && rows[0].roomId == roomId) {
          var j :| 0 <= j < |rows| && rows[j].userId == userId && rows[j].roomId == roomId;
          assert rows[1..][j - 1] == rows[j];
        }
        if IsMember(rows[1..], userId, roomId) {
          var j :| 0 <= j < |rows[1..]| && rows[1..][j].userId == userId && rows[1..][j].roomId == roomId;
          assert rows[j + 1] == rows[1..][j];
        }
        if rows[0].userId == userId && DecimalString(roomId) == DecimalString(rows[0].roomId) {
          DecimalStringInjective(roomId, rows[0].roomId);
        }
      }
    }
  }

  /** Binding a socket changes no membership: the returned room list is the
      same before and after. */
  lemma {:induction false} BindSocketKeepsRooms(rows: seq<UserRoom>, userId: nat, socketId: string, other: nat)
    ensures RoomIdsOf(BindSocket(rows, userId, socketId), other) == RoomIdsOf(rows, other)
  {
    if rows != [] {
      assert BindSocket(rows, userId, socketId)[1..] == BindSocket(rows[1..], userId, socketId);
      BindSocketKeepsRooms(rows[1..], userId, socketId, other);
    }
  }

  /** removeUserFromAllRooms' `update({socketId: null}, {where: {socketId}})`. */
  function UnbindSocket(rows: seq<UserRoom>, socketId: string): (r: seq<UserRoom>)
    ensures |r| == |rows|
    ensures forall i :: 0 <= i < |rows| ==>
      if rows[i].socketId == Some(socketId) then r[i] == rows[i].(socketId := None) else r[i] == rows[i]
  {
    seq(|rows|, i requires 0 <= i < |rows| =>
      if rows[i].socketId == Some(socketId) then rows[i].(socketId := None) else rows[i])
  }

  /** Afterwards no row holds the socket id; unbinding again, or unbinding
      an id no row holds, changes nothing. */
  lemma UnbindSocketIdempotent(rows: seq<UserRoom>, socketId: string)
    ensures forall i :: 0 <= i < |rows| ==> UnbindSocket(rows, socketId)[i].socketId != Some(socketId)
    ensures UnbindSocket(UnbindSocket(rows, socketId), socketId) == UnbindSocket(rows, socketId)
    ensures (forall i :: 0 <= i < |rows| ==> rows[i].socketId != Some(socketId)) ==> UnbindSocket(rows, socketId) == rows
  {
  }

  /** A connection bound to all of a user's rows is gone from all of them
      after the disconnect, and the memberships stay. */
  lemma BindThenUnbind(rows: seq<UserRoom>, userId: nat, socketId: string)
    ensures var r := UnbindSocket(BindSocket(rows, userId, socketId), socketId);
      && |r| == |rows|
      && (forall i :: 0 <= i < |rows| ==>
            (r[i].userId == rows[i].userId && r[i].roomId == rows[i].roomId && r[i].lastReadMessageId == rows[i].lastReadMessageId))
      && (forall i :: 0 <= i < |rows| && rows[i].userId == userId ==> r[i].socketId.None?)
  {
  }

  // ---------------------------------------------------------------- read cursor

  predicate CursorBehind(row: UserRoom, v: nat)
  {
    row.lastReadMessageId.None? || row.lastReadMessageId.value < v
  }

  /** readMessage's update of `lastReadMessageId`: only the (userId, roomId)
      rows whose cursor is null or strictly less than `v`. */
  function AdvanceCursor(rows: seq<UserRoom>, userId: nat, roomId: nat, v: nat): (r: seq<UserRoom>)
    ensures |r| == |rows|
    ensures forall i :: 0 <= i < |rows| ==>
      if rows[i].userId == userId && rows[i].roomId == roomId && CursorBehind(rows[i], v)
      then r[i] == rows[i].(lastReadMessageId := Some(v)) else r[i] == rows[i]
  {
    seq(|rows|, i requires 0 <= i < |rows| =>
      if rows[i].userId == userId && rows[i].roomId == roomId && CursorBehind(rows[i], v)
      then rows[i].(lastReadMessageId := Some(v)) else rows[i])
  }

  /** The number of rows the update affects. */
  function AdvancedCount(rows: seq<UserRoom>, userId: nat, roomId: nat, v: nat): (r: nat)
    ensures r <= |rows|
    ensures !IsMember(rows, userId, roomId) ==> r == 0
  {
    if rows == [] then 0
    else
      assert forall j :: 0 <= j < |rows[1..]| ==> rows[1..][j] == rows[j + 1];
      (if rows[0].userId == userId && rows[0].roomId == roomId && CursorBehind(rows[0], v) then 1 else 0)
      + AdvancedCount(rows[1..], userId, roomId, v)
  }

  /** The rows the `returning` update hands back: the affected rows as
      updated, in table order. */
  function AdvancedRows(rows: seq<UserRoom>, userId: nat, roomId: nat, v: nat): (r: seq<UserRoom>)
    ensures |r| == AdvancedCount(rows, userId, roomId, v)
    ensures forall i :: 0 <= i < |r| ==>
      r[i].userId == userId && r[i].roomId == roomId && r[i].lastReadMessageId == Some(v)
  {
    if rows == [] then []
    else (if rows[0].userId == userId && rows[0].roomId == roomId && CursorBehind(rows[0], v)
          then [rows[0].(lastReadMessageId := Some(v))] else [])
         + AdvancedRows(rows[1..], userId, roomId, v)
  }

  /** Every returned row is a row of the updated table, and each comes from
      a row of the key whose cursor was behind. */
  lemma {:induction false} AdvancedRowsAreUpdated(rows: seq<UserRoom>, userId: nat, roomId: nat, v: nat)
    ensures forall x :: x in AdvancedRows(rows, userId, roomId, v) ==> x in AdvanceCursor(rows, userId, roomId, v)
    ensures forall x :: x in AdvancedRows(rows, userId, roomId, v) ==>
      exists i :: 0 <= i < |rows| && CursorBehind(rows[i], v) && rows[i].(lastReadMessageId := Some(v)) == x
  {
    if rows != [] {
      AdvancedRowsAreUpdated(rows[1..], userId, roomId, v);
      var after := AdvanceCursor(rows, userId, roomId, v);
      assert after[1..] == AdvanceCursor(rows[1..], userId, roomId, v);
      forall x | x in AdvancedRows(rows, userId, roomId, v)
        ensures x in after
        ensures exists i :: 0 <= i < |rows| && CursorBehind(rows[i], v) && rows[i].(lastReadMessageId := Some(v)) == x
      {
        if x in AdvancedRows(rows[1..], userId, roomId, v) {
          assert x in after[1..];
          var i :| 0 <= i < |rows[1..]| && CursorBehind(rows[1..][i], v) && rows[1..][i].(lastReadMessageId := Some(v)) == x;
          assert rows[i + 1] == rows[1..][i];
        } else {
          assert x == after[0];
        }
      }
    }
  }

  /** The cursor never moves back, and a set cursor stays set. */
  lemma CursorNeverDecreases(rows: seq<UserRoom>, userId: nat, roomId: nat, v: nat)
    ensures forall i :: 0 <= i < |rows| && rows[i].lastReadMessageId.Some? ==>
      AdvanceCursor(rows, userId, roomId, v)[i].lastReadMessageId.Some? &&
      rows[i].lastReadMessageId.value <= AdvanceCursor(rows, userId, roomId, v)[i].lastReadMessageId.value
  {
  }

  /** A later read of an older or equal message leaves the cursor where it
      is; in particular repeating a read is a no-op. */
  lemma ReadOlderIsNoOp(rows: seq<UserRoom>, userId: nat, roomId: nat, v: nat, w: nat)
    requires w <= v
    ensures AdvanceCursor(AdvanceCursor(rows, userId, roomId, v), userId, roomId, w) == AdvanceCursor(rows, userId, roomId, v)
  {
  }

  /** Nothing is affected by a repeated read. */
  lemma {:induction false} RepeatedReadAffectsNothing(rows: seq<UserRoom>, userId: nat, roomId: nat, v: nat)
    ensures AdvancedCount(AdvanceCursor(rows, userId, roomId, v), userId, roomId, v) == 0
  {
    if rows != [] {
      assert AdvanceCursor(rows, userId, roomId, v)[1..] == AdvanceCursor(rows[1..], userId, roomId, v);
      RepeatedReadAffectsNothing(rows[1..], userId, roomId, v);
    }
  }

  // ---------------------------------------------------------------- unread count

  /** `createdAt` of the message a cursor names, if it names one. */
  function CursorTime(ms: seq<Message>, cursor: Option<nat>): (r: Option<nat>)
    ensures r.Some? ==> cursor.Some? && exists k :: 0 <= k < |ms| && ms[k].id == cursor.value && ms[k].createdAt == r.value
  {
    if cursor.None? then None
    else match FindMessage(ms, cursor.value)
      case None => None
      case Some(k) => Some(ms[k].createdAt)
  }

  /** Messages of a room created strictly after time t. */
  function CountAfter(ms: seq<Message>, roomId: nat, t: nat): (r: nat)
    ensures r <= |ms|
  {
    if ms == [] then 0
    else CountAfter(ms[..|ms| - 1], roomId, t) + (if ms[|ms| - 1].roomId == roomId && t < ms[|ms| - 1].createdAt then 1 else 0)
  }

  /** What one membership row contributes: nothing when its cursor is null
      or names no message, else its room's messages after the cursor's. */
  function RowUnread(row: UserRoom, ms: seq<Message>): (r: nat)
    ensures row.lastReadMessageId.None? ==> r == 0
    ensures r <= |ms|
  {
    match CursorTime(ms, row.lastReadMessageId)
    case None => 0
    case Some(t) => CountAfter(ms, row.roomId, t)
  }

  /** The SQL count: summed over every membership row of the user. */
  function UnreadSum(rows: seq<UserRoom>, userId: nat, ms: seq<Message>): (r: nat)
    ensures r <= |rows| * |ms|
  {
    if rows == [] then 0
    else
      assert |rows| * |ms| == (|rows| - 1) * |ms| + |ms|;
      (if rows[0].userId == userId then RowUnread(rows[0], ms) else 0) + UnreadSum(rows[1..], userId, ms)
  }

  /** getUnreadMessagesCount: 0 for a falsy user id, else the SQL count. */
  function UnreadMessagesCount(userId: Option<nat>, rows: seq<UserRoom>, ms: seq<Message>): (r: nat)
    ensures !Given(userId) ==> r == 0
    ensures Given(userId) && (forall i :: 0 <= i < |rows| && rows[i].userId == userId.value ==> rows[i].lastReadMessageId.None?)
      ==> r == 0
  {
    if Given(userId) then
      UserNullCursorsZero(rows, userId.value, ms);
      UnreadSum(rows, userId.value, ms)
    else 0
  }

  /** A user whose every membership row has a null cursor has nothing
      unread, whatever the other users' rows hold. */
  lemma {:induction false} UserNullCursorsZero(rows: seq<UserRoom>, userId: nat, ms: seq<Message>)
    ensures (forall i :: 0 <= i < |rows| && rows[i].userId == userId ==> rows[i].lastReadMessageId.None?)
      ==> UnreadSum(rows, userId, ms) == 0
  {
    if rows != [] && forall i :: 0 <= i < |rows| && rows[i].userId == userId ==> rows[i].lastReadMessageId.None? {
      assert forall i :: 1 <= i < |rows| ==> rows[1..][i - 1] == rows[i];
      UserNullCursorsZero(rows[1..], userId, ms);
    }
  }

  /** A row with a null cursor adds nothing wherever it stands in the table. */
  lemma {:induction false} NullRowAddsNothing(a: seq<UserRoom>, row: UserRoom, b: seq<UserRoom>, userId: nat, ms: seq<Message>)
    requires row.lastReadMessageId.None?
    ensures UnreadSum(a + [row] + b, userId, ms) == UnreadSum(a + b, userId, ms)
  {
    if a == [] {
      assert a + [row] + b == [row] + b && ([row] + b)[1..] == b && a + b == b;
    } else {
      assert (a + [row] + b)[0] == a[0] && (a + [row] + b)[1..] == a[1..] + [row] + b;
      assert (a + b)[0] == a[0] && (a + b)[1..] == a[1..] + b;
      NullRowAddsNothing(a[1..], row, b, userId, ms);
    }
  }

  /** The user's rows in a room whose cursor names an existing message. */
  function LiveCursors(rows: seq<UserRoom>, userId: nat, roomId: nat, ms: seq<Message>): nat
  {
    if rows == [] then 0
    else (if rows[0].userId == userId && rows[0].roomId == roomId && CursorTime(ms, rows[0].lastReadMessageId).Some? then 1 else 0)
         + LiveCursors(rows[1..], userId, roomId, ms)
  }

  lemma CursorTimeAppend(ms: seq<Message>, m: Message, cursor: Option<nat>)
    requires cursor != Some(m.id)
    ensures CursorTime(ms + [m], cursor) == CursorTime(ms, cursor)
  {
    if cursor.Some? {
      assert (ms + [m])[..|ms|] == ms;
      assert FindMessage(ms + [m], cursor.value) == FindMessage(ms, cursor.value);
    }
  }

  lemma CountAfterAppend(ms: seq<Message>, m: Message, roomId: nat, t: nat)
    ensures CountAfter(ms + [m], roomId, t) == CountAfter(ms, roomId, t) + (if m.roomId == roomId && t < m.createdAt then 1 else 0)
  {
    assert (ms + [m])[..|ms|] == ms;
  }

  /** A user without a row in the room has no live cursor there. */
  lemma {:induction false} NoRowNoLiveCursor(rows: seq<UserRoom>, userId: nat, roomId: nat, ms: seq<Message>)
    requires !IsMember(rows, userId, roomId)
    ensures LiveCursors(rows, userId, roomId, ms) == 0
  {
    if rows != [] {
      assert forall j :: 0 <= j < |rows[1..]| ==> rows[1..][j] == rows[j + 1];
      NoRowNoLiveCursor(rows[1..], userId, roomId, ms);
    }
  }

  /** With the (userId, roomId) key unique, a user holds at most one live
      cursor per room, so a new message adds at most one unread. */
  lemma {:induction false} LiveCursorsAtMostOne(rows: seq<UserRoom>, userId: nat, roomId: nat, ms: seq<Message>)
    requires UniqueKeys(rows)
    ensures LiveCursors(rows, userId, roomId, ms) <= 1
  {
    if rows != [] {
      assert forall j :: 0 <= j < |rows[1..]| ==> rows[1..][j] == rows[j + 1];
      if rows[0].userId == userId && rows[0].roomId == roomId {
        NoRowNoLiveCursor(rows[1..], userId, roomId, ms);
      } else {
        LiveCursorsAtMostOne(rows[1..], userId, roomId, ms);
      }
    }
  }

  /** A new message, newer than every stored one, raises the user's unread
      count by exactly the number of the user's rows in its room that hold a
      cursor naming an existing message (at most one, when the key is
      unique: see LiveCursorsAtMostOne). */
  lemma {:induction false} UnreadAfterNewMessage(rows: seq<UserRoom>, userId: nat, ms: seq<Message>, m: Message)
    requires forall i :: 0 <= i < |ms| ==> ms[i].createdAt < m.createdAt
    requires forall i :: 0 <= i < |rows| ==> rows[i].lastReadMessageId != Some(m.id)
    ensures UnreadSum(rows, userId, ms + [m]) == UnreadSum(rows, userId, ms) + LiveCursors(rows, userId, m.roomId, ms)
  {
    if rows != [] {
      UnreadAfterNewMessage(rows[1..], userId, ms, m);
      var row := rows[0];
      CursorTimeAppend(ms, m, row.lastReadMessageId);
      match CursorTime(ms, row.lastReadMessageId)
      case None =>
      case Some(t) =>
        var k := FindMessage(ms, row.lastReadMessageId.value).value;
        assert t == ms[k].createdAt < m.createdAt;
        CountAfterAppend(ms, m, row.roomId, t);
    }
  }

  /** Nothing of a room is newer than a time at or after all its messages. */
  lemma {:induction false} CountAfterLatest(ms: seq<Message>, roomId: nat, t: nat)
    requires forall i :: 0 <= i < |ms| && ms[i].roomId == roomId ==> ms[i].createdAt <= t
    ensures CountAfter(ms, roomId, t) == 0
  {
    if ms != [] {
      CountAfterLatest(ms[..|ms| - 1], roomId, t);
    }
  }

  /** When each of the user's cursors names the newest message (or none),
      the unread count is zero. */
  lemma {:induction false} UnreadZeroWhenCaughtUp(rows: seq<UserRoom>, userId: nat, ms: seq<Message>)
    requires forall i :: 0 <= i < |rows| && rows[i].userId == userId ==>
      match CursorTime(ms, rows[i].lastReadMessageId)
      case None => true
      case Some(t) => forall k :: 0 <= k < |ms| && ms[k].roomId == rows[i].roomId ==> ms[k].createdAt <= t
    ensures UnreadSum(rows, userId, ms) == 0
  {
    if rows != [] {
      assert forall i :: 1 <= i < |rows| ==> rows[1..][i - 1] == rows[i];
      UnreadZeroWhenCaughtUp(rows[1..], userId, ms);
      if rows[0].userId == userId && CursorTime(ms, rows[0].lastReadMessageId).Some? {
        CountAfterLatest(ms, rows[0].roomId, CursorTime(ms, rows[0].lastReadMessageId).value);
      }
    }
  }

  // ---------------------------------------------------------------- getPaginatedAll

  /** The `where` of the message query: the room, and the author when given. */
  predicate Selected(m: Message, q: MessageQuery)
  {
    m.roomId == q.roomId && (Given(q.userId) ==> m.userId == q.userId.value)
  }

  function SelectMessages(ms: seq<Message>, q: MessageQuery): (r: seq<Message>)
    ensures forall m :: m in r <==> m in ms && Selected(m, q)
  {
    if ms == [] then []
    else
      var rest := SelectMessages(ms[1..], q);
      assert forall m :: m in ms <==> m == ms[0] || m in ms[1..];
      (if Selected(ms[0], q) then [ms[0]] else []) + rest
  }

  /** getPaginatedAll, all pages at once: the room row is read unchecked
      (null when missing), then the caller must hold a membership in it. */
  function PaginatedMessages(rooms: seq<Room>, rows: seq<UserRoom>, ms: seq<Message>, q: MessageQuery, callerId: nat): (r: Result<MessagePage>)
    ensures r == Err(NullDereference) <==> FindRoom(rooms, q.roomId).None?
    ensures r == Err(NotFound) <==> FindRoom(rooms, q.roomId).Some? && !IsMember(rows, callerId, q.roomId)
    ensures r.Ok? <==> FindRoom(rooms, q.roomId).Some? && IsMember(rows, callerId, q.roomId)
    ensures r.Ok? ==> (forall m :: m in r.value.results <==> m in ms && Selected(m, q))
    ensures r.Ok? ==> r.value.room == (if q.includeMeta then FindRoom(rooms, q.roomId) else None)
  {
    match FindRoom(rooms, q.roomId)
    case None => Err(NullDereference)
    case Some(room) =>
      if !IsMember(rows, callerId, room.id) then Err(NotFound)
      else Ok(MessagePage(if q.includeMeta then Some(room) else None, SelectMessages(ms, q)))
  }

  // ---------------------------------------------------------------- getPaginatedAllRooms

  /** The `users` include with `where: {id: {[Op.ne]: userId}}`, narrowed
      to `query.userId` when given: a companion of the caller in the room. */
  predicate IsCompanion(row: UserRoom, roomId: nat, userId: nat, companion: Option<nat>)
  {
    row.roomId == roomId && row.userId != userId && (Given(companion) ==> row.userId == companion.value)
  }

  function Companions(rows: seq<UserRoom>, roomId: nat, userId: nat, companion: Option<nat>): (r: seq<nat>)
    ensures forall u :: u in r <==> exists i :: 0 <= i < |rows| && IsCompanion(rows[i], roomId, userId, companion) && rows[i].userId == u
  {
    if rows == [] then []
    else
      var rest := Companions(rows[1..], roomId, userId, companion);
      assert forall i :: 1 <= i < |rows| ==> rows[i] == rows[1..][i - 1];
      (if IsCompanion(rows[0], roomId, userId, companion) then [rows[0].userId] else []) + rest
  }

  /** A room is listed when the caller is a member (the required UserRoom
      include) and it has a companion (an include with a `where` is an
      inner join). */
  predicate Listed(room: Room, rows: seq<UserRoom>, userId: nat, companion: Option<nat>)
  {
    IsMember(rows, userId, room.id) && Companions(rows, room.id, userId, companion) != []
  }

  function ListedRooms(rooms: seq<Room>, rows: seq<UserRoom>, userId: nat, companion: Option<nat>): (r: seq<Room>)
    ensures forall room :: room in r <==> room in rooms && Listed(room, rows, userId, companion)
  {
    if rooms == [] then []
    else
      var rest := ListedRooms(rooms[1..], rows, userId, companion);
      assert forall x :: x in rooms <==> x == rooms[0] || x in rooms[1..];
      (if Listed(rooms[0], rows, userId, companion) then [rooms[0]] else []) + rest
  }

  /** No listed companion is the caller, and each is the requested one. */
  lemma CompanionsExcludeCaller(rows: seq<UserRoom>, roomId: nat, userId: nat, companion: Option<nat>)
    ensures forall u :: u in Companions(rows, roomId, userId, companion) ==>
      u != userId && IsMember(rows, u, roomId) && (Given(companion) ==> u == companion.value)
  {
  }

  /** In a room that only the two appended rows belong to, the host's one
      companion is the other user. */
  lemma {:induction false} CompanionsOfNewRoom(rows: seq<UserRoom>, roomId: nat, hostId: nat, userId: nat)
    requires forall i :: 0 <= i < |rows| ==> rows[i].roomId != roomId
    requires userId != hostId
    ensures Companions(rows + [UserRoom(hostId, roomId, None, None), UserRoom(userId, roomId, None, None)], roomId, hostId, None) == [userId]
  {
    var tail := [UserRoom(hostId, roomId, None, None), UserRoom(userId, roomId, None, None)];
    if rows == [] {
      assert rows + tail == tail;
      assert Companions(tail[1..][1..], roomId, hostId, None) == [];
      assert Companions(tail[1..], roomId, hostId, None) == [userId];
    } else {
      assert (rows + tail)[1..] == rows[1..] + tail;
      CompanionsOfNewRoom(rows[1..], roomId, hostId, userId);
    }
  }

  // ---------------------------------------------------------------- find or create

  /** findOrCreate's `where: {...dto, hostId}`: fields the dto leaves out do
      not constrain the match. */
  predicate Matches(room: Room, c: RoomCriteria, hostId: nat)
  {
    && (c.name.Some? ==> room.name == c.name)
    && (c.hireId.Some? ==> room.hireId == c.hireId)
    && room.hostId == Some(hostId)
  }

  /** The first room that matches. */
  function FindRoomWhere(rooms: seq<Room>, c: RoomCriteria, hostId: nat): (r: Option<nat>)
    ensures r.Some? ==> r.value < |rooms| && Matches(rooms[r.value], c, hostId)
    ensures r.None? ==> forall i :: 0 <= i < |rooms| ==> !Matches(rooms[i], c, hostId)
  {
    if rooms == [] then None
    else if Matches(rooms[0], c, hostId) then Some(0)
    else
      var r := FindRoomWhere(rooms[1..], c, hostId);
      assert forall i :: 1 <= i < |rooms| ==> rooms[i] == rooms[1..][i - 1];
      if r.Some? then Some(r.value + 1) else None
  }

  /** findOrCreateRoom: the first matching room, or a new one built from
      the criteria with the next id. */
  function FindOrCreate(rooms: seq<Room>, c: RoomCriteria, hostId: nat, newId: nat): (r: (seq<Room>, Room))
    ensures Matches(r.1, c, hostId)
    ensures r.1 in r.0
    ensures FindRoomWhere(rooms, c, hostId).Some? ==> r.0 == rooms
    ensures FindRoomWhere(rooms, c, hostId).None? ==> r.0 == rooms + [r.1] && r.1.id == newId
  {
    match FindRoomWhere(rooms, c, hostId)
    case Some(i) => (rooms, rooms[i])
    case None => (rooms + [Room(newId, c.name, Some(hostId), c.hireId)], Room(newId, c.name, Some(hostId), c.hireId))
  }

  /** Finding or creating again, with the same criteria, returns the same
      room and creates nothing. */
  lemma FindOrCreateIdempotent(rooms: seq<Room>, c: RoomCriteria, hostId: nat, newId: nat, laterId: nat)
    ensures var (rooms1, room) := FindOrCreate(rooms, c, hostId, newId);
      FindOrCreate(rooms1, c, hostId, laterId) == (rooms1, room)
  {
    var (rooms1, room) := FindOrCreate(rooms, c, hostId, newId);
    match FindRoomWhere(rooms, c, hostId)
    case Some(i) =>
    case None =>
      assert forall i :: 0 <= i < |rooms| ==> rooms1[i] == rooms[i];
      assert FindRoomWhere(rooms1, c, hostId) == Some(|rooms|);
  }

  /** createHireRoomWithUsers as one step: find or create the room, then
      upsert the host and the user as members. */
  function HireRoom(rooms: seq<Room>, rows: seq<UserRoom>, c: RoomCriteria, hostId: nat, userId: nat, newId: nat)
    : (r: (seq<Room>, seq<UserRoom>, Room))
    ensures r.2 in r.0 && Matches(r.2, c, hostId)
    ensures |r.0| <= |rooms| + 1 && |rows| <= |r.1| <= |rows| + 2
  {
    var (rooms1, room) := FindOrCreate(rooms, c, hostId, newId);
    (rooms1, Upsert(Upsert(rows, hostId, room.id, None), userId, room.id, None), room)
  }

  /** Both the host and the user are members of the returned room, which
      matches the criteria and the host. */
  lemma HireRoomMembers(rooms: seq<Room>, rows: seq<UserRoom>, c: RoomCriteria, hostId: nat, userId: nat, newId: nat)
    requires UniqueKeys(rows)
    ensures var (rooms1, rows1, room) := HireRoom(rooms, rows, c, hostId, userId, newId);
      && UniqueKeys(rows1) && Matches(room, c, hostId) && room in rooms1
      && IsMember(rows1, hostId, room.id) && IsMember(rows1, userId, room.id)
  {
    var (rooms1, room) := FindOrCreate(rooms, c, hostId, newId);
    UpsertMakesMember(rows, hostId, room.id, None);
    UpsertMakesMember(Upsert(rows, hostId, room.id, None), userId, room.id, None);
  }

  /** Re-running createHireRoomWithUsers with the same dto and host returns
      the same room and leaves the tables as they were after the first run. */
  lemma HireRoomIdempotent(rooms: seq<Room>, rows: seq<UserRoom>, c: RoomCriteria, hostId: nat, userId: nat, newId: nat, laterId: nat)
    requires UniqueKeys(rows)
    ensures var (rooms1, rows1, room) := HireRoom(rooms, rows, c, hostId, userId, newId);
      HireRoom(rooms1, rows1, c, hostId, userId, laterId) == (rooms1, rows1, room)
  {
    var (rooms1, rows1, room) := HireRoom(rooms, rows, c, hostId, userId, newId);
    FindOrCreateIdempotent(rooms, c, hostId, newId, laterId);
    HireRoomMembers(rooms, rows, c, hostId, userId, newId);
    UpsertExistingWithoutSocket(rows1, hostId, room.id);
    UpsertExistingWithoutSocket(rows1, userId, room.id);
  }
}
