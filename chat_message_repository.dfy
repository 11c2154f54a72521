// The Mongo finders and count queries of ChatMessageRepository, as
// predicates and counts over the message collection in insertion order.

module ChatMessageQueries {
  import opened Common
  import opened Ordering
  import opened ChatMessages

  function InRoom(msgs: seq<Message>, roomId: int): (r: seq<Message>)
    ensures forall i :: 0 <= i < |r| ==> r[i] in msgs && r[i].roomId == roomId
    ensures forall i :: 0 <= i < |msgs| && msgs[i].roomId == roomId ==> msgs[i] in r
  {
    Filter(msgs, (m: Message) => m.roomId == roomId)
  }

  function Timestamp(m: Message): int { m.timestamp }

  function NegatedTimestamp(m: Message): int { -m.timestamp }

  /** findByRoomIdOrderByTimestampAsc. */
  function OldestFirst(msgs: seq<Message>, roomId: int): seq<Message>
  {
    SortBy(InRoom(msgs, roomId), Timestamp)
  }

  /** The room's messages, newest first. */
  function NewestFirst(msgs: seq<Message>, roomId: int): seq<Message>
  {
    SortBy(InRoom(msgs, roomId), NegatedTimestamp)
  }

  /** findTopNByRoomIdOrderByTimestampDesc (N = 1, 2 and 50 are used). */
  function TopNewest(msgs: seq<Message>, roomId: int, n: nat): seq<Message>
  {
    Take(NewestFirst(msgs, roomId), n)
  }

  /** findByRoomIdOrderByTimestampAsc holds exactly the room's messages,
      oldest first. */
  lemma OldestFirstProperties(msgs: seq<Message>, roomId: int)
    ensures multiset(OldestFirst(msgs, roomId)) == multiset(InRoom(msgs, roomId))
    ensures forall i, j :: 0 <= i < j < |OldestFirst(msgs, roomId)| ==>
              OldestFirst(msgs, roomId)[i].timestamp <= OldestFirst(msgs, roomId)[j].timestamp
    ensures forall m :: m in OldestFirst(msgs, roomId) ==> m in msgs && m.roomId == roomId
  {
    SortBySorted(InRoom(msgs, roomId), Timestamp);
    forall m | m in OldestFirst(msgs, roomId) ensures m in msgs && m.roomId == roomId {
      assert m in multiset(InRoom(msgs, roomId));
    }
  }

  /** The room's messages newest first: exactly the room's messages, in
      non-increasing timestamp order. */
  lemma NewestFirstProperties(msgs: seq<Message>, roomId: int)
    ensures multiset(NewestFirst(msgs, roomId)) == multiset(InRoom(msgs, roomId))
    ensures forall i, j :: 0 <= i < j < |NewestFirst(msgs, roomId)| ==>
              NewestFirst(msgs, roomId)[i].timestamp >= NewestFirst(msgs, roomId)[j].timestamp
    ensures forall m :: m in NewestFirst(msgs, roomId) ==> m in msgs && m.roomId == roomId
  {
    var all := NewestFirst(msgs, roomId);
    SortBySorted(InRoom(msgs, roomId), NegatedTimestamp);
    assert forall i, j :: 0 <= i < j < |all| ==> NegatedTimestamp(all[i]) <= NegatedTimestamp(all[j]);
    forall m | m in all ensures m in msgs && m.roomId == roomId {
      assert m in multiset(InRoom(msgs, roomId));
    }
  }

  /** The top-N finders return min(N, room size) of the room's messages,
      newest first, and every room message they leave out is no newer than
      any they return. */
  lemma TopNewestProperties(msgs: seq<Message>, roomId: int, n: nat)
    ensures |TopNewest(msgs, roomId, n)| == Min(n, |InRoom(msgs, roomId)|)
    ensures forall m :: m in TopNewest(msgs, roomId, n) ==> m in msgs && m.roomId == roomId
    ensures forall i, j :: 0 <= i < j < |TopNewest(msgs, roomId, n)| ==>
              TopNewest(msgs, roomId, n)[i].timestamp >= TopNewest(msgs, roomId, n)[j].timestamp
    ensures forall i, j :: 0 <= i < |TopNewest(msgs, roomId, n)| <= j < |NewestFirst(msgs, roomId)| ==>
              TopNewest(msgs, roomId, n)[i].timestamp >= NewestFirst(msgs, roomId)[j].timestamp
  {
    var all := NewestFirst(msgs, roomId);
    var top := TopNewest(msgs, roomId, n);
    NewestFirstProperties(msgs, roomId);
    assert top == all[..|top|];
    forall m | m in top ensures m in msgs && m.roomId == roomId {
      assert m in all;
    }
  }

  // ---------------------------------------------------------------------
  // Count queries

  /** countUnreadMessagesAfterJoin's filter: the room's messages after the
      join time that the user neither sent nor read and that are not
      deleted; of the system notices only the exit notices are left out. */
  predicate CountsAfterJoin(m: Message, roomId: int, userId: string, joinedAt: int)
  {
    && m.roomId == roomId
    && userId !in m.readBy
    && m.senderId != Some(userId)
    && !m.deleted
    && m.timestamp > joinedAt
    && (m.senderName != Some(SystemName) || !m.exitMessage)
  }

  function CountUnreadAfterJoin(msgs: seq<Message>, roomId: int, userId: string, joinedAt: int): nat
  {
    |Filter(msgs, (m: Message) => CountsAfterJoin(m, roomId, userId, joinedAt))|
  }

  /** countUnreadMessages' filter: every system notice is left out. */
  predicate CountsUnread(m: Message, roomId: int, userId: string)
  {
    && m.roomId == roomId
    && userId !in m.readBy
    && m.senderId != Some(userId)
    && !m.deleted
    && m.senderName != Some(SystemName)
  }

  function CountUnreadMessages(msgs: seq<Message>, roomId: int, userId: string): nat
  {
    |Filter(msgs, (m: Message) => CountsUnread(m, roomId, userId))|
  }

  /** findUnreadMessagesByUserId's filter. */
  predicate UnreadByUser(m: Message, roomIds: set<int>, userId: string)
  {
    m.roomId in roomIds && userId !in m.readBy && m.senderId != Some(userId)
  }

  /** findUnreadMessagesByUserId. */
  function FindUnreadMessagesByUserId(msgs: seq<Message>, roomIds: set<int>, userId: string): seq<Message>
  {
    Filter(msgs, (m: Message) => UnreadByUser(m, roomIds, userId))
  }

  /** findUnreadMessagesByRoomIdAndUserId: the same filter for one room. */
  function FindUnreadInRoom(msgs: seq<Message>, roomId: int, userId: string): seq<Message>
  {
    FindUnreadMessagesByUserId(msgs, {roomId}, userId)
  }

  /** What countUnreadMessagesAfterJoin counts, condition by condition. */
  lemma CountsAfterJoinConditions(m: Message, roomId: int, userId: string, joinedAt: int)
    ensures CountsAfterJoin(m, roomId, userId, joinedAt) ==>
      m.roomId == roomId && m.timestamp > joinedAt && m.senderId != Some(userId)
      && userId !in m.readBy && !m.deleted
    ensures IsSystemMessage(m) ==>
      (CountsAfterJoin(m, roomId, userId, joinedAt) <==>
         !m.exitMessage && m.roomId == roomId && m.timestamp > joinedAt
         && m.senderId != Some(userId) && userId !in m.readBy && !m.deleted)
  {
  }

  /** countUnreadMessages leaves out every system notice and every deleted
      message, and never counts more than the after-join filter would with no
      join time in the way. */
  lemma CountsUnreadExcludesSystemAndDeleted(m: Message, roomId: int, userId: string)
    ensures IsSystemMessage(m) ==> !CountsUnread(m, roomId, userId)
    ensures m.deleted ==> !CountsUnread(m, roomId, userId)
    ensures CountsUnread(m, roomId, userId) ==> CountsAfterJoin(m, roomId, userId, m.timestamp - 1)
  {
  }

  /** A user's own messages never count toward their unread total, in either
      count query, wherever they sit in the collection. */
  lemma OwnMessagesNeverCount(before: seq<Message>, m: Message, after: seq<Message>, roomId: int, userId: string, joinedAt: int)
    requires m.senderId == Some(userId)
    ensures CountUnreadAfterJoin(before + [m] + after, roomId, userId, joinedAt)
            == CountUnreadAfterJoin(before + after, roomId, userId, joinedAt)
    ensures CountUnreadMessages(before + [m] + after, roomId, userId)
            == CountUnreadMessages(before + after, roomId, userId)
  {
    var p := (x: Message) => CountsAfterJoin(x, roomId, userId, joinedAt);
    var q := (x: Message) => CountsUnread(x, roomId, userId);
    FilterAppend(before + [m], after, p);
    FilterAppend(before, [m], p);
    FilterAppend(before, after, p);
    FilterAppend(before + [m], after, q);
    FilterAppend(before, [m], q);
    FilterAppend(before, after, q);
  }

  /** findUnreadMessagesByUserId returns exactly the messages in the given
      rooms that the user neither read nor sent. */
  lemma FindUnreadMessagesExact(msgs: seq<Message>, roomIds: set<int>, userId: string)
    ensures forall m :: m in FindUnreadMessagesByUserId(msgs, roomIds, userId) <==>
              m in msgs && m.roomId in roomIds && userId !in m.readBy && m.senderId != Some(userId)
  {
    var r := FindUnreadMessagesByUserId(msgs, roomIds, userId);
    forall m | m in r ensures m in msgs && m.roomId in roomIds && userId !in m.readBy && m.senderId != Some(userId) {
      var i :| 0 <= i < |r| && r[i] == m;
    }
    forall m | m in msgs && m.roomId in roomIds && userId !in m.readBy && m.senderId != Some(userId)
      ensures m in r
    {
      var i :| 0 <= i < |msgs| && msgs[i] == m;
    }
  }
}
