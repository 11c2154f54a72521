// ChatMessageRequestDto.of: the outgoing view of a message, with the
// per-message unread count max(0, snapshot - readers other than the sender).

module ChatMessageDtos {
  import opened Common
  import opened ChatMessages

  datatype MessageDto = MessageDto(
    id: Option<MessageId>,
    departmentName: Option<string>,
    senderId: Option<string>,
    senderName: Option<string>,
    content: Option<string>,
    timestamp: int,
    attachmentType: Option<string>,
    attachmentUrl: Option<string>,
    attachmentName: Option<string>,
    readBy: seq<string>,
    unreadCount: int,
    deleted: bool)

  /** The distinct readers other than the sender (the HashSet of readBy with
      the sender removed). */
  function OtherReaders(readBy: seq<string>, senderId: Option<string>): set<string>
  {
    set x | x in readBy && Some(x) != senderId
  }

  /** The unread count shown for a message. */
  function UnreadCount(m: Message): int
  {
    Max(0, m.participantCountAtSend - |OtherReaders(m.readBy, m.senderId)|)
  }

  /** ChatMessageRequestDto.of: fields copied verbatim, the unread count
      computed, the department name left unset. */
  function Of(m: Message): (d: MessageDto)
    ensures d.id == m.id && d.senderId == m.senderId && d.senderName == m.senderName
    ensures d.content == m.content && d.timestamp == m.timestamp
    ensures d.attachmentType == m.attachmentType && d.attachmentUrl == m.attachmentUrl
    ensures d.attachmentName == m.attachmentName
    ensures d.readBy == m.readBy && d.deleted == m.deleted && d.departmentName.None?
    ensures d.unreadCount == UnreadCount(m)
  {
    MessageDto(m.id, None, m.senderId, m.senderName, m.content, m.timestamp,
               m.attachmentType, m.attachmentUrl, m.attachmentName, m.readBy,
               UnreadCount(m), m.deleted)
  }

  lemma SubsetCardinality<T>(a: set<T>, b: set<T>)
    requires a <= b
    ensures |a| <= |b|
  {
    assert b == a + (b - a);
  }

  /** The unread count is never negative, and never exceeds a non-negative
      snapshot; it is zero once as many others have read as were present. */
  lemma UnreadCountBounds(m: Message)
    ensures 0 <= UnreadCount(m)
    ensures m.participantCountAtSend >= 0 ==> UnreadCount(m) <= m.participantCountAtSend
    ensures |OtherReaders(m.readBy, m.senderId)| >= m.participantCountAtSend ==> UnreadCount(m) == 0
  {
  }

  /** Two reader lists with the same members give the same count: neither
      the order nor duplicate entries matter. */
  lemma UnreadCountIgnoresDuplicates(m: Message, readBy: seq<string>)
    requires forall x :: x in readBy <==> x in m.readBy
    ensures UnreadCount(m.(readBy := readBy)) == UnreadCount(m)
  {
    assert OtherReaders(readBy, m.senderId) == OtherReaders(m.readBy, m.senderId);
  }

  /** The sender's presence in readBy does not change the count. */
  lemma UnreadCountIgnoresSender(m: Message, sender: string)
    requires m.senderId == Some(sender)
    ensures UnreadCount(m.(readBy := m.readBy + [sender])) == UnreadCount(m)
  {
    assert OtherReaders(m.readBy + [sender], m.senderId) == OtherReaders(m.readBy, m.senderId);
  }

  /** Recording a reader never increases the count. */
  lemma {:induction false} AddingReaderNeverIncreases(m: Message, userId: string)
    ensures UnreadCount(m.(readBy := WithReader(m.readBy, userId))) <= UnreadCount(m)
  {
    SubsetCardinality(OtherReaders(m.readBy, m.senderId), OtherReaders(WithReader(m.readBy, userId), m.senderId));
  }

  /** A reader other than the sender who had not read yet lowers a positive
      count by exactly one. */
  lemma {:induction false} NewReaderDecrementsCount(m: Message, userId: string)
    requires userId !in m.readBy && m.senderId != Some(userId)
    requires UnreadCount(m) > 0
    ensures UnreadCount(m.(readBy := WithReader(m.readBy, userId))) == UnreadCount(m) - 1
  {
    var before := OtherReaders(m.readBy, m.senderId);
    var after := OtherReaders(WithReader(m.readBy, userId), m.senderId);
    assert after == before + {userId};
    assert userId !in before;
  }
}
