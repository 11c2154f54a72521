// ChatMessage: a message document.  Its readBy list only grows; deletion is
// a soft flag; participantCountAtSend is a snapshot taken when it is sent.

module ChatMessages {
  import opened Common
  import opened Directory

  /** Document ids are drawn from a counter; the source uses Mongo ObjectIds. */
  type MessageId = nat

  datatype MessageType = Chat | Join | Leave

  /** Sender name of every system notice. */
  const SystemName: string := "시스템"

  /** The persistent state of a message document.  `dateMessage` marks a
      date separator. */
  datatype Message = Message(
    id: Option<MessageId>,
    roomId: int,
    senderId: Option<string>,
    senderName: Option<string>,
    senderDepartment: Option<string>,
    senderPosition: Option<string>,
    content: Option<string>,
    timestamp: int,
    msgType: MessageType,
    readBy: seq<string>,
    exitMessage: bool,
    inviteMessage: bool,
    deleted: bool,
    attachmentType: Option<string>,
    attachmentUrl: Option<string>,
    attachmentName: Option<string>,
    participantCountAtSend: int,
    dateMessage: bool)

  /** A document as the no-argument constructor leaves it (the field
      initialisers; every other field null, zero or false), placed in room
      `roomId` and stamped at `now`. */
  function Blank(roomId: int, now: int): Message
  {
    Message(None, roomId, None, None, None, None, None, now, Chat, [],
            false, false, false, None, None, None, 0, false)
  }

  /** The employee constructor: sender id, name and position copied from the
      employee, "" for an employee without a department, stamped at `now`. */
  function EmployeeMessage(roomId: int, sender: Employee, content: Option<string>, now: int): Message
    requires sender.user.Some?
  {
    Blank(roomId, now).(
      senderId := sender.user,
      senderName := sender.name,
      senderDepartment := Some(if sender.department.Some? then sender.department.value.name else ""),
      senderPosition := sender.position,
      content := content)
  }

  /** addReadBy: append the reader unless it is already present. */
  function WithReader(readBy: seq<string>, userId: string): seq<string>
  {
    if userId in readBy then readBy else readBy + [userId]
  }

  /** isSystemMessage. */
  predicate IsSystemMessage(m: Message)
  {
    m.senderName == Some(SystemName)
  }

  /** A new document defaults to type CHAT, an empty readBy and no exit,
      invite or deleted flag. */
  lemma BlankDefaults(roomId: int, now: int)
    ensures Blank(roomId, now).msgType == Chat && Blank(roomId, now).readBy == []
    ensures !Blank(roomId, now).exitMessage && !Blank(roomId, now).inviteMessage
    ensures !Blank(roomId, now).deleted && !Blank(roomId, now).dateMessage
  {
  }

  /** The employee constructor copies the sender and stamps the time; the
      remaining fields keep their defaults. */
  lemma FromEmployeeCopiesSender(roomId: int, sender: Employee, content: Option<string>, now: int)
    requires sender.user.Some?
    ensures var m := EmployeeMessage(roomId, sender, content, now);
      && m.senderId == sender.user && m.senderName == sender.name && m.senderPosition == sender.position
      && (sender.department.None? ==> m.senderDepartment == Some(""))
      && (sender.department.Some? ==> m.senderDepartment == Some(sender.department.value.name))
      && m.timestamp == now && m.content == content && m.roomId == roomId
      && m.readBy == [] && m.msgType == Chat && !m.deleted
      && (IsSystemMessage(m) <==> sender.name == Some(SystemName))
  {
  }

  /** addReadBy is idempotent. */
  lemma WithReaderIdempotent(readBy: seq<string>, userId: string)
    ensures WithReader(WithReader(readBy, userId), userId) == WithReader(readBy, userId)
    ensures userId in readBy ==> WithReader(readBy, userId) == readBy
  {
  }

  /** addReadBy never removes or reorders entries, always leaves the reader
      present, and appends a new reader exactly once. */
  lemma WithReaderGrows(readBy: seq<string>, userId: string)
    ensures |readBy| <= |WithReader(readBy, userId)| <= |readBy| + 1
    ensures WithReader(readBy, userId)[..|readBy|] == readBy
    ensures userId in WithReader(readBy, userId)
    ensures userId !in readBy ==> multiset(WithReader(readBy, userId)) == multiset(readBy) + multiset{userId}
    ensures forall x :: x in WithReader(readBy, userId) <==> x in readBy || x == userId
  {
  }

  /** Without duplicates to begin with, addReadBy never introduces one. */
  lemma WithReaderKeepsDistinct(readBy: seq<string>, userId: string)
    requires forall i, j :: 0 <= i < j < |readBy| ==> readBy[i] != readBy[j]
    ensures var r := WithReader(readBy, userId);
      forall i, j :: 0 <= i < j < |r| ==> r[i] != r[j]
  {
  }

  /** The Mongo entity: readBy is appended to in place. */
  class ChatMessage {
    var id: Option<MessageId>
    var roomId: int
    var senderId: Option<string>
    var senderName: Option<string>
    var senderDepartment: Option<string>
    var senderPosition: Option<string>
    var content: Option<string>
    var timestamp: int
    var msgType: MessageType
    var readBy: seq<string>
    var exitMessage: bool
    var inviteMessage: bool
    var deleted: bool
    var attachmentType: Option<string>
    var attachmentUrl: Option<string>
    var attachmentName: Option<string>
    var participantCountAtSend: int
    var dateMessage: bool

    function Doc(): Message
      reads this
    {
      Message(id, roomId, senderId, senderName, senderDepartment, senderPosition, content,
              timestamp, msgType, readBy, exitMessage, inviteMessage, deleted,
              attachmentType, attachmentUrl, attachmentName, participantCountAtSend, dateMessage)
    }

    constructor FromEmployee(roomId: int, sender: Employee, content: Option<string>, now: int)
      requires sender.user.Some?
      ensures Doc() == EmployeeMessage(roomId, sender, content, now)
    {
      id := None;
      this.roomId := roomId;
      senderId := sender.user;
      senderName := sender.name;
      senderDepartment := Some(if sender.department.Some? then sender.department.value.name else "");
      senderPosition := sender.position;
      this.content := content;
      timestamp := now;
      msgType := Chat;
      readBy := [];
      exitMessage := false;
      inviteMessage := false;
      deleted := false;
      attachmentType := None;
      attachmentUrl := None;
      attachmentName := None;
      participantCountAtSend := 0;
      dateMessage := false;
    }

    method AddReadBy(userId: string)
      modifies this`readBy
      ensures readBy == WithReader(old(readBy), userId)
      ensures Doc() == old(Doc()).(readBy := WithReader(old(readBy), userId))
    {
      if userId !in readBy {
        readBy := readBy + [userId];
      }
    }

    predicate IsSystem()
      reads this
    {
      IsSystemMessage(Doc())
    }
  }
}
