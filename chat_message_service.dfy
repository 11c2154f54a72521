// ChatMessageService: sending (group and direct, with the date separator),
// read marking, soft deletion, the windowed and paged fetch, the per-room
// unread count and the room list.  Each operation is first stated as a
// transition of the stores; the service class below performs it step by
// step against the repositories and is proved to end in that state.

module MessageService {
  import opened Common
  import opened Ordering
  import opened Directory
  import opened ChatRoomParticipants
  import opened ChatRooms
  import opened ChatMessages
  import opened ChatMessageDtos
  import opened ChatMessageQueries
  import opened ChatRoomQueries
  import opened Stores
  import opened FileStorage

  /** Sender id of the date separators. */
  const SystemSenderId: string := "SYSTEM"

  /** Milliseconds in a day of the server's local calendar. */
  const MillisPerDay: int := 86_400_000

  const ImageLabel: string := "📷 사진"
  const FileLabel: string := "📄 파일"
  const RoomCreatedLabel: string := "채팅방이 생성되었습니다."
  const DeletedContent: string := "메시지가 삭제되었습니다!"

  /** The calendar day of a local timestamp given in milliseconds. */
  function Day(t: int): int
  {
    t / MillisPerDay
  }

  /** The pattern of a date separator: four ASCII digits, "년 ", two digits,
      "월 ", two digits, "일", and nothing else. */
  predicate IsDateLabel(s: string)
  {
    && |s| == 13
    && AllDigits(s[..4]) && s[4] == '년' && s[5] == ' '
    && AllDigits(s[6..8]) && s[8] == '월' && s[9] == ' '
    && AllDigits(s[10..12]) && s[12] == '일'
  }

  /** findByUser_UserId, which finds nothing for a null id. */
  function EmployeeOfUser(staff: seq<Employee>, userId: Option<string>): (r: Option<Employee>)
    ensures r.Some? ==> r.value in staff && r.value.user == userId && userId.Some?
    ensures r.None? && userId.Some? ==> forall e :: e in staff ==> e.user != userId
  {
    if userId.None? then None else EmployeeByUserId(staff, userId.value)
  }

  // ---------------------------------------------------------------------
  // Labels, system messages and counts

  /** The room preview a message leaves: a fixed label for an image or file
      attachment (the type compared ignoring case), otherwise its content. */
  function PreviewLabel(m: Message): Option<string>
  {
    if EqualsIgnoreCase(m.attachmentType, "image") then Some(ImageLabel)
    else if EqualsIgnoreCase(m.attachmentType, "file") then Some(FileLabel)
    else m.content
  }

  /** createSystemMessage: a system notice with an empty readBy, flagged as a
      date separator when sent by "SYSTEM" with a date label as content. */
  function SystemMessage(roomId: int, senderId: string, content: string, now: int): (m: Message)
    ensures IsSystemMessage(m) && m.readBy == [] && m.id.None?
    ensures m.senderId == Some(senderId) && m.content == Some(content) && m.timestamp == now && m.roomId == roomId
    ensures m.dateMessage <==> senderId == SystemSenderId && IsDateLabel(content)
    ensures !m.exitMessage && !m.inviteMessage && !m.deleted && m.msgType == Chat
  {
    Blank(roomId, now).(
      senderId := Some(senderId),
      senderName := Some(SystemName),
      content := Some(content),
      readBy := [],
      dateMessage := senderId == SystemSenderId && IsDateLabel(content))
  }

  /** The active participants other than the sender who have a user: the
      participantCountAtSend snapshot. */
  function OthersActive(ps: seq<Participant>, senderId: Option<string>): set<Employee>
  {
    set e | e in ActiveParticipants(ps) && e.user.Some? && e.user != senderId
  }

  /** The user ids of the active participants: the keys of an unread-count
      broadcast. */
  function ActiveUserIds(ps: seq<Participant>): set<string>
  {
    set e | e in ActiveParticipants(ps) && e.user.Some? :: e.user.value
  }

  /** getUnreadCount's employee id: the user id parsed as a number when it
      is one, otherwise the id of the user's employee, otherwise 0. */
  function EmployeeIdFor(staff: seq<Employee>, userId: string): int
  {
    match ParseLong(Some(userId))
    case Some(n) => n
    case None =>
      match EmployeeByUserId(staff, userId)
      case Some(e) => e.id
      case None => 0
  }

  /** getUnreadCount: 0 unless the room holds a record for that employee
      id; otherwise the after-join count from the record's joinedAt. */
  function GetUnreadCount(st: Store, staff: seq<Employee>, roomId: int, userId: string): nat
  {
    if roomId !in st.rooms then 0
    else
      var ps := st.rooms[roomId].participants;
      match RecordOf(ps, EmployeeIdFor(staff, userId))
      case None => 0
      case Some(i) => CountUnreadAfterJoin(st.docs, roomId, userId, ps[i].joinedAt)
  }

  /** The unread-count map broadcast for a stored room. */
  function Counts(st: Store, staff: seq<Employee>, roomId: int): (r: map<string, int>)
    requires roomId in st.rooms
    ensures r.Keys == ActiveUserIds(st.rooms[roomId].participants)
  {
    map u | u in ActiveUserIds(st.rooms[roomId].participants) :: GetUnreadCount(st, staff, roomId, u)
  }

  /** The snapshot count: the active members whose user is not the sender;
      an active member without a user fails the filter. */
  function OthersCount(ps: seq<Participant>, senderId: Option<string>): Result<nat, Exception>
  {
    if HasUserlessActive(ps) then Err(NullPointer)
    else Ok(|OthersActive(ps, senderId)|)
  }

  /** The unread counts of every active member, keyed by user id; an active
      member without a user fails the mapping. */
  function RoomCounts(st: Store, staff: seq<Employee>, roomId: int): Result<map<string, int>, Exception>
    requires roomId in st.rooms
  {
    if HasUserlessActive(st.rooms[roomId].participants) then Err(NullPointer)
    else Ok(Counts(st, staff, roomId))
  }

  // ---------------------------------------------------------------------
  // The date separator

  /** Whether insertDateSeparatorIfNeeded inserts: fewer than two messages in
      the room, or no CHAT-typed one among the two newest, or the newest
      such one dated other than today. */
  predicate NeedsSeparator(docs: seq<Message>, roomId: int, now: int)
  {
    var lastTwo := TopNewest(docs, roomId, 2);
    |lastTwo| < 2 ||
    match FindFirst(lastTwo, (m: Message) => m.msgType == Chat)
    case None => true
    case Some(m) => Day(m.timestamp) != Day(now)
  }

  /** The separator inserted at `now`. */
  function Separator(roomId: int, now: int, formatDay: int -> string): Message
  {
    SystemMessage(roomId, SystemSenderId, formatDay(Day(now)), now)
  }

  /** insertDateSeparatorIfNeeded: save the separator and publish it, or do
      nothing. */
  function InsertDateSeparatorIfNeededSpec(st: Store, roomId: int, now: int, formatDay: int -> string): Store
  {
    if NeedsSeparator(st.docs, roomId, now) then
      var saving := SaveDoc(st.docs, Separator(roomId, now, formatDay));
      var docs := saving.0;
      var saved := saving.1;
      st.(docs := docs, events := st.events + [MessageFrame(roomId, Of(saved))])
    else st
  }

  // ---------------------------------------------------------------------
  // Sending

  /** sendMessage: the room must exist; the separator comes first; the
      snapshot counts the other active participants; an unknown sender
      fails; an inactive sender is re-added with rejoin; the sender is
      appended to readBy; the message is saved; the room takes the preview
      and the activity time; the message and then the unread counts are
      published.  A null preview makes the second payload fail. */
  function SendMessageSpec(st: Store, staff: seq<Employee>, m: Message, now: int, formatDay: int -> string): Step<Message>
  {
    if m.roomId !in st.rooms then Step(st, Err(Runtime))
    else
      var room := st.rooms[m.roomId];
      var st1 := InsertDateSeparatorIfNeededSpec(st, m.roomId, now, formatDay);
      match OthersCount(room.participants, m.senderId)
      case Err(x) => Step(st1, Err(x))
      case Ok(count) =>
      match EmployeeOfUser(staff, m.senderId)
      case None => Step(st1, Err(Runtime))
      case Some(sender) =>
        var ps := if HasActiveParticipant(room.participants, m.senderId) then room.participants
                  else Added(room.participants, sender, true, now);
        var message := m.(participantCountAtSend := count, readBy := m.readBy + [m.senderId.value]);
        var preview := PreviewLabel(message);
        PublishSpec(st1, staff, room.(participants := ps, lastMessageContent := preview, lastActivity := now), message, preview)
  }

  /** The tail both send operations share: save the message, store the room,
      publish the message, then the unread counts with the preview; a null
      preview makes the second payload fail. */
  function PublishSpec(st: Store, staff: seq<Employee>, room: Room, message: Message, preview: Option<string>): Step<Message>
  {
    var saving := SaveDoc(st.docs, message);
    var st2 := st.(docs := saving.0, rooms := st.rooms[message.roomId := room],
                   events := st.events + [MessageFrame(message.roomId, Of(saving.1))]);
    match RoomCounts(st2, staff, message.roomId)
    case Err(x) => Step(st2, Err(x))
    case Ok(counts) =>
      if preview.None? then Step(st2, Err(NullPointer))
      else Step(st2.(events := st2.events + [UnreadFrame(message.roomId, None, counts, preview)]), Ok(saving.1))
  }

  /** The sender ids of a list of messages, in order. */
  function SenderIds(ms: seq<Message>): seq<Option<string>>
  {
    seq(|ms|, i requires 0 <= i < |ms| => ms[i].senderId)
  }

  /** The sender ids other than `senderId` (none of them null), in order. */
  function RecipientIds(ids: seq<Option<string>>, senderId: Option<string>): (r: seq<string>)
    requires None !in ids
    ensures forall x :: x in r <==> Some(x) in ids && Some(x) != senderId
  {
    if ids == [] then []
    else (if ids[0] != senderId then [ids[0].value] else []) + RecipientIds(ids[1..], senderId)
  }

  /** sendDirectMessage's loop over the recipients: each one with an
      employee who is not an active participant is re-added with rejoin. */
  function Resurrected(ps: seq<Participant>, staff: seq<Employee>, recipientIds: seq<string>, now: int): seq<Participant>
    decreases |recipientIds|
  {
    if recipientIds == [] then ps
    else
      var rid := recipientIds[0];
      var recipient := EmployeeByUserId(staff, rid);
      var ps1 := if recipient.Some? && !HasActiveParticipant(ps, Some(rid)) then Added(ps, recipient.value, true, now) else ps;
      Resurrected(ps1, staff, recipientIds[1..], now)
  }

  /** sendDirectMessage: only for direct rooms.  The separator comes first
      and the snapshot is taken before the sender is re-added.  With
      `invite`, the distinct senders of the 50 newest messages other than
      the sender are re-added where they have an employee and are not
      active, and an invite message with an empty readBy is saved; without
      it the sender is in readBy.  The room's preview is the content; the
      message and the unread counts are published, the latter failing on a
      null content. */
  function SendDirectMessageSpec(st: Store, staff: seq<Employee>, roomId: int, senderId: Option<string>,
                             content: Option<string>, invite: bool, now: int, formatDay: int -> string): Step<Message>
  {
    if roomId !in st.rooms then Step(st, Err(Runtime))
    else if st.rooms[roomId].isGroupChat then Step(st, Err(IllegalArgument))
    else
      var room := st.rooms[roomId];
      var st1 := InsertDateSeparatorIfNeededSpec(st, roomId, now, formatDay);
      match OthersCount(room.participants, senderId)
      case Err(x) => Step(st1, Err(x))
      case Ok(count) =>
      match EmployeeOfUser(staff, senderId)
      case None => Step(st1, Err(Runtime))
      case Some(sender) =>
        var ps := if HasActiveParticipant(room.participants, senderId) then room.participants
                  else Added(room.participants, sender, true, now);
        var base := EmployeeMessage(roomId, sender, content, now).(participantCountAtSend := count);
        var allUserIds := Distinct(SenderIds(TopNewest(st1.docs, roomId, 50)));
        if invite && None in allUserIds then Step(st1, Err(NullPointer))
        else
          var ps2 := if invite then Resurrected(ps, staff, RecipientIds(allUserIds, senderId), now) else ps;
          var message := if invite then base.(inviteMessage := true) else base.(readBy := base.readBy + [senderId.value]);
          PublishSpec(st1, staff, room.(participants := ps2, lastMessageContent := content, lastActivity := now), message, content)
  }

  /** saveMessageEntity: save, then the room (which must exist) takes the
      preview and the activity time.  Nothing is published. */
  function SaveMessageEntitySpec(st: Store, m: Message, now: int): Step<Message>
  {
    var saving := SaveDoc(st.docs, m);
    var docs := saving.0;
    var saved := saving.1;
    if m.roomId !in st.rooms then Step(st.(docs := docs), Err(Runtime))
    else
      var room := st.rooms[m.roomId].(lastMessageContent := PreviewLabel(m), lastActivity := now);
      Step(st.(docs := docs, rooms := st.rooms[m.roomId := room]), Ok(saved))
  }

  /** createChatRoom: the creator must have an employee; the room is saved
      under the next id with the creator as its one member and the creation
      notice as its preview. */
  function CreateChatRoomSpec(st: Store, staff: seq<Employee>, name: Option<string>, creatorId: string,
                          isGroupChat: bool, now: int): Step<Room>
  {
    match EmployeeByUserId(staff, creatorId)
    case None => Step(st, Err(Runtime))
    case Some(creator) =>
      var id := st.nextRoomId;
      var room := NewRoom(id, name, Some(creatorId), isGroupChat, now).(
        participants := Added([], creator, false, now),
        lastMessageContent := Some(RoomCreatedLabel));
      Step(st.(rooms := st.rooms[id := room], nextRoomId := id + 1), Ok(room))
  }

  // ---------------------------------------------------------------------
  // Reading

  /** markMessagesAsRead: the message must exist.  Unless the user already
      read it or sent it, the user is appended, the message saved, and the
      unread counts, the reader and the room's preview ("" for none) are
      published; the room must exist. */
  function MarkMessagesAsReadSpec(st: Store, staff: seq<Employee>, messageId: MessageId, userId: string): Step<()>
  {
    match FindDoc(st.docs, messageId)
    case None => Step(st, Err(Runtime))
    case Some(m) =>
      if userId !in m.readBy && m.senderId != Some(userId) then
        var saving := SaveDoc(st.docs, m.(readBy := m.readBy + [userId]));
        var docs := saving.0;
        var saved := saving.1;
        var st1 := st.(docs := docs);
        if saved.roomId !in st.rooms then Step(st1, Err(NoSuchElement))
        else
          match RoomCounts(st1, staff, saved.roomId)
          case Err(x) => Step(st1, Err(x))
          case Ok(counts) =>
            var lastMsg := st.rooms[saved.roomId].lastMessageContent;
            var frame := UnreadFrame(saved.roomId, Some(userId), counts, Some(if lastMsg.Some? then lastMsg.value else ""));
            Step(st1.(events := st1.events + [frame]), Ok(()))
      else Step(st, Ok(()))
  }

  /** getMessages' forEach: every message of the snapshot the user neither
      sent nor (in the snapshot) read is marked by id; the first failure
      ends the walk. */
  function MarkEach(st: Store, staff: seq<Employee>, msgs: seq<Message>, userId: string): Step<()>
    decreases |msgs|
  {
    if msgs == [] then Step(st, Ok(()))
    else
      var m := msgs[0];
      if Some(userId) != m.senderId && userId !in m.readBy then
        var s := if m.id.None? then Step(st, Err(IllegalArgument)) else MarkMessagesAsReadSpec(st, staff, m.id.value, userId);
        if s.out.Err? then s else MarkEach(s.st, staff, msgs[1..], userId)
      else MarkEach(st, staff, msgs[1..], userId)
  }

  /** A page of messages and the total it was cut from. */
  datatype Page = Page(content: seq<Message>, total: nat)

  /** The first record, in set order, whose user is `userId`; a record with
      no user met first fails. */
  function FirstRecordOfUser(ps: seq<Participant>, userId: string): (r: Result<Option<nat>, Exception>)
    ensures r.Ok? && r.value.Some? ==> r.value.value < |ps| && ps[r.value.value].employee.user == Some(userId)
    ensures r.Ok? && r.value.Some? ==>
              forall k :: 0 <= k < r.value.value ==> ps[k].employee.user.Some? && ps[k].employee.user != Some(userId)
    ensures r == Ok(None) ==> forall k :: 0 <= k < |ps| ==> ps[k].employee.user.Some? && ps[k].employee.user != Some(userId)
    ensures r.Err? ==> r.error == NullPointer && exists k :: 0 <= k < |ps| && ps[k].employee.user.None?
  {
    match FirstIndex(ps, (p: Participant) => p.employee.user.None? || p.employee.user == Some(userId))
    case None => Ok(None)
    case Some(i) => if ps[i].employee.user.None? then Err(NullPointer) else Ok(Some(i))
  }

  /** The fetch window's lower bound: the room's creation time when the user
      never left or joined before the room was created, else the join time. */
  function Cutoff(p: Participant, createdAt: int): int
  {
    if p.lastLeftAt.None? || p.joinedAt < createdAt then createdAt else p.joinedAt
  }

  /** The room's messages, oldest first, strictly after `cutoff`. */
  function Window(docs: seq<Message>, roomId: int, cutoff: int): seq<Message>
  {
    Filter(OldestFirst(docs, roomId), (m: Message) => m.timestamp > cutoff)
  }

  /** The page of `filtered` starting at `offset`. */
  function Slice(filtered: seq<Message>, offset: nat, size: nat): Page
  {
    if offset >= |filtered| then Page([], |filtered|)
    else Page(filtered[offset..Min(offset + size, |filtered|)], |filtered|)
  }

  /** getMessages: the room must exist; a caller who is not active gets the
      empty page.  Otherwise the window after the cutoff is marked read and
      the requested page of it returned, as fetched before the marking. */
  function GetMessagesSpec(st: Store, staff: seq<Employee>, roomId: int, offset: nat, size: nat, userId: string): Step<Page>
  {
    if roomId !in st.rooms then Step(st, Err(Runtime))
    else
      var room := st.rooms[roomId];
      if !HasActiveParticipant(room.participants, Some(userId)) then Step(st, Ok(Page([], 0)))
      else match FirstRecordOfUser(room.participants, userId)
        case Err(e) => Step(st, Err(e))
        case Ok(None) => Step(st, Ok(Page([], 0)))
        case Ok(Some(i)) =>
          var filtered := Window(st.docs, roomId, Cutoff(room.participants[i], room.createdAt));
          var s := MarkEach(st, staff, filtered, userId);
          if s.out.Err? then Step(s.st, Err(s.out.error))
          else Step(s.st, Ok(Slice(filtered, offset, size)))
  }

  /** markAllMessagesAsRead's loop over the fetched unread messages: each
      one still lacking the user gets it appended, is saved, and its read
      status is published. */
  function MarkAll(st: Store, msgs: seq<Message>, roomId: int, userId: string): Store
    decreases |msgs|
  {
    if msgs == [] then st
    else MarkAll(MarkOne(st, msgs[0], roomId, userId), msgs[1..], roomId, userId)
  }

  /** One pass of that loop. */
  function MarkOne(st: Store, m: Message, roomId: int, userId: string): Store
  {
    if userId !in m.readBy then
      var saving := SaveDoc(st.docs, m.(readBy := m.readBy + [userId]));
      st.(docs := saving.0, events := st.events + [ReadFrame(roomId, saving.1.id, userId)])
    else st
  }

  /** The fetched messages as the loop leaves them. */
  function WithReaderAll(msgs: seq<Message>, userId: string): (r: seq<Message>)
    ensures |r| == |msgs|
    ensures forall i :: 0 <= i < |msgs| ==> r[i] == msgs[i].(readBy := WithReader(msgs[i].readBy, userId))
  {
    if msgs == [] then []
    else
      var m := msgs[|msgs| - 1];
      WithReaderAll(msgs[..|msgs| - 1], userId) + [m.(readBy := WithReader(m.readBy, userId))]
  }

  /** markAllMessagesAsRead: nothing for a null user.  Otherwise every unread
      message of the room gets the user, then the room (which must exist)
      supplies the unread counts and preview to publish; the messages are
      returned with the user in readBy. */
  function MarkAllMessagesAsReadSpec(st: Store, staff: seq<Employee>, roomId: int, userId: Option<string>): Step<seq<Message>>
  {
    if userId.None? then Step(st, Ok([]))
    else
      var u := userId.value;
      var unread := FindUnreadInRoom(st.docs, roomId, u);
      var st1 := MarkAll(st, unread, roomId, u);
      if roomId !in st1.rooms then Step(st1, Err(Runtime))
      else
        match RoomCounts(st1, staff, roomId)
        case Err(x) => Step(st1, Err(x))
        case Ok(counts) =>
          var lastMsg := st1.rooms[roomId].lastMessageContent;
          var frame := UnreadFrame(roomId, Some(u), counts, Some(if lastMsg.Some? then lastMsg.value else ""));
          Step(st1.(events := st1.events + [frame]), Ok(WithReaderAll(unread, u)))
  }

  // ---------------------------------------------------------------------
  // Deleting

  /** A deleted message as stored: the attachment fields are cleared when it
      had a non-empty url, the content is replaced and the flag set. */
  function Deleted(m: Message): Message
  {
    var cleared := if m.attachmentUrl.Some? && m.attachmentUrl.value != [] then
                     m.(attachmentUrl := None, attachmentType := None, attachmentName := None)
                   else m;
    cleared.(deleted := true, content := Some(DeletedContent))
  }

  /** deleteMessage: the message must exist and its sender must be the
      requester (a null sender fails outright); the attachment file is
      deleted when a url is present; the soft-deleted message is saved and
      published. */
  function DeleteMessageSpec(st: Store, messageId: MessageId, requesterId: string): Step<()>
  {
    match FindDoc(st.docs, messageId)
    case None => Step(st, Err(Runtime))
    case Some(m) =>
      if m.senderId.None? then Step(st, Err(NullPointer))
      else if m.senderId != Some(requesterId) then Step(st, Err(AccessDenied))
      else
        var files := if m.attachmentUrl.Some? && m.attachmentUrl.value != [] then st.files - {DeleteName(m.attachmentUrl.value)} else st.files;
        var saving := SaveDoc(st.docs, Deleted(m));
        var docs := saving.0;
        var updated := saving.1;
        Step(st.(docs := docs, files := files, events := st.events + [MessageFrame(updated.roomId, Of(updated))]), Ok(()))
  }

  // ---------------------------------------------------------------------
  // The room list

  /** A ChatRoomListDto. */
  datatype RoomListItem = RoomListItem(
    id: int,
    name: Option<string>,
    displayName: Option<string>,
    isGroupChat: bool,
    lastActivity: int,
    lastMessageContent: Option<string>,
    unreadCount: nat,
    activeParticipantCount: nat)

  /** The preview a room is listed with: its stored one, or when that is
      null or blank, the preview of its newest message if any. */
  function ListedPreview(docs: seq<Message>, room: Room): Option<string>
  {
    var stored := room.lastMessageContent;
    if stored.None? || Trim(stored.value) == [] then
      match FirstIndex(TopNewest(docs, room.id, 1), (m: Message) => true)
      case None => stored
      case Some(i) => PreviewLabel(TopNewest(docs, room.id, 1)[i])
    else stored
  }

  /** The list entry of one room for the user: ChatRoomListDto.of with the
      listed preview and the user's unread count; the display name of a
      direct room can fail. */
  function ListItem(st: Store, staff: seq<Employee>, room: Room, userId: string): Result<RoomListItem, Exception>
  {
    match DisplayNameFor(room, userId)
    case Err(e) => Err(e)
    case Ok(displayName) =>
      Ok(RoomListItem(room.id, room.name, displayName, room.isGroupChat, room.lastActivity,
                      ListedPreview(st.docs, room), GetUnreadCount(st, staff, room.id, userId),
                      |ActiveParticipants(room.participants)|))
  }

  /** The rooms findByParticipantUserId loads, in the finder's order. */
  function ParticipantRooms(st: Store, userId: string): seq<Room>
  {
    var ids := FindByParticipantUserId(st.rooms, st.nextRoomId, userId);
    seq(|ids|, i requires 0 <= i < |ids| => st.rooms[ids[i]])
  }

  /** The list entries of the rooms the user is active in, in order; the
      first failing entry ends the list. */
  function ListItems(st: Store, staff: seq<Employee>, chatRooms: seq<Room>, userId: string): Result<seq<RoomListItem>, Exception>
  {
    FilterMapOk(chatRooms, ActiveFor(userId), EntryFor(st, staff, userId))
  }

  /** The stream's filter: the user holds an active record. */
  function ActiveFor(userId: string): Room -> bool
  {
    (room: Room) => HasActiveParticipant(room.participants, Some(userId))
  }

  /** The stream's map: the room's list entry. */
  function EntryFor(st: Store, staff: seq<Employee>, userId: string): Room -> Result<RoomListItem, Exception>
  {
    (room: Room) => ListItem(st, staff, room, userId)
  }

  function NegatedActivity(i: RoomListItem): int { -i.lastActivity }

  /** getUserChatRoomsWithLastMessage: the rooms the user is active in, most
      recently active first (ties keep the finder's order). */
  function GetUserChatRoomsWithLastMessage(st: Store, staff: seq<Employee>, userId: string): Result<seq<RoomListItem>, Exception>
  {
    var items := ListItems(st, staff, ParticipantRooms(st, userId), userId);
    if items.Err? then items else Ok(SortBy(items.value, NegatedActivity))
  }

  // ---------------------------------------------------------------------
  // The service

  /** The service over the repositories, the broker, the file store and the
      directory.  `formatDay` renders a calendar day as the date label. */
  class ChatMessageService {
    const rooms: RoomRepository
    const messages: MessageRepository
    const broker: Broker
    const files: FileStorageService
    const org: Org
    const formatDay: int -> string

    constructor (rooms: RoomRepository, messages: MessageRepository, broker: Broker,
                 files: FileStorageService, org: Org, formatDay: int -> string)
      ensures this.rooms == rooms && this.messages == messages && this.broker == broker
      ensures this.files == files && this.org == org && this.formatDay == formatDay
    {
      this.rooms := rooms;
      this.messages := messages;
      this.broker := broker;
      this.files := files;
      this.org := org;
      this.formatDay := formatDay;
    }

    /** The stores as one value. */
    function State(): Store
      reads rooms, messages, broker, files.dir
    {
      Store(rooms.rooms, rooms.nextId, messages.docs, broker.events, files.dir.names)
    }

    method InsertDateSeparatorIfNeeded(roomId: int, now: int)
      modifies messages, broker
      ensures State() == InsertDateSeparatorIfNeededSpec(old(State()), roomId, now, formatDay)
    {
      var lastTwo := TopNewest(messages.docs, roomId, 2);
      if |lastTwo| < 2 {
        var dateMsg := SystemMessage(roomId, SystemSenderId, formatDay(Day(now)), now);
        var saved := messages.Save(dateMsg);
        broker.Send(MessageFrame(roomId, Of(saved)));
        return;
      }
      var lastDate: Option<int> := None;
      var chat := FindFirst(lastTwo, (m: Message) => m.msgType == Chat);
      if chat.Some? {
        lastDate := Some(Day(chat.value.timestamp));
      }
      if lastDate.None? || lastDate.value != Day(now) {
        var dateMsg := SystemMessage(roomId, SystemSenderId, formatDay(Day(now)), now);
        var saved := messages.Save(dateMsg);
        broker.Send(MessageFrame(roomId, Of(saved)));
      }
    }

    method SendMessage(m: Message, now: int) returns (r: Result<Message, Exception>)
      requires Valid(State())
      modifies rooms, messages, broker
      ensures Step(State(), r) == SendMessageSpec(old(State()), org.employees, m, now, formatDay)
    {
      if m.roomId !in rooms.rooms {
        return Err(Runtime);
      }
      var chatRoom := rooms.rooms[m.roomId];
      ghost var st1 := InsertDateSeparatorIfNeededSpec(State(), m.roomId, now, formatDay);
      InsertDateSeparatorIfNeeded(chatRoom.id, now);
      assert State() == st1;
      var counted := OthersCount(chatRoom.participants, m.senderId);
      if counted.Err? {
        return Err(counted.error);
      }
      var count := counted.value;
      var message := m.(participantCountAtSend := count);
      var sender := EmployeeOfUser(org.employees, message.senderId);
      if sender.None? {
        return Err(Runtime);
      }
      if !HasActiveParticipant(chatRoom.participants, message.senderId) {
        chatRoom := chatRoom.(participants := Added(chatRoom.participants, sender.value, true, now));
      }
      message := message.(readBy := message.readBy + [message.senderId.value]);
      var lastMsgContent := PreviewLabel(message);
      chatRoom := chatRoom.(lastMessageContent := lastMsgContent, lastActivity := now);
      assert message == m.(participantCountAtSend := count, readBy := m.readBy + [m.senderId.value]);
      r := Publish(chatRoom, message, lastMsgContent);
    }

    /** Save, store the room, publish the message and the unread counts. */
    method Publish(chatRoom: Room, message: Message, preview: Option<string>) returns (r: Result<Message, Exception>)
      requires chatRoom.id == message.roomId
      modifies rooms, messages, broker
      ensures Step(State(), r) == PublishSpec(old(State()), org.employees, chatRoom, message, preview)
    {
      var saved := messages.Save(message);
      rooms.Put(chatRoom);
      broker.Send(MessageFrame(saved.roomId, Of(saved)));
      var unreadCounts := RoomCounts(State(), org.employees, saved.roomId);
      if unreadCounts.Err? {
        return Err(unreadCounts.error);
      }
      if preview.None? {
        return Err(NullPointer);
      }
      broker.Send(UnreadFrame(saved.roomId, None, unreadCounts.value, preview));
      r := Ok(saved);
    }

    method SendDirectMessage(roomId: int, senderId: Option<string>, content: Option<string>, invite: bool, now: int)
      returns (r: Result<Message, Exception>)
      requires Valid(State())
      modifies rooms, messages, broker
      ensures Step(State(), r) ==
              SendDirectMessageSpec(old(State()), org.employees, roomId, senderId, content, invite, now, formatDay)
    {
      if roomId !in rooms.rooms {
        return Err(Runtime);
      }
      var chatRoom := rooms.rooms[roomId];
      if chatRoom.isGroupChat {
        return Err(IllegalArgument);
      }
      InsertDateSeparatorIfNeeded(roomId, now);
      var counted := OthersCount(chatRoom.participants, senderId);
      if counted.Err? {
        return Err(counted.error);
      }
      var count := counted.value;
      var sender := EmployeeOfUser(org.employees, senderId);
      if sender.None? {
        return Err(Runtime);
      }
      if !HasActiveParticipant(chatRoom.participants, senderId) {
        chatRoom := chatRoom.(participants := Added(chatRoom.participants, sender.value, true, now));
      }
      var message := EmployeeMessage(roomId, sender.value, content, now).(participantCountAtSend := count);
      if invite {
        var previousMessages := TopNewest(messages.docs, roomId, 50);
        var allUserIds := Distinct(SenderIds(previousMessages));
        if None in allUserIds {
          return Err(NullPointer);
        }
        var recipientIds := RecipientIds(allUserIds, senderId);
        chatRoom := ResurrectRecipients(chatRoom, recipientIds, now);
        message := message.(inviteMessage := true);
      } else {
        message := message.(readBy := message.readBy + [senderId.value]);
      }
      chatRoom := chatRoom.(lastMessageContent := message.content, lastActivity := now);
      r := Publish(chatRoom, message, message.content);
    }

    /** sendDirectMessage's loop over the recipients. */
    method ResurrectRecipients(chatRoom: Room, recipientIds: seq<string>, now: int) returns (room: Room)
      ensures room == chatRoom.(participants := Resurrected(chatRoom.participants, org.employees, recipientIds, now))
    {
      room := chatRoom;
      var i := 0;
      while i < |recipientIds|
        invariant 0 <= i <= |recipientIds|
        invariant Resurrected(room.participants, org.employees, recipientIds[i..], now)
                  == Resurrected(chatRoom.participants, org.employees, recipientIds, now)
        invariant room == chatRoom.(participants := room.participants)
      {
        var recipientId := recipientIds[i];
        var recipient := EmployeeByUserId(org.employees, recipientId);
        if recipient.Some? && !HasActiveParticipant(room.participants, Some(recipientId)) {
          room := room.(participants := Added(room.participants, recipient.value, true, now));
        }
        assert recipientIds[i..][1..] == recipientIds[i + 1..];
        i := i + 1;
      }
    }

    method SaveMessageEntity(m: Message, now: int) returns (r: Result<Message, Exception>)
      modifies rooms, messages
      ensures Step(State(), r) == SaveMessageEntitySpec(old(State()), m, now)
    {
      var saved := messages.Save(m);
      if m.roomId !in rooms.rooms {
        return Err(Runtime);
      }
      var chatRoom := rooms.rooms[m.roomId];
      var lastMsg := PreviewLabel(m);
      chatRoom := chatRoom.(lastMessageContent := lastMsg, lastActivity := now);
      rooms.rooms := rooms.rooms[m.roomId := chatRoom];
      r := Ok(saved);
    }

    method CreateChatRoom(name: Option<string>, creatorId: string, isGroupChat: bool, now: int)
      returns (r: Result<Room, Exception>)
      modifies rooms
      ensures Step(State(), r) == CreateChatRoomSpec(old(State()), org.employees, name, creatorId, isGroupChat, now)
    {
      var creator := EmployeeByUserId(org.employees, creatorId);
      if creator.None? {
        return Err(Runtime);
      }
      var id := rooms.Insert(NewRoom(0, name, Some(creatorId), isGroupChat, now));
      var chatRoom := rooms.rooms[id];
      chatRoom := chatRoom.(participants := Added(chatRoom.participants, creator.value, false, now));
      chatRoom := chatRoom.(lastMessageContent := Some(RoomCreatedLabel));
      rooms.Put(chatRoom);
      r := Ok(chatRoom);
    }

    method MarkMessagesAsRead(messageId: MessageId, userId: string) returns (r: Result<(), Exception>)
      modifies messages, broker
      ensures Step(State(), r) == MarkMessagesAsReadSpec(old(State()), org.employees, messageId, userId)
    {
      var found := FindDoc(messages.docs, messageId);
      if found.None? {
        return Err(Runtime);
      }
      var message := found.value;
      if userId !in message.readBy && message.senderId != Some(userId) {
        message := message.(readBy := message.readBy + [userId]);
        var savedMessage := messages.Save(message);
        if savedMessage.roomId !in rooms.rooms {
          return Err(NoSuchElement);
        }
        var room := rooms.rooms[savedMessage.roomId];
        var unreadCounts := RoomCounts(State(), org.employees, savedMessage.roomId);
        if unreadCounts.Err? {
          return Err(unreadCounts.error);
        }
        var lastMsg := if room.lastMessageContent.Some? then room.lastMessageContent.value else "";
        broker.Send(UnreadFrame(savedMessage.roomId, Some(userId), unreadCounts.value, Some(lastMsg)));
      }
      r := Ok(());
    }

    method GetMessages(roomId: int, offset: nat, size: nat, userId: string) returns (r: Result<Page, Exception>)
      modifies messages, broker
      ensures Step(State(), r) == GetMessagesSpec(old(State()), org.employees, roomId, offset, size, userId)
    {
      if roomId !in rooms.rooms {
        return Err(Runtime);
      }
      var chatRoom := rooms.rooms[roomId];
      if !HasActiveParticipant(chatRoom.participants, Some(userId)) {
        return Ok(Page([], 0));
      }
      var participantOpt := FirstRecordOfUser(chatRoom.participants, userId);
      if participantOpt.Err? {
        return Err(participantOpt.error);
      }
      if participantOpt.value.None? {
        return Ok(Page([], 0));
      }
      var participant := chatRoom.participants[participantOpt.value.value];
      var filteredMessages := Window(messages.docs, roomId, Cutoff(participant, chatRoom.createdAt));
      ghost var st0 := State();
      var i := 0;
      while i < |filteredMessages|
        invariant 0 <= i <= |filteredMessages|
        invariant MarkEach(State(), org.employees, filteredMessages[i..], userId)
                  == MarkEach(st0, org.employees, filteredMessages, userId)
      {
        var msg := filteredMessages[i];
        assert filteredMessages[i..][1..] == filteredMessages[i + 1..];
        if Some(userId) != msg.senderId && userId !in msg.readBy {
          if msg.id.None? {
            return Err(IllegalArgument);
          }
          var marked := MarkMessagesAsRead(msg.id.value, userId);
          if marked.Err? {
            return Err(marked.error);
          }
        }
        i := i + 1;
      }
      r := Ok(Slice(filteredMessages, offset, size));
    }

    method MarkAllMessagesAsRead(roomId: int, userId: Option<string>) returns (r: Result<seq<Message>, Exception>)
      modifies messages, broker
      ensures Step(State(), r) == MarkAllMessagesAsReadSpec(old(State()), org.employees, roomId, userId)
    {
      if userId.None? {
        return Ok([]);
      }
      var u := userId.value;
      var unreadMessages := FindUnreadInRoom(messages.docs, roomId, u);
      var returned := MarkEachUnread(unreadMessages, roomId, u);
      if roomId !in rooms.rooms {
        return Err(Runtime);
      }
      var chatRoom := rooms.rooms[roomId];
      var unreadCounts := RoomCounts(State(), org.employees, roomId);
      if unreadCounts.Err? {
        return Err(unreadCounts.error);
      }
      var lastMsg := chatRoom.lastMessageContent;
      broker.Send(UnreadFrame(roomId, Some(u), unreadCounts.value, Some(if lastMsg.None? then "" else lastMsg.value)));
      r := Ok(returned);
    }

    /** markAllMessagesAsRead's loop over the fetched messages. */
    method MarkEachUnread(unreadMessages: seq<Message>, roomId: int, u: string) returns (returned: seq<Message>)
      modifies messages, broker
      ensures State() == MarkAll(old(State()), unreadMessages, roomId, u)
      ensures returned == WithReaderAll(unreadMessages, u)
    {
      returned := [];
      var i := 0;
      while i < |unreadMessages|
        invariant 0 <= i <= |unreadMessages|
        invariant MarkAll(State(), unreadMessages[i..], roomId, u) == MarkAll(old(State()), unreadMessages, roomId, u)
        invariant returned == WithReaderAll(unreadMessages[..i], u)
      {
        assert unreadMessages[i..][1..] == unreadMessages[i + 1..];
        var message := MarkOneUnread(unreadMessages[i], roomId, u);
        returned := returned + [message];
        assert unreadMessages[..i + 1][..i] == unreadMessages[..i];
        i := i + 1;
      }
      assert unreadMessages[..i] == unreadMessages;
    }

    /** One pass of markAllMessagesAsRead's loop: a reader not yet listed is
        added, the message saved and a read frame published. */
    method MarkOneUnread(m: Message, roomId: int, u: string) returns (message: Message)
      modifies messages, broker
      ensures State() == MarkOne(old(State()), m, roomId, u)
      ensures message == m.(readBy := WithReader(m.readBy, u))
    {
      message := m;
      if u !in message.readBy {
        message := message.(readBy := message.readBy + [u]);
        var savedMessage := messages.Save(message);
        broker.Send(ReadFrame(roomId, savedMessage.id, u));
      }
    }

    method DeleteMessage(messageId: MessageId, requesterId: string) returns (r: Result<(), Exception>)
      modifies messages, broker, files.dir
      ensures Step(State(), r) == DeleteMessageSpec(old(State()), messageId, requesterId)
    {
      var found := FindDoc(messages.docs, messageId);
      if found.None? {
        return Err(Runtime);
      }
      var msg := found.value;
      if msg.senderId.None? {
        return Err(NullPointer);
      }
      if msg.senderId.value != requesterId {
        return Err(AccessDenied);
      }
      ghost var st := old(State());
      ghost var remaining := if msg.attachmentUrl.Some? && msg.attachmentUrl.value != [] then st.files - {DeleteName(msg.attachmentUrl.value)} else st.files;
      var attachmentUrl := msg.attachmentUrl;
      if attachmentUrl.Some? && attachmentUrl.value != [] {
        files.DeleteFile(attachmentUrl);
        msg := msg.(attachmentUrl := None, attachmentType := None, attachmentName := None);
      }
      msg := msg.(deleted := true, content := Some(DeletedContent));
      assert msg == Deleted(found.value);
      assert State() == st.(files := remaining);
      var updated := messages.Save(msg);
      broker.Send(MessageFrame(updated.roomId, Of(updated)));
      r := Ok(());
    }
  }
}
