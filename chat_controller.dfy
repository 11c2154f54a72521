// ChatController: the REST and STOMP handlers of the chat API.  A handler
// checks its guards, calls the room and message services, publishes frames
// through the broker and maps some failures to HTTP statuses; any other
// exception leaves the handler (Spring turns it into an error response).
// Writes made before a failure stay in place.

module ChatControllers {
  import opened Common
  import opened Directory
  import opened ChatRoomParticipants
  import opened ChatRooms
  import opened ChatMessages
  import opened ChatMessageDtos
  import opened Stores
  import opened FileStorage
  import opened MessageService
  import opened RoomService
  import MessageServiceProperties
  import RoomServiceProperties

  const OkStatus: int := 200
  const Unauthorized: int := 401
  const Forbidden: int := 403
  const NotFound: int := 404
  const ServerError: int := 500

  /** The `code` entries of the error bodies. */
  const NoPermission: string := "NP"
  const InvalidRequest: string := "INVALID_REQUEST"

  const ExitSuffix: string := "님이 채팅방을 나갔습니다."
  const InviteMiddle: string := "님이 "
  const InviteSuffix: string := "님을 초대했습니다."

  const ImageType: string := "image"
  const FileType: string := "file"
  const ImagePrefix: string := "image/"

  /** A ResponseEntity: the status, the `code` of an error body, and the
      body of a success. */
  datatype Reply<T> = Reply(status: int, code: Option<string>, body: Option<T>)

  function Refusal<T>(status: int, code: Option<string>): Reply<T>
  {
    Reply(status, code, None)
  }

  function Done<T>(body: Option<T>): Reply<T>
  {
    Reply(OkStatus, None, body)
  }

  /** The stores after a handler, with its response or the exception that
      left it. */
  datatype Outcome<T> = Outcome(st: Store, out: Result<Reply<T>, Exception>)

  /** The result of a room operation, answered with toDto. */
  function Answer(st: Store, room: Room, loginUserId: string): Outcome<RoomDto>
  {
    match ToDto(room, loginUserId)
    case Err(x) => Outcome(st, Err(x))
    case Ok(dto) => Outcome(st, Ok(Done(Some(dto))))
  }

  /** ChatMessageService.createMessageFromRequest: the sender must have an
      employee, whose fields the message copies. */
  function MessageFromRequest(staff: seq<Employee>, roomId: int, userId: Option<string>, content: Option<string>, now: int)
    : (r: Result<Message, Exception>)
    ensures r.Err? <==> EmployeeOfUser(staff, userId).None?
    ensures r.Err? ==> r.error == Runtime
    ensures r.Ok? ==> && r.value.roomId == roomId && r.value.senderId == userId && r.value.content == content
                      && r.value.timestamp == now && r.value.readBy == [] && r.value.id.None?
                      && !r.value.inviteMessage && !r.value.exitMessage && !r.value.dateMessage
  {
    match EmployeeOfUser(staff, userId)
    case None => Err(Runtime)
    case Some(e) => Ok(EmployeeMessage(roomId, e, content, now))
  }

  /** A request field read as a room id: `toString` of a missing value
      fails, then Long.valueOf. */
  function RoomIdOf(value: Option<string>): (r: Result<int, Exception>)
    ensures value.None? ==> r == Err(NullPointer)
    ensures value.Some? ==> (r.Ok? <==> ParseLong(value).Some?)
    ensures r.Ok? ==> Some(r.value) == ParseLong(value)
    ensures value.Some? && r.Err? ==> r.error == NumberFormat
  {
    if value.None? then Err(NullPointer)
    else match ParseLong(value)
      case None => Err(NumberFormat)
      case Some(n) => Ok(n)
  }

  /** Boolean.parseBoolean. */
  predicate ParseBoolean(s: Option<string>)
  {
    EqualsIgnoreCase(s, "true")
  }

  // ---------------------------------------------------------------------
  // Creating rooms

  /** createChatRoom: a missing isGroupChat fails on toString. */
  function CreateChatRoomEndpointSpec(st: Store, name: Option<string>, creatorId: Option<string>,
                                      isGroupChat: Option<string>, loginUserId: string, now: int): Outcome<RoomDto>
  {
    if isGroupChat.None? then Outcome(st, Err(NullPointer))
    else
      var (t1, room) := RoomService.CreateChatRoomSpec(TableOf(st), name, creatorId, ParseBoolean(isGroupChat), now);
      Answer(WithTable(st, t1), room, loginUserId)
  }

  /** createGroupChatRoom: the caller is the creator. */
  function CreateGroupChatRoomEndpointSpec(st: Store, staff: seq<Employee>, name: Option<string>,
                                           participantIds: Option<seq<string>>, loginUserId: string, now: int): Outcome<RoomDto>
  {
    var made := CreateGroupChatRoomSpec(TableOf(st), staff, name, participantIds, loginUserId, now);
    match made.out
    case Err(x) => Outcome(WithTable(st, made.t), Err(x))
    case Ok(room) => Answer(WithTable(st, made.t), room, loginUserId)
  }

  /** createDirectChatRoom: both ids are required and numeric (400
      INVALID_REQUEST otherwise), both employees must exist, and the caller
      must be the user of one of them (403 NP otherwise); the second user is
      read only when the first is not the caller. */
  function CreateDirectChatRoomSpec(st: Store, staff: seq<Employee>, employee1Id: Option<string>,
                                    employee2Id: Option<string>, loginUserId: string, now: int): Outcome<RoomDto>
  {
    if employee1Id.None? || employee2Id.None? then Outcome(st, Ok(Refusal(BadRequest, Some(InvalidRequest))))
    else if ParseLong(employee1Id).None? || ParseLong(employee2Id).None? then
      Outcome(st, Ok(Refusal(BadRequest, Some(InvalidRequest))))
    else
      var id1 := ParseLong(employee1Id).value;
      var id2 := ParseLong(employee2Id).value;
      match EmployeeById(staff, id1)
      case None => Outcome(st, Err(ResponseStatus(BadRequest)))
      case Some(emp1) =>
        match EmployeeById(staff, id2)
        case None => Outcome(st, Err(ResponseStatus(BadRequest)))
        case Some(emp2) =>
          if emp1.user.None? then Outcome(st, Err(NullPointer))
          else if emp1.user.value != loginUserId && emp2.user.None? then Outcome(st, Err(NullPointer))
          else if emp1.user.value != loginUserId && emp2.user.value != loginUserId then
            Outcome(st, Ok(Refusal(Forbidden, Some(NoPermission))))
          else
            var made := GetOrCreateDirectChatRoomByEmployeeIdSpec(TableOf(st), staff, id1, id2, now);
            match made.out
            case Err(x) => Outcome(WithTable(st, made.t), Err(x))
            case Ok(room) => Answer(WithTable(st, made.t), room, loginUserId)
  }

  // ---------------------------------------------------------------------
  // Inviting

  /** The invitation notice text. */
  function InviteText(inviter: Employee, invitee: Employee): string
  {
    Text(inviter.name) + InviteMiddle + Text(invitee.name) + InviteSuffix
  }

  /** The invitation notice: a system message flagged as an invite. */
  function InviteNotice(roomId: int, inviterId: string, text: string, now: int): Message
  {
    SystemMessage(roomId, inviterId, text, now).(inviteMessage := true)
  }

  /** The caller's own message, sent only when it has a non-blank text. */
  function UserMessageStage(st: Store, staff: seq<Employee>, roomId: int, inviterId: string,
                            content: Option<string>, now: int, formatDay: int -> string): Step<()>
  {
    if !HasText(content) then Step(st, Ok(()))
    else
      match MessageFromRequest(staff, roomId, Some(inviterId), content, now)
      case Err(x) => Step(st, Err(x))
      case Ok(m) =>
        var sent := SendMessageSpec(st, staff, m, now, formatDay);
        Step(sent.st, if sent.out.Err? then Err(sent.out.error) else Ok(()))
  }

  /** The invitee is added with rejoin, the active members are published and
      the room answered. */
  function AddInviteeStage(st: Store, staff: seq<Employee>, roomId: int, loginUserId: string,
                           invitee: Employee, now: int): Outcome<RoomDto>
  {
    if invitee.user.None? then Outcome(st, Err(NullPointer))
    else
      var added := AddUserToChatRoomSpec(TableOf(st), staff, roomId, invitee.user.value, now);
      var st1 := WithTable(st, added.t);
      match added.out
      case Err(x) => Outcome(st1, Err(x))
      case Ok(room) =>
        Answer(st1.(events := st1.events + [ParticipantsFrame(roomId, ActiveParticipants(room.participants))]), room, loginUserId)
  }

  /** inviteParticipant: the employee id is parsed first, the room must
      exist, the caller must be active in it (403 otherwise), the invitee
      must exist and the caller must have an employee.  The notice is sent
      and its entity published, then the caller's message, then the invitee
      is added. */
  function InviteParticipantSpec(st: Store, staff: seq<Employee>, roomId: int, inviterId: string,
                                 employeeId: Option<string>, content: Option<string>, now: int,
                                 formatDay: int -> string): Outcome<RoomDto>
  {
    match ParseLong(employeeId)
    case None => Outcome(st, Err(NumberFormat))
    case Some(id) =>
      if roomId !in st.rooms then Outcome(st, Err(Runtime))
      else if !HasActiveParticipant(st.rooms[roomId].participants, Some(inviterId)) then
        Outcome(st, Ok(Refusal(Forbidden, None)))
      else
        match EmployeeById(staff, id)
        case None => Outcome(st, Err(Runtime))
        case Some(invitee) =>
          match EmployeeByUserId(staff, inviterId)
          case None => Outcome(st, Err(NullPointer))
          case Some(inviter) => InvitationSpec(st, staff, roomId, inviterId, inviter, invitee, content, now, formatDay)
  }

  /** The invitation once its guards passed: the notice is sent and its
      entity published, then the caller's message, then the invitee is
      added. */
  function InvitationSpec(st: Store, staff: seq<Employee>, roomId: int, inviterId: string, inviter: Employee,
                          invitee: Employee, content: Option<string>, now: int, formatDay: int -> string): Outcome<RoomDto>
  {
    var notice := SendMessageSpec(st, staff, InviteNotice(roomId, inviterId, InviteText(inviter, invitee), now), now, formatDay);
    match notice.out
    case Err(x) => Outcome(notice.st, Err(x))
    case Ok(sysMsg) =>
      var st1 := notice.st.(events := notice.st.events + [EntityFrame(roomId, sysMsg)]);
      var sent := UserMessageStage(st1, staff, roomId, inviterId, content, now, formatDay);
      if sent.out.Err? then Outcome(sent.st, Err(sent.out.error))
      else AddInviteeStage(sent.st, staff, roomId, inviterId, invitee, now)
  }

  // ---------------------------------------------------------------------
  // Leaving

  /** The exit notice of a group room. */
  function ExitNotice(roomId: int, userId: string, employee: Employee, now: int): Message
  {
    SystemMessage(roomId, userId, Text(employee.name) + ExitSuffix, now).(exitMessage := true)
  }

  /** In a group room the exit notice is saved and its DTO published. */
  function ExitNoticeStage(st: Store, roomId: int, userId: string, employee: Employee, now: int): Step<()>
    requires roomId in st.rooms
  {
    if !st.rooms[roomId].isGroupChat then Step(st, Ok(()))
    else
      var saving := SaveMessageEntitySpec(st, ExitNotice(roomId, userId, employee, now), now);
      match saving.out
      case Err(x) => Step(saving.st, Err(x))
      case Ok(saved) => Step(saving.st.(events := saving.st.events + [MessageFrame(roomId, Of(saved))]), Ok(()))
  }

  /** exitChatRoom, every exception answered with 500.  404 for a caller
      without an employee or a missing room, 403 for a caller who is not
      active; otherwise the notice, then the removal, then the active
      members are published.  `nullSafe` says what happens when the removal
      deleted the room: the code as written dereferences the null room
      (500); the corrected handler answers 200 with nothing to publish. */
  function ExitChatRoomWith(st: Store, staff: seq<Employee>, roomId: int, userId: string, now: int,
                            nullSafe: bool): (Store, Reply<()>)
  {
    match EmployeeByUserId(staff, userId)
    case None => (st, Refusal(NotFound, None))
    case Some(employee) =>
      if roomId !in st.rooms then (st, Refusal(NotFound, None))
      else if !HasActiveParticipant(st.rooms[roomId].participants, Some(userId)) then (st, Refusal(Forbidden, None))
      else
        var noticed := ExitNoticeStage(st, roomId, userId, employee, now);
        if noticed.out.Err? then (noticed.st, Refusal(ServerError, None))
        else
          var removal := RemoveUserFromChatRoomSpec(TableOf(noticed.st), staff, roomId, userId, now);
          var st1 := WithTable(noticed.st, removal.t);
          match removal.out
          case Err(_) => (st1, Refusal(ServerError, None))
          case Ok(None) => (st1, if nullSafe then Done(None) else Refusal(ServerError, None))
          case Ok(Some(room)) =>
            (st1.(events := st1.events + [ParticipantsFrame(roomId, ActiveParticipants(room.participants))]), Done(None))
  }

  /** exitChatRoom as written. */
  function ExitChatRoomAsWritten(st: Store, staff: seq<Employee>, roomId: int, userId: string, now: int): (Store, Reply<()>)
  {
    ExitChatRoomWith(st, staff, roomId, userId, now, false)
  }

  /** exitChatRoom with the deleted room handled. */
  function ExitChatRoomSpec(st: Store, staff: seq<Employee>, roomId: int, userId: string, now: int): (Store, Reply<()>)
  {
    ExitChatRoomWith(st, staff, roomId, userId, now, true)
  }

  // ---------------------------------------------------------------------
  // Messages

  /** handleChatMessage: the room must exist; a direct room goes through
      sendDirectMessage without invite, a group room through
      createMessageFromRequest and sendMessage; the saved message's DTO is
      published. */
  function HandleChatMessageSpec(st: Store, staff: seq<Employee>, senderId: Option<string>, content: Option<string>,
                                 roomIdValue: Option<string>, now: int, formatDay: int -> string): Step<()>
  {
    match RoomIdOf(roomIdValue)
    case Err(x) => Step(st, Err(x))
    case Ok(roomId) =>
      if roomId !in st.rooms then Step(st, Err(Runtime))
      else
        var sent := RouteMessage(st, staff, roomId, senderId, content, now, formatDay);
        match sent.out
        case Err(x) => Step(sent.st, Err(x))
        case Ok(saved) => Step(sent.st.(events := sent.st.events + [MessageFrame(roomId, Of(saved))]), Ok(()))
  }

  /** The send behind handleChatMessage: a direct room through
      sendDirectMessage without invite, a group room through
      createMessageFromRequest, whose failure becomes a runtime error, and
      sendMessage. */
  function RouteMessage(st: Store, staff: seq<Employee>, roomId: int, senderId: Option<string>, content: Option<string>,
                        now: int, formatDay: int -> string): Step<Message>
    requires roomId in st.rooms
  {
    if !st.rooms[roomId].isGroupChat then SendDirectMessageSpec(st, staff, roomId, senderId, content, false, now, formatDay)
    else
      match MessageFromRequest(staff, roomId, senderId, content, now)
      case Err(_) => Step(st, Err(Runtime))
      case Ok(m) => SendMessageSpec(st, staff, m, now, formatDay)
  }

  /** The sendDirectMessage endpoint: an absent `invite` defaults to
      "false", and one present with a null value is dereferenced; a plain
      message's entity is published and returned, an invite answers with an
      empty body.  `invite` is None when the key is absent. */
  function SendDirectMessageEndpointSpec(st: Store, staff: seq<Employee>, senderId: Option<string>, content: Option<string>,
                                         roomIdValue: Option<string>, invite: Option<Option<string>>, now: int,
                                         formatDay: int -> string): Outcome<Message>
  {
    match RoomIdOf(roomIdValue)
    case Err(x) => Outcome(st, Err(x))
    case Ok(roomId) =>
      if invite == Some(None) then Outcome(st, Err(NullPointer))
      else
        var inviting := invite.Some? && ParseBoolean(invite.value);
        var sent := SendDirectMessageSpec(st, staff, roomId, senderId, content, inviting, now, formatDay);
        match sent.out
        case Err(x) => Outcome(sent.st, Err(x))
        case Ok(message) =>
          if !inviting then Outcome(sent.st.(events := sent.st.events + [EntityFrame(roomId, message)]), Ok(Done(Some(message))))
          else Outcome(sent.st, Ok(Done(None)))
  }

  /** deleteMessage: a permission failure is answered 403 with code NP. */
  function DeleteMessageEndpointSpec(st: Store, messageId: MessageId, userId: string): Outcome<()>
  {
    var deleting := DeleteMessageSpec(st, messageId, userId);
    match deleting.out
    case Ok(_) => Outcome(deleting.st, Ok(Done(None)))
    case Err(AccessDenied) => Outcome(deleting.st, Ok(Refusal(Forbidden, Some(NoPermission))))
    case Err(x) => Outcome(deleting.st, Err(x))
  }

  // ---------------------------------------------------------------------
  // Attachments

  /** The content-type test of uploadAttachment. */
  predicate IsImage(contentType: Option<string>)
  {
    contentType.Some? && StartsWith(contentType.value, ImagePrefix)
  }

  /** An attachment message as uploadAttachment builds it (the uploading
      notice has no url yet). */
  function AttachmentMessage(roomId: int, senderId: string, sender: Employee, image: bool,
                             fileName: Option<string>, url: Option<string>, count: int, now: int): Message
  {
    Blank(roomId, now).(
      senderId := Some(senderId),
      senderName := sender.name,
      content := Some(""),
      attachmentType := Some(if image then ImageType else FileType),
      attachmentUrl := url,
      attachmentName := fileName,
      participantCountAtSend := count,
      readBy := [senderId])
  }

  /** uploadAttachment: the sender must have an employee; the date separator
      comes first, then the room must exist; the uploading notice is
      published, the file stored, and once the file is reachable
      (`fileReady`, the outcome of the polling loop) the attachment message
      is saved and its DTO published and returned.  `uuid` names the stored
      file and `baseUrl` is the request's scheme, host and port. */
  function UploadAttachmentSpec(st: Store, staff: seq<Employee>, roomId: int, senderId: string,
                                contentType: Option<string>, fileName: Option<string>, uuid: string,
                                baseUrl: string, fileReady: bool, now: int, formatDay: int -> string,
                                cleanPath: string -> string): Outcome<MessageDto>
  {
    match EmployeeByUserId(staff, senderId)
    case None => Outcome(st, Err(Runtime))
    case Some(sender) =>
      var st1 := InsertDateSeparatorIfNeededSpec(st, roomId, now, formatDay);
      if roomId !in st1.rooms then Outcome(st1, Err(Runtime))
      else
        match OthersCount(st1.rooms[roomId].participants, Some(senderId))
        case Err(x) => Outcome(st1, Err(x))
        case Ok(count) =>
          var image := IsImage(contentType);
          var uploading := AttachmentMessage(roomId, senderId, sender, image, fileName, None, count, now);
          var st2 := st1.(events := st1.events + [MessageFrame(roomId, Of(uploading))]);
          StoreAttachmentSpec(st2, roomId, senderId, sender, image, fileName, uuid, baseUrl, fileReady, count, now, cleanPath)
  }

  /** The rest of uploadFile once the upload frame is out: a null file name
      or a name store cannot copy fails the storage with nothing stored, a
      file not ready fails after it is stored, and
      otherwise the message with the file's absolute URL is saved and its
      DTO published and returned. */
  function StoreAttachmentSpec(st: Store, roomId: int, senderId: string, sender: Employee, image: bool,
                               fileName: Option<string>, uuid: string, baseUrl: string, fileReady: bool,
                               count: int, now: int, cleanPath: string -> string): Outcome<MessageDto>
  {
    match fileName
    case None => Outcome(st, Err(NullPointer))
    case Some(name) =>
      if !Storable(uuid, cleanPath(name)) then Outcome(st, Err(Runtime))
      else
        var st1 := st.(files := st.files + {StoredName(uuid, cleanPath(name))});
        if !fileReady then Outcome(st1, Err(Runtime))
        else
          var url := baseUrl + PublicPath(uuid, cleanPath(name));
          var saving := SaveMessageEntitySpec(st1, AttachmentMessage(roomId, senderId, sender, image, fileName, Some(url), count, now), now);
          match saving.out
          case Err(x) => Outcome(saving.st, Err(x))
          case Ok(saved) =>
            Outcome(saving.st.(events := saving.st.events + [MessageFrame(roomId, Of(saved))]), Ok(Done(Some(Of(saved)))))
  }

  // ---------------------------------------------------------------------
  // Read receipts

  /** The unread-count broadcast both read endpoints end with: the room must
      exist, and Map.of refuses a null reader. */
  function CountsFrameSpec(st: Store, staff: seq<Employee>, roomId: int, userId: Option<string>): Step<()>
  {
    if roomId !in st.rooms then Step(st, Err(Runtime))
    else
      match RoomCounts(st, staff, roomId)
      case Err(x) => Step(st, Err(x))
      case Ok(counts) =>
        if userId.None? then Step(st, Err(NullPointer))
        else Step(st.(events := st.events + [UnreadFrame(roomId, userId, counts, None)]), Ok(()))
  }

  /** markRoomAsRead. */
  function MarkRoomAsReadSpec(st: Store, staff: seq<Employee>, roomId: int, userId: Option<string>): Step<()>
  {
    var marked := MarkAllMessagesAsReadSpec(st, staff, roomId, userId);
    if marked.out.Err? then Step(marked.st, Err(marked.out.error))
    else CountsFrameSpec(marked.st, staff, roomId, userId)
  }

  /** The markMessagesAsRead endpoint: the room id is parsed only after the
      message was marked. */
  function MarkMessageAsReadEndpointSpec(st: Store, staff: seq<Employee>, roomIdText: string,
                                         messageId: MessageId, userId: string): Step<()>
  {
    var marked := MarkMessagesAsReadSpec(st, staff, messageId, userId);
    if marked.out.Err? then marked
    else
      match ParseLong(Some(roomIdText))
      case None => Step(marked.st, Err(NumberFormat))
      case Some(roomId) => CountsFrameSpec(marked.st, staff, roomId, Some(userId))
  }

  // ---------------------------------------------------------------------
  // Broadcasts

  /** One delivery: the direct room of sender and target, found or created,
      then a plain direct message.  Returns the room id and the message. */
  function DeliverSpec(st: Store, users: map<string, User>, staff: seq<Employee>, senderId: string,
                       targetUserId: string, content: Option<string>, now: int, formatDay: int -> string): Step<(int, Message)>
  {
    var made := GetOrCreateDirectChatRoomSpec(TableOf(st), users, staff, senderId, targetUserId, now);
    var st1 := WithTable(st, made.t);
    match made.out
    case Err(x) => Step(st1, Err(x))
    case Ok(room) =>
      var sent := SendDirectMessageSpec(st1, staff, room.id, Some(senderId), content, false, now, formatDay);
      match sent.out
      case Err(x) => Step(sent.st, Err(x))
      case Ok(saved) => Step(sent.st, Ok((room.id, saved)))
  }

  /** The delivery of one broadcast, as a function of the stores and the
      target's user id. */
  function Deliveries(users: map<string, User>, staff: seq<Employee>, senderId: string, content: Option<string>,
                      now: int, formatDay: int -> string): (Store, string) -> Step<(int, Message)>
  {
    (s: Store, target: string) => DeliverSpec(s, users, staff, senderId, target, content, now, formatDay)
  }

  /** The loop of broadcastToAll and of broadcastToDepartment over a list of
      employees: the sender's own entry is skipped, every other one gets a
      delivery whose DTO is published and whose message id is recorded
      under the target's user id.  The first failure ends the loop. */
  function BroadcastEachSpec(st: Store, targets: seq<Employee>, senderId: string,
                             deliver: (Store, string) -> Step<(int, Message)>,
                             results: map<string, Option<MessageId>>): Step<map<string, Option<MessageId>>>
    decreases |targets|
  {
    if targets == [] then Step(st, Ok(results))
    else
      var e := targets[0];
      if e.user.None? then Step(st, Err(NullPointer))
      else if e.user.value == senderId then BroadcastEachSpec(st, targets[1..], senderId, deliver, results)
      else
        var d := deliver(st, e.user.value);
        match d.out
        case Err(x) => Step(d.st, Err(x))
        case Ok(delivered) =>
          BroadcastEachSpec(d.st.(events := d.st.events + [MessageFrame(delivered.0, Of(delivered.1))]),
                            targets[1..], senderId, deliver, results[e.user.value := delivered.1.id])
  }

  /** broadcastToAll: every employee of the directory, in table order. */
  function BroadcastToAllSpec(st: Store, users: map<string, User>, staff: seq<Employee>, loginUserId: string,
                              content: Option<string>, now: int, formatDay: int -> string): Step<()>
  {
    var sent := BroadcastEachSpec(st, staff, loginUserId, Deliveries(users, staff, loginUserId, content, now, formatDay), map[]);
    Step(sent.st, if sent.out.Err? then Err(sent.out.error) else Ok(()))
  }

  /** broadcastToDepartment's outer loop over the department names. */
  function BroadcastDepartmentsSpec(st: Store, staff: seq<Employee>, departments: seq<string>, senderId: string,
                                    deliver: (Store, string) -> Step<(int, Message)>,
                                    results: map<string, Option<MessageId>>): Step<map<string, Option<MessageId>>>
    decreases |departments|
  {
    if departments == [] then Step(st, Ok(results))
    else
      var sent := BroadcastEachSpec(st, EmployeesOfDepartment(staff, departments[0]), senderId, deliver, results);
      if sent.out.Err? then sent
      else BroadcastDepartmentsSpec(sent.st, staff, departments[1..], senderId, deliver, sent.out.value)
  }

  /** broadcastToDepartment: a missing or empty department list is 400, a
      caller without an employee 401 (that employee's user is the caller). */
  function BroadcastToDepartmentSpec(st: Store, users: map<string, User>, staff: seq<Employee>,
                                     departmentIds: Option<seq<string>>, loginUserId: string, content: Option<string>,
                                     now: int, formatDay: int -> string): Outcome<map<string, Option<MessageId>>>
  {
    if departmentIds.None? || departmentIds.value == [] then Outcome(st, Ok(Refusal(BadRequest, None)))
    else if EmployeeByUserId(staff, loginUserId).None? then Outcome(st, Ok(Refusal(Unauthorized, None)))
    else
      var sent := BroadcastDepartmentsSpec(st, staff, departmentIds.value, loginUserId,
                                           Deliveries(users, staff, loginUserId, content, now, formatDay), map[]);
      match sent.out
      case Err(x) => Outcome(sent.st, Err(x))
      case Ok(results) => Outcome(sent.st, Ok(Done(Some(results))))
  }

  /** What sendToMultipleUsers records for one employee id. */
  datatype Delivery = Sent(messageId: Option<MessageId>) | Failed(error: Exception)

  /** One pass of sendToMultipleUsers' loop; every failure is caught. */
  function SendOneSpec(st: Store, users: map<string, User>, staff: seq<Employee>, employeeId: int, senderId: string,
                       content: Option<string>, now: int, formatDay: int -> string): (Store, Delivery)
  {
    match EmployeeById(staff, employeeId)
    case None => (st, Failed(Runtime))
    case Some(target) =>
      if target.user.None? then (st, Failed(NullPointer))
      else
        var d := DeliverSpec(st, users, staff, senderId, target.user.value, content, now, formatDay);
        match d.out
        case Err(x) => (d.st, Failed(x))
        case Ok(delivered) => (d.st, Sent(delivered.1.id))
  }

  /** sendToMultipleUsers' loop: each id gets its entry and the loop goes on. */
  function SendEachSpec(st: Store, users: map<string, User>, staff: seq<Employee>, employeeIds: seq<int>, senderId: string,
                        content: Option<string>, now: int, formatDay: int -> string,
                        results: map<int, Delivery>): (Store, map<int, Delivery>)
    decreases |employeeIds|
  {
    if employeeIds == [] then (st, results)
    else
      var (st1, entry) := SendOneSpec(st, users, staff, employeeIds[0], senderId, content, now, formatDay);
      SendEachSpec(st1, users, staff, employeeIds[1..], senderId, content, now, formatDay, results[employeeIds[0] := entry])
  }

  /** sendToMultipleUsers: a caller without an employee is 401; the caller
      is not skipped; a missing id list fails. */
  function SendToMultipleUsersSpec(st: Store, users: map<string, User>, staff: seq<Employee>, loginUserId: string,
                                   employeeIds: Option<seq<int>>, content: Option<string>, now: int,
                                   formatDay: int -> string): Outcome<map<int, Delivery>>
  {
    if EmployeeByUserId(staff, loginUserId).None? then Outcome(st, Ok(Refusal(Unauthorized, None)))
    else if employeeIds.None? then Outcome(st, Err(NullPointer))
    else
      var (st1, results) := SendEachSpec(st, users, staff, employeeIds.value, loginUserId, content, now, formatDay, map[]);
      Outcome(st1, Ok(Done(Some(results))))
  }

  // ---------------------------------------------------------------------
  // The controller

  /** The controller over the message service and a room service that
      shares its room table and directory. */
  class ChatController {
    const chat: ChatMessageService
    const roomService: ChatRoomService

    constructor (chat: ChatMessageService)
      ensures this.chat == chat && Wired()
    {
      this.chat := chat;
      roomService := new ChatRoomService(chat.rooms, chat.org);
    }

    /** Both services see the same room table and directory. */
    predicate Wired()
    {
      roomService.rooms == chat.rooms && roomService.org == chat.org
    }

    function State(): Store
      reads chat.rooms, chat.messages, chat.broker, chat.files.dir
    {
      chat.State()
    }

    method Answered(room: Room, loginUserId: string) returns (r: Result<Reply<RoomDto>, Exception>)
      ensures Outcome(State(), r) == Answer(State(), room, loginUserId)
    {
      var dto := ToDto(room, loginUserId);
      if dto.Err? {
        return Err(dto.error);
      }
      r := Ok(Done(Some(dto.value)));
    }

    method CreateChatRoom(name: Option<string>, creatorId: Option<string>, isGroupChat: Option<string>,
                          loginUserId: string, now: int) returns (r: Result<Reply<RoomDto>, Exception>)
      requires Wired()
      modifies chat.rooms
      ensures Outcome(State(), r) == CreateChatRoomEndpointSpec(old(State()), name, creatorId, isGroupChat, loginUserId, now)
    {
      if isGroupChat.None? {
        return Err(NullPointer);
      }
      var room := roomService.CreateChatRoom(name, creatorId, ParseBoolean(isGroupChat), now);
      r := Answered(room, loginUserId);
    }

    method CreateGroupChatRoom(name: Option<string>, participantIds: Option<seq<string>>, loginUserId: string, now: int)
      returns (r: Result<Reply<RoomDto>, Exception>)
      requires Wired()
      modifies chat.rooms
      ensures Outcome(State(), r) ==
              CreateGroupChatRoomEndpointSpec(old(State()), chat.org.employees, name, participantIds, loginUserId, now)
    {
      var room := roomService.CreateGroupChatRoom(name, participantIds, loginUserId, now);
      if room.Err? {
        return Err(room.error);
      }
      r := Answered(room.value, loginUserId);
    }

    method CreateDirectChatRoom(employee1Id: Option<string>, employee2Id: Option<string>, loginUserId: string, now: int)
      returns (r: Result<Reply<RoomDto>, Exception>)
      requires Wired()
      modifies chat.rooms
      ensures Outcome(State(), r) ==
              CreateDirectChatRoomSpec(old(State()), chat.org.employees, employee1Id, employee2Id, loginUserId, now)
    {
      if employee1Id.None? || employee2Id.None? {
        return Ok(Refusal(BadRequest, Some(InvalidRequest)));
      }
      var emp1Id := ParseLong(employee1Id);
      var emp2Id := ParseLong(employee2Id);
      if emp1Id.None? || emp2Id.None? {
        return Ok(Refusal(BadRequest, Some(InvalidRequest)));
      }
      var emp1 := EmployeeById(chat.org.employees, emp1Id.value);
      if emp1.None? {
        return Err(ResponseStatus(BadRequest));
      }
      var emp2 := EmployeeById(chat.org.employees, emp2Id.value);
      if emp2.None? {
        return Err(ResponseStatus(BadRequest));
      }
      if emp1.value.user.None? {
        return Err(NullPointer);
      }
      if emp1.value.user.value != loginUserId {
        if emp2.value.user.None? {
          return Err(NullPointer);
        }
        if emp2.value.user.value != loginUserId {
          return Ok(Refusal(Forbidden, Some(NoPermission)));
        }
      }
      var room := roomService.GetOrCreateDirectChatRoomByEmployeeId(emp1Id.value, emp2Id.value, now);
      if room.Err? {
        return Err(room.error);
      }
      r := Answered(room.value, loginUserId);
    }

    method SendUserMessage(roomId: int, inviterId: string, content: Option<string>, now: int) returns (r: Result<(), Exception>)
      requires Valid(State())
      modifies chat.rooms, chat.messages, chat.broker
      ensures Step(State(), r) == UserMessageStage(old(State()), chat.org.employees, roomId, inviterId, content, now, chat.formatDay)
    {
      if !HasText(content) {
        return Ok(());
      }
      var userMsg := MessageFromRequest(chat.org.employees, roomId, Some(inviterId), content, now);
      if userMsg.Err? {
        return Err(userMsg.error);
      }
      var sent := chat.SendMessage(userMsg.value, now);
      if sent.Err? {
        return Err(sent.error);
      }
      r := Ok(());
    }

    method AddInvitee(roomId: int, loginUserId: string, invitee: Employee, now: int) returns (r: Result<Reply<RoomDto>, Exception>)
      requires Wired()
      modifies chat.rooms, chat.broker
      ensures Outcome(State(), r) == AddInviteeStage(old(State()), chat.org.employees, roomId, loginUserId, invitee, now)
    {
      if invitee.user.None? {
        return Err(NullPointer);
      }
      var updatedRoom := roomService.AddUserToChatRoom(roomId, invitee.user.value, now);
      if updatedRoom.Err? {
        return Err(updatedRoom.error);
      }
      chat.broker.Send(ParticipantsFrame(roomId, ActiveParticipants(updatedRoom.value.participants)));
      r := Answered(updatedRoom.value, loginUserId);
    }

    method InviteParticipant(roomId: int, employeeId: Option<string>, content: Option<string>, loginUserId: string, now: int)
      returns (r: Result<Reply<RoomDto>, Exception>)
      requires Wired() && Valid(State())
      modifies chat.rooms, chat.messages, chat.broker
      ensures Outcome(State(), r) ==
              InviteParticipantSpec(old(State()), chat.org.employees, roomId, loginUserId, employeeId, content, now, chat.formatDay)
    {
      var inviterId := loginUserId;
      var id := ParseLong(employeeId);
      if id.None? {
        return Err(NumberFormat);
      }
      if roomId !in chat.rooms.rooms {
        return Err(Runtime);
      }
      if !HasActiveParticipant(chat.rooms.rooms[roomId].participants, Some(inviterId)) {
        return Ok(Refusal(Forbidden, None));
      }
      var inviter := EmployeeByUserId(chat.org.employees, inviterId);
      var employee := EmployeeById(chat.org.employees, id.value);
      if employee.None? {
        return Err(Runtime);
      }
      if inviter.None? {
        return Err(NullPointer);
      }
      r := Invite(roomId, inviterId, inviter.value, employee.value, content, now);
    }

    method Invite(roomId: int, inviterId: string, inviter: Employee, invitee: Employee, content: Option<string>, now: int)
      returns (r: Result<Reply<RoomDto>, Exception>)
      requires Wired() && Valid(State())
      modifies chat.rooms, chat.messages, chat.broker
      ensures Outcome(State(), r) ==
              InvitationSpec(old(State()), chat.org.employees, roomId, inviterId, inviter, invitee, content, now, chat.formatDay)
    {
      var sysMsg := InviteNotice(roomId, inviterId, InviteText(inviter, invitee), now);
      ghost var notice := SendMessageSpec(State(), chat.org.employees, sysMsg, now, chat.formatDay);
      MessageServiceProperties.SendMessageKeepsValid(State(), chat.org.employees, sysMsg, now, chat.formatDay);
      var sent := chat.SendMessage(sysMsg, now);
      assert State() == notice.st && sent == notice.out;
      if sent.Err? {
        return Err(sent.error);
      }
      chat.broker.Send(EntityFrame(roomId, sent.value));
      ghost var st1 := State();
      assert st1 == notice.st.(events := notice.st.events + [EntityFrame(roomId, sent.value)]);
      var userSent := SendUserMessage(roomId, inviterId, content, now);
      if userSent.Err? {
        return Err(userSent.error);
      }
      r := AddInvitee(roomId, inviterId, invitee, now);
    }

    method ExitNoticeStep(roomId: int, userId: string, employee: Employee, now: int) returns (r: Result<(), Exception>)
      requires roomId in chat.rooms.rooms
      modifies chat.rooms, chat.messages, chat.broker
      ensures Step(State(), r) == ExitNoticeStage(old(State()), roomId, userId, employee, now)
    {
      if !chat.rooms.rooms[roomId].isGroupChat {
        return Ok(());
      }
      var saved := chat.SaveMessageEntity(ExitNotice(roomId, userId, employee, now), now);
      chat.broker.Send(MessageFrame(roomId, Of(saved.value)));
      r := Ok(());
    }

    method ExitChatRoom(roomId: int, userId: string, now: int) returns (reply: Reply<()>)
      requires Wired()
      modifies chat.rooms, chat.messages, chat.broker
      ensures (State(), reply) == ExitChatRoomSpec(old(State()), chat.org.employees, roomId, userId, now)
    {
      var employee := EmployeeByUserId(chat.org.employees, userId);
      if employee.None? {
        return Refusal(NotFound, None);
      }
      if roomId !in chat.rooms.rooms {
        return Refusal(NotFound, None);
      }
      if !HasActiveParticipant(chat.rooms.rooms[roomId].participants, Some(userId)) {
        return Refusal(Forbidden, None);
      }
      var noticed := ExitNoticeStep(roomId, userId, employee.value, now);
      if noticed.Err? {
        return Refusal(ServerError, None);
      }
      var updatedRoom := roomService.RemoveUserFromChatRoom(roomId, userId, now);
      if updatedRoom.Err? {
        return Refusal(ServerError, None);
      }
      if updatedRoom.value.None? {
        return Done(None);
      }
      chat.broker.Send(ParticipantsFrame(roomId, ActiveParticipants(updatedRoom.value.value.participants)));
      reply := Done(None);
    }

    method HandleChatMessage(senderId: Option<string>, content: Option<string>, roomIdValue: Option<string>, now: int)
      returns (r: Result<(), Exception>)
      requires Valid(State())
      modifies chat.rooms, chat.messages, chat.broker
      ensures Step(State(), r) == HandleChatMessageSpec(old(State()), chat.org.employees, senderId, content, roomIdValue, now, chat.formatDay)
    {
      var parsed := RoomIdOf(roomIdValue);
      if parsed.Err? {
        return Err(parsed.error);
      }
      var roomId := parsed.value;
      if roomId !in chat.rooms.rooms {
        return Err(Runtime);
      }
      var savedMessage := Route(roomId, senderId, content, now);
      if savedMessage.Err? {
        return Err(savedMessage.error);
      }
      chat.broker.Send(MessageFrame(roomId, Of(savedMessage.value)));
      r := Ok(());
    }

    method Route(roomId: int, senderId: Option<string>, content: Option<string>, now: int)
      returns (savedMessage: Result<Message, Exception>)
      requires Valid(State()) && roomId in chat.rooms.rooms
      modifies chat.rooms, chat.messages, chat.broker
      ensures Step(State(), savedMessage) ==
              RouteMessage(old(State()), chat.org.employees, roomId, senderId, content, now, chat.formatDay)
    {
      if !chat.rooms.rooms[roomId].isGroupChat {
        savedMessage := chat.SendDirectMessage(roomId, senderId, content, false, now);
      } else {
        var chatMessage := MessageFromRequest(chat.org.employees, roomId, senderId, content, now);
        if chatMessage.Err? {
          return Err(Runtime);
        }
        savedMessage := chat.SendMessage(chatMessage.value, now);
      }
    }

    method SendDirectMessage(senderId: Option<string>, content: Option<string>, roomIdValue: Option<string>,
                             invite: Option<Option<string>>, now: int) returns (r: Result<Reply<Message>, Exception>)
      requires Valid(State())
      modifies chat.rooms, chat.messages, chat.broker
      ensures Outcome(State(), r) ==
              SendDirectMessageEndpointSpec(old(State()), chat.org.employees, senderId, content, roomIdValue, invite, now, chat.formatDay)
    {
      var parsed := RoomIdOf(roomIdValue);
      if parsed.Err? {
        return Err(parsed.error);
      }
      var roomId := parsed.value;
      if invite == Some(None) {
        return Err(NullPointer);
      }
      var inviting := invite.Some? && ParseBoolean(invite.value);
      var message := chat.SendDirectMessage(roomId, senderId, content, inviting, now);
      if message.Err? {
        return Err(message.error);
      }
      if !inviting {
        chat.broker.Send(EntityFrame(roomId, message.value));
        return Ok(Done(Some(message.value)));
      }
      r := Ok(Done(None));
    }

    method DeleteMessage(messageId: MessageId, userId: string) returns (r: Result<Reply<()>, Exception>)
      modifies chat.messages, chat.broker, chat.files.dir
      ensures Outcome(State(), r) == DeleteMessageEndpointSpec(old(State()), messageId, userId)
    {
      var deleted := chat.DeleteMessage(messageId, userId);
      if deleted == Err(AccessDenied) {
        return Ok(Refusal(Forbidden, Some(NoPermission)));
      }
      if deleted.Err? {
        return Err(deleted.error);
      }
      r := Ok(Done(None));
    }

    method UploadAttachment(roomId: int, senderId: string, contentType: Option<string>, fileName: Option<string>,
                            uuid: string, baseUrl: string, fileReady: bool, now: int)
      returns (r: Result<Reply<MessageDto>, Exception>)
      modifies chat.rooms, chat.messages, chat.broker, chat.files.dir
      ensures Outcome(State(), r) ==
              UploadAttachmentSpec(old(State()), chat.org.employees, roomId, senderId, contentType, fileName, uuid,
                                   baseUrl, fileReady, now, chat.formatDay, chat.files.cleanPath)
    {
      var sender := EmployeeByUserId(chat.org.employees, senderId);
      if sender.None? {
        return Err(Runtime);
      }
      chat.InsertDateSeparatorIfNeeded(roomId, now);
      if roomId !in chat.rooms.rooms {
        return Err(Runtime);
      }
      var activeCount := OthersCount(chat.rooms.rooms[roomId].participants, Some(senderId));
      if activeCount.Err? {
        return Err(activeCount.error);
      }
      var isImage := IsImage(contentType);
      var uploadingMsg := AttachmentMessage(roomId, senderId, sender.value, isImage, fileName, None, activeCount.value, now);
      chat.broker.Send(MessageFrame(roomId, Of(uploadingMsg)));
      r := StoreAttachment(roomId, senderId, sender.value, isImage, fileName, uuid, baseUrl, fileReady, activeCount.value, now);
    }

    method StoreAttachment(roomId: int, senderId: string, sender: Employee, isImage: bool, fileName: Option<string>,
                           uuid: string, baseUrl: string, fileReady: bool, count: int, now: int)
      returns (r: Result<Reply<MessageDto>, Exception>)
      modifies chat.rooms, chat.messages, chat.broker, chat.files.dir
      ensures Outcome(State(), r) ==
              StoreAttachmentSpec(old(State()), roomId, senderId, sender, isImage, fileName, uuid, baseUrl, fileReady, count, now,
                                  chat.files.cleanPath)
    {
      var relativePath := chat.files.Store(uuid, fileName);
      if relativePath.Err? {
        return Err(relativePath.error);
      }
      if !fileReady {
        return Err(Runtime);
      }
      var absoluteUrl := baseUrl + relativePath.value;
      var msg := AttachmentMessage(roomId, senderId, sender, isImage, fileName, Some(absoluteUrl), count, now);
      var saved := chat.SaveMessageEntity(msg, now);
      if saved.Err? {
        return Err(saved.error);
      }
      var dto := Of(saved.value);
      chat.broker.Send(MessageFrame(roomId, dto));
      r := Ok(Done(Some(dto)));
    }

    method PublishCounts(roomId: int, userId: Option<string>) returns (r: Result<(), Exception>)
      modifies chat.broker
      ensures Step(State(), r) == CountsFrameSpec(old(State()), chat.org.employees, roomId, userId)
    {
      if roomId !in chat.rooms.rooms {
        return Err(Runtime);
      }
      var counts := RoomCounts(State(), chat.org.employees, roomId);
      if counts.Err? {
        return Err(counts.error);
      }
      if userId.None? {
        return Err(NullPointer);
      }
      chat.broker.Send(UnreadFrame(roomId, userId, counts.value, None));
      r := Ok(());
    }

    method MarkRoomAsRead(roomId: int, userId: Option<string>) returns (r: Result<(), Exception>)
      modifies chat.messages, chat.broker
      ensures Step(State(), r) == MarkRoomAsReadSpec(old(State()), chat.org.employees, roomId, userId)
    {
      var updated := chat.MarkAllMessagesAsRead(roomId, userId);
      if updated.Err? {
        return Err(updated.error);
      }
      r := PublishCounts(roomId, userId);
    }

    method MarkMessageAsRead(roomIdText: string, messageId: MessageId, userId: string) returns (r: Result<(), Exception>)
      modifies chat.messages, chat.broker
      ensures Step(State(), r) == MarkMessageAsReadEndpointSpec(old(State()), chat.org.employees, roomIdText, messageId, userId)
    {
      var marked := chat.MarkMessagesAsRead(messageId, userId);
      if marked.Err? {
        return marked;
      }
      var roomId := ParseLong(Some(roomIdText));
      if roomId.None? {
        return Err(NumberFormat);
      }
      r := PublishCounts(roomId.value, Some(userId));
    }

    method Deliver(senderId: string, targetUserId: string, content: Option<string>, now: int)
      returns (r: Result<(int, Message), Exception>)
      requires Wired() && Valid(State())
      modifies chat.rooms, chat.messages, chat.broker
      ensures Step(State(), r) ==
              DeliverSpec(old(State()), chat.org.users, chat.org.employees, senderId, targetUserId, content, now, chat.formatDay)
      ensures Valid(State())
    {
      ValidSplits(State());
      RoomServiceProperties.GetOrCreateDirectChatRoomKeepsValid(TableOf(State()), chat.org.users, chat.org.employees,
                                                                senderId, targetUserId, now);
      var room := roomService.GetOrCreateDirectChatRoom(senderId, targetUserId, now);
      ValidSplits(State());
      if room.Err? {
        return Err(room.error);
      }
      MessageServiceProperties.SendDirectMessageKeepsValid(State(), chat.org.employees, room.value.id, Some(senderId),
                                                           content, false, now, chat.formatDay);
      var saved := chat.SendDirectMessage(room.value.id, Some(senderId), content, false, now);
      if saved.Err? {
        return Err(saved.error);
      }
      r := Ok((room.value.id, saved.value));
    }

    method BroadcastEach(targets: seq<Employee>, senderId: string, content: Option<string>, now: int,
                         init: map<string, Option<MessageId>>) returns (r: Result<map<string, Option<MessageId>>, Exception>)
      requires Wired() && Valid(State())
      modifies chat.rooms, chat.messages, chat.broker
      ensures Step(State(), r) ==
              BroadcastEachSpec(old(State()), targets, senderId,
                                Deliveries(chat.org.users, chat.org.employees, senderId, content, now, chat.formatDay), init)
      ensures Valid(State())
    {
      ghost var deliver := Deliveries(chat.org.users, chat.org.employees, senderId, content, now, chat.formatDay);
      var results := init;
      var i := 0;
      while i < |targets|
        invariant 0 <= i <= |targets|
        invariant Valid(State())
        invariant BroadcastEachSpec(State(), targets[i..], senderId, deliver, results)
                  == BroadcastEachSpec(old(State()), targets, senderId, deliver, init)
      {
        assert targets[i..][1..] == targets[i + 1..];
        var e := targets[i];
        if e.user.None? {
          return Err(NullPointer);
        }
        var targetUserId := e.user.value;
        if targetUserId != senderId {
          ghost var before := State();
          var delivered := Deliver(senderId, targetUserId, content, now);
          assert Step(State(), delivered) == deliver(before, targetUserId);
          if delivered.Err? {
            return Err(delivered.error);
          }
          chat.broker.Send(MessageFrame(delivered.value.0, Of(delivered.value.1)));
          results := results[targetUserId := delivered.value.1.id];
        }
        i := i + 1;
      }
      r := Ok(results);
    }

    method BroadcastToAll(loginUserId: string, content: Option<string>, now: int) returns (r: Result<(), Exception>)
      requires Wired() && Valid(State())
      modifies chat.rooms, chat.messages, chat.broker
      ensures Step(State(), r) ==
              BroadcastToAllSpec(old(State()), chat.org.users, chat.org.employees, loginUserId, content, now, chat.formatDay)
    {
      var sent := BroadcastEach(chat.org.employees, loginUserId, content, now, map[]);
      if sent.Err? {
        return Err(sent.error);
      }
      r := Ok(());
    }

    method BroadcastToDepartment(departmentIds: Option<seq<string>>, loginUserId: string, content: Option<string>, now: int)
      returns (r: Result<Reply<map<string, Option<MessageId>>>, Exception>)
      requires Wired() && Valid(State())
      modifies chat.rooms, chat.messages, chat.broker
      ensures Outcome(State(), r) ==
              BroadcastToDepartmentSpec(old(State()), chat.org.users, chat.org.employees, departmentIds, loginUserId,
                                        content, now, chat.formatDay)
    {
      if departmentIds.None? || departmentIds.value == [] {
        return Ok(Refusal(BadRequest, None));
      }
      var me := EmployeeByUserId(chat.org.employees, loginUserId);
      if me.None? {
        return Ok(Refusal(Unauthorized, None));
      }
      var myUserId := me.value.user.value;
      var departments := departmentIds.value;
      ghost var deliver := Deliveries(chat.org.users, chat.org.employees, myUserId, content, now, chat.formatDay);
      var results: map<string, Option<MessageId>> := map[];
      var i := 0;
      while i < |departments|
        invariant 0 <= i <= |departments|
        invariant Valid(State())
        invariant BroadcastDepartmentsSpec(State(), chat.org.employees, departments[i..], myUserId, deliver, results)
                  == BroadcastDepartmentsSpec(old(State()), chat.org.employees, departments, loginUserId, deliver, map[])
      {
        assert departments[i..][1..] == departments[i + 1..];
        var list := EmployeesOfDepartment(chat.org.employees, departments[i]);
        var sent := BroadcastEach(list, myUserId, content, now, results);
        if sent.Err? {
          return Err(sent.error);
        }
        results := sent.value;
        i := i + 1;
      }
      r := Ok(Done(Some(results)));
    }

    method SendOne(employeeId: int, senderId: string, content: Option<string>, now: int) returns (entry: Delivery)
      requires Wired() && Valid(State())
      modifies chat.rooms, chat.messages, chat.broker
      ensures (State(), entry) ==
              SendOneSpec(old(State()), chat.org.users, chat.org.employees, employeeId, senderId, content, now, chat.formatDay)
      ensures Valid(State())
    {
      var target := EmployeeById(chat.org.employees, employeeId);
      if target.None? {
        return Failed(Runtime);
      }
      if target.value.user.None? {
        return Failed(NullPointer);
      }
      var delivered := Deliver(senderId, target.value.user.value, content, now);
      if delivered.Err? {
        return Failed(delivered.error);
      }
      entry := Sent(delivered.value.1.id);
    }

    method SendToMultipleUsers(loginUserId: string, employeeIds: Option<seq<int>>, content: Option<string>, now: int)
      returns (r: Result<Reply<map<int, Delivery>>, Exception>)
      requires Wired() && Valid(State())
      modifies chat.rooms, chat.messages, chat.broker
      ensures Outcome(State(), r) ==
              SendToMultipleUsersSpec(old(State()), chat.org.users, chat.org.employees, loginUserId, employeeIds,
                                      content, now, chat.formatDay)
    {
      var me := EmployeeByUserId(chat.org.employees, loginUserId);
      if me.None? {
        return Ok(Refusal(Unauthorized, None));
      }
      if employeeIds.None? {
        return Err(NullPointer);
      }
      var myUserId := me.value.user.value;
      var ids := employeeIds.value;
      var results: map<int, Delivery> := map[];
      var i := 0;
      while i < |ids|
        invariant 0 <= i <= |ids|
        invariant Valid(State())
        invariant SendEachSpec(State(), chat.org.users, chat.org.employees, ids[i..], myUserId, content, now, chat.formatDay, results)
                  == SendEachSpec(old(State()), chat.org.users, chat.org.employees, ids, loginUserId, content, now, chat.formatDay, map[])
      {
        assert ids[i..][1..] == ids[i + 1..];
        var entry := SendOne(ids[i], myUserId, content, now);
        results := results[ids[i] := entry];
        i := i + 1;
      }
      r := Ok(Done(Some(results)));
    }
  }
}
