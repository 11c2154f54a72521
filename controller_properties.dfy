// Properties of the chat controller's handlers: their guards and refusals,
// what leaving and inviting leave behind, the attachment message, the read
// receipt, and the broadcast loops.

module ControllerProperties {
  import opened Common
  import opened Directory
  import opened ChatRoomParticipants
  import opened ChatRooms
  import opened ChatMessages
  import opened ChatMessageDtos
  import opened ChatRoomQueries
  import opened Stores
  import opened FileStorage
  import opened MessageService
  import opened RoomService
  import opened ChatControllers
  import MessageServiceProperties
  import RoomServiceProperties

  // ---------------------------------------------------------------------
  // Leaving a room

  /** exitChatRoom answers 404 exactly for a caller without an employee or
      a missing room, 403 exactly for a caller who is not active there, and
      changes nothing when it refuses. */
  lemma ExitChatRoomGuards(st: Store, staff: seq<Employee>, roomId: int, userId: string, now: int)
    ensures var (st1, reply) := ExitChatRoomSpec(st, staff, roomId, userId, now);
      && (reply.status == NotFound <==> EmployeeByUserId(staff, userId).None? || roomId !in st.rooms)
      && (reply.status == Forbidden <==>
            EmployeeByUserId(staff, userId).Some? && roomId in st.rooms
            && !HasActiveParticipant(st.rooms[roomId].participants, Some(userId)))
      && (reply.status == NotFound || reply.status == Forbidden ==> st1 == st)
  {
  }

  /** Leaving a group room saves exactly one exit notice, carrying the
      employee's name, under the next document id; leaving a direct room
      saves nothing. */
  lemma ExitChatRoomNotice(st: Store, staff: seq<Employee>, roomId: int, userId: string, now: int)
    requires EmployeeByUserId(staff, userId).Some? && roomId in st.rooms
    requires HasActiveParticipant(st.rooms[roomId].participants, Some(userId))
    ensures var e := EmployeeByUserId(staff, userId).value;
      var after := ExitChatRoomSpec(st, staff, roomId, userId, now).0;
      && (st.rooms[roomId].isGroupChat ==>
            && after.docs == st.docs + [ExitNotice(roomId, userId, e, now).(id := Some(|st.docs|))]
            && after.docs[|st.docs|].exitMessage
            && after.docs[|st.docs|].content == Some(Text(e.name) + ExitSuffix))
      && (!st.rooms[roomId].isGroupChat ==> after.docs == st.docs)
  {
    var e := EmployeeByUserId(staff, userId).value;
    var noticed := ExitNoticeStage(st, roomId, userId, e, now);
    if st.rooms[roomId].isGroupChat {
      assert noticed.st.docs == st.docs + [ExitNotice(roomId, userId, e, now).(id := Some(|st.docs|))];
    }
  }

  /** The exit notice stage keeps the room table valid: it only changes the
      room's preview and activity time. */
  lemma ExitNoticeKeepsValid(st: Store, roomId: int, userId: string, e: Employee, now: int)
    requires ValidTable(TableOf(st)) && roomId in st.rooms
    ensures var noticed := ExitNoticeStage(st, roomId, userId, e, now);
      && ValidTable(TableOf(noticed.st))
      && noticed.out.Ok?
      && roomId in noticed.st.rooms
      && noticed.st.rooms[roomId].participants == st.rooms[roomId].participants
  {
  }

  /** With the deleted room handled, a member who may leave always gets
      200, and afterwards either the room is gone or the caller's employee
      is no longer active in it. */
  lemma ExitChatRoomRemovesCaller(st: Store, staff: seq<Employee>, roomId: int, userId: string, now: int)
    requires ValidTable(TableOf(st))
    requires EmployeeByUserId(staff, userId).Some? && roomId in st.rooms
    requires HasActiveParticipant(st.rooms[roomId].participants, Some(userId))
    ensures var (st1, reply) := ExitChatRoomSpec(st, staff, roomId, userId, now);
      && reply == Done(None)
      && (roomId in st1.rooms ==> !ActiveEmployee(st1.rooms[roomId], EmployeeByUserId(staff, userId).value.id))
  {
    var e := EmployeeByUserId(staff, userId).value;
    var noticed := ExitNoticeStage(st, roomId, userId, e, now);
    ExitNoticeKeepsValid(st, roomId, userId, e, now);
    var t := TableOf(noticed.st);
    RoomServiceProperties.RemoveUserFromChatRoomOutcome(t, staff, roomId, userId, now);
    var removal := RemoveUserFromChatRoomSpec(t, staff, roomId, userId, now);
    var st1 := ExitChatRoomSpec(st, staff, roomId, userId, now).0;
    if removal.out.Ok? && removal.out.value.Some? {
      var room := removal.out.value.value;
      var ps := t.rooms[roomId].participants;
      assert st1.rooms[roomId] == room;
    }
  }

  /** exitChatRoom as written: when the caller is the last active member,
      the room is deleted and the null it leaves is dereferenced, so the
      caller gets 500 although the exit took effect. */
  lemma ExitLastMemberAsWritten(st: Store, staff: seq<Employee>, roomId: int, userId: string, now: int)
    requires ValidTable(TableOf(st))
    requires EmployeeByUserId(staff, userId).Some? && roomId in st.rooms
    requires HasActiveParticipant(st.rooms[roomId].participants, Some(userId))
    requires forall i :: 0 <= i < |st.rooms[roomId].participants| && st.rooms[roomId].participants[i].active ==>
               st.rooms[roomId].participants[i].employee.id == EmployeeByUserId(staff, userId).value.id
    ensures var (st1, reply) := ExitChatRoomAsWritten(st, staff, roomId, userId, now);
      reply == Refusal(ServerError, None) && roomId !in st1.rooms
  {
    var e := EmployeeByUserId(staff, userId).value;
    var noticed := ExitNoticeStage(st, roomId, userId, e, now);
    ExitNoticeKeepsValid(st, roomId, userId, e, now);
    var t := TableOf(noticed.st);
    RoomServiceProperties.RemoveUserFromChatRoomOutcome(t, staff, roomId, userId, now);
    var ps := t.rooms[roomId].participants;
    var i :| 0 <= i < |ps| && ps[i].active && ps[i].employee.user == Some(userId);
    DepartedMarksLeft(ps, e.id, now, i);
  }

  // ---------------------------------------------------------------------
  // Inviting

  /** sendMessage saves the message it was given: room, content and flags
      are kept. */
  lemma SendMessageKeepsPayload(st: Store, staff: seq<Employee>, m: Message, now: int, formatDay: int -> string)
    ensures var s := SendMessageSpec(st, staff, m, now, formatDay);
      s.out.Ok? ==> s.out.value.roomId == m.roomId && s.out.value.content == m.content
                    && s.out.value.inviteMessage == m.inviteMessage && s.out.value.exitMessage == m.exitMessage
    ensures st.events <= SendMessageSpec(st, staff, m, now, formatDay).st.events
  {
    var st1 := InsertDateSeparatorIfNeededSpec(st, m.roomId, now, formatDay);
    assert st.events <= st1.events;
    if m.roomId !in st.rooms {
      assert SendMessageSpec(st, staff, m, now, formatDay) == Step(st, Err(Runtime));
    } else if HasUserlessActive(st.rooms[m.roomId].participants) {
      assert OthersCount(st.rooms[m.roomId].participants, m.senderId) == Err(NullPointer);
      assert SendMessageSpec(st, staff, m, now, formatDay) == Step(st1, Err(NullPointer));
    } else if EmployeeOfUser(staff, m.senderId).None? {
      assert SendMessageSpec(st, staff, m, now, formatDay) == Step(st1, Err(Runtime));
    } else {
      var sender := EmployeeOfUser(staff, m.senderId).value;
      var room := st.rooms[m.roomId];
      var ps := if HasActiveParticipant(room.participants, m.senderId) then room.participants
                else Added(room.participants, sender, true, now);
      var message := m.(participantCountAtSend := |OthersActive(room.participants, m.senderId)|,
                        readBy := m.readBy + [m.senderId.value]);
      var preview := PreviewLabel(message);
      var room1 := room.(participants := ps, lastMessageContent := preview, lastActivity := now);
      assert SendMessageSpec(st, staff, m, now, formatDay) == PublishSpec(st1, staff, room1, message, preview);
      MessageServiceProperties.PublishOutcome(st1, staff, room1, message, preview);
    }
  }

  /** The caller's own message only ever adds events. */
  lemma UserMessageStageGrowsEvents(st: Store, staff: seq<Employee>, roomId: int, inviterId: string,
                                    content: Option<string>, now: int, formatDay: int -> string)
    ensures st.events <= UserMessageStage(st, staff, roomId, inviterId, content, now, formatDay).st.events
  {
    if HasText(content) && MessageFromRequest(staff, roomId, Some(inviterId), content, now).Ok? {
      SendMessageKeepsPayload(st, staff, MessageFromRequest(staff, roomId, Some(inviterId), content, now).value, now, formatDay);
    }
  }

  /** inviteParticipant's guards: a non-numeric employee id fails first,
      then a missing room; 403 comes exactly from a caller who is not active
      in the room, and leaves everything as it was. */
  lemma InviteParticipantGuards(st: Store, staff: seq<Employee>, roomId: int, inviterId: string,
                                employeeId: Option<string>, content: Option<string>, now: int, formatDay: int -> string)
    ensures var o := InviteParticipantSpec(st, staff, roomId, inviterId, employeeId, content, now, formatDay);
      && (ParseLong(employeeId).None? ==> o == Outcome(st, Err(NumberFormat)))
      && (ParseLong(employeeId).Some? && roomId !in st.rooms ==> o == Outcome(st, Err(Runtime)))
      && (o.out.Ok? && o.out.value.status == Forbidden <==>
            ParseLong(employeeId).Some? && roomId in st.rooms
            && !HasActiveParticipant(st.rooms[roomId].participants, Some(inviterId)))
      && (o.out.Ok? && o.out.value.status == Forbidden ==> o.st == st)
  {
    if ParseLong(employeeId).Some? && roomId in st.rooms && HasActiveParticipant(st.rooms[roomId].participants, Some(inviterId))
       && EmployeeById(staff, ParseLong(employeeId).value).Some? && EmployeeByUserId(staff, inviterId).Some? {
      var invitee := EmployeeById(staff, ParseLong(employeeId).value).value;
      var inviter := EmployeeByUserId(staff, inviterId).value;
      var notice := SendMessageSpec(st, staff, InviteNotice(roomId, inviterId, InviteText(inviter, invitee), now), now, formatDay);
      if notice.out.Ok? {
        var st1 := notice.st.(events := notice.st.events + [EntityFrame(roomId, notice.out.value)]);
        var sent := UserMessageStage(st1, staff, roomId, inviterId, content, now, formatDay);
        if sent.out.Ok? {
          AddInviteeStageAnswers(sent.st, staff, roomId, inviterId, invitee, now);
        }
      }
    }
  }

  /** Adding the invitee either fails or answers 200. */
  lemma AddInviteeStageAnswers(st: Store, staff: seq<Employee>, roomId: int, loginUserId: string, invitee: Employee, now: int)
    ensures var o := AddInviteeStage(st, staff, roomId, loginUserId, invitee, now);
      o.out.Ok? ==> o.out.value.status == OkStatus
  {
  }

  /** A successful invitation published the saved invitation notice, which
      names inviter and invitee and is flagged as an invite. */
  lemma InviteParticipantAnnounces(st: Store, staff: seq<Employee>, roomId: int, inviterId: string,
                                   employeeId: Option<string>, content: Option<string>, now: int, formatDay: int -> string)
    requires var o := InviteParticipantSpec(st, staff, roomId, inviterId, employeeId, content, now, formatDay);
             o.out.Ok? && o.out.value.status == OkStatus
    ensures ParseLong(employeeId).Some? && EmployeeById(staff, ParseLong(employeeId).value).Some?
            && EmployeeByUserId(staff, inviterId).Some?
    ensures var o := InviteParticipantSpec(st, staff, roomId, inviterId, employeeId, content, now, formatDay);
      var text := InviteText(EmployeeByUserId(staff, inviterId).value, EmployeeById(staff, ParseLong(employeeId).value).value);
      exists k :: 0 <= k < |o.st.events| && o.st.events[k].EntityFrame? && o.st.events[k].roomId == roomId
                  && o.st.events[k].message.inviteMessage && o.st.events[k].message.content == Some(text)
  {
    var invitee := EmployeeById(staff, ParseLong(employeeId).value).value;
    var inviter := EmployeeByUserId(staff, inviterId).value;
    var text := InviteText(inviter, invitee);
    var m := InviteNotice(roomId, inviterId, text, now);
    var notice := SendMessageSpec(st, staff, m, now, formatDay);
    SendMessageKeepsPayload(st, staff, m, now, formatDay);
    var st1 := notice.st.(events := notice.st.events + [EntityFrame(roomId, notice.out.value)]);
    var sent := UserMessageStage(st1, staff, roomId, inviterId, content, now, formatDay);
    UserMessageStageGrowsEvents(st1, staff, roomId, inviterId, content, now, formatDay);
    var o := InviteParticipantSpec(st, staff, roomId, inviterId, employeeId, content, now, formatDay);
    assert o == AddInviteeStage(sent.st, staff, roomId, inviterId, invitee, now);
    var k := |notice.st.events|;
    assert st1.events[k] == EntityFrame(roomId, notice.out.value);
    assert o.st.events[k] == sent.st.events[k] == st1.events[k];
  }

  /** A blank message is the same as none: only text worth sending is sent
      after the notice. */
  lemma InviteParticipantIgnoresBlank(st: Store, staff: seq<Employee>, roomId: int, inviterId: string,
                                      employeeId: Option<string>, content: Option<string>, now: int, formatDay: int -> string)
    requires !HasText(content)
    ensures InviteParticipantSpec(st, staff, roomId, inviterId, employeeId, content, now, formatDay)
            == InviteParticipantSpec(st, staff, roomId, inviterId, employeeId, None, now, formatDay)
  {
    forall s: Store ensures UserMessageStage(s, staff, roomId, inviterId, content, now, formatDay)
                            == UserMessageStage(s, staff, roomId, inviterId, None, now, formatDay) {
    }
  }

  // ---------------------------------------------------------------------
  // Direct rooms by employee id

  /** createDirectChatRoom: 400 INVALID_REQUEST exactly for a missing or
      non-numeric id; 403 NP exactly when both employees exist, have users
      and neither is the caller; refusals change nothing; and a room is
      answered only to one of its two members. */
  lemma CreateDirectChatRoomGuards(st: Store, staff: seq<Employee>, employee1Id: Option<string>,
                                   employee2Id: Option<string>, loginUserId: string, now: int)
    ensures var o := CreateDirectChatRoomSpec(st, staff, employee1Id, employee2Id, loginUserId, now);
      && (o.out == Ok(Refusal(BadRequest, Some(InvalidRequest))) <==> ParseLong(employee1Id).None? || ParseLong(employee2Id).None?)
      && (o.out.Ok? && o.out.value.status == Forbidden <==>
            && ParseLong(employee1Id).Some? && ParseLong(employee2Id).Some?
            && EmployeeById(staff, ParseLong(employee1Id).value).Some?
            && EmployeeById(staff, ParseLong(employee2Id).value).Some?
            && EmployeeById(staff, ParseLong(employee1Id).value).value.user.Some?
            && EmployeeById(staff, ParseLong(employee2Id).value).value.user.Some?
            && EmployeeById(staff, ParseLong(employee1Id).value).value.user != Some(loginUserId)
            && EmployeeById(staff, ParseLong(employee2Id).value).value.user != Some(loginUserId))
      && (o.out.Ok? && o.out.value.status != OkStatus ==> o.st == st)
      && (o.out.Ok? && o.out.value.status == OkStatus ==>
            && ParseLong(employee1Id).Some? && ParseLong(employee2Id).Some?
            && EmployeeById(staff, ParseLong(employee1Id).value).Some?
            && EmployeeById(staff, ParseLong(employee2Id).value).Some?
            && (EmployeeById(staff, ParseLong(employee1Id).value).value.user == Some(loginUserId)
                || EmployeeById(staff, ParseLong(employee2Id).value).value.user == Some(loginUserId)))
  {
  }

  // ---------------------------------------------------------------------
  // Messages

  /** Routing by room kind means the STOMP handler never meets
      sendDirectMessage's refusal of a group room; a delivered message is
      published to its room. */
  lemma HandleChatMessageRoutes(st: Store, staff: seq<Employee>, senderId: Option<string>, content: Option<string>,
                                roomIdValue: Option<string>, now: int, formatDay: int -> string)
    ensures var s := HandleChatMessageSpec(st, staff, senderId, content, roomIdValue, now, formatDay);
      && s.out != Err(IllegalArgument)
      && (s.out.Ok? ==>
            && RoomIdOf(roomIdValue).Ok? && RoomIdOf(roomIdValue).value in st.rooms
            && |s.st.events| > 0 && s.st.events[|s.st.events| - 1].MessageFrame?
            && s.st.events[|s.st.events| - 1].roomId == RoomIdOf(roomIdValue).value)
  {
    match RoomIdOf(roomIdValue)
    case Err(_) =>
    case Ok(roomId) =>
      if roomId in st.rooms {
        if !st.rooms[roomId].isGroupChat {
          MessageServiceProperties.SendDirectMessageErrors(st, staff, roomId, senderId, content, false, now, formatDay);
        } else {
          match MessageFromRequest(staff, roomId, senderId, content, now)
          case Err(_) =>
          case Ok(m) => MessageServiceProperties.SendMessageErrors(st, staff, m, now, formatDay);
        }
      }
  }

  /** deleteMessage answers 403 NP exactly when the service refused the
      requester, and 200 exactly when the deletion went through. */
  lemma DeleteMessageAnswers(st: Store, messageId: MessageId, userId: string)
    ensures var o := DeleteMessageEndpointSpec(st, messageId, userId);
      && (o.out == Ok(Refusal(Forbidden, Some(NoPermission))) <==> DeleteMessageSpec(st, messageId, userId).out == Err(AccessDenied))
      && (o.out == Ok(Done(None)) <==> DeleteMessageSpec(st, messageId, userId).out.Ok?)
      && o.st == DeleteMessageSpec(st, messageId, userId).st
  {
  }

  // ---------------------------------------------------------------------
  // Attachments

  /** uploadAttachment's failures: a sender without an employee changes
      nothing, a missing or unstorable file name stores no file, and a file
      that never becomes reachable saves no message. */
  lemma UploadAttachmentFailures(st: Store, staff: seq<Employee>, roomId: int, senderId: string,
                                 contentType: Option<string>, fileName: Option<string>, uuid: string,
                                 baseUrl: string, fileReady: bool, now: int, formatDay: int -> string,
                                 cleanPath: string -> string)
    ensures var o := UploadAttachmentSpec(st, staff, roomId, senderId, contentType, fileName, uuid, baseUrl, fileReady, now, formatDay, cleanPath);
      && (EmployeeByUserId(staff, senderId).None? ==> o == Outcome(st, Err(Runtime)))
      && (fileName.None? ==> o.out.Err? && o.st.files == st.files)
      && (fileName.Some? && !Storable(uuid, cleanPath(fileName.value)) ==> o.out.Err? && o.st.files == st.files)
      && (EmployeeByUserId(staff, senderId).Some? && !fileReady ==>
            o.out.Err? && o.st.docs == InsertDateSeparatorIfNeededSpec(st, roomId, now, formatDay).docs)
  {
    var o := UploadAttachmentSpec(st, staff, roomId, senderId, contentType, fileName, uuid, baseUrl, fileReady, now, formatDay, cleanPath);
    if EmployeeByUserId(staff, senderId).Some? {
      var sender := EmployeeByUserId(staff, senderId).value;
      var st1 := InsertDateSeparatorIfNeededSpec(st, roomId, now, formatDay);
      assert st1.files == st.files;
      if roomId in st1.rooms && OthersCount(st1.rooms[roomId].participants, Some(senderId)).Ok? {
        var count := OthersCount(st1.rooms[roomId].participants, Some(senderId)).value;
        var uploading := AttachmentMessage(roomId, senderId, sender, IsImage(contentType), fileName, None, count, now);
        var st2 := st1.(events := st1.events + [MessageFrame(roomId, Of(uploading))]);
        if fileName.None? {
          assert o == Outcome(st2, Err(NullPointer));
        } else if !Storable(uuid, cleanPath(fileName.value)) {
          assert o == Outcome(st2, Err(Runtime));
        } else if !fileReady {
          var st3 := st2.(files := st2.files + {StoredName(uuid, cleanPath(fileName.value))});
          assert o == Outcome(st3, Err(Runtime));
        }
      }
    }
  }

  /** A successful upload stored the file, and saved and returned one
      attachment message: typed image exactly when the content type starts
      with "image/", read by its sender only, pointing at the stored file,
      counting the other active members; the room shows the label of its
      type. */
  lemma UploadAttachmentSaves(st: Store, staff: seq<Employee>, roomId: int, senderId: string,
                              contentType: Option<string>, fileName: Option<string>, uuid: string,
                              baseUrl: string, fileReady: bool, now: int, formatDay: int -> string,
                              cleanPath: string -> string)
    requires UploadAttachmentSpec(st, staff, roomId, senderId, contentType, fileName, uuid, baseUrl, fileReady, now, formatDay, cleanPath).out.Ok?
    ensures fileName.Some? && fileReady && roomId in st.rooms && EmployeeByUserId(staff, senderId).Some?
    ensures Storable(uuid, cleanPath(fileName.value))
    ensures var o := UploadAttachmentSpec(st, staff, roomId, senderId, contentType, fileName, uuid, baseUrl, fileReady, now, formatDay, cleanPath);
      && StoredName(uuid, cleanPath(fileName.value)) in o.st.files
      && |o.st.docs| > 0 && roomId in o.st.rooms
      && var saved := o.st.docs[|o.st.docs| - 1];
         && o.out.value == Done(Some(Of(saved)))
         && saved.roomId == roomId && saved.senderId == Some(senderId) && saved.readBy == [senderId]
         && saved.attachmentType == Some(if IsImage(contentType) then ImageType else FileType)
         && saved.attachmentUrl == Some(baseUrl + PublicPath(uuid, cleanPath(fileName.value)))
         && saved.attachmentName == fileName
         && saved.participantCountAtSend == |OthersActive(st.rooms[roomId].participants, Some(senderId))|
         && o.st.rooms[roomId].lastMessageContent == Some(if IsImage(contentType) then ImageLabel else FileLabel)
  {
    var o := UploadAttachmentSpec(st, staff, roomId, senderId, contentType, fileName, uuid, baseUrl, fileReady, now, formatDay, cleanPath);
    var sender := EmployeeByUserId(staff, senderId).value;
    var st1 := InsertDateSeparatorIfNeededSpec(st, roomId, now, formatDay);
    assert st1.rooms == st.rooms;
    var image := IsImage(contentType);
    var url := baseUrl + PublicPath(uuid, cleanPath(fileName.value));
    var count := OthersCount(st1.rooms[roomId].participants, Some(senderId)).value;
    var uploading := AttachmentMessage(roomId, senderId, sender, image, fileName, None, count, now);
    var st2 := st1.(events := st1.events + [MessageFrame(roomId, Of(uploading))]);
    var st3 := st2.(files := st2.files + {StoredName(uuid, cleanPath(fileName.value))});
    var m := AttachmentMessage(roomId, senderId, sender, image, fileName, Some(url), count, now);
    var saving := SaveMessageEntitySpec(st3, m, now);
    assert o == Outcome(saving.st.(events := saving.st.events + [MessageFrame(roomId, Of(saving.out.value))]),
                        Ok(Done(Some(Of(saving.out.value)))));
    AttachmentPreview(roomId, senderId, sender, image, fileName, Some(url), count, now);
    assert saving.st.docs == st3.docs + [m.(id := Some(|st3.docs|))];
  }

  /** An attachment message previews as the label of its type. */
  lemma AttachmentPreview(roomId: int, senderId: string, sender: Employee, image: bool,
                          fileName: Option<string>, url: Option<string>, count: int, now: int)
    ensures PreviewLabel(AttachmentMessage(roomId, senderId, sender, image, fileName, url, count, now))
            == Some(if image then ImageLabel else FileLabel)
  {
    var m := AttachmentMessage(roomId, senderId, sender, image, fileName, url, count, now);
    assert EqualsIgnoreCase(m.attachmentType, ImageType) == image;
    assert !image ==> EqualsIgnoreCase(m.attachmentType, FileType);
  }

  // ---------------------------------------------------------------------
  // Read receipts

  /** After markRoomAsRead the unread counts of every active member are
      broadcast, and the reader's own count is zero. */
  lemma MarkRoomAsReadBroadcasts(st: Store, staff: seq<Employee>, roomId: int, userId: Option<string>)
    requires MessageServiceProperties.ValidDocs(st.docs)
    requires MarkRoomAsReadSpec(st, staff, roomId, userId).out.Ok?
    ensures userId.Some? && roomId in st.rooms
    ensures var s := MarkRoomAsReadSpec(st, staff, roomId, userId);
      && roomId in s.st.rooms && |s.st.events| > 0
      && var frame := s.st.events[|s.st.events| - 1];
         && frame.UnreadFrame? && frame.roomId == roomId && frame.readerId == userId
         && frame.counts.Keys == ActiveUserIds(s.st.rooms[roomId].participants)
         && (userId.value in frame.counts ==> frame.counts[userId.value] == 0)
  {
    if userId.None? {
      MessageServiceProperties.MarkAllMessagesAsReadNull(st, staff, roomId);
    } else {
      MessageServiceProperties.MarkAllMessagesAsReadResult(st, staff, roomId, userId.value);
      MessageServiceProperties.MarkAllMessagesAsReadClearsCount(st, staff, roomId, userId.value);
    }
  }

  // ---------------------------------------------------------------------
  // Broadcasts

  /** The targets that are not the sender's own employee. */
  function WithoutSender(targets: seq<Employee>, senderId: string): (r: seq<Employee>)
    ensures forall e :: e in r <==> e in targets && e.user != Some(senderId)
    decreases |targets|
  {
    if targets == [] then []
    else (if targets[0].user != Some(senderId) then [targets[0]] else []) + WithoutSender(targets[1..], senderId)
  }

  /** The user ids a broadcast over `targets` records. */
  function TargetUsers(targets: seq<Employee>, senderId: string): set<string>
  {
    set e | e in targets && e.user.Some? && e.user.value != senderId :: e.user.value
  }

  /** The broadcast loops skip the sender: running them over the targets
      with the sender's own entries removed changes nothing. */
  lemma {:induction false} BroadcastSkipsSender(st: Store, targets: seq<Employee>, senderId: string,
                                                deliver: (Store, string) -> Step<(int, Message)>,
                                                results: map<string, Option<MessageId>>)
    ensures BroadcastEachSpec(st, targets, senderId, deliver, results)
            == BroadcastEachSpec(st, WithoutSender(targets, senderId), senderId, deliver, results)
    decreases |targets|
  {
    if targets != [] {
      var e := targets[0];
      var rest := WithoutSender(targets[1..], senderId);
      if e.user == Some(senderId) {
        assert WithoutSender(targets, senderId) == rest;
        BroadcastSkipsSender(st, targets[1..], senderId, deliver, results);
      } else {
        var filtered := WithoutSender(targets, senderId);
        assert filtered == [e] + rest;
        assert filtered[0] == e && filtered[1..] == rest;
        if e.user.Some? {
          var d := deliver(st, e.user.value);
          if d.out.Ok? {
            BroadcastSkipsSender(d.st.(events := d.st.events + [MessageFrame(d.out.value.0, Of(d.out.value.1))]),
                                 targets[1..], senderId, deliver, results[e.user.value := d.out.value.1.id]);
          }
        }
      }
    }
  }

  /** A completed broadcast records a message id for exactly the targets'
      users other than the sender, besides what was recorded before. */
  lemma {:induction false} BroadcastRecordsTargets(st: Store, targets: seq<Employee>, senderId: string,
                                                   deliver: (Store, string) -> Step<(int, Message)>,
                                                   results: map<string, Option<MessageId>>)
    ensures var s := BroadcastEachSpec(st, targets, senderId, deliver, results);
      s.out.Ok? ==> s.out.value.Keys == results.Keys + TargetUsers(targets, senderId)
    decreases |targets|
  {
    if targets != [] {
      var e := targets[0];
      assert forall x :: x in targets <==> x == e || x in targets[1..];
      if e.user.Some? {
        if e.user.value == senderId {
          BroadcastRecordsTargets(st, targets[1..], senderId, deliver, results);
          assert TargetUsers(targets, senderId) == TargetUsers(targets[1..], senderId);
        } else {
          var d := deliver(st, e.user.value);
          if d.out.Ok? {
            BroadcastRecordsTargets(d.st.(events := d.st.events + [MessageFrame(d.out.value.0, Of(d.out.value.1))]),
                                    targets[1..], senderId, deliver, results[e.user.value := d.out.value.1.id]);
            assert TargetUsers(targets, senderId) == {e.user.value} + TargetUsers(targets[1..], senderId);
          }
        }
      }
    }
  }

  /** broadcastToDepartment answers 400 exactly for a missing or empty
      department list, then 401 exactly for a caller without an employee,
      and changes nothing when it refuses. */
  lemma BroadcastToDepartmentGuards(st: Store, users: map<string, User>, staff: seq<Employee>,
                                    departmentIds: Option<seq<string>>, loginUserId: string, content: Option<string>,
                                    now: int, formatDay: int -> string)
    ensures var o := BroadcastToDepartmentSpec(st, users, staff, departmentIds, loginUserId, content, now, formatDay);
      && (o.out == Ok(Refusal(BadRequest, None)) <==> departmentIds.None? || departmentIds.value == [])
      && (o.out == Ok(Refusal(Unauthorized, None)) <==>
            departmentIds.Some? && departmentIds.value != [] && EmployeeByUserId(staff, loginUserId).None?)
      && (o.out.Ok? && o.out.value.status != OkStatus ==> o.st == st)
  {
  }

  /** sendToMultipleUsers' loop records an entry under every requested id;
      an id without an employee is recorded as a failure, since no delivery
      changes the directory. */
  lemma {:induction false} SendEachEntries(st: Store, users: map<string, User>, staff: seq<Employee>, employeeIds: seq<int>,
                                           senderId: string, content: Option<string>, now: int, formatDay: int -> string,
                                           results: map<int, Delivery>)
    requires forall i :: i in results && EmployeeById(staff, i).None? ==> results[i] == Failed(Runtime)
    ensures var r := SendEachSpec(st, users, staff, employeeIds, senderId, content, now, formatDay, results).1;
      && r.Keys == results.Keys + (set i | i in employeeIds)
      && (forall i :: i in r && EmployeeById(staff, i).None? ==> r[i] == Failed(Runtime))
    decreases |employeeIds|
  {
    if employeeIds != [] {
      var (st1, entry) := SendOneSpec(st, users, staff, employeeIds[0], senderId, content, now, formatDay);
      var acc := results[employeeIds[0] := entry];
      SendEachEntries(st1, users, staff, employeeIds[1..], senderId, content, now, formatDay, acc);
      assert (set i | i in employeeIds) == {employeeIds[0]} + (set i | i in employeeIds[1..]);
    }
  }

  /** sendToMultipleUsers: 401 exactly for a caller without an employee;
      otherwise, given the id list, 200 with one entry per requested id, a
      failure for each id without an employee. */
  lemma SendToMultipleUsersAnswers(st: Store, users: map<string, User>, staff: seq<Employee>, loginUserId: string,
                                   employeeIds: Option<seq<int>>, content: Option<string>, now: int, formatDay: int -> string)
    ensures var o := SendToMultipleUsersSpec(st, users, staff, loginUserId, employeeIds, content, now, formatDay);
      && (o.out == Ok(Refusal(Unauthorized, None)) <==> EmployeeByUserId(staff, loginUserId).None?)
      && (EmployeeByUserId(staff, loginUserId).Some? && employeeIds.Some? ==>
            && o.out.Ok? && o.out.value.status == OkStatus && o.out.value.body.Some?
            && o.out.value.body.value.Keys == (set i | i in employeeIds.value)
            && (forall i :: i in employeeIds.value && EmployeeById(staff, i).None? ==>
                  o.out.value.body.value[i] == Failed(Runtime)))
  {
    if EmployeeByUserId(staff, loginUserId).Some? && employeeIds.Some? {
      SendEachEntries(st, users, staff, employeeIds.value, loginUserId, content, now, formatDay, map[]);
    }
  }
}
