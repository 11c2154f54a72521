// What the message service's operations guarantee, stated over the store
// transitions the service class is proved to perform.

module MessageServiceProperties {
  import opened Common
  import opened Ordering
  import opened Directory
  import opened ChatRoomParticipants
  import opened ChatRooms
  import opened ChatMessages
  import opened ChatMessageDtos
  import opened ChatMessageQueries
  import opened ChatRoomQueries
  import opened Stores
  import opened FileStorage
  import opened MessageService

  /** Each document sits at the position its id names. */
  predicate ValidDocs(docs: seq<Message>)
  {
    forall k :: 0 <= k < |docs| ==> docs[k].id == Some(k)
  }

  /** findById in such a collection is indexing. */
  lemma FindDocInValid(docs: seq<Message>, id: MessageId)
    requires ValidDocs(docs)
    ensures FindDoc(docs, id) == if id < |docs| then Some(docs[id]) else None
  {
    if id < |docs| {
      assert docs[id].id == Some(id);
    }
  }

  // ---------------------------------------------------------------------
  // Participants

  /** Every record holds the directory's entry for its employee, and the
      directory has one entry per id. */
  predicate RecordsMatchStaff(ps: seq<Participant>, staff: seq<Employee>)
  {
    && (forall i :: 0 <= i < |ps| ==> ps[i].employee in staff)
    && (forall a, b :: a in staff && b in staff && a.id == b.id ==> a == b)
  }

  /** Adding never deactivates anyone. */
  lemma AddedKeepsActive(ps: seq<Participant>, e: Employee, rejoin: bool, now: int, u: Option<string>)
    requires HasActiveParticipant(ps, u)
    ensures HasActiveParticipant(Added(ps, e, rejoin, now), u)
  {
    var j :| 0 <= j < |ps| && ps[j].active && ps[j].employee.user == u;
    var r := Added(ps, e, rejoin, now);
    assert r[j].active && r[j].employee.user == u;
  }

  /** Adding a directory employee keeps every record's employee in the
      directory. */
  lemma AddedMatchesStaff(ps: seq<Participant>, staff: seq<Employee>, e: Employee, rejoin: bool, now: int)
    requires RecordsMatchStaff(ps, staff) && e in staff
    ensures RecordsMatchStaff(Added(ps, e, rejoin, now), staff)
  {
    var r := Added(ps, e, rejoin, now);
    match RecordOf(ps, e.id)
    case Some(k) =>
      assert forall i :: 0 <= i < |r| ==> r[i].employee == ps[i].employee;
    case None =>
      assert forall i :: 0 <= i < |ps| ==> r[i] == ps[i];
      assert r[|ps|].employee == e;
  }

  /** Adding a directory employee who has a user to directory records
      brings in no active member without one. */
  lemma AddedNoUserless(ps: seq<Participant>, staff: seq<Employee>, e: Employee, rejoin: bool, now: int)
    requires RecordsMatchStaff(ps, staff) && e in staff && e.user.Some? && !HasUserlessActive(ps)
    ensures !HasUserlessActive(Added(ps, e, rejoin, now))
  {
    var r := Added(ps, e, rejoin, now);
    forall x | x in ActiveParticipants(r) ensures x.user.Some? {
      var j :| 0 <= j < |r| && r[j].active && r[j].employee == x;
      match RecordOf(ps, e.id)
      case Some(k) =>
        assert r[j].employee == ps[j].employee;
        if !ps[j].active {
          assert j == k && ps[k].employee.id == e.id;
        } else {
          assert x in ActiveParticipants(ps);
        }
      case None =>
        if j < |ps| {
          assert r[j] == ps[j] && x in ActiveParticipants(ps);
        } else {
          assert x == e;
        }
    }
  }

  /** sendDirectMessage's invite loop brings in no active member without a
      user either. */
  lemma {:induction false} ResurrectedNoUserless(ps: seq<Participant>, staff: seq<Employee>, rids: seq<string>, now: int)
    requires RecordsMatchStaff(ps, staff) && !HasUserlessActive(ps)
    ensures !HasUserlessActive(Resurrected(ps, staff, rids, now))
    decreases |rids|
  {
    if rids != [] {
      var recipient := EmployeeByUserId(staff, rids[0]);
      var ps1 := if recipient.Some? && !HasActiveParticipant(ps, Some(rids[0])) then Added(ps, recipient.value, true, now) else ps;
      if recipient.Some? {
        AddedMatchesStaff(ps, staff, recipient.value, true, now);
        AddedNoUserless(ps, staff, recipient.value, true, now);
      }
      ResurrectedNoUserless(ps1, staff, rids[1..], now);
    }
  }

  /** Adding a directory employee with rejoin leaves that employee's user
      active, and keeps the records unique, consistent and current. */
  lemma AddedActivates(ps: seq<Participant>, staff: seq<Employee>, e: Employee, before: int, now: int)
    requires UniqueEmployees(ps) && AllConsistentAt(ps, before) && before <= now
    requires RecordsMatchStaff(ps, staff) && e in staff && e.user.Some?
    ensures HasActiveParticipant(Added(ps, e, true, now), e.user)
    ensures UniqueEmployees(Added(ps, e, true, now))
    ensures AllConsistentAt(Added(ps, e, true, now), now)
    ensures RecordsMatchStaff(Added(ps, e, true, now), staff)
  {
    var r := Added(ps, e, true, now);
    AddedKeepsUnique(ps, e, true, now);
    AddedKeepsConsistent(ps, e, true, before, now);
    assert forall i :: 0 <= i < |r| ==> r[i].employee in staff by {
      match RecordOf(ps, e.id)
      case Some(k) =>
        assert forall i :: 0 <= i < |r| ==> r[i].employee == ps[i].employee;
      case None =>
        assert forall i :: 0 <= i < |ps| ==> r[i] == ps[i];
        assert r[|ps|].employee == e;
    }
    AddedWithRejoinIsActive(ps, e, before, now);
    var i :| 0 <= i < |r| && r[i].employee.id == e.id && r[i].active;
    assert r[i].employee == e;
  }

  /** sendDirectMessage's invite loop leaves every recipient who has an
      employee active, keeps everyone who was active, and keeps the records
      unique, consistent and current. */
  lemma {:induction false} ResurrectedActivates(ps: seq<Participant>, staff: seq<Employee>, rids: seq<string>, before: int, now: int)
    requires UniqueEmployees(ps) && AllConsistentAt(ps, before) && before <= now
    requires RecordsMatchStaff(ps, staff)
    ensures var r := Resurrected(ps, staff, rids, now);
      && UniqueEmployees(r) && AllConsistentAt(r, now) && RecordsMatchStaff(r, staff)
      && (forall rid :: rid in rids && EmployeeByUserId(staff, rid).Some? ==> HasActiveParticipant(r, Some(rid)))
      && (forall u :: HasActiveParticipant(ps, u) ==> HasActiveParticipant(r, u))
    decreases |rids|
  {
    if rids == [] {
      assert forall i :: 0 <= i < |ps| ==> ConsistentAt(ps[i], before);
      assert AllConsistentAt(ps, now) by {
        forall i | 0 <= i < |ps| ensures ConsistentAt(ps[i], now) {
          assert ConsistentAt(ps[i], before);
        }
      }
    } else {
      var rid := rids[0];
      var recipient := EmployeeByUserId(staff, rid);
      var ps1 := if recipient.Some? && !HasActiveParticipant(ps, Some(rid)) then Added(ps, recipient.value, true, now) else ps;
      if recipient.Some? && !HasActiveParticipant(ps, Some(rid)) {
        AddedActivates(ps, staff, recipient.value, before, now);
        forall u | HasActiveParticipant(ps, u) ensures HasActiveParticipant(ps1, u) {
          AddedKeepsActive(ps, recipient.value, true, now, u);
        }
      } else {
        assert AllConsistentAt(ps, now) by {
          forall i | 0 <= i < |ps| ensures ConsistentAt(ps[i], now) {
            assert ConsistentAt(ps[i], before);
          }
        }
      }
      assert recipient.Some? ==> HasActiveParticipant(ps1, Some(rid));
      ResurrectedActivates(ps1, staff, rids[1..], now, now);
      var r := Resurrected(ps, staff, rids, now);
      forall x | x in rids && EmployeeByUserId(staff, x).Some? ensures HasActiveParticipant(r, Some(x)) {
        if x != rid {
          assert x in rids[1..];
        }
      }
    }
  }

  // ---------------------------------------------------------------------
  // The room preview

  /** A message previews as the photo label, the file label or its own
      content; the attachment type is compared ignoring case, so "IMAGE"
      and "File" are labelled, "images" is not, and a message without an
      attachment type previews as its content. */
  lemma PreviewLabelCases(m: Message)
    ensures PreviewLabel(m) == Some(ImageLabel) || PreviewLabel(m) == Some(FileLabel) || PreviewLabel(m) == m.content
    ensures m.attachmentType == Some("IMAGE") ==> PreviewLabel(m) == Some(ImageLabel)
    ensures m.attachmentType == Some("File") ==> PreviewLabel(m) == Some(FileLabel)
    ensures m.attachmentType == Some("images") || m.attachmentType.None? ==> PreviewLabel(m) == m.content
  {
    if m.attachmentType == Some("IMAGE") {
      assert EqualsIgnoreCase(m.attachmentType, "image") by {
        forall i | 0 <= i < 5 ensures SameLetterIgnoringCase("IMAGE"[i], "image"[i]) {
          assert "IMAGE"[i] as int == "image"[i] as int - 32;
        }
      }
    }
    if m.attachmentType == Some("File") {
      assert !EqualsIgnoreCase(m.attachmentType, "image");
      assert EqualsIgnoreCase(m.attachmentType, "file") by {
        assert SameLetterIgnoringCase('F', 'f');
      }
    }
  }

  // ---------------------------------------------------------------------
  // Sending

  /** The state of a room a message is sent to that the proofs rely on. */
  predicate SoundRoom(st: Store, staff: seq<Employee>, roomId: int, now: int)
  {
    roomId in st.rooms ==>
      var ps := st.rooms[roomId].participants;
      UniqueEmployees(ps) && AllConsistentAt(ps, now) && RecordsMatchStaff(ps, staff)
  }

  /** sendMessage's failures: a missing room fails first with nothing
      changed; an active member without a user fails the snapshot count
      with only the separator written; an unknown sender fails; and a null
      preview fails after the room was stored with that null preview. */
  lemma SendMessageFailures(st: Store, staff: seq<Employee>, m: Message, now: int, formatDay: int -> string)
    requires SoundRoom(st, staff, m.roomId, now)
    ensures var s := SendMessageSpec(st, staff, m, now, formatDay);
      && (m.roomId !in st.rooms ==> s == Step(st, Err(Runtime)))
      && (m.roomId in st.rooms && HasUserlessActive(st.rooms[m.roomId].participants) ==>
            s == Step(InsertDateSeparatorIfNeededSpec(st, m.roomId, now, formatDay), Err(NullPointer)))
      && (s.out.Ok? <==> m.roomId in st.rooms && !HasUserlessActive(st.rooms[m.roomId].participants)
                         && EmployeeOfUser(staff, m.senderId).Some? && PreviewLabel(m).Some?)
      && ((m.roomId in st.rooms && !HasUserlessActive(st.rooms[m.roomId].participants) &&
           EmployeeOfUser(staff, m.senderId).None?) ==> s.out == Err(Runtime))
      && ((m.roomId in st.rooms && !HasUserlessActive(st.rooms[m.roomId].participants) &&
           EmployeeOfUser(staff, m.senderId).Some? && PreviewLabel(m).None?) ==>
            s.out == Err(NullPointer) && m.roomId in s.st.rooms && s.st.rooms[m.roomId].lastMessageContent.None?)
  {
    if m.roomId in st.rooms && !HasUserlessActive(st.rooms[m.roomId].participants) && EmployeeOfUser(staff, m.senderId).Some? {
      var room := st.rooms[m.roomId];
      var ps := room.participants;
      var sender := EmployeeOfUser(staff, m.senderId).value;
      var st1 := InsertDateSeparatorIfNeededSpec(st, m.roomId, now, formatDay);
      var ps1 := if HasActiveParticipant(ps, m.senderId) then ps else Added(ps, sender, true, now);
      var message := m.(participantCountAtSend := |OthersActive(ps, m.senderId)|, readBy := m.readBy + [m.senderId.value]);
      var preview := PreviewLabel(message);
      var room1 := room.(participants := ps1, lastMessageContent := preview, lastActivity := now);
      assert SendMessageSpec(st, staff, m, now, formatDay) == PublishSpec(st1, staff, room1, message, preview);
      assert preview == PreviewLabel(m);
      PublishOutcome(st1, staff, room1, message, preview);
      if !HasActiveParticipant(ps, m.senderId) {
        AddedNoUserless(ps, staff, sender, true, now);
        AddedActivates(ps, staff, sender, now, now);
        forall u | HasActiveParticipant(ps, u) ensures HasActiveParticipant(ps1, u) {
          AddedKeepsActive(ps, sender, true, now, u);
        }
      }
    }
  }

  /** sendMessage's success: the saved message is the sent one with the
      count of other active members and the sender as its first new reader,
      and the room shows it as preview and activity. */
  lemma SendMessageSaves(st: Store, staff: seq<Employee>, m: Message, now: int, formatDay: int -> string)
    ensures var s := SendMessageSpec(st, staff, m, now, formatDay);
      s.out.Ok? ==>
        && m.roomId in st.rooms && m.roomId in s.st.rooms
        && var saved := s.out.value;
        var room := s.st.rooms[m.roomId];
        && saved in s.st.docs && saved.id.Some?
        && saved == m.(id := saved.id,
                       participantCountAtSend := |OthersActive(st.rooms[m.roomId].participants, m.senderId)|,
                       readBy := m.readBy + [m.senderId.value])
        && room.lastMessageContent == PreviewLabel(m) && room.lastActivity == now
  {
    SendMessagePassedGuards(st, staff, m, now, formatDay);
    if SendMessageSpec(st, staff, m, now, formatDay).out.Ok? {
      var room := st.rooms[m.roomId];
      var ps := room.participants;
      var sender := EmployeeOfUser(staff, m.senderId).value;
      var st1 := InsertDateSeparatorIfNeededSpec(st, m.roomId, now, formatDay);
      var ps1 := if HasActiveParticipant(ps, m.senderId) then ps else Added(ps, sender, true, now);
      var message := m.(participantCountAtSend := |OthersActive(ps, m.senderId)|, readBy := m.readBy + [m.senderId.value]);
      var preview := PreviewLabel(message);
      var room1 := room.(participants := ps1, lastMessageContent := preview, lastActivity := now);
      assert SendMessageSpec(st, staff, m, now, formatDay) == PublishSpec(st1, staff, room1, message, preview);
      assert preview == PreviewLabel(m);
      PublishOutcome(st1, staff, room1, message, preview);
    }
  }

  /** After a successful send the sender is active in the room, and every
      member active before still is. */
  lemma SendMessageActivates(st: Store, staff: seq<Employee>, m: Message, now: int, formatDay: int -> string)
    requires SoundRoom(st, staff, m.roomId, now)
    ensures var s := SendMessageSpec(st, staff, m, now, formatDay);
      s.out.Ok? ==>
        && m.roomId in st.rooms && m.roomId in s.st.rooms
        && var room := s.st.rooms[m.roomId];
        && HasActiveParticipant(room.participants, m.senderId)
        && (forall u :: HasActiveParticipant(st.rooms[m.roomId].participants, u) ==> HasActiveParticipant(room.participants, u))
  {
    SendMessagePassedGuards(st, staff, m, now, formatDay);
    if SendMessageSpec(st, staff, m, now, formatDay).out.Ok? {
      var room := st.rooms[m.roomId];
      var ps := room.participants;
      var sender := EmployeeOfUser(staff, m.senderId).value;
      var st1 := InsertDateSeparatorIfNeededSpec(st, m.roomId, now, formatDay);
      var ps1 := if HasActiveParticipant(ps, m.senderId) then ps else Added(ps, sender, true, now);
      var message := m.(participantCountAtSend := |OthersActive(ps, m.senderId)|, readBy := m.readBy + [m.senderId.value]);
      var preview := PreviewLabel(message);
      var room1 := room.(participants := ps1, lastMessageContent := preview, lastActivity := now);
      assert SendMessageSpec(st, staff, m, now, formatDay) == PublishSpec(st1, staff, room1, message, preview);
      PublishOutcome(st1, staff, room1, message, preview);
      if !HasActiveParticipant(ps, m.senderId) {
        AddedActivates(ps, staff, sender, now, now);
        forall u | HasActiveParticipant(ps, u) ensures HasActiveParticipant(ps1, u) {
          AddedKeepsActive(ps, sender, true, now, u);
        }
      }
    }
  }

  /** A successful send found the room, no active member without a user,
      and the sender's employee. */
  lemma SendMessagePassedGuards(st: Store, staff: seq<Employee>, m: Message, now: int, formatDay: int -> string)
    ensures SendMessageSpec(st, staff, m, now, formatDay).out.Ok? ==>
              m.roomId in st.rooms && !HasUserlessActive(st.rooms[m.roomId].participants)
              && EmployeeOfUser(staff, m.senderId).Some?
  {
    var st1 := InsertDateSeparatorIfNeededSpec(st, m.roomId, now, formatDay);
    if m.roomId !in st.rooms {
      assert SendMessageSpec(st, staff, m, now, formatDay) == Step(st, Err(Runtime));
    } else if HasUserlessActive(st.rooms[m.roomId].participants) {
      assert OthersCount(st.rooms[m.roomId].participants, m.senderId) == Err(NullPointer);
      assert SendMessageSpec(st, staff, m, now, formatDay) == Step(st1, Err(NullPointer));
    } else if EmployeeOfUser(staff, m.senderId).None? {
      assert SendMessageSpec(st, staff, m, now, formatDay) == Step(st1, Err(Runtime));
    }
  }

  /** The shared tail stores the room, saves the message and fails exactly
      when an active member has no user or the preview is null. */
  lemma PublishOutcome(st: Store, staff: seq<Employee>, room: Room, message: Message, preview: Option<string>)
    ensures PublishSpec(st, staff, room, message, preview).st.rooms == st.rooms[message.roomId := room]
    ensures st.events <= PublishSpec(st, staff, room, message, preview).st.events
    ensures PublishSpec(st, staff, room, message, preview).out.Ok? <==> !HasUserlessActive(room.participants) && preview.Some?
    ensures PublishSpec(st, staff, room, message, preview).out.Err? ==> PublishSpec(st, staff, room, message, preview).out == Err(NullPointer)
    ensures PublishSpec(st, staff, room, message, preview).out.Ok? ==>
              var saved := PublishSpec(st, staff, room, message, preview).out.value;
              saved in PublishSpec(st, staff, room, message, preview).st.docs && saved.id.Some?
              && saved == message.(id := saved.id)
  {
  }

  /** The date separator keeps the stores valid. */
  lemma InsertDateSeparatorKeepsValid(st: Store, roomId: int, now: int, formatDay: int -> string)
    requires Valid(st)
    ensures Valid(InsertDateSeparatorIfNeededSpec(st, roomId, now, formatDay))
    ensures InsertDateSeparatorIfNeededSpec(st, roomId, now, formatDay).rooms == st.rooms
    ensures |InsertDateSeparatorIfNeededSpec(st, roomId, now, formatDay).docs| >= |st.docs|
  {
    SaveDocInValid(st.docs, Separator(roomId, now, formatDay));
  }

  /** Publishing a stored room under its own id with unique records keeps
      the stores valid. */
  lemma PublishKeepsValid(st: Store, staff: seq<Employee>, room: Room, message: Message, preview: Option<string>)
    requires Valid(st) && message.roomId in st.rooms && room.id == message.roomId
    requires UniqueEmployees(room.participants)
    requires message.id.None? || message.id.value < |st.docs|
    ensures Valid(PublishSpec(st, staff, room, message, preview).st)
  {
    SaveDocInValid(st.docs, message);
  }

  /** sendMessage fails only with the runtime error of a missing room or
      sender, or with a null pointer. */
  lemma SendMessageErrors(st: Store, staff: seq<Employee>, m: Message, now: int, formatDay: int -> string)
    ensures var out := SendMessageSpec(st, staff, m, now, formatDay).out;
      out.Err? ==> out.error == Runtime || out.error == NullPointer
  {
    if m.roomId in st.rooms && !HasUserlessActive(st.rooms[m.roomId].participants) && EmployeeOfUser(staff, m.senderId).Some? {
      var room := st.rooms[m.roomId];
      var sender := EmployeeOfUser(staff, m.senderId).value;
      var st1 := InsertDateSeparatorIfNeededSpec(st, m.roomId, now, formatDay);
      var ps1 := if HasActiveParticipant(room.participants, m.senderId) then room.participants
                 else Added(room.participants, sender, true, now);
      var message := m.(participantCountAtSend := |OthersActive(room.participants, m.senderId)|, readBy := m.readBy + [m.senderId.value]);
      var preview := PreviewLabel(message);
      var room1 := room.(participants := ps1, lastMessageContent := preview, lastActivity := now);
      assert SendMessageSpec(st, staff, m, now, formatDay) == PublishSpec(st1, staff, room1, message, preview);
      PublishOutcome(st1, staff, room1, message, preview);
    }
  }

  /** sendDirectMessage fails with an illegal argument exactly for a group
      room, and otherwise only with a runtime error or a null pointer. */
  lemma SendDirectMessageErrors(st: Store, staff: seq<Employee>, roomId: int, senderId: Option<string>,
                                content: Option<string>, invite: bool, now: int, formatDay: int -> string)
    ensures var out := SendDirectMessageSpec(st, staff, roomId, senderId, content, invite, now, formatDay).out;
      && (out == Err(IllegalArgument) <==> roomId in st.rooms && st.rooms[roomId].isGroupChat)
      && (out.Err? ==> out.error == Runtime || out.error == NullPointer || out.error == IllegalArgument)
  {
    if roomId in st.rooms && !st.rooms[roomId].isGroupChat && !HasUserlessActive(st.rooms[roomId].participants)
       && EmployeeOfUser(staff, senderId).Some? {
      var room := st.rooms[roomId];
      var sender := EmployeeOfUser(staff, senderId).value;
      var ps := if HasActiveParticipant(room.participants, senderId) then room.participants
                else Added(room.participants, sender, true, now);
      var st1 := InsertDateSeparatorIfNeededSpec(st, roomId, now, formatDay);
      var allUserIds := Distinct(SenderIds(TopNewest(st1.docs, roomId, 50)));
      if !(invite && None in allUserIds) {
        var base := EmployeeMessage(roomId, sender, content, now).(participantCountAtSend := |OthersActive(room.participants, senderId)|);
        var ps2 := if invite then Resurrected(ps, staff, RecipientIds(allUserIds, senderId), now) else ps;
        var message := if invite then base.(inviteMessage := true) else base.(readBy := base.readBy + [senderId.value]);
        var room1 := room.(participants := ps2, lastMessageContent := content, lastActivity := now);
        assert SendDirectMessageSpec(st, staff, roomId, senderId, content, invite, now, formatDay)
               == PublishSpec(st1, staff, room1, message, content);
        PublishOutcome(st1, staff, room1, message, content);
      }
    }
  }

  /** Sending keeps the stores valid. */
  lemma SendMessageKeepsValid(st: Store, staff: seq<Employee>, m: Message, now: int, formatDay: int -> string)
    requires Valid(st) && (m.id.None? || m.id.value < |st.docs|)
    ensures Valid(SendMessageSpec(st, staff, m, now, formatDay).st)
  {
    if m.roomId in st.rooms {
      InsertDateSeparatorKeepsValid(st, m.roomId, now, formatDay);
      var st1 := InsertDateSeparatorIfNeededSpec(st, m.roomId, now, formatDay);
      if !HasUserlessActive(st.rooms[m.roomId].participants) && EmployeeOfUser(staff, m.senderId).Some? {
        var sender := EmployeeOfUser(staff, m.senderId).value;
        var room := st.rooms[m.roomId];
        var ps := if HasActiveParticipant(room.participants, m.senderId) then room.participants
                  else Added(room.participants, sender, true, now);
        AddedKeepsUnique(room.participants, sender, true, now);
        var message := m.(participantCountAtSend := |OthersActive(room.participants, m.senderId)|,
                          readBy := m.readBy + [m.senderId.value]);
        var preview := PreviewLabel(message);
        var room1 := room.(participants := ps, lastMessageContent := preview, lastActivity := now);
        assert SendMessageSpec(st, staff, m, now, formatDay) == PublishSpec(st1, staff, room1, message, preview);
        PublishKeepsValid(st1, staff, room1, message, preview);
      }
    }
  }

  /** sendDirectMessage refuses group rooms and missing rooms and changes
      nothing then; an active member without a user fails the snapshot
      count with only the separator written.  A success is as
      SendDirectMessageSaves and SendDirectMessageActivates say. */
  lemma SendDirectMessageOutcome(st: Store, staff: seq<Employee>, roomId: int, senderId: Option<string>,
                                 content: Option<string>, invite: bool, now: int, formatDay: int -> string)
    ensures var s := SendDirectMessageSpec(st, staff, roomId, senderId, content, invite, now, formatDay);
      && (roomId !in st.rooms ==> s == Step(st, Err(Runtime)))
      && (roomId in st.rooms && st.rooms[roomId].isGroupChat ==> s == Step(st, Err(IllegalArgument)))
      && (roomId in st.rooms && !st.rooms[roomId].isGroupChat && HasUserlessActive(st.rooms[roomId].participants) ==>
            s == Step(InsertDateSeparatorIfNeededSpec(st, roomId, now, formatDay), Err(NullPointer)))
  {
  }

  /** A successful direct send carries the content from the sender's
      employee with the snapshot count; an invite message has an empty
      readBy, a plain one has the sender as its only reader. */
  lemma SendDirectMessageSaves(st: Store, staff: seq<Employee>, roomId: int, senderId: Option<string>,
                               content: Option<string>, invite: bool, now: int, formatDay: int -> string)
    ensures var s := SendDirectMessageSpec(st, staff, roomId, senderId, content, invite, now, formatDay);
      (s.out.Ok? ==>
            && content.Some? && senderId.Some? && roomId in st.rooms && !st.rooms[roomId].isGroupChat
            && roomId in s.st.rooms
            && var saved := s.out.value;
            var room := s.st.rooms[roomId];
            && saved in s.st.docs && saved.roomId == roomId && saved.senderId == senderId
            && saved.content == content && saved.timestamp == now
            && saved.participantCountAtSend == |OthersActive(st.rooms[roomId].participants, senderId)|
            && (invite ==> saved.inviteMessage && saved.readBy == [])
            && (!invite ==> !saved.inviteMessage && saved.readBy == [senderId.value])
            && room.lastMessageContent == content && room.lastActivity == now)
  {
    var s := SendDirectMessageSpec(st, staff, roomId, senderId, content, invite, now, formatDay);
    if s.out.Ok? {
      var room1, message := SendDirectMessageUnfolds(st, staff, roomId, senderId, content, invite, now, formatDay);
      var sender := EmployeeOfUser(staff, senderId).value;
      FromEmployeeCopiesSender(roomId, sender, content, now);
      BlankDefaults(roomId, now);
      assert s.out.value == message.(id := s.out.value.id);
    }
  }

  /** After a successful direct send the sender is active, every member
      active before still is, and an invitation leaves every earlier sender
      who has an employee active. */
  lemma SendDirectMessageActivates(st: Store, staff: seq<Employee>, roomId: int, senderId: Option<string>,
                                   content: Option<string>, invite: bool, now: int, formatDay: int -> string)
    requires SoundRoom(st, staff, roomId, now)
    ensures var s := SendDirectMessageSpec(st, staff, roomId, senderId, content, invite, now, formatDay);
      (s.out.Ok? ==>
            && roomId in st.rooms && roomId in s.st.rooms
            && var room := s.st.rooms[roomId];
            var earlier := TopNewest(InsertDateSeparatorIfNeededSpec(st, roomId, now, formatDay).docs, roomId, 50);
            && HasActiveParticipant(room.participants, senderId)
            && (forall u :: HasActiveParticipant(st.rooms[roomId].participants, u) ==> HasActiveParticipant(room.participants, u))
            && (invite ==> forall k :: 0 <= k < |earlier| && earlier[k].senderId.Some? &&
                                       EmployeeByUserId(staff, earlier[k].senderId.value).Some? ==>
                                         HasActiveParticipant(room.participants, earlier[k].senderId)))
  {
    var s := SendDirectMessageSpec(st, staff, roomId, senderId, content, invite, now, formatDay);
    if s.out.Ok? {
      var room1, message := SendDirectMessageUnfolds(st, staff, roomId, senderId, content, invite, now, formatDay);
      var ps0 := st.rooms[roomId].participants;
      var sender := EmployeeOfUser(staff, senderId).value;
      var ps := if HasActiveParticipant(ps0, senderId) then ps0 else Added(ps0, sender, true, now);
      if !HasActiveParticipant(ps0, senderId) {
        AddedActivates(ps0, staff, sender, now, now);
        forall u | HasActiveParticipant(ps0, u) ensures HasActiveParticipant(ps, u) {
          AddedKeepsActive(ps0, sender, true, now, u);
        }
      }
      var earlier := TopNewest(InsertDateSeparatorIfNeededSpec(st, roomId, now, formatDay).docs, roomId, 50);
      if invite {
        InviteWakesEarlierSenders(ps, staff, earlier, senderId, now);
      }
    }
  }

  /** The shape of a successful direct send: every guard passed, and the
      result is the shared tail run on the room with the new records and
      on the message built from the sender's employee. */
  lemma SendDirectMessageUnfolds(st: Store, staff: seq<Employee>, roomId: int, senderId: Option<string>,
                                 content: Option<string>, invite: bool, now: int, formatDay: int -> string)
    returns (room1: Room, message: Message)
    requires SendDirectMessageSpec(st, staff, roomId, senderId, content, invite, now, formatDay).out.Ok?
    ensures roomId in st.rooms && !st.rooms[roomId].isGroupChat && content.Some?
    ensures !HasUserlessActive(st.rooms[roomId].participants) && EmployeeOfUser(staff, senderId).Some?
    ensures var st1 := InsertDateSeparatorIfNeededSpec(st, roomId, now, formatDay);
      var ps0 := st.rooms[roomId].participants;
      var sender := EmployeeOfUser(staff, senderId).value;
      var ps := if HasActiveParticipant(ps0, senderId) then ps0 else Added(ps0, sender, true, now);
      var allUserIds := Distinct(SenderIds(TopNewest(st1.docs, roomId, 50)));
      var base := EmployeeMessage(roomId, sender, content, now).(participantCountAtSend := |OthersActive(ps0, senderId)|);
      && !(invite && None in allUserIds)
      && room1 == st.rooms[roomId].(participants := if invite then Resurrected(ps, staff, RecipientIds(allUserIds, senderId), now) else ps,
                                    lastMessageContent := content, lastActivity := now)
      && message == (if invite then base.(inviteMessage := true) else base.(readBy := base.readBy + [senderId.value]))
      && SendDirectMessageSpec(st, staff, roomId, senderId, content, invite, now, formatDay) == PublishSpec(st1, staff, room1, message, content)
      && PublishSpec(st1, staff, room1, message, content).st.rooms[roomId] == room1
      && PublishSpec(st1, staff, room1, message, content).out.value == message.(id := PublishSpec(st1, staff, room1, message, content).out.value.id)
      && PublishSpec(st1, staff, room1, message, content).out.value in PublishSpec(st1, staff, room1, message, content).st.docs
  {
    var s := SendDirectMessageSpec(st, staff, roomId, senderId, content, invite, now, formatDay);
    assert roomId in st.rooms && !st.rooms[roomId].isGroupChat;
    var ps0 := st.rooms[roomId].participants;
    assert !HasUserlessActive(ps0);
    assert EmployeeOfUser(staff, senderId).Some?;
    var sender := EmployeeOfUser(staff, senderId).value;
    var ps := if HasActiveParticipant(ps0, senderId) then ps0 else Added(ps0, sender, true, now);
    var st1 := InsertDateSeparatorIfNeededSpec(st, roomId, now, formatDay);
    var allUserIds := Distinct(SenderIds(TopNewest(st1.docs, roomId, 50)));
    assert !(invite && None in allUserIds);
    var base := EmployeeMessage(roomId, sender, content, now).(participantCountAtSend := |OthersActive(ps0, senderId)|);
    var ps2 := if invite then Resurrected(ps, staff, RecipientIds(allUserIds, senderId), now) else ps;
    message := if invite then base.(inviteMessage := true) else base.(readBy := base.readBy + [senderId.value]);
    room1 := st.rooms[roomId].(participants := ps2, lastMessageContent := content, lastActivity := now);
    assert s == PublishSpec(st1, staff, room1, message, content);
    PublishOutcome(st1, staff, room1, message, content);
  }

  /** The invitation's resurrection keeps everyone who was active and
      leaves every earlier sender who has an employee active, the inviter
      included. */
  lemma InviteWakesEarlierSenders(ps: seq<Participant>, staff: seq<Employee>, earlier: seq<Message>,
                                  senderId: Option<string>, now: int)
    requires UniqueEmployees(ps) && AllConsistentAt(ps, now) && RecordsMatchStaff(ps, staff)
    requires HasActiveParticipant(ps, senderId) && None !in Distinct(SenderIds(earlier))
    ensures var r := Resurrected(ps, staff, RecipientIds(Distinct(SenderIds(earlier)), senderId), now);
      && (forall u :: HasActiveParticipant(ps, u) ==> HasActiveParticipant(r, u))
      && forall k :: 0 <= k < |earlier| && earlier[k].senderId.Some? && EmployeeByUserId(staff, earlier[k].senderId.value).Some? ==>
                    HasActiveParticipant(r, earlier[k].senderId)
  {
    var rids := RecipientIds(Distinct(SenderIds(earlier)), senderId);
    ResurrectedActivates(ps, staff, rids, now, now);
    var r := Resurrected(ps, staff, rids, now);
    forall k | 0 <= k < |earlier| && earlier[k].senderId.Some? && EmployeeByUserId(staff, earlier[k].senderId.value).Some?
      ensures HasActiveParticipant(r, earlier[k].senderId)
    {
      assert SenderIds(earlier)[k] == earlier[k].senderId;
      if earlier[k].senderId != senderId {
        assert earlier[k].senderId.value in rids;
      }
    }
  }

  // ---------------------------------------------------------------------
  // The date separator

  /** A room with fewer than two messages always gets a separator. */
  lemma FewMessagesNeedSeparator(docs: seq<Message>, roomId: int, now: int)
    requires |InRoom(docs, roomId)| < 2
    ensures NeedsSeparator(docs, roomId, now)
  {
    TopNewestProperties(docs, roomId, 2);
  }

  /** Appending a message of the room adds it to the room's messages. */
  lemma AppendedInNewestFirst(docs: seq<Message>, sep: Message, roomId: int)
    requires |InRoom(docs, roomId)| >= 1 && sep.roomId == roomId
    ensures |NewestFirst(docs + [sep], roomId)| >= 2 && sep in NewestFirst(docs + [sep], roomId)
  {
    var all := docs + [sep];
    FilterAppend(docs, [sep], (m: Message) => m.roomId == roomId);
    assert |InRoom(all, roomId)| == |InRoom(docs, roomId)| + |InRoom([sep], roomId)|;
    assert all[|docs|] == sep;
    assert sep in InRoom(all, roomId);
    assert |NewestFirst(all, roomId)| == |InRoom(all, roomId)|;
    NewestFirstProperties(all, roomId);
    assert sep in multiset(InRoom(all, roomId));
  }

  /** A message later than every message of its room, appended to a
      non-empty room, heads the room's newest-first order. */
  lemma AppendedHeadsNewestFirst(docs: seq<Message>, sep: Message, roomId: int)
    requires |InRoom(docs, roomId)| >= 1 && sep.roomId == roomId
    requires forall i :: 0 <= i < |docs| && docs[i].roomId == roomId ==> docs[i].timestamp < sep.timestamp
    ensures |NewestFirst(docs + [sep], roomId)| >= 2 && NewestFirst(docs + [sep], roomId)[0] == sep
  {
    var newest := NewestFirst(docs + [sep], roomId);
    AppendedInNewestFirst(docs, sep, roomId);
    NewestFirstProperties(docs + [sep], roomId);
    var j :| 0 <= j < |newest| && newest[j] == sep;
    var head := newest[0];
    assert head.timestamp >= sep.timestamp by {
      if j > 0 {
        assert newest[0].timestamp >= newest[j].timestamp;
      }
    }
    assert head in docs + [sep] && head.roomId == roomId;
  }

  /** The same message is then the newest of the two newest. */
  lemma AppendedIsNewest(docs: seq<Message>, sep: Message, roomId: int)
    requires |InRoom(docs, roomId)| >= 1 && sep.roomId == roomId
    requires forall i :: 0 <= i < |docs| && docs[i].roomId == roomId ==> docs[i].timestamp < sep.timestamp
    ensures |TopNewest(docs + [sep], roomId, 2)| == 2 && TopNewest(docs + [sep], roomId, 2)[0] == sep
  {
    AppendedHeadsNewestFirst(docs, sep, roomId);
  }

  /** Once the check has run for a non-empty room whose messages all
      precede `now`, running it again on the same day changes nothing: a
      room gets at most one separator per day. */
  lemma SeparatorOncePerDay(st: Store, roomId: int, now: int, later: int, formatDay: int -> string)
    requires |InRoom(st.docs, roomId)| >= 1
    requires forall i :: 0 <= i < |st.docs| && st.docs[i].roomId == roomId ==> st.docs[i].timestamp < now
    requires Day(later) == Day(now)
    ensures var st1 := InsertDateSeparatorIfNeededSpec(st, roomId, now, formatDay);
      InsertDateSeparatorIfNeededSpec(st1, roomId, later, formatDay) == st1
  {
    if NeedsSeparator(st.docs, roomId, now) {
      var sep := Separator(roomId, now, formatDay).(id := Some(|st.docs|));
      var docs1 := st.docs + [sep];
      assert SaveDoc(st.docs, Separator(roomId, now, formatDay)).0 == docs1;
      AppendedIsNewest(st.docs, sep, roomId);
      var lastTwo := TopNewest(docs1, roomId, 2);
      assert FirstIndex(lastTwo, (m: Message) => m.msgType == Chat) == Some(0);
      assert !NeedsSeparator(docs1, roomId, later);
    }
  }

  // ---------------------------------------------------------------------
  // Reading one message

  /** markMessagesAsRead fails only for an unknown message or, after the
      save, for a missing room or an active member without a user.  A message the user sent or already read
      is left alone; otherwise exactly that document gains the reader. */
  lemma MarkMessagesAsReadOutcome(st: Store, staff: seq<Employee>, id: MessageId, u: string)
    requires ValidDocs(st.docs)
    ensures var s := MarkMessagesAsReadSpec(st, staff, id, u);
      && (id >= |st.docs| ==> s == Step(st, Err(Runtime)))
      && (id < |st.docs| && (u in st.docs[id].readBy || st.docs[id].senderId == Some(u)) ==> s == Step(st, Ok(())))
      && (id < |st.docs| && u !in st.docs[id].readBy && st.docs[id].senderId != Some(u) ==>
            && s.st.docs == st.docs[id := st.docs[id].(readBy := st.docs[id].readBy + [u])]
            && s.st.rooms == st.rooms && s.st.files == st.files
            && (s.out.Ok? <==> st.docs[id].roomId in st.rooms && !HasUserlessActive(st.rooms[st.docs[id].roomId].participants))
            && (s.out.Err? ==> s.st.events == st.events
                               && s.out.error == if st.docs[id].roomId in st.rooms then NullPointer else NoSuchElement))
      && ValidDocs(s.st.docs) && s.st.rooms == st.rooms
  {
    FindDocInValid(st.docs, id);
    if id < |st.docs| {
      SaveDocInValid(st.docs, st.docs[id].(readBy := st.docs[id].readBy + [u]));
    }
  }

  /** Marking the same message twice does nothing the second time. */
  lemma MarkMessagesAsReadIdempotent(st: Store, staff: seq<Employee>, id: MessageId, u: string)
    requires ValidDocs(st.docs)
    ensures var s1 := MarkMessagesAsReadSpec(st, staff, id, u);
      MarkMessagesAsReadSpec(s1.st, staff, id, u) == Step(s1.st, if id < |st.docs| then Ok(()) else Err(Runtime))
  {
    MarkMessagesAsReadOutcome(st, staff, id, u);
    var s1 := MarkMessagesAsReadSpec(st, staff, id, u);
    MarkMessagesAsReadOutcome(s1.st, staff, id, u);
  }

  /** A first reading by someone other than the sender lowers the
      message's positive unread count by one. */
  lemma MarkMessagesAsReadLowersUnread(st: Store, staff: seq<Employee>, id: MessageId, u: string)
    requires ValidDocs(st.docs) && id < |st.docs|
    requires u !in st.docs[id].readBy && st.docs[id].senderId != Some(u) && UnreadCount(st.docs[id]) > 0
    ensures UnreadCount(MarkMessagesAsReadSpec(st, staff, id, u).st.docs[id]) == UnreadCount(st.docs[id]) - 1
  {
    MarkMessagesAsReadOutcome(st, staff, id, u);
    NewReaderDecrementsCount(st.docs[id], u);
  }

  // ---------------------------------------------------------------------
  // Creating, saving and deleting

  /** createChatRoom succeeds exactly when the creator has an employee; the
      new room takes the next id, is stored under it with the creator as
      its one active member and the creation notice as its preview. */
  lemma CreateChatRoomOutcome(st: Store, staff: seq<Employee>, name: Option<string>, creatorId: string,
                              isGroupChat: bool, now: int)
    requires Valid(st)
    ensures var s := CreateChatRoomSpec(st, staff, name, creatorId, isGroupChat, now);
      && (s.out.Ok? <==> EmployeeByUserId(staff, creatorId).Some?)
      && (s.out.Err? ==> s == Step(st, Err(Runtime)))
      && (s.out.Ok? ==>
            var room := s.out.value;
            && room.id == st.nextRoomId && room.id !in st.rooms
            && s.st.rooms == st.rooms[room.id := room] && s.st.nextRoomId == st.nextRoomId + 1
            && s.st.docs == st.docs && s.st.events == st.events
            && room.participants == [Joining(EmployeeByUserId(staff, creatorId).value, now)]
            && HasActiveParticipant(room.participants, Some(creatorId))
            && room.name == name && room.isGroupChat == isGroupChat && room.createdBy == Some(creatorId)
            && room.createdAt == now && room.lastMessageContent == Some(RoomCreatedLabel))
      && Valid(s.st)
  {
    match EmployeeByUserId(staff, creatorId)
    case None =>
    case Some(creator) =>
      assert Added([], creator, false, now) == [Joining(creator, now)];
      var room := CreateChatRoomSpec(st, staff, name, creatorId, isGroupChat, now).out.value;
      assert room.participants[0].active && room.participants[0].employee.user == Some(creatorId);
  }

  /** saveMessageEntity stores the message even when the room is missing,
      and otherwise gives the room its preview and activity time. */
  lemma SaveMessageEntityOutcome(st: Store, m: Message, now: int)
    ensures var s := SaveMessageEntitySpec(st, m, now);
      && s.st.docs == SaveDoc(st.docs, m).0 && s.st.events == st.events
      && (s.out.Ok? <==> m.roomId in st.rooms)
      && (s.out.Err? ==> s.out.error == Runtime && s.st.rooms == st.rooms)
      && (s.out.Ok? ==>
            && s.out.value in s.st.docs && s.out.value == m.(id := s.out.value.id)
            && s.st.rooms == st.rooms[m.roomId := st.rooms[m.roomId].(lastMessageContent := PreviewLabel(m), lastActivity := now)])
  {
  }

  /** A deleted message keeps its identity, sender, time and readers, shows
      the deletion notice, loses a non-empty attachment, and counts as
      unread for nobody; deleting again changes nothing more. */
  lemma DeletedProperties(m: Message, roomId: int, u: string, joinedAt: int)
    ensures var d := Deleted(m);
      && d.deleted && d.content == Some(DeletedContent)
      && d.id == m.id && d.roomId == m.roomId && d.senderId == m.senderId && d.timestamp == m.timestamp
      && d.readBy == m.readBy && d.participantCountAtSend == m.participantCountAtSend
      && (m.attachmentUrl.Some? && m.attachmentUrl.value != [] ==>
            d.attachmentUrl.None? && d.attachmentType.None? && d.attachmentName.None?)
      && (m.attachmentUrl.None? || m.attachmentUrl.value == [] ==>
            d.attachmentUrl == m.attachmentUrl && d.attachmentType == m.attachmentType && d.attachmentName == m.attachmentName)
      && !CountsAfterJoin(d, roomId, u, joinedAt) && !CountsUnread(d, roomId, u)
      && Deleted(d) == d
  {
  }

  /** deleteMessage: an unknown message, a null sender and a requester who
      is not the sender each fail with nothing changed.  The sender's
      request soft-deletes exactly that document, removes its attachment
      file, and publishes the deleted message. */
  lemma DeleteMessageOutcome(st: Store, id: MessageId, requester: string)
    requires ValidDocs(st.docs)
    ensures var s := DeleteMessageSpec(st, id, requester);
      && (id >= |st.docs| ==> s == Step(st, Err(Runtime)))
      && (id < |st.docs| && st.docs[id].senderId.None? ==> s == Step(st, Err(NullPointer)))
      && (id < |st.docs| && st.docs[id].senderId.Some? && st.docs[id].senderId != Some(requester) ==>
            s == Step(st, Err(AccessDenied)))
      && (s.out.Ok? <==> id < |st.docs| && st.docs[id].senderId == Some(requester))
      && (s.out.Ok? ==>
            var m := st.docs[id];
            && s.st.docs == st.docs[id := Deleted(m)] && ValidDocs(s.st.docs)
            && s.st.rooms == st.rooms
            && s.st.events == st.events + [MessageFrame(m.roomId, Of(Deleted(m)))]
            && (m.attachmentUrl.Some? && m.attachmentUrl.value != [] ==> s.st.files == st.files - {DeleteName(m.attachmentUrl.value)})
            && (m.attachmentUrl.None? || m.attachmentUrl.value == [] ==> s.st.files == st.files))
  {
    FindDocInValid(st.docs, id);
    if id < |st.docs| {
      SaveDocInValid(st.docs, Deleted(st.docs[id]));
    }
  }

  // ---------------------------------------------------------------------
  // Reading many messages

  predicate Includes(a: seq<string>, b: seq<string>)
  {
    forall x :: x in a ==> x in b
  }

  /** `after` is `before` with readers added and nothing else changed. */
  predicate ReadersGrew(before: seq<Message>, after: seq<Message>)
  {
    && |before| == |after|
    && forall k :: 0 <= k < |before| ==>
         after[k] == before[k].(readBy := after[k].readBy) && Includes(before[k].readBy, after[k].readBy)
  }

  lemma ReadersGrewReflexive(a: seq<Message>)
    ensures ReadersGrew(a, a)
  {
  }

  lemma ReadersGrewTransitive(a: seq<Message>, b: seq<Message>, c: seq<Message>)
    requires ReadersGrew(a, b) && ReadersGrew(b, c)
    ensures ReadersGrew(a, c)
  {
    forall k | 0 <= k < |a| ensures c[k] == a[k].(readBy := c[k].readBy) && Includes(a[k].readBy, c[k].readBy) {
      assert Includes(a[k].readBy, b[k].readBy) && Includes(b[k].readBy, c[k].readBy);
    }
  }

  /** Messages fetched from `docs`: each names a stored position holding the
      same room and sender and at least the same readers. */
  predicate Snapshot(msgs: seq<Message>, docs: seq<Message>)
  {
    forall j :: 0 <= j < |msgs| ==>
      && msgs[j].id.Some? && msgs[j].id.value < |docs|
      && docs[msgs[j].id.value].senderId == msgs[j].senderId
      && docs[msgs[j].id.value].roomId == msgs[j].roomId
      && Includes(msgs[j].readBy, docs[msgs[j].id.value].readBy)
  }

  lemma SnapshotAfterGrowth(msgs: seq<Message>, a: seq<Message>, b: seq<Message>)
    requires Snapshot(msgs, a) && ReadersGrew(a, b)
    ensures Snapshot(msgs, b)
  {
    forall j | 0 <= j < |msgs| ensures Includes(msgs[j].readBy, b[msgs[j].id.value].readBy) {
      var k := msgs[j].id.value;
      assert Includes(msgs[j].readBy, a[k].readBy) && Includes(a[k].readBy, b[k].readBy);
    }
  }

  /** Whatever it does, markMessagesAsRead only adds readers, and a message
      the user did not send ends up read by the user. */
  lemma MarkMessagesAsReadGrows(st: Store, staff: seq<Employee>, id: MessageId, u: string)
    requires ValidDocs(st.docs)
    ensures var s := MarkMessagesAsReadSpec(st, staff, id, u);
      && ReadersGrew(st.docs, s.st.docs) && s.st.files == st.files
      && (id < |st.docs| && st.docs[id].senderId != Some(u) ==> u in s.st.docs[id].readBy)
  {
    var s := MarkMessagesAsReadSpec(st, staff, id, u);
    MarkMessagesAsReadOutcome(st, staff, id, u);
    if id < |st.docs| && u !in st.docs[id].readBy && st.docs[id].senderId != Some(u) {
      var marked := st.docs[id := st.docs[id].(readBy := st.docs[id].readBy + [u])];
      assert s.st.docs == marked;
      forall k | 0 <= k < |st.docs|
        ensures marked[k] == st.docs[k].(readBy := marked[k].readBy) && Includes(st.docs[k].readBy, marked[k].readBy)
      {
      }
      assert u in marked[id].readBy;
    } else {
      ReadersGrewReflexive(st.docs);
    }
  }

  /** getMessages' walk only adds readers and never touches the rooms or
      the files, whatever happens. */
  lemma {:induction false} MarkEachGrows(st: Store, staff: seq<Employee>, msgs: seq<Message>, u: string)
    requires ValidDocs(st.docs)
    ensures ReadersGrew(st.docs, MarkEach(st, staff, msgs, u).st.docs)
    ensures MarkEach(st, staff, msgs, u).st.rooms == st.rooms
    ensures MarkEach(st, staff, msgs, u).st.files == st.files
    decreases |msgs|
  {
    if msgs == [] {
      ReadersGrewReflexive(st.docs);
    } else {
      var m := msgs[0];
      if Some(u) != m.senderId && u !in m.readBy {
        if m.id.None? {
          ReadersGrewReflexive(st.docs);
        } else {
          var s1 := MarkMessagesAsReadSpec(st, staff, m.id.value, u);
          MarkMessagesAsReadGrows(st, staff, m.id.value, u);
          MarkMessagesAsReadOutcome(st, staff, m.id.value, u);
          if s1.out.Ok? {
            MarkEachGrows(s1.st, staff, msgs[1..], u);
            ReadersGrewTransitive(st.docs, s1.st.docs, MarkEach(st, staff, msgs, u).st.docs);
          }
        }
      } else {
        MarkEachGrows(st, staff, msgs[1..], u);
      }
    }
  }

  /** The walk over a snapshot succeeds when every message's room exists. */
  lemma {:induction false} MarkEachSucceeds(st: Store, staff: seq<Employee>, msgs: seq<Message>, u: string)
    requires ValidDocs(st.docs) && Snapshot(msgs, st.docs)
    requires forall j :: 0 <= j < |msgs| ==> msgs[j].roomId in st.rooms && !HasUserlessActive(st.rooms[msgs[j].roomId].participants)
    ensures MarkEach(st, staff, msgs, u).out.Ok?
    decreases |msgs|
  {
    if msgs != [] {
      var m := msgs[0];
      var rest := msgs[1..];
      assert Snapshot(rest, st.docs);
      assert forall j :: 0 <= j < |rest| ==> rest[j].roomId in st.rooms && !HasUserlessActive(st.rooms[rest[j].roomId].participants) by {
        forall j | 0 <= j < |rest| ensures rest[j].roomId in st.rooms && !HasUserlessActive(st.rooms[rest[j].roomId].participants) {
          assert rest[j] == msgs[j + 1];
        }
      }
      if Some(u) != m.senderId && u !in m.readBy {
        var k := m.id.value;
        var s1 := MarkMessagesAsReadSpec(st, staff, k, u);
        MarkMessagesAsReadGrows(st, staff, k, u);
        MarkMessagesAsReadOutcome(st, staff, k, u);
        SnapshotAfterGrowth(rest, st.docs, s1.st.docs);
        MarkEachSucceeds(s1.st, staff, rest, u);
      } else {
        MarkEachSucceeds(st, staff, rest, u);
      }
    }
  }

  /** When the walk over a snapshot succeeds, every message of it the user
      did not send is read by the user. */
  lemma {:induction false} MarkEachReads(st: Store, staff: seq<Employee>, msgs: seq<Message>, u: string)
    requires ValidDocs(st.docs) && Snapshot(msgs, st.docs)
    requires MarkEach(st, staff, msgs, u).out.Ok?
    ensures forall j :: 0 <= j < |msgs| && msgs[j].senderId != Some(u) ==>
              msgs[j].id.value < |MarkEach(st, staff, msgs, u).st.docs|
              && u in MarkEach(st, staff, msgs, u).st.docs[msgs[j].id.value].readBy
    decreases |msgs|
  {
    if msgs != [] {
      var m := msgs[0];
      var k := m.id.value;
      var rest := msgs[1..];
      assert Snapshot(rest, st.docs);
      var s := MarkEach(st, staff, msgs, u);
      if Some(u) != m.senderId && u !in m.readBy {
        var s1 := MarkMessagesAsReadSpec(st, staff, k, u);
        MarkMessagesAsReadGrows(st, staff, k, u);
        MarkMessagesAsReadOutcome(st, staff, k, u);
        SnapshotAfterGrowth(rest, st.docs, s1.st.docs);
        MarkEachReads(s1.st, staff, rest, u);
        MarkEachGrows(s1.st, staff, rest, u);
        assert Includes(s1.st.docs[k].readBy, s.st.docs[k].readBy);
        forall j | 0 <= j < |msgs| && msgs[j].senderId != Some(u)
          ensures msgs[j].id.value < |s.st.docs| && u in s.st.docs[msgs[j].id.value].readBy
        {
          if j > 0 {
            assert msgs[j] == rest[j - 1];
          }
        }
      } else {
        MarkEachReads(st, staff, rest, u);
        MarkEachGrows(st, staff, rest, u);
        forall j | 0 <= j < |msgs| && msgs[j].senderId != Some(u)
          ensures msgs[j].id.value < |s.st.docs| && u in s.st.docs[msgs[j].id.value].readBy
        {
          if j > 0 {
            assert msgs[j] == rest[j - 1];
          } else {
            assert u in m.readBy;
            assert Includes(m.readBy, st.docs[k].readBy);
            assert Includes(st.docs[k].readBy, s.st.docs[k].readBy);
          }
        }
      }
    }
  }

  /** Filtering keeps a sorted sequence sorted. */
  lemma FilterSorted<T>(s: seq<T>, p: T -> bool, key: T -> int)
    requires SortedBy(s, key)
    ensures SortedBy(Filter(s, p), key)
  {
    FilterPairwise(s, p, (a: T, b: T) => key(a) <= key(b));
  }

  /** The fetch window holds exactly the room's stored messages after the
      cutoff, oldest first. */
  lemma WindowProperties(docs: seq<Message>, roomId: int, cutoff: int)
    ensures var w := Window(docs, roomId, cutoff);
      && (forall i :: 0 <= i < |w| ==> w[i] in docs && w[i].roomId == roomId && w[i].timestamp > cutoff)
      && (forall i, j :: 0 <= i < j < |w| ==> w[i].timestamp <= w[j].timestamp)
      && (forall k :: 0 <= k < |docs| && docs[k].roomId == roomId && docs[k].timestamp > cutoff ==> docs[k] in w)
  {
    var oldest := OldestFirst(docs, roomId);
    OldestFirstProperties(docs, roomId);
    assert SortedBy(oldest, Timestamp);
    FilterSorted(oldest, (m: Message) => m.timestamp > cutoff, Timestamp);
    forall k | 0 <= k < |docs| && docs[k].roomId == roomId && docs[k].timestamp > cutoff
      ensures docs[k] in Window(docs, roomId, cutoff)
    {
      assert docs[k] in multiset(InRoom(docs, roomId));
      assert docs[k] in oldest;
    }
  }

  /** A page holds the `size` (or fewer) consecutive window entries from
      `offset`, and reports the window's size as its total. */
  lemma SliceProperties(filtered: seq<Message>, offset: nat, size: nat)
    ensures var page := Slice(filtered, offset, size);
      && page.total == |filtered|
      && |page.content| == (if offset >= |filtered| then 0 else Min(size, |filtered| - offset))
      && (forall i :: 0 <= i < |page.content| ==> page.content[i] == filtered[offset + i])
  {
  }

  /** Every message of the room after `cutoff` that `u` did not send is read
      by `u` in `after`. */
  predicate ReadAfter(docs: seq<Message>, after: seq<Message>, roomId: int, cutoff: int, u: string)
  {
    forall k :: 0 <= k < |docs| && docs[k].roomId == roomId && docs[k].timestamp > cutoff && docs[k].senderId != Some(u) ==>
      k < |after| && u in after[k].readBy
  }

  /** The fetch window of a valid collection is a snapshot of it. */
  lemma WindowIsSnapshot(docs: seq<Message>, roomId: int, cutoff: int)
    requires ValidDocs(docs)
    ensures Snapshot(Window(docs, roomId, cutoff), docs)
  {
    var w := Window(docs, roomId, cutoff);
    WindowProperties(docs, roomId, cutoff);
    forall x | 0 <= x < |w| ensures w[x].id.Some? && w[x].id.value < |docs| && docs[w[x].id.value] == w[x] {
      var k :| 0 <= k < |docs| && docs[k] == w[x];
    }
  }

  /** Marking a window marks every message after its cutoff. */
  lemma MarkWindow(st: Store, staff: seq<Employee>, roomId: int, cutoff: int, u: string)
    requires ValidDocs(st.docs)
    ensures var s := MarkEach(st, staff, Window(st.docs, roomId, cutoff), u);
      && ReadersGrew(st.docs, s.st.docs) && s.st.rooms == st.rooms && s.st.files == st.files
      && (roomId in st.rooms && !HasUserlessActive(st.rooms[roomId].participants) ==> s.out.Ok?)
      && (s.out.Ok? ==> ReadAfter(st.docs, s.st.docs, roomId, cutoff, u))
  {
    var w := Window(st.docs, roomId, cutoff);
    WindowProperties(st.docs, roomId, cutoff);
    WindowIsSnapshot(st.docs, roomId, cutoff);
    MarkEachGrows(st, staff, w, u);
    if roomId in st.rooms && !HasUserlessActive(st.rooms[roomId].participants) {
      MarkEachSucceeds(st, staff, w, u);
    }
    var s := MarkEach(st, staff, w, u);
    if s.out.Ok? {
      MarkEachReads(st, staff, w, u);
      forall k | 0 <= k < |st.docs| && st.docs[k].roomId == roomId && st.docs[k].timestamp > cutoff && st.docs[k].senderId != Some(u)
        ensures k < |s.st.docs| && u in s.st.docs[k].readBy
      {
        var x :| 0 <= x < |w| && w[x] == st.docs[k];
      }
    }
  }

  /** getMessages: a missing room fails and a caller who is not active gets
      the empty page, both with nothing changed. */
  lemma GetMessagesTrivialCases(st: Store, staff: seq<Employee>, roomId: int, offset: nat, size: nat, u: string)
    ensures roomId !in st.rooms ==> GetMessagesSpec(st, staff, roomId, offset, size, u) == Step(st, Err(Runtime))
    ensures roomId in st.rooms && !HasActiveParticipant(st.rooms[roomId].participants, Some(u)) ==>
              GetMessagesSpec(st, staff, roomId, offset, size, u) == Step(st, Ok(Page([], 0)))
  {
  }

  /** In every case getMessages only adds readers. */
  lemma GetMessagesOnlyAddsReaders(st: Store, staff: seq<Employee>, roomId: int, offset: nat, size: nat, u: string)
    requires ValidDocs(st.docs)
    ensures var s := GetMessagesSpec(st, staff, roomId, offset, size, u);
      s.st.rooms == st.rooms && s.st.files == st.files && ReadersGrew(st.docs, s.st.docs)
  {
    ReadersGrewReflexive(st.docs);
    if roomId in st.rooms && HasActiveParticipant(st.rooms[roomId].participants, Some(u)) {
      var ps := st.rooms[roomId].participants;
      var first := FirstRecordOfUser(ps, u);
      if first.Ok? && first.value.Some? {
        MarkWindow(st, staff, roomId, Cutoff(ps[first.value.value], st.rooms[roomId].createdAt), u);
      }
    }
  }

  /** getUserIdByIdentifier behind getUnreadCount: a numeric user id is
      taken as the employee id itself; any other id resolves to the id of
      the user's employee, or to 0 when no employee has that user. */
  lemma EmployeeIdForCases(staff: seq<Employee>, u: string)
    ensures ParseLong(Some(u)).Some? ==> EmployeeIdFor(staff, u) == ParseLong(Some(u)).value
    ensures ParseLong(Some(u)).None? && EmployeeByUserId(staff, u).Some? ==>
              EmployeeIdFor(staff, u) == EmployeeByUserId(staff, u).value.id
              && EmployeeByUserId(staff, u).value.user == Some(u)
    ensures ParseLong(Some(u)).None? && EmployeeByUserId(staff, u).None? ==>
              EmployeeIdFor(staff, u) == 0 && forall k :: 0 <= k < |staff| ==> staff[k].user != Some(u)
  {
  }

  /** getUnreadCount: with no record for the resolved employee id in the
      room (or no such room) the count is 0; otherwise it is the after-join
      count from the first such record's joinedAt, whether or not that
      record ever left and whenever the room was created. */
  lemma GetUnreadCountCases(st: Store, staff: seq<Employee>, roomId: int, u: string)
    ensures var eid := EmployeeIdFor(staff, u);
      (roomId !in st.rooms ||
       forall k :: 0 <= k < |st.rooms[roomId].participants| ==> st.rooms[roomId].participants[k].employee.id != eid)
      ==> GetUnreadCount(st, staff, roomId, u) == 0
    ensures var eid := EmployeeIdFor(staff, u);
      forall k :: roomId in st.rooms && 0 <= k < |st.rooms[roomId].participants|
                  && st.rooms[roomId].participants[k].employee.id == eid
                  && (forall j :: 0 <= j < k ==> st.rooms[roomId].participants[j].employee.id != eid) ==>
        GetUnreadCount(st, staff, roomId, u) == CountUnreadAfterJoin(st.docs, roomId, u, st.rooms[roomId].participants[k].joinedAt)
  {
    var eid := EmployeeIdFor(staff, u);
    if roomId in st.rooms {
      var ps := st.rooms[roomId].participants;
      forall k | 0 <= k < |ps| && ps[k].employee.id == eid && (forall j :: 0 <= j < k ==> ps[j].employee.id != eid)
        ensures GetUnreadCount(st, staff, roomId, u) == CountUnreadAfterJoin(st.docs, roomId, u, ps[k].joinedAt)
      {
        assert RecordOf(ps, eid) == Some(k);
      }
    }
  }

  /** For an active caller whose room's records all hold a user,
      getMessages succeeds.  A success reads the caller's first record:
      a caller who never left, or whose join predates the room, gets the
      page of the room's messages after the room's creation; one who left
      and joined since gets the page of those after the join.  Afterwards
      every message after that cutoff the caller did not send is read by
      the caller. */
  lemma GetMessagesOutcome(st: Store, staff: seq<Employee>, roomId: int, offset: nat, size: nat, u: string)
    requires ValidDocs(st.docs) && roomId in st.rooms
    requires HasActiveParticipant(st.rooms[roomId].participants, Some(u))
    ensures var s := GetMessagesSpec(st, staff, roomId, offset, size, u);
      && ((forall i :: 0 <= i < |st.rooms[roomId].participants| ==> st.rooms[roomId].participants[i].employee.user.Some?) ==> s.out.Ok?)
      && (s.out.Ok? ==>
            var ps := st.rooms[roomId].participants;
            var createdAt := st.rooms[roomId].createdAt;
            && FirstRecordOfUser(ps, u).Ok? && FirstRecordOfUser(ps, u).value.Some?
            && var p := ps[FirstRecordOfUser(ps, u).value.value];
            && p.employee.user == Some(u)
            && (p.lastLeftAt.None? || p.joinedAt < createdAt ==>
                  && s.out.value == Slice(Window(st.docs, roomId, createdAt), offset, size)
                  && ReadAfter(st.docs, s.st.docs, roomId, createdAt, u))
            && (p.lastLeftAt.Some? && p.joinedAt >= createdAt ==>
                  && s.out.value == Slice(Window(st.docs, roomId, p.joinedAt), offset, size)
                  && ReadAfter(st.docs, s.st.docs, roomId, p.joinedAt, u)))
  {
    var s := GetMessagesSpec(st, staff, roomId, offset, size, u);
    var room := st.rooms[roomId];
    var ps := room.participants;
    var j :| 0 <= j < |ps| && ps[j].active && ps[j].employee.user == Some(u);
    match FirstRecordOfUser(ps, u)
    case Err(e) =>
      assert s == Step(st, Err(e));
    case Ok(None) =>
      assert false;
    case Ok(Some(i)) =>
      var c := Cutoff(ps[i], room.createdAt);
      MarkWindow(st, staff, roomId, c, u);
      var marked := MarkEach(st, staff, Window(st.docs, roomId, c), u);
      if marked.out.Ok? {
        assert s == Step(marked.st, Ok(Slice(Window(st.docs, roomId, c), offset, size)));
      } else if forall k :: 0 <= k < |ps| ==> ps[k].employee.user.Some? {
        AllUsersNoUserless(ps);
      }
  }

  /** Records that all have a user hold no active member without one. */
  lemma AllUsersNoUserless(ps: seq<Participant>)
    requires forall k :: 0 <= k < |ps| ==> ps[k].employee.user.Some?
    ensures !HasUserlessActive(ps)
  {
    forall e | e in ActiveParticipants(ps) ensures e.user.Some? {
      var k :| 0 <= k < |ps| && ps[k].active && ps[k].employee == e;
    }
  }

  // ---------------------------------------------------------------------
  // Marking a whole room

  function IdOf(m: Message): int
  {
    if m.id.Some? then m.id.value else -1
  }

  /** The positions a list of fetched messages names. */
  function Ids(msgs: seq<Message>): set<int>
  {
    set j | 0 <= j < |msgs| :: IdOf(msgs[j])
  }

  /** Messages fetched from `docs` in storage order: each is the document
      stored at its id, and the ids ascend. */
  predicate StoredAscending(msgs: seq<Message>, docs: seq<Message>)
  {
    && (forall j :: 0 <= j < |msgs| ==> msgs[j].id.Some? && msgs[j].id.value < |docs| && docs[msgs[j].id.value] == msgs[j])
    && (forall i, j :: 0 <= i < j < |msgs| ==> IdOf(msgs[i]) < IdOf(msgs[j]))
  }

  lemma FilterStoredAscending(s: seq<Message>, p: Message -> bool, docs: seq<Message>)
    requires StoredAscending(s, docs)
    ensures StoredAscending(Filter(s, p), docs)
  {
    FilterPairwise(s, p, (a: Message, b: Message) => IdOf(a) < IdOf(b));
  }

  /** In a valid collection the unread messages of a room are stored in
      ascending id order. */
  lemma UnreadStoredAscending(docs: seq<Message>, roomId: int, u: string)
    requires ValidDocs(docs)
    ensures StoredAscending(FindUnreadInRoom(docs, roomId, u), docs)
  {
    assert StoredAscending(docs, docs);
    FilterStoredAscending(docs, (m: Message) => UnreadByUser(m, {roomId}, u), docs);
  }

  /** One pass of markAllMessagesAsRead's loop adds the reader to exactly
      the stored document. */
  lemma MarkOneEffect(st: Store, m: Message, roomId: int, u: string)
    requires ValidDocs(st.docs) && m.id.Some? && m.id.value < |st.docs| && st.docs[m.id.value] == m
    ensures var st1 := MarkOne(st, m, roomId, u);
      && st1.docs == st.docs[m.id.value := m.(readBy := WithReader(m.readBy, u))]
      && ValidDocs(st1.docs) && st1.rooms == st.rooms && st1.files == st.files
  {
    if u !in m.readBy {
      SaveDocInValid(st.docs, m.(readBy := m.readBy + [u]));
    } else {
      assert st.docs[m.id.value := m] == st.docs;
    }
  }

  /** The first message's id is not among the rest, and the ids are its
      id added to theirs. */
  lemma IdsOfCons(msgs: seq<Message>, docs: seq<Message>)
    requires StoredAscending(msgs, docs) && msgs != []
    ensures Ids(msgs) == {IdOf(msgs[0])} + Ids(msgs[1..])
    ensures IdOf(msgs[0]) !in Ids(msgs[1..])
  {
    var rest := msgs[1..];
    forall j | 0 <= j < |rest| ensures IdOf(rest[j]) != IdOf(msgs[0]) {
      assert rest[j] == msgs[j + 1];
    }
    forall x | x in Ids(msgs) ensures x in {IdOf(msgs[0])} + Ids(rest) {
      var j :| 0 <= j < |msgs| && IdOf(msgs[j]) == x;
      if j > 0 {
        assert msgs[j] == rest[j - 1];
      }
    }
    forall x | x in Ids(rest) ensures x in Ids(msgs) {
      var j :| 0 <= j < |rest| && IdOf(rest[j]) == x;
      assert rest[j] == msgs[j + 1];
    }
  }

  /** Rewriting the first message's document keeps the rest stored. */
  lemma StoredAscendingTail(msgs: seq<Message>, docs: seq<Message>, x: Message)
    requires StoredAscending(msgs, docs) && msgs != []
    ensures StoredAscending(msgs[1..], docs[msgs[0].id.value := x])
  {
    var rest := msgs[1..];
    var docs1 := docs[msgs[0].id.value := x];
    forall j | 0 <= j < |rest| ensures rest[j].id.Some? && rest[j].id.value < |docs1| && docs1[rest[j].id.value] == rest[j] {
      assert rest[j] == msgs[j + 1];
      assert IdOf(msgs[0]) < IdOf(msgs[j + 1]);
    }
    forall i, j | 0 <= i < j < |rest| ensures IdOf(rest[i]) < IdOf(rest[j]) {
      assert rest[i] == msgs[i + 1] && rest[j] == msgs[j + 1];
    }
  }

  /** markAllMessagesAsRead's loop adds the reader to exactly the documents
      it was given. */
  lemma {:induction false} MarkAllEffect(st: Store, msgs: seq<Message>, roomId: int, u: string)
    requires ValidDocs(st.docs) && StoredAscending(msgs, st.docs)
    ensures var st1 := MarkAll(st, msgs, roomId, u);
      && |st1.docs| == |st.docs| && ValidDocs(st1.docs) && st1.rooms == st.rooms && st1.files == st.files
      && forall k :: 0 <= k < |st.docs| ==>
           st1.docs[k] == if k in Ids(msgs) then st.docs[k].(readBy := WithReader(st.docs[k].readBy, u)) else st.docs[k]
    decreases |msgs|
  {
    if msgs != [] {
      var m := msgs[0];
      MarkOneEffect(st, m, roomId, u);
      StoredAscendingTail(msgs, st.docs, m.(readBy := WithReader(m.readBy, u)));
      MarkAllEffect(MarkOne(st, m, roomId, u), msgs[1..], roomId, u);
      IdsOfCons(msgs, st.docs);
    }
  }

  /** A filter that matches nothing yields nothing. */
  lemma {:induction false} FilterNone<T>(s: seq<T>, p: T -> bool)
    requires forall i :: 0 <= i < |s| ==> !p(s[i])
    ensures Filter(s, p) == []
  {
    if s != [] {
      FilterNone(s[1..], p);
    }
  }

  /** Nothing unread by `u` is left in the room. */
  predicate NoneUnread(docs: seq<Message>, roomId: int, u: string)
  {
    forall k :: 0 <= k < |docs| ==> !UnreadByUser(docs[k], {roomId}, u)
  }

  /** With nothing unread left, neither finder returns anything and the
      after-join count is zero from any join time. */
  lemma NoneUnreadCounts(docs: seq<Message>, roomId: int, u: string, joinedAt: int)
    requires NoneUnread(docs, roomId, u)
    ensures FindUnreadInRoom(docs, roomId, u) == []
    ensures CountUnreadAfterJoin(docs, roomId, u, joinedAt) == 0
  {
    FilterNone(docs, (m: Message) => UnreadByUser(m, {roomId}, u));
    FilterNone(docs, (m: Message) => CountsAfterJoin(m, roomId, u, joinedAt));
  }

  /** The ids of a room's unread messages are the positions of the
      documents that match the finder. */
  lemma UnreadIds(docs: seq<Message>, roomId: int, u: string)
    requires ValidDocs(docs)
    ensures forall k :: 0 <= k < |docs| ==> (k in Ids(FindUnreadInRoom(docs, roomId, u)) <==> UnreadByUser(docs[k], {roomId}, u))
  {
    var unread := FindUnreadInRoom(docs, roomId, u);
    forall k | 0 <= k < |docs| ensures k in Ids(unread) <==> UnreadByUser(docs[k], {roomId}, u) {
      if k in Ids(unread) {
        var j :| 0 <= j < |unread| && IdOf(unread[j]) == k;
        var i :| 0 <= i < |docs| && docs[i] == unread[j];
      }
      if UnreadByUser(docs[k], {roomId}, u) {
        assert docs[k] in unread;
        var j :| 0 <= j < |unread| && unread[j] == docs[k];
        assert IdOf(unread[j]) == k;
      }
    }
  }

  /** The loop of markAllMessagesAsRead over the room's unread messages adds
      the user to exactly those, leaving nothing unread by the user. */
  lemma MarkUnreadEffect(st: Store, roomId: int, u: string)
    requires ValidDocs(st.docs)
    ensures var st1 := MarkAll(st, FindUnreadInRoom(st.docs, roomId, u), roomId, u);
      && st1.rooms == st.rooms && st1.files == st.files && ValidDocs(st1.docs) && |st1.docs| == |st.docs|
      && (forall k :: 0 <= k < |st.docs| ==>
            st1.docs[k] == if UnreadByUser(st.docs[k], {roomId}, u) then st.docs[k].(readBy := st.docs[k].readBy + [u]) else st.docs[k])
      && NoneUnread(st1.docs, roomId, u)
  {
    var unread := FindUnreadInRoom(st.docs, roomId, u);
    UnreadStoredAscending(st.docs, roomId, u);
    MarkAllEffect(st, unread, roomId, u);
    UnreadIds(st.docs, roomId, u);
  }

  /** markAllMessagesAsRead of a null user does nothing and returns the
      empty list. */
  lemma MarkAllMessagesAsReadNull(st: Store, staff: seq<Employee>, roomId: int)
    ensures MarkAllMessagesAsReadSpec(st, staff, roomId, None) == Step(st, Ok([]))
  {
  }

  /** markAllMessagesAsRead adds the user to exactly the room's messages the
      user had not read, leaving no unread message there; rooms and files
      stay as they were. */
  lemma MarkAllMessagesAsReadDocs(st: Store, staff: seq<Employee>, roomId: int, u: string)
    requires ValidDocs(st.docs)
    ensures var s := MarkAllMessagesAsReadSpec(st, staff, roomId, Some(u));
      && s.st.rooms == st.rooms && s.st.files == st.files && ValidDocs(s.st.docs) && |s.st.docs| == |st.docs|
      && (forall k :: 0 <= k < |st.docs| ==>
            s.st.docs[k] == if UnreadByUser(st.docs[k], {roomId}, u) then st.docs[k].(readBy := st.docs[k].readBy + [u]) else st.docs[k])
      && NoneUnread(s.st.docs, roomId, u)
  {
    MarkUnreadEffect(st, roomId, u);
  }

  /** Afterwards the user's unread count in the room is zero. */
  lemma MarkAllMessagesAsReadClearsCount(st: Store, staff: seq<Employee>, roomId: int, u: string)
    requires ValidDocs(st.docs)
    ensures GetUnreadCount(MarkAllMessagesAsReadSpec(st, staff, roomId, Some(u)).st, staff, roomId, u) == 0
  {
    var unread := FindUnreadInRoom(st.docs, roomId, u);
    MarkUnreadEffect(st, roomId, u);
    var st1 := MarkAll(st, unread, roomId, u);
    if roomId in st1.rooms {
      var ps := st1.rooms[roomId].participants;
      match RecordOf(ps, EmployeeIdFor(staff, u))
      case None =>
      case Some(i) => NoneUnreadCounts(st1.docs, roomId, u, ps[i].joinedAt);
    }
  }

  /** markAllMessagesAsRead succeeds exactly when the room exists and every
      active member has a user (else the count map fails), and then returns
      each formerly unread message of the room, now with the user among its
      readers. */
  lemma MarkAllMessagesAsReadResult(st: Store, staff: seq<Employee>, roomId: int, u: string)
    requires ValidDocs(st.docs)
    ensures var s := MarkAllMessagesAsReadSpec(st, staff, roomId, Some(u));
      && (s.out.Ok? <==> roomId in st.rooms && !HasUserlessActive(st.rooms[roomId].participants))
      && (roomId in st.rooms && HasUserlessActive(st.rooms[roomId].participants) ==> s.out == Err(NullPointer))
      && (s.out.Ok? ==>
            && |s.out.value| == |FindUnreadInRoom(st.docs, roomId, u)|
            && forall i :: 0 <= i < |s.out.value| ==> s.out.value[i].roomId == roomId && u in s.out.value[i].readBy)
  {
    var unread := FindUnreadInRoom(st.docs, roomId, u);
    MarkUnreadEffect(st, roomId, u);
    var returned := WithReaderAll(unread, u);
    forall i | 0 <= i < |returned| ensures returned[i].roomId == roomId && u in returned[i].readBy {
      WithReaderGrows(unread[i].readBy, u);
    }
  }

  // ---------------------------------------------------------------------
  // Validity of sendDirectMessage

  /** The invite loop keeps one record per employee. */
  lemma {:induction false} ResurrectedKeepsUnique(ps: seq<Participant>, staff: seq<Employee>, rids: seq<string>, now: int)
    requires UniqueEmployees(ps)
    ensures UniqueEmployees(Resurrected(ps, staff, rids, now))
    decreases |rids|
  {
    if rids != [] {
      var recipient := EmployeeByUserId(staff, rids[0]);
      var ps1 := if recipient.Some? && !HasActiveParticipant(ps, Some(rids[0])) then Added(ps, recipient.value, true, now) else ps;
      if recipient.Some? {
        AddedKeepsUnique(ps, recipient.value, true, now);
      }
      ResurrectedKeepsUnique(ps1, staff, rids[1..], now);
    }
  }

  /** sendDirectMessage keeps the stores valid. */
  lemma SendDirectMessageKeepsValid(st: Store, staff: seq<Employee>, roomId: int, senderId: Option<string>,
                                    content: Option<string>, invite: bool, now: int, formatDay: int -> string)
    requires Valid(st)
    ensures Valid(SendDirectMessageSpec(st, staff, roomId, senderId, content, invite, now, formatDay).st)
  {
    if roomId in st.rooms && !st.rooms[roomId].isGroupChat {
      InsertDateSeparatorKeepsValid(st, roomId, now, formatDay);
      var st1 := InsertDateSeparatorIfNeededSpec(st, roomId, now, formatDay);
      if !HasUserlessActive(st.rooms[roomId].participants) && EmployeeOfUser(staff, senderId).Some? {
        var sender := EmployeeOfUser(staff, senderId).value;
        var room := st.rooms[roomId];
        var ps := if HasActiveParticipant(room.participants, senderId) then room.participants
                  else Added(room.participants, sender, true, now);
        AddedKeepsUnique(room.participants, sender, true, now);
        var base := EmployeeMessage(roomId, sender, content, now).(participantCountAtSend := |OthersActive(room.participants, senderId)|);
        var allUserIds := Distinct(SenderIds(TopNewest(st1.docs, roomId, 50)));
        if !(invite && None in allUserIds) {
          var ps2 := if invite then Resurrected(ps, staff, RecipientIds(allUserIds, senderId), now) else ps;
          if invite {
            ResurrectedKeepsUnique(ps, staff, RecipientIds(allUserIds, senderId), now);
          }
          var message := if invite then base.(inviteMessage := true) else base.(readBy := base.readBy + [senderId.value]);
          PublishKeepsValid(st1, staff, room.(participants := ps2, lastMessageContent := content, lastActivity := now), message, content);
        }
      }
    }
  }
}
