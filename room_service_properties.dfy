// What the room service promises: failed lookups change nothing, the
// direct-room lookup is order-independent, reused rooms reactivate exactly
// the departed parties, group rooms hold exactly the listed employees, the
// main room never reactivates a member who left, and a room is deleted
// exactly when its last active member leaves.

module RoomServiceProperties {
  import opened Common
  import opened Directory
  import opened ChatRoomParticipants
  import opened ChatRooms
  import opened ChatRoomQueries
  import opened RoomService

  /** Every stored room's records fit a clock that has reached `now`. */
  predicate RoomsConsistentAt(t: Table, now: int)
  {
    forall id :: id in t.rooms ==> AllConsistentAt(t.rooms[id].participants, now)
  }

  // ---------------------------------------------------------------------
  // Direct rooms

  /** The swapped second lookup never changes the answer: the condition is
      symmetric in the two employees. */
  lemma FindDirectEitherOrderIsFirst(t: Table, employee1: int, employee2: int)
    ensures FindDirectEitherOrder(t, employee1, employee2)
            == FindDirectChatRoomByParticipantIds(t.rooms, t.nextId, employee1, employee2)
    ensures FindDirectEitherOrder(t, employee1, employee2) == FindDirectEitherOrder(t, employee2, employee1)
  {
    FindDirectChatRoomByParticipantIdsSymmetric(t.rooms, t.nextId, employee1, employee2);
  }

  /** A new direct room is created exactly when no stored room matches the
      two employees in either order. */
  lemma FindDirectNoneIffNoMatch(t: Table, employee1: int, employee2: int)
    requires ValidTable(t)
    ensures FindDirectEitherOrder(t, employee1, employee2) == Ok(None) <==>
            forall id :: id in t.rooms ==>
              !DirectMatch(t.rooms[id], employee1, employee2) && !DirectMatch(t.rooms[id], employee2, employee1)
  {
    FindDirectEitherOrderIsFirst(t, employee1, employee2);
    var p := (r: Room) => DirectMatch(r, employee1, employee2);
    forall id | id in t.rooms
      ensures DirectMatch(t.rooms[id], employee1, employee2) <==> DirectMatch(t.rooms[id], employee2, employee1)
    {
    }
    if FindDirectEitherOrder(t, employee1, employee2) == Ok(None) {
      forall id | id in t.rooms ensures !DirectMatch(t.rooms[id], employee1, employee2) {
        MatchingIdsExact(t.rooms, t.nextId, p, id);
      }
    } else {
      var ids := MatchingIds(t.rooms, t.nextId, p);
      assert p(t.rooms[ids[0]]);
    }
  }

  /** The records of a reused direct room: the record of either party that
      has left is rejoined now; every other record, including an active
      party's, is unchanged, and nothing is added. */
  lemma ReactivatedRecords(ps: seq<Participant>, e1: Employee, e2: Employee, now: int)
    requires UniqueEmployees(ps) && RecordOf(ps, e1.id).Some? && RecordOf(ps, e2.id).Some?
    ensures |Reactivated(ps, e1, e2, now)| == |ps|
    ensures UniqueEmployees(Reactivated(ps, e1, e2, now))
    ensures forall k :: 0 <= k < |ps| ==>
              Reactivated(ps, e1, e2, now)[k] ==
                if (ps[k].employee.id == e1.id || ps[k].employee.id == e2.id) && ps[k].lastLeftAt.Some? && !ps[k].active
                then Rejoined(ps[k], now) else ps[k]
  {
    var i1 := RecordOf(ps, e1.id).value;
    var i2 := RecordOf(ps, e2.id).value;
    HasParticipantLeftIffRecordLeft(ps, e1.id);
    HasParticipantLeftIffRecordLeft(ps, e2.id);
    var need1 := HasParticipantLeft(ps, e1.id);
    var need2 := HasParticipantLeft(ps, e2.id);
    var ps1 := Added(ps, e1, need1, now);
    AddedReusesRecord(ps, e1, need1, now, i1);
    AddedKeepsUnique(ps, e1, need1, now);
    assert ps1[i2].employee == ps[i2].employee;
    AddedReusesRecord(ps1, e2, need2, now, i2);
    AddedKeepsUnique(ps1, e2, need2, now);
    forall k | 0 <= k < |ps| && ps[k].employee.id == e1.id ensures k == i1 { }
    forall k | 0 <= k < |ps| && ps[k].employee.id == e2.id ensures k == i2 { }
  }

  /** With consistent records, both parties are active in a reused room. */
  lemma ReactivatedBothActive(ps: seq<Participant>, e1: Employee, e2: Employee, before: int, now: int)
    requires UniqueEmployees(ps) && RecordOf(ps, e1.id).Some? && RecordOf(ps, e2.id).Some?
    requires AllConsistentAt(ps, before)
    ensures forall k :: 0 <= k < |ps| && (ps[k].employee.id == e1.id || ps[k].employee.id == e2.id) ==>
              Reactivated(ps, e1, e2, now)[k].active
  {
    ReactivatedRecords(ps, e1, e2, now);
    forall k | 0 <= k < |ps| ensures ConsistentAt(ps[k], before) { }
  }

  /** A room the direct lookup matches holds a record for each party. */
  lemma DirectMatchRecords(r: Room, employee1: int, employee2: int)
    requires DirectMatch(r, employee1, employee2) || DirectMatch(r, employee2, employee1)
    ensures RecordOf(r.participants, employee1).Some? && RecordOf(r.participants, employee2).Some?
  {
    var i1 :| 0 <= i1 < |r.participants| && r.participants[i1].employee.id == employee1;
    var i2 :| 0 <= i2 < |r.participants| && r.participants[i2].employee.id == employee2;
  }

  /** A matching room is reused: it keeps its id and records, its departed
      parties rejoin, its activity is refreshed, and no room is created. */
  lemma DirectRoomReuses(t: Table, e1: Employee, e2: Employee, creatorId: Option<string>, now: int, id: int)
    requires ValidTable(t) && FindDirectEitherOrder(t, e1.id, e2.id) == Ok(Some(id))
    ensures DirectRoomFor(t, e1, e2, creatorId, now).out.Ok?
    ensures DirectRoomFor(t, e1, e2, creatorId, now).out.value
            == t.rooms[id].(participants := Reactivated(t.rooms[id].participants, e1, e2, now), lastActivity := now)
    ensures DirectRoomFor(t, e1, e2, creatorId, now).out.value.id == id
    ensures DirectRoomFor(t, e1, e2, creatorId, now).t
            == t.(rooms := t.rooms[id := DirectRoomFor(t, e1, e2, creatorId, now).out.value])
    ensures !DirectRoomFor(t, e1, e2, creatorId, now).out.value.isGroupChat
    ensures |DirectRoomFor(t, e1, e2, creatorId, now).out.value.participants| == 2
  {
  }

  /** With no matching room, a fresh "DirectChat" room holding exactly the two
      parties, both just joined, is stored under the next id. */
  lemma DirectRoomCreates(t: Table, e1: Employee, e2: Employee, creatorId: Option<string>, now: int)
    requires FindDirectEitherOrder(t, e1.id, e2.id) == Ok(None)
    ensures DirectRoomFor(t, e1, e2, creatorId, now).out.Ok?
    ensures DirectRoomFor(t, e1, e2, creatorId, now).out.value
            == Room(t.nextId, Some(DirectChatName), creatorId, now, now, false,
                    [Joining(e1, now)] + (if e2.id == e1.id then [] else [Joining(e2, now)]), None)
    ensures DirectRoomFor(t, e1, e2, creatorId, now).t
            == Table(t.rooms[t.nextId := DirectRoomFor(t, e1, e2, creatorId, now).out.value], t.nextId + 1)
  {
    var ps1 := Added([], e1, false, now);
    assert ps1 == [Joining(e1, now)];
    if e2.id == e1.id {
      AddedReusesRecord(ps1, e2, false, now, 0);
    }
  }

  /** getOrCreateDirectChatRoom fails with IllegalStateException exactly for
      a user without an account or an employee, and then the table is
      untouched; the only other failure is an ambiguous lookup. */
  lemma GetOrCreateDirectChatRoomFailures(t: Table, users: map<string, User>, staff: seq<Employee>,
                                          user1Id: string, user2Id: string, now: int)
    ensures GetOrCreateDirectChatRoomSpec(t, users, staff, user1Id, user2Id, now).out == Err(IllegalState) <==>
            user1Id !in users || user2Id !in users
            || EmployeeByUserId(staff, user1Id).None? || EmployeeByUserId(staff, user2Id).None?
    ensures GetOrCreateDirectChatRoomSpec(t, users, staff, user1Id, user2Id, now).out.Err? ==>
            GetOrCreateDirectChatRoomSpec(t, users, staff, user1Id, user2Id, now).t == t
    ensures GetOrCreateDirectChatRoomSpec(t, users, staff, user1Id, user2Id, now).out == Err(IncorrectResultSize) ==>
            FindDirectEitherOrder(t, EmployeeByUserId(staff, user1Id).value.id, EmployeeByUserId(staff, user2Id).value.id).Err?
  {
  }

  /** Both parties hold an active record in the room a direct lookup
      returns, whether it was reused or created. */
  lemma DirectRoomActivates(t: Table, e1: Employee, e2: Employee, creatorId: Option<string>, before: int, now: int)
    requires ValidTable(t) && RoomsConsistentAt(t, before)
    requires DirectRoomFor(t, e1, e2, creatorId, now).out.Ok?
    ensures !DirectRoomFor(t, e1, e2, creatorId, now).out.value.isGroupChat
    ensures DirectRoomFor(t, e1, e2, creatorId, now).out.value.lastActivity == now
    ensures DirectRoomFor(t, e1, e2, creatorId, now).out.value.id in DirectRoomFor(t, e1, e2, creatorId, now).t.rooms
    ensures ActiveEmployee(DirectRoomFor(t, e1, e2, creatorId, now).out.value, e1.id)
    ensures ActiveEmployee(DirectRoomFor(t, e1, e2, creatorId, now).out.value, e2.id)
  {
    var room := DirectRoomFor(t, e1, e2, creatorId, now).out.value;
    match FindDirectEitherOrder(t, e1.id, e2.id)
    case Ok(Some(id)) =>
      var ps := t.rooms[id].participants;
      DirectRoomReuses(t, e1, e2, creatorId, now, id);
      DirectMatchRecords(t.rooms[id], e1.id, e2.id);
      var i1 := RecordOf(ps, e1.id).value;
      var i2 := RecordOf(ps, e2.id).value;
      ReactivatedBothActive(ps, e1, e2, before, now);
      ReactivatedRecords(ps, e1, e2, now);
      assert room.participants[i1].employee.id == e1.id && room.participants[i1].active;
      assert room.participants[i2].employee.id == e2.id && room.participants[i2].active;
    case Ok(None) =>
      DirectRoomCreates(t, e1, e2, creatorId, now);
      assert room.participants[0].employee.id == e1.id;
      if e2.id != e1.id {
        assert room.participants[1].employee.id == e2.id;
      }
  }

  /** The by-employee variant answers BAD_REQUEST for an unknown employee and
      a null pointer failure for an employee without a user, both before any
      room is looked up; otherwise it does what the by-user variant does for
      the two employees. */
  lemma GetOrCreateDirectChatRoomByEmployeeIdCases(t: Table, staff: seq<Employee>,
                                                  employee1Id: int, employee2Id: int, now: int)
    ensures EmployeeById(staff, employee1Id).None? || EmployeeById(staff, employee2Id).None? ==>
            GetOrCreateDirectChatRoomByEmployeeIdSpec(t, staff, employee1Id, employee2Id, now)
            == TableStep(t, Err(ResponseStatus(BadRequest)))
    ensures EmployeeById(staff, employee1Id).Some? && EmployeeById(staff, employee2Id).Some?
            && (EmployeeById(staff, employee1Id).value.user.None? || EmployeeById(staff, employee2Id).value.user.None?) ==>
            GetOrCreateDirectChatRoomByEmployeeIdSpec(t, staff, employee1Id, employee2Id, now)
            == TableStep(t, Err(NullPointer))
    ensures GetOrCreateDirectChatRoomByEmployeeIdSpec(t, staff, employee1Id, employee2Id, now).out.Ok? ==>
            GetOrCreateDirectChatRoomByEmployeeIdSpec(t, staff, employee1Id, employee2Id, now)
            == DirectRoomFor(t, EmployeeById(staff, employee1Id).value, EmployeeById(staff, employee2Id).value,
                             EmployeeById(staff, employee1Id).value.user, now)
  {
  }

  // ---------------------------------------------------------------------
  // Group rooms

  lemma AddedEmployeeIds(ps: seq<Participant>, e: Employee, rejoin: bool, now: int)
    ensures EmployeeIds(Added(ps, e, rejoin, now)) == EmployeeIds(ps) + {e.id}
  {
    var r := Added(ps, e, rejoin, now);
    match RecordOf(ps, e.id)
    case Some(i) =>
      assert forall k :: 0 <= k < |r| ==> r[k].employee == ps[k].employee;
      assert ps[i].employee.id == e.id;
    case None =>
      assert r == ps + [Joining(e, now)];
      assert r[|ps|].employee.id == e.id;
      assert forall k :: 0 <= k < |ps| ==> r[k] == ps[k];
  }

  lemma ParsedIdsCons(ids: seq<string>)
    requires ids != []
    ensures ParsedIds(ids) == (if ParseLong(Some(ids[0])).Some? then {ParseLong(Some(ids[0])).value} else {})
                              + ParsedIds(ids[1..])
  {
    var rest := ids[1..];
    forall x | x in ParsedIds(ids)
      ensures x in (if ParseLong(Some(ids[0])).Some? then {ParseLong(Some(ids[0])).value} else {}) + ParsedIds(rest)
    {
      var k, n :| 0 <= k < |ids| && n == ParseLong(Some(ids[k])) && n.Some? && x == n.value;
      if k > 0 {
        assert rest[k - 1] == ids[k];
      }
    }
    forall x | x in ParsedIds(rest) ensures x in ParsedIds(ids) {
      var k, n :| 0 <= k < |rest| && n == ParseLong(Some(rest[k])) && n.Some? && x == n.value;
      assert ids[k + 1] == rest[k];
    }
  }

  /** The loop succeeds iff every listed id parses and names an employee
      who has a user. */
  lemma {:induction false} AddEachSucceeds(ps: seq<Participant>, staff: seq<Employee>, ids: seq<string>, now: int)
    ensures AddEach(ps, staff, ids, now).Ok? <==> forall k :: 0 <= k < |ids| ==> ListedStep(staff, ids[k]).Ok?
    decreases |ids|
  {
    if ids != [] {
      match ListedStep(staff, ids[0])
      case Err(x) =>
      case Ok(e) =>
        var rest := ids[1..];
        AddEachSucceeds(Added(ps, e, false, now), staff, rest, now);
        assert forall k :: 0 < k < |ids| ==> ids[k] == rest[k - 1];
    }
  }

  /** A failing loop fails with the error of the first id that does not
      find a listed employee with a user. */
  lemma {:induction false} AddEachFailsAtFirst(ps: seq<Participant>, staff: seq<Employee>, ids: seq<string>, now: int)
    ensures AddEach(ps, staff, ids, now).Err? ==>
              exists k :: 0 <= k < |ids| && ListedStep(staff, ids[k]) == Err(AddEach(ps, staff, ids, now).error)
                          && forall j :: 0 <= j < k ==> ListedStep(staff, ids[j]).Ok?
    decreases |ids|
  {
    if ids != [] {
      match ListedStep(staff, ids[0])
      case Err(x) =>
      case Ok(e) =>
        var rest := ids[1..];
        AddEachFailsAtFirst(Added(ps, e, false, now), staff, rest, now);
        if AddEach(ps, staff, ids, now).Err? {
          var k :| 0 <= k < |rest| && ListedStep(staff, rest[k]) == Err(AddEach(ps, staff, ids, now).error)
                   && forall j :: 0 <= j < k ==> ListedStep(staff, rest[j]).Ok?;
          assert ids[k + 1] == rest[k];
          assert forall j :: 0 < j < k + 1 ==> ids[j] == rest[j - 1];
        }
    }
  }

  /** When the loop succeeds, the records are the starting ones plus one per
      listed employee: one record per employee, holding exactly the starting
      ids and the listed ids, and starting from fresh records every record is
      freshly joined. */
  lemma {:induction false} AddEachRecords(ps: seq<Participant>, staff: seq<Employee>, ids: seq<string>, now: int)
    requires AddEach(ps, staff, ids, now).Ok?
    ensures UniqueEmployees(ps) ==> UniqueEmployees(AddEach(ps, staff, ids, now).value)
    ensures EmployeeIds(AddEach(ps, staff, ids, now).value) == EmployeeIds(ps) + ParsedIds(ids)
    ensures (forall k :: 0 <= k < |ps| ==> ps[k] == Joining(ps[k].employee, now)) ==>
              forall k :: 0 <= k < |AddEach(ps, staff, ids, now).value| ==>
                AddEach(ps, staff, ids, now).value[k] == Joining(AddEach(ps, staff, ids, now).value[k].employee, now)
    decreases |ids|
  {
    if ids == [] {
      assert ParsedIds(ids) == {};
    } else {
      var e := ListedStep(staff, ids[0]).value;
      var ps1 := Added(ps, e, false, now);
      AddEachRecords(ps1, staff, ids[1..], now);
      ParsedIdsCons(ids);
      AddedEmployeeIds(ps, e, false, now);
      if UniqueEmployees(ps) {
        AddedKeepsUnique(ps, e, false, now);
      }
      if forall k :: 0 <= k < |ps| ==> ps[k] == Joining(ps[k].employee, now) {
        match RecordOf(ps, e.id)
        case Some(i) =>
        case None =>
          assert ps1 == ps + [Joining(e, now)];
      }
    }
  }

  /** createGroupChatRoom stores the empty group room first; it succeeds iff
      the list is present and every entry names an employee with a user,
      and then the
      room holds exactly the listed employees (the creator only if listed),
      all freshly joined. */
  lemma CreateGroupChatRoomResult(t: Table, staff: seq<Employee>, name: Option<string>,
                                  participantIds: Option<seq<string>>, creatorId: string, now: int)
    ensures CreateGroupChatRoomSpec(t, staff, name, participantIds, creatorId, now).out.Ok? <==>
            participantIds.Some? && forall k :: 0 <= k < |participantIds.value| ==> ListedStep(staff, participantIds.value[k]).Ok?
    ensures CreateGroupChatRoomSpec(t, staff, name, participantIds, creatorId, now).out.Err? ==>
            CreateGroupChatRoomSpec(t, staff, name, participantIds, creatorId, now).t
            == Table(t.rooms[t.nextId := Room(t.nextId, name, Some(creatorId), now, now, true, [], None)], t.nextId + 1)
    ensures CreateGroupChatRoomSpec(t, staff, name, participantIds, creatorId, now).out.Ok? ==>
            var room := CreateGroupChatRoomSpec(t, staff, name, participantIds, creatorId, now).out.value;
            && room.id == t.nextId && room.name == name && room.createdBy == Some(creatorId) && room.isGroupChat
            && room.createdAt == now && room.lastActivity == now && room.lastMessageContent.None?
            && UniqueEmployees(room.participants)
            && EmployeeIds(room.participants) == ParsedIds(participantIds.value)
            && (forall k :: 0 <= k < |room.participants| ==> room.participants[k] == Joining(room.participants[k].employee, now))
            && CreateGroupChatRoomSpec(t, staff, name, participantIds, creatorId, now).t
               == Table(t.rooms[t.nextId := room], t.nextId + 1)
  {
    if participantIds.Some? {
      AddEachSucceeds([], staff, participantIds.value, now);
      if AddEach([], staff, participantIds.value, now).Ok? {
        AddEachRecords([], staff, participantIds.value, now);
        assert EmployeeIds([]) == {};
      }
    }
  }

  // ---------------------------------------------------------------------
  // The main room

  /** With a room whose name contains "Main Room", getMainChatRoom stores
      nothing and answers the lowest-numbered such room. */
  lemma MainChatRoomExisting(t: Table, now: int)
    requires ValidTable(t)
    requires exists id :: id in t.rooms && NameContains(t.rooms[id], MainRoomName)
    ensures MainChatRoomSpec(t, now).0 == t
    ensures var main := MainChatRoomSpec(t, now).1;
            main.id in t.rooms && t.rooms[main.id] == main && NameContains(main, MainRoomName)
    ensures forall id :: id in t.rooms && NameContains(t.rooms[id], MainRoomName) ==> MainChatRoomSpec(t, now).1.id <= id
  {
    var p := (r: Room) => NameContains(r, MainRoomName);
    var found := FindByNameContaining(t.rooms, t.nextId, MainRoomName);
    var id :| id in t.rooms && NameContains(t.rooms[id], MainRoomName);
    MatchingIdsExact(t.rooms, t.nextId, p, id);
    assert found != [];
    forall j | j in t.rooms && NameContains(t.rooms[j], MainRoomName) ensures found[0] <= j {
      MatchingIdsExact(t.rooms, t.nextId, p, j);
      var k :| 0 <= k < |found| && found[k] == j;
      assert k == 0 || found[0] < found[k];
    }
  }

  /** With none, getMainChatRoom stores a new empty group room named "Main
      Room", created by "system", under the next id. */
  lemma MainChatRoomCreated(t: Table, now: int)
    requires ValidTable(t)
    requires forall id :: id in t.rooms ==> !NameContains(t.rooms[id], MainRoomName)
    ensures var main := Room(t.nextId, Some(MainRoomName), Some(MainRoomCreator), now, now, true, [], None);
            MainChatRoomSpec(t, now) == (Table(t.rooms[t.nextId := main], t.nextId + 1), main)
    ensures NameContains(MainChatRoomSpec(t, now).1, MainRoomName)
  {
    MatchingIdsNone(t.rooms, t.nextId, (r: Room) => NameContains(r, MainRoomName));
    assert Contains(MainRoomName, MainRoomName) by {
      assert StartsWith(MainRoomName[0..], MainRoomName);
    }
  }

  /** Either way the main room is stored, named "Main Room", and the table
      stays valid. */
  lemma MainChatRoomChoice(t: Table, now: int)
    requires ValidTable(t)
    ensures var (t1, main) := MainChatRoomSpec(t, now);
            main.id in t1.rooms && t1.rooms[main.id] == main && NameContains(main, MainRoomName)
            && UniqueEmployees(main.participants) && ValidTable(t1)
  {
    if exists id :: id in t.rooms && NameContains(t.rooms[id], MainRoomName) {
      MainChatRoomExisting(t, now);
    } else {
      MainChatRoomCreated(t, now);
    }
  }

  /** joinMainChatRoom never reactivates a member who left: the employee's
      inactive record is kept as it is. */
  lemma JoinMainKeepsDeparted(t: Table, employee: Employee, now: int, i: nat)
    requires ValidTable(t)
    requires i < |MainChatRoomSpec(t, now).1.participants|
    requires MainChatRoomSpec(t, now).1.participants[i].employee.id == employee.id
    requires !MainChatRoomSpec(t, now).1.participants[i].active
    ensures JoinMainChatRoomSpec(t, employee, now).out.Ok? ==>
            JoinMainChatRoomSpec(t, employee, now).out.value.participants == MainChatRoomSpec(t, now).1.participants
  {
    MainChatRoomChoice(t, now);
    var main := MainChatRoomSpec(t, now).1;
    AddedWithoutRejoinKeepsDeparted(main.participants, employee, now, i);
  }

  /** An employee without a record in the main room joins it as a fresh
      active member. */
  lemma JoinMainAddsNewcomer(t: Table, employee: Employee, now: int)
    requires ValidTable(t) && employee.user.Some?
    requires RecordOf(MainChatRoomSpec(t, now).1.participants, employee.id).None?
    ensures JoinMainChatRoomSpec(t, employee, now).out.Ok?
    ensures HasActiveParticipant(JoinMainChatRoomSpec(t, employee, now).out.value.participants, employee.user)
    ensures var main := JoinMainChatRoomSpec(t, employee, now).out.value;
            JoinMainChatRoomSpec(t, employee, now).t.rooms[main.id] == main
  {
    MainChatRoomChoice(t, now);
    var main := MainChatRoomSpec(t, now).1;
    if !HasActiveParticipant(main.participants, employee.user) {
      var ps := Added(main.participants, employee, false, now);
      assert ps[|main.participants|] == Joining(employee, now);
    }
  }

  // ---------------------------------------------------------------------
  // Joining and leaving

  /** addUserToChatRoom fails with a RuntimeException exactly for a missing
      room or employee, and then changes nothing. */
  lemma AddUserToChatRoomFailures(t: Table, staff: seq<Employee>, roomId: int, userId: string, now: int)
    ensures AddUserToChatRoomSpec(t, staff, roomId, userId, now).out.Err? <==>
            roomId !in t.rooms || EmployeeByUserId(staff, userId).None?
    ensures AddUserToChatRoomSpec(t, staff, roomId, userId, now).out.Err? ==>
            AddUserToChatRoomSpec(t, staff, roomId, userId, now) == TableStep(t, Err(Runtime))
  {
  }

  /** addUserToChatRoom leaves the user's employee active in the room, with
      one record, the other records untouched and the activity refreshed. */
  lemma AddUserToChatRoomActivates(t: Table, staff: seq<Employee>, roomId: int, userId: string, before: int, now: int)
    requires ValidTable(t) && roomId in t.rooms && EmployeeByUserId(staff, userId).Some?
    requires AllConsistentAt(t.rooms[roomId].participants, before)
    ensures AddUserToChatRoomSpec(t, staff, roomId, userId, now).out.Ok?
    ensures var room := AddUserToChatRoomSpec(t, staff, roomId, userId, now).out.value;
            var e := EmployeeByUserId(staff, userId).value;
            var ps := t.rooms[roomId].participants;
            && room.id == roomId && room.lastActivity == now
            && AddUserToChatRoomSpec(t, staff, roomId, userId, now).t == t.(rooms := t.rooms[roomId := room])
            && UniqueEmployees(room.participants)
            && (exists k :: 0 <= k < |room.participants| && room.participants[k].employee.id == e.id && room.participants[k].active)
            && |ps| <= |room.participants| <= |ps| + 1
            && (forall k :: 0 <= k < |ps| && ps[k].employee.id != e.id ==> room.participants[k] == ps[k])
  {
    var e := EmployeeByUserId(staff, userId).value;
    var ps := t.rooms[roomId].participants;
    AddedWithRejoinIsActive(ps, e, before, now);
    AddedKeepsUnique(ps, e, true, now);
  }

  /** removeUserFromChatRoom fails with a RuntimeException exactly for a
      missing room or employee, and then changes nothing; a user who is not
      active is still processed. */
  lemma RemoveUserFromChatRoomFailures(t: Table, staff: seq<Employee>, roomId: int, userId: string, now: int)
    ensures RemoveUserFromChatRoomSpec(t, staff, roomId, userId, now).out.Err? <==>
            roomId !in t.rooms || EmployeeByUserId(staff, userId).None?
    ensures RemoveUserFromChatRoomSpec(t, staff, roomId, userId, now).out.Err? ==>
            RemoveUserFromChatRoomSpec(t, staff, roomId, userId, now) == TableStep(t, Err(Runtime))
  {
  }

  /** The room is deleted, and null returned, exactly when nobody is active
      once the user's record has left; otherwise the room is stored with that
      record left now and every other record as it was. */
  lemma RemoveUserFromChatRoomOutcome(t: Table, staff: seq<Employee>, roomId: int, userId: string, now: int)
    requires ValidTable(t) && roomId in t.rooms && EmployeeByUserId(staff, userId).Some?
    ensures var e := EmployeeByUserId(staff, userId).value;
            var ps := Departed(t.rooms[roomId].participants, e.id, now);
            RemoveUserFromChatRoomSpec(t, staff, roomId, userId, now).out == Ok(None) <==> ActiveParticipants(ps) == {}
    ensures RemoveUserFromChatRoomSpec(t, staff, roomId, userId, now).out == Ok(None) ==>
            RemoveUserFromChatRoomSpec(t, staff, roomId, userId, now).t == t.(rooms := t.rooms - {roomId})
    ensures RemoveUserFromChatRoomSpec(t, staff, roomId, userId, now).out.Ok?
            && RemoveUserFromChatRoomSpec(t, staff, roomId, userId, now).out.value.Some? ==>
            var room := RemoveUserFromChatRoomSpec(t, staff, roomId, userId, now).out.value.value;
            var e := EmployeeByUserId(staff, userId).value;
            var ps := t.rooms[roomId].participants;
            && room.id == roomId && room.lastActivity == now && ActiveParticipants(room.participants) != {}
            && RemoveUserFromChatRoomSpec(t, staff, roomId, userId, now).t == t.(rooms := t.rooms[roomId := room])
            && |room.participants| == |ps|
            && (forall k :: 0 <= k < |ps| ==>
                  room.participants[k] == if ps[k].employee.id == e.id then Left(ps[k], now) else ps[k])
  {
    var e := EmployeeByUserId(staff, userId).value;
    var ps := t.rooms[roomId].participants;
    match RecordOf(ps, e.id)
    case Some(i) =>
      DepartedMarksLeft(ps, e.id, now, i);
      forall k | 0 <= k < |ps| && ps[k].employee.id == e.id ensures k == i { }
    case None =>
  }

  /** getChatRoomParticipants gives nothing for a missing room, fails
      exactly when an active record's employee has no user, and otherwise
      gives exactly the users active in the room. */
  lemma ParticipantUserIdsExact(t: Table, roomId: int)
    ensures roomId !in t.rooms ==> ParticipantUserIds(t, roomId) == Ok({})
    ensures roomId in t.rooms ==>
              var ps := t.rooms[roomId].participants;
              (ParticipantUserIds(t, roomId).Err? <==> exists i :: 0 <= i < |ps| && ps[i].active && ps[i].employee.user.None?)
    ensures ParticipantUserIds(t, roomId).Err? ==> ParticipantUserIds(t, roomId).error == NullPointer
    ensures roomId in t.rooms && ParticipantUserIds(t, roomId).Ok? ==>
              forall u :: u in ParticipantUserIds(t, roomId).value <==> HasActiveParticipant(t.rooms[roomId].participants, Some(u))
  {
    if roomId in t.rooms {
      var ps := t.rooms[roomId].participants;
      if exists i :: 0 <= i < |ps| && ps[i].active && ps[i].employee.user.None? {
        var i :| 0 <= i < |ps| && ps[i].active && ps[i].employee.user.None?;
        assert ps[i].employee in ActiveParticipants(ps);
      }
      if !HasUserlessActive(ps) {
        forall u ensures u in ParticipantUserIds(t, roomId).value <==> HasActiveParticipant(ps, Some(u)) {
          if u in ParticipantUserIds(t, roomId).value {
            var e :| e in ActiveParticipants(ps) && e.user.value == u;
            var i :| 0 <= i < |ps| && ps[i].active && ps[i].employee == e;
          }
          if HasActiveParticipant(ps, Some(u)) {
            var i :| 0 <= i < |ps| && ps[i].active && ps[i].employee.user == Some(u);
            assert ps[i].employee in ActiveParticipants(ps);
          }
        }
      }
    }
  }

  // ---------------------------------------------------------------------
  // The table invariant

  /** Storing a room under its own, existing id with unique records keeps
      the table valid. */
  lemma StoredRoomKeepsValid(t: Table, room: Room)
    requires ValidTable(t) && room.id in t.rooms && UniqueEmployees(room.participants)
    ensures ValidTable(t.(rooms := t.rooms[room.id := room]))
  {
  }

  /** Inserting a room with unique records keeps the table valid. */
  lemma InsertedRoomKeepsValid(t: Table, room: Room)
    requires ValidTable(t) && UniqueEmployees(room.participants)
    ensures ValidTable(Insert(t, room).0)
  {
  }

  lemma DirectRoomKeepsValid(t: Table, e1: Employee, e2: Employee, creatorId: Option<string>, now: int)
    requires ValidTable(t)
    ensures ValidTable(DirectRoomFor(t, e1, e2, creatorId, now).t)
  {
    match FindDirectEitherOrder(t, e1.id, e2.id)
    case Err(_) =>
      assert DirectRoomFor(t, e1, e2, creatorId, now).t == t;
    case Ok(Some(id)) =>
      DirectRoomReuses(t, e1, e2, creatorId, now, id);
      DirectMatchRecords(t.rooms[id], e1.id, e2.id);
      ReactivatedRecords(t.rooms[id].participants, e1, e2, now);
      StoredRoomKeepsValid(t, DirectRoomFor(t, e1, e2, creatorId, now).out.value);
    case Ok(None) =>
      DirectRoomCreates(t, e1, e2, creatorId, now);
      var room := NewRoom(0, Some(DirectChatName), creatorId, false, now).(
        participants := Added(Added([], e1, false, now), e2, false, now));
      assert room.participants == [Joining(e1, now)] + (if e2.id == e1.id then [] else [Joining(e2, now)]);
      InsertedRoomKeepsValid(t, room);
  }

  lemma CreateGroupChatRoomKeepsValid(t: Table, staff: seq<Employee>, name: Option<string>,
                                      participantIds: Option<seq<string>>, creatorId: string, now: int)
    requires ValidTable(t)
    ensures ValidTable(CreateGroupChatRoomSpec(t, staff, name, participantIds, creatorId, now).t)
  {
    CreateGroupChatRoomResult(t, staff, name, participantIds, creatorId, now);
  }

  lemma JoinMainChatRoomKeepsValid(t: Table, employee: Employee, now: int)
    requires ValidTable(t)
    ensures ValidTable(JoinMainChatRoomSpec(t, employee, now).t)
  {
    MainChatRoomChoice(t, now);
    AddedKeepsUnique(MainChatRoomSpec(t, now).1.participants, employee, false, now);
  }

  lemma AddUserToChatRoomKeepsValid(t: Table, staff: seq<Employee>, roomId: int, userId: string, now: int)
    requires ValidTable(t)
    ensures ValidTable(AddUserToChatRoomSpec(t, staff, roomId, userId, now).t)
  {
    if roomId in t.rooms && EmployeeByUserId(staff, userId).Some? {
      AddedKeepsUnique(t.rooms[roomId].participants, EmployeeByUserId(staff, userId).value, true, now);
    }
  }

  lemma RemoveUserFromChatRoomKeepsValid(t: Table, staff: seq<Employee>, roomId: int, userId: string, now: int)
    requires ValidTable(t)
    ensures ValidTable(RemoveUserFromChatRoomSpec(t, staff, roomId, userId, now).t)
  {
    if roomId in t.rooms && EmployeeByUserId(staff, userId).Some? {
      DepartedKeepsUnique(t.rooms[roomId].participants, EmployeeByUserId(staff, userId).value.id, now);
    }
  }

  /** getOrCreateDirectChatRoom keeps the table valid. */
  lemma GetOrCreateDirectChatRoomKeepsValid(t: Table, users: map<string, User>, staff: seq<Employee>,
                                            user1Id: string, user2Id: string, now: int)
    requires ValidTable(t)
    ensures ValidTable(GetOrCreateDirectChatRoomSpec(t, users, staff, user1Id, user2Id, now).t)
  {
    if user1Id in users && user2Id in users && EmployeeByUserId(staff, user1Id).Some? && EmployeeByUserId(staff, user2Id).Some? {
      DirectRoomKeepsValid(t, EmployeeByUserId(staff, user1Id).value, EmployeeByUserId(staff, user2Id).value, Some(user1Id), now);
    }
  }
}
