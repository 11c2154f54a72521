// The JPQL finders of ChatRoomRepository, as predicates over the room table.
// The table maps room ids, drawn from a counter, to rooms. The finders carry
// no ORDER BY; the model answers them in ascending id order.

module ChatRoomQueries {
  import opened Common
  import opened Directory
  import opened ChatRoomParticipants
  import opened ChatRooms

  /** The ids in [1, bound) whose rooms satisfy `p`, ascending. */
  function MatchingIds(rooms: map<int, Room>, bound: int, p: Room -> bool): (r: seq<int>)
    ensures forall i, j :: 0 <= i < j < |r| ==> r[i] < r[j]
    ensures forall i :: 0 <= i < |r| ==> 1 <= r[i] < bound && r[i] in rooms && p(rooms[r[i]])
    decreases bound
  {
    if bound <= 1 then []
    else MatchingIds(rooms, bound - 1, p)
         + (if bound - 1 in rooms && p(rooms[bound - 1]) then [bound - 1] else [])
  }

  lemma {:induction false} MatchingIdsComplete(rooms: map<int, Room>, bound: int, p: Room -> bool, id: int)
    requires 1 <= id < bound && id in rooms && p(rooms[id])
    ensures id in MatchingIds(rooms, bound, p)
    decreases bound
  {
    if id < bound - 1 {
      MatchingIdsComplete(rooms, bound - 1, p, id);
    }
  }

  /** A room id is found iff it is in range, stored, and its room matches. */
  lemma MatchingIdsExact(rooms: map<int, Room>, bound: int, p: Room -> bool, id: int)
    ensures id in MatchingIds(rooms, bound, p) <==> 1 <= id < bound && id in rooms && p(rooms[id])
  {
    if 1 <= id < bound && id in rooms && p(rooms[id]) {
      MatchingIdsComplete(rooms, bound, p, id);
    }
  }

  /** With no stored room matching, nothing is found. */
  lemma {:induction false} MatchingIdsNone(rooms: map<int, Room>, bound: int, p: Room -> bool)
    requires forall id :: id in rooms ==> !p(rooms[id])
    ensures MatchingIds(rooms, bound, p) == []
    decreases bound
  {
    if bound > 1 {
      MatchingIdsNone(rooms, bound - 1, p);
    }
  }

  /** Two predicates that agree on every stored room find the same ids. */
  lemma {:induction false} MatchingIdsAgree(rooms: map<int, Room>, bound: int, p: Room -> bool, q: Room -> bool)
    requires forall id :: id in rooms ==> p(rooms[id]) == q(rooms[id])
    ensures MatchingIds(rooms, bound, p) == MatchingIds(rooms, bound, q)
    decreases bound
  {
    if bound > 1 {
      MatchingIdsAgree(rooms, bound - 1, p, q);
    }
  }

  /** A single-result query: none, the one match, or
      IncorrectResultSizeDataAccessException for several. */
  function Single(ids: seq<int>): (r: Result<Option<int>, Exception>)
    ensures r.Ok? && r.value.None? <==> ids == []
    ensures r.Ok? && r.value.Some? <==> |ids| == 1
    ensures r.Ok? && r.value.Some? ==> r.value.value == ids[0]
    ensures r.Err? ==> r.error == IncorrectResultSize && |ids| > 1
  {
    if ids == [] then Ok(None)
    else if |ids| == 1 then Ok(Some(ids[0]))
    else Err(IncorrectResultSize)
  }

  // ---------------------------------------------------------------------
  // Direct rooms

  /** A record for the employee, active or not. */
  predicate HasRecord(r: Room, employeeId: int)
  {
    exists i :: 0 <= i < |r.participants| && r.participants[i].employee.id == employeeId
  }

  /** findDirectChatRoomByParticipantIds' condition: a non-group room with
      records for both employees and exactly two records. */
  predicate DirectMatch(r: Room, employee1: int, employee2: int)
  {
    !r.isGroupChat && HasRecord(r, employee1) && HasRecord(r, employee2) && |r.participants| == 2
  }

  function FindDirectChatRoomByParticipantIds(rooms: map<int, Room>, bound: int, employee1: int, employee2: int): (r: Result<Option<int>, Exception>)
    ensures r.Ok? && r.value.Some? ==>
              r.value.value in rooms && 1 <= r.value.value < bound && DirectMatch(rooms[r.value.value], employee1, employee2)
    ensures r.Err? ==> r.error == IncorrectResultSize
  {
    Single(MatchingIds(rooms, bound, (r: Room) => DirectMatch(r, employee1, employee2)))
  }

  /** A record whose employee belongs to the user (the join through the
      employee's user). */
  predicate HasUserRecord(r: Room, userId: string)
  {
    exists i :: 0 <= i < |r.participants| && r.participants[i].employee.user == Some(userId)
  }

  /** findDirectChatRoom's condition: records for both users, no size limit. */
  predicate DirectMatchByUsers(r: Room, user1: string, user2: string)
  {
    !r.isGroupChat && HasUserRecord(r, user1) && HasUserRecord(r, user2)
  }

  function FindDirectChatRoom(rooms: map<int, Room>, bound: int, user1: string, user2: string): Result<Option<int>, Exception>
  {
    Single(MatchingIds(rooms, bound, (r: Room) => DirectMatchByUsers(r, user1, user2)))
  }

  /** Both joins range over the same records, so the direct-room lookup gives
      the same answer in either argument order. */
  lemma FindDirectChatRoomByParticipantIdsSymmetric(rooms: map<int, Room>, bound: int, employee1: int, employee2: int)
    ensures FindDirectChatRoomByParticipantIds(rooms, bound, employee1, employee2)
            == FindDirectChatRoomByParticipantIds(rooms, bound, employee2, employee1)
  {
    MatchingIdsAgree(rooms, bound, (r: Room) => DirectMatch(r, employee1, employee2),
                     (r: Room) => DirectMatch(r, employee2, employee1));
  }

  /** With one record per employee, a room matching two distinct employees
      holds exactly their two records, whatever their active flags. */
  lemma DirectMatchHoldsExactlyBoth(r: Room, employee1: int, employee2: int)
    requires UniqueEmployees(r.participants) && employee1 != employee2
    requires DirectMatch(r, employee1, employee2)
    ensures forall i :: 0 <= i < |r.participants| ==>
              r.participants[i].employee.id == employee1 || r.participants[i].employee.id == employee2
  {
    var i1 :| 0 <= i1 < |r.participants| && r.participants[i1].employee.id == employee1;
    var i2 :| 0 <= i2 < |r.participants| && r.participants[i2].employee.id == employee2;
    assert i1 != i2;
  }

  /** The direct-room lookup ignores active flags: a room both employees have
      left still matches. */
  lemma DirectMatchIgnoresActivity(r: Room, employee1: int, employee2: int, now: int)
    requires DirectMatch(r, employee1, employee2)
    ensures DirectMatch(r.(participants := Departed(Departed(r.participants, employee1, now), employee2, now)), employee1, employee2)
  {
    var ps1 := Departed(r.participants, employee1, now);
    var ps2 := Departed(ps1, employee2, now);
    assert forall i :: 0 <= i < |ps2| ==> ps2[i].employee == r.participants[i].employee;
    var i1 :| 0 <= i1 < |r.participants| && r.participants[i1].employee.id == employee1;
    var i2 :| 0 <= i2 < |r.participants| && r.participants[i2].employee.id == employee2;
    assert ps2[i1].employee.id == employee1 && ps2[i2].employee.id == employee2;
  }

  /** The by-user lookup imposes no size limit: a direct room with a third
      record still matches. */
  lemma DirectMatchByUsersHasNoSizeLimit(r: Room, user1: string, user2: string, extra: Employee, now: int)
    requires DirectMatchByUsers(r, user1, user2)
    ensures DirectMatchByUsers(r.(participants := r.participants + [Joining(extra, now)]), user1, user2)
  {
    var ps := r.participants + [Joining(extra, now)];
    var i1 :| 0 <= i1 < |r.participants| && r.participants[i1].employee.user == Some(user1);
    var i2 :| 0 <= i2 < |r.participants| && r.participants[i2].employee.user == Some(user2);
    assert ps[i1] == r.participants[i1] && ps[i2] == r.participants[i2];
  }

  // ---------------------------------------------------------------------
  // Active-participation finders

  /** findByParticipantId's condition. */
  predicate ActiveEmployee(r: Room, employeeId: int)
  {
    exists i :: 0 <= i < |r.participants| && r.participants[i].active && r.participants[i].employee.id == employeeId
  }

  function FindByParticipantId(rooms: map<int, Room>, bound: int, employeeId: int): seq<int>
  {
    MatchingIds(rooms, bound, (r: Room) => ActiveEmployee(r, employeeId))
  }

  /** findByParticipantUserId's condition. */
  predicate ActiveUser(r: Room, userId: string)
  {
    HasActiveParticipant(r.participants, Some(userId))
  }

  function FindByParticipantUserId(rooms: map<int, Room>, bound: int, userId: string): seq<int>
  {
    MatchingIds(rooms, bound, (r: Room) => ActiveUser(r, userId))
  }

  /** findByDepartmentName's condition. */
  predicate ActiveInDepartment(r: Room, departmentName: string)
  {
    exists i :: 0 <= i < |r.participants| && r.participants[i].active
      && r.participants[i].employee.department.Some?
      && r.participants[i].employee.department.value.name == departmentName
  }

  function FindByDepartmentName(rooms: map<int, Room>, bound: int, departmentName: string): seq<int>
  {
    MatchingIds(rooms, bound, (r: Room) => ActiveInDepartment(r, departmentName))
  }

  /** findByDepartmentAndSection's condition: one active record in both. */
  predicate ActiveInSection(r: Room, departmentName: string, sectionName: string)
  {
    exists i :: 0 <= i < |r.participants| && r.participants[i].active
      && r.participants[i].employee.department.Some?
      && r.participants[i].employee.department.value.name == departmentName
      && r.participants[i].employee.section.Some?
      && r.participants[i].employee.section.value.name == Some(sectionName)
  }

  function FindByDepartmentAndSection(rooms: map<int, Room>, bound: int, departmentName: string, sectionName: string): seq<int>
  {
    MatchingIds(rooms, bound, (r: Room) => ActiveInSection(r, departmentName, sectionName))
  }

  /** findByNameContaining: rooms whose non-null name contains the needle, case-sensitively. */
  predicate NameContains(r: Room, needle: string)
  {
    r.name.Some? && Contains(r.name.value, needle)
  }

  function FindByNameContaining(rooms: map<int, Room>, bound: int, needle: string): seq<int>
  {
    MatchingIds(rooms, bound, (r: Room) => NameContains(r, needle))
  }

  /** A room whose record for the employee has left is not among the
      employee's rooms, while one with an active record is. */
  lemma FindByParticipantIdOnlyActive(rooms: map<int, Room>, bound: int, employeeId: int, id: int)
    requires id in rooms && 1 <= id < bound && UniqueEmployees(rooms[id].participants)
    ensures id in FindByParticipantId(rooms, bound, employeeId) <==>
            RecordOf(rooms[id].participants, employeeId).Some?
            && rooms[id].participants[RecordOf(rooms[id].participants, employeeId).value].active
  {
    MatchingIdsExact(rooms, bound, (r: Room) => ActiveEmployee(r, employeeId), id);
    var ps := rooms[id].participants;
    if ActiveEmployee(rooms[id], employeeId) {
      var i :| 0 <= i < |ps| && ps[i].active && ps[i].employee.id == employeeId;
      RecordOfUnique(ps, employeeId, i);
    }
  }

  /** findByParticipantUserId finds exactly the rooms where one of the
      user's employees is active. */
  lemma FindByParticipantUserIdExact(rooms: map<int, Room>, bound: int, userId: string, id: int)
    ensures id in FindByParticipantUserId(rooms, bound, userId) <==>
            1 <= id < bound && id in rooms
            && exists e :: e in ActiveParticipants(rooms[id].participants) && e.user == Some(userId)
  {
    MatchingIdsExact(rooms, bound, (r: Room) => ActiveUser(r, userId), id);
    if id in rooms {
      HasActiveParticipantIffActiveEmployee(rooms[id].participants, Some(userId));
    }
  }

  /** The section finder narrows the department finder. */
  lemma FindByDepartmentAndSectionNarrows(rooms: map<int, Room>, bound: int, departmentName: string, sectionName: string, id: int)
    ensures id in FindByDepartmentAndSection(rooms, bound, departmentName, sectionName) ==>
            id in FindByDepartmentName(rooms, bound, departmentName)
  {
    MatchingIdsExact(rooms, bound, (r: Room) => ActiveInSection(r, departmentName, sectionName), id);
    MatchingIdsExact(rooms, bound, (r: Room) => ActiveInDepartment(r, departmentName), id);
  }

  /** The department finder sees only active records: once every record of
      the department has left, the room is no longer found. */
  lemma FindByDepartmentNameOnlyActive(rooms: map<int, Room>, bound: int, departmentName: string, id: int)
    requires id in rooms
    requires forall i :: 0 <= i < |rooms[id].participants| && rooms[id].participants[i].employee.department.Some?
               && rooms[id].participants[i].employee.department.value.name == departmentName
               ==> !rooms[id].participants[i].active
    ensures id !in FindByDepartmentName(rooms, bound, departmentName)
  {
    MatchingIdsExact(rooms, bound, (r: Room) => ActiveInDepartment(r, departmentName), id);
  }
}
