// ChatRoom: a room and its set of membership records.  The records are kept
// in insertion order; the source holds them in a HashSet whose iteration
// order is unspecified, and every lookup below matches on the employee id,
// of which a room holds at most one record.

module ChatRooms {
  import opened Common
  import opened Directory
  import opened ChatRoomParticipants

  /** The persistent state of a room (a chat_rooms row with its records and
      the last-message preview). */
  datatype Room = Room(
    id: int,
    name: Option<string>,
    createdBy: Option<string>,
    createdAt: int,
    lastActivity: int,
    isGroupChat: bool,
    participants: seq<Participant>,
    lastMessageContent: Option<string>)

  /** The room the three-argument constructor creates, once saved under `id`. */
  function NewRoom(id: int, name: Option<string>, creatorId: Option<string>, isGroupChat: bool, now: int): Room
  {
    Room(id, name, creatorId, now, now, isGroupChat, [], None)
  }

  /** At most one record per employee. */
  predicate UniqueEmployees(ps: seq<Participant>)
  {
    forall i, j :: 0 <= i < j < |ps| ==> ps[i].employee.id != ps[j].employee.id
  }

  /** Every record is consistent with a clock that has reached `now`. */
  predicate AllConsistentAt(ps: seq<Participant>, now: int)
  {
    forall i :: 0 <= i < |ps| ==> ConsistentAt(ps[i], now)
  }

  /** The position of the employee's record: the stream filter on the
      employee id followed by findFirst. */
  function RecordOf(ps: seq<Participant>, employeeId: int): (r: Option<nat>)
    ensures r.Some? ==> r.value < |ps| && ps[r.value].employee.id == employeeId
    ensures r.Some? ==> forall i :: 0 <= i < r.value ==> ps[i].employee.id != employeeId
    ensures r.None? ==> forall i :: 0 <= i < |ps| ==> ps[i].employee.id != employeeId
  {
    FirstIndex(ps, (p: Participant) => p.employee.id == employeeId)
  }

  lemma RecordOfUnique(ps: seq<Participant>, employeeId: int, i: nat)
    requires UniqueEmployees(ps) && i < |ps| && ps[i].employee.id == employeeId
    ensures RecordOf(ps, employeeId) == Some(i)
  {
  }

  /** addParticipant(employee, rejoin): an existing record is reused, and is
      rejoined only when `rejoin` is asked for and the record has left and is
      inactive; an employee without a record gets a fresh one. */
  function Added(ps: seq<Participant>, e: Employee, rejoin: bool, now: int): seq<Participant>
  {
    match RecordOf(ps, e.id)
    case Some(i) =>
      if rejoin && ps[i].lastLeftAt.Some? && !ps[i].active then ps[i := Rejoined(ps[i], now)] else ps
    case None => ps + [Joining(e, now)]
  }

  /** removeParticipant(employee): the matching record leaves and stays in
      the set; an employee without a record changes nothing. */
  function Departed(ps: seq<Participant>, employeeId: int, now: int): seq<Participant>
  {
    match RecordOf(ps, employeeId)
    case Some(i) => ps[i := Left(ps[i], now)]
    case None => ps
  }

  /** addParticipant's outcome once the records have changed: its log line
      reads the employee's user id in every branch, so an employee without
      a user fails. */
  function AddedOutcome(e: Employee): Result<(), Exception>
  {
    if e.user.None? then Err(NullPointer) else Ok(())
  }

  /** removeParticipant's outcome once the record has left: only the log
      line of a found record reads the user id. */
  function DepartedOutcome(ps: seq<Participant>, e: Employee): Result<(), Exception>
  {
    if RecordOf(ps, e.id).Some? && e.user.None? then Err(NullPointer) else Ok(())
  }

  /** hasActiveParticipant(userId). */
  predicate HasActiveParticipant(ps: seq<Participant>, userId: Option<string>)
  {
    userId.Some? && exists i :: 0 <= i < |ps| && ps[i].active && ps[i].employee.user == userId
  }

  /** getActiveParticipants(). */
  function ActiveParticipants(ps: seq<Participant>): set<Employee>
  {
    set i | 0 <= i < |ps| && ps[i].active :: ps[i].employee
  }

  /** Whether an active record's employee has no user: every stream over the
      active members that reads each one's user id fails on it. */
  predicate HasUserlessActive(ps: seq<Participant>)
  {
    exists e :: e in ActiveParticipants(ps) && e.user.None?
  }

  /** hasParticipantLeft(employeeId). */
  predicate HasParticipantLeft(ps: seq<Participant>, employeeId: int)
  {
    exists i :: 0 <= i < |ps| && ps[i].employee.id == employeeId && ps[i].lastLeftAt.Some? && !ps[i].active
  }

  /** Number of active records. */
  function ActiveCount(ps: seq<Participant>): (n: nat)
    ensures n <= |ps|
  {
    if ps == [] then 0 else ActiveCount(ps[..|ps| - 1]) + (if ps[|ps| - 1].active then 1 else 0)
  }

  /** The first record's employee, in set order, with a user other than the
      caller: getDisplayNameFor's stream for a direct room. */
  function OtherParty(ps: seq<Participant>, currentUserId: string): (r: Option<Employee>)
    ensures r.Some? ==> exists i :: 0 <= i < |ps| && ps[i].employee == r.value
    ensures r.Some? ==> r.value.user.Some? && r.value.user != Some(currentUserId)
    ensures r.None? ==> forall i :: 0 <= i < |ps| ==> ps[i].employee.user.None? || ps[i].employee.user == Some(currentUserId)
  {
    match FirstIndex(ps, (p: Participant) => p.employee.user.Some? && p.employee.user != Some(currentUserId))
    case None => None
    case Some(i) => Some(ps[i].employee)
  }

  /** getDisplayNameFor(currentUserId): a group room shows its name; a direct
      room shows the other party's name, or "알 수 없음" when there is none.
      Stream.findFirst throws when the name it selects is null. */
  function DisplayNameFor(r: Room, currentUserId: string): Result<Option<string>, Exception>
  {
    if r.isGroupChat then Ok(r.name)
    else match OtherParty(r.participants, currentUserId)
      case None => Ok(Some("알 수 없음"))
      case Some(e) => if e.name.None? then Err(NullPointer) else Ok(e.name)
  }

  // ---------------------------------------------------------------------
  // Properties of the membership operations

  /** An employee that already has a record keeps exactly that one record:
      nothing is added, the other records are untouched, and the record is
      rejoined exactly when `rejoin` holds and it has left and is inactive;
      the call then fails exactly when the employee has no user. */
  lemma AddedReusesRecord(ps: seq<Participant>, e: Employee, rejoin: bool, now: int, i: nat)
    requires UniqueEmployees(ps) && i < |ps| && ps[i].employee.id == e.id
    ensures |Added(ps, e, rejoin, now)| == |ps|
    ensures forall j :: 0 <= j < |ps| && j != i ==> Added(ps, e, rejoin, now)[j] == ps[j]
    ensures Added(ps, e, rejoin, now)[i] ==
            if rejoin && ps[i].lastLeftAt.Some? && !ps[i].active then Rejoined(ps[i], now) else ps[i]
    ensures AddedOutcome(e) == Ok(()) <==> e.user.Some?
  {
    RecordOfUnique(ps, e.id, i);
  }

  /** An employee without a record gets a fresh active record appended; the
      call then fails exactly when the employee has no user. */
  lemma AddedAppendsFresh(ps: seq<Participant>, e: Employee, rejoin: bool, now: int)
    requires forall i :: 0 <= i < |ps| ==> ps[i].employee.id != e.id
    ensures Added(ps, e, rejoin, now) == ps + [Participant(e, now, None, true)]
    ensures AddedOutcome(e) == Ok(()) <==> e.user.Some?
  {
  }

  /** addParticipant never creates a second record for an employee. */
  lemma {:induction false} AddedKeepsUnique(ps: seq<Participant>, e: Employee, rejoin: bool, now: int)
    requires UniqueEmployees(ps)
    ensures UniqueEmployees(Added(ps, e, rejoin, now))
    ensures RecordOf(Added(ps, e, rejoin, now), e.id).Some?
  {
    var r := Added(ps, e, rejoin, now);
    match RecordOf(ps, e.id)
    case Some(i) =>
      assert forall j :: 0 <= j < |r| ==> r[j].employee == ps[j].employee;
    case None =>
      assert r == ps + [Joining(e, now)];
      assert r[|ps|].employee.id == e.id;
  }

  /** Adding with rejoin leaves the employee active, provided the records are
      consistent (an inactive record has always left). */
  lemma AddedWithRejoinIsActive(ps: seq<Participant>, e: Employee, before: int, now: int)
    requires UniqueEmployees(ps) && AllConsistentAt(ps, before)
    ensures exists i :: 0 <= i < |Added(ps, e, true, now)|
                        && Added(ps, e, true, now)[i].employee.id == e.id
                        && Added(ps, e, true, now)[i].active
  {
    var r := Added(ps, e, true, now);
    match RecordOf(ps, e.id)
    case Some(i) =>
      assert ConsistentAt(ps[i], before);
      assert r[i].active;
    case None =>
      assert r[|ps|].employee.id == e.id && r[|ps|].active;
  }

  /** Adding without rejoin never reactivates a record that has left. */
  lemma AddedWithoutRejoinKeepsDeparted(ps: seq<Participant>, e: Employee, now: int, i: nat)
    requires UniqueEmployees(ps) && i < |ps| && ps[i].employee.id == e.id && !ps[i].active
    ensures Added(ps, e, false, now) == ps
  {
    RecordOfUnique(ps, e.id, i);
  }

  /** Adding keeps every record consistent with the advancing clock. */
  lemma AddedKeepsConsistent(ps: seq<Participant>, e: Employee, rejoin: bool, before: int, now: int)
    requires AllConsistentAt(ps, before) && before <= now
    ensures AllConsistentAt(Added(ps, e, rejoin, now), now)
  {
    match RecordOf(ps, e.id)
    case Some(i) =>
      var r := Added(ps, e, rejoin, now);
      forall j | 0 <= j < |r| ensures ConsistentAt(r[j], now) {
        assert ConsistentAt(ps[j], before);
      }
    case None =>
  }

  /** removeParticipant marks the matching record as left and keeps it; the
      other records are untouched; the call then fails exactly when the
      employee has no user. */
  lemma DepartedMarksLeft(ps: seq<Participant>, employeeId: int, now: int, i: nat)
    requires UniqueEmployees(ps) && i < |ps| && ps[i].employee.id == employeeId
    ensures Departed(ps, employeeId, now) == ps[i := Left(ps[i], now)]
    ensures !Departed(ps, employeeId, now)[i].active
    ensures Departed(ps, employeeId, now)[i].lastLeftAt == Some(now)
    ensures Departed(ps, employeeId, now)[i].joinedAt == ps[i].joinedAt
    ensures forall e: Employee :: e.id == employeeId ==> (DepartedOutcome(ps, e) == Ok(()) <==> e.user.Some?)
  {
    RecordOfUnique(ps, employeeId, i);
  }

  /** removeParticipant of an employee without a record is a no-op and
      succeeds. */
  lemma DepartedUnknownIsNoOp(ps: seq<Participant>, employeeId: int, now: int)
    requires forall i :: 0 <= i < |ps| ==> ps[i].employee.id != employeeId
    ensures Departed(ps, employeeId, now) == ps
    ensures forall e: Employee :: e.id == employeeId ==> DepartedOutcome(ps, e) == Ok(())
  {
  }

  lemma DepartedKeepsUnique(ps: seq<Participant>, employeeId: int, now: int)
    requires UniqueEmployees(ps)
    ensures UniqueEmployees(Departed(ps, employeeId, now))
    ensures |Departed(ps, employeeId, now)| == |ps|
  {
  }

  lemma DepartedKeepsConsistent(ps: seq<Participant>, employeeId: int, before: int, now: int)
    requires AllConsistentAt(ps, before) && before <= now
    ensures AllConsistentAt(Departed(ps, employeeId, now), now)
  {
    var r := Departed(ps, employeeId, now);
    forall j | 0 <= j < |r| ensures ConsistentAt(r[j], now) {
      assert ConsistentAt(ps[j], before);
    }
  }

  // ---------------------------------------------------------------------
  // Properties of the membership queries

  /** hasActiveParticipant agrees with getActiveParticipants: a user is an
      active participant iff one of the active employees belongs to them; a
      null user id never is. */
  lemma HasActiveParticipantIffActiveEmployee(ps: seq<Participant>, userId: Option<string>)
    ensures HasActiveParticipant(ps, userId) <==>
            userId.Some? && exists e :: e in ActiveParticipants(ps) && e.user == userId
  {
    if userId.Some? && exists e :: e in ActiveParticipants(ps) && e.user == userId {
      var e :| e in ActiveParticipants(ps) && e.user == userId;
      var i :| 0 <= i < |ps| && ps[i].active && ps[i].employee == e;
    }
  }

  /** getActiveParticipants holds exactly the employees of active records. */
  lemma ActiveParticipantsExact(ps: seq<Participant>, e: Employee)
    ensures e in ActiveParticipants(ps) <==> exists i :: 0 <= i < |ps| && ps[i].active && ps[i].employee == e
  {
  }

  lemma ActiveParticipantsSnoc(init: seq<Participant>, last: Participant)
    ensures ActiveParticipants(init + [last]) ==
            ActiveParticipants(init) + (if last.active then {last.employee} else {})
  {
    var ps := init + [last];
    forall x | x in ActiveParticipants(ps)
      ensures x in ActiveParticipants(init) + (if last.active then {last.employee} else {})
    {
      var i :| 0 <= i < |ps| && ps[i].active && ps[i].employee == x;
      if i < |init| { assert init[i] == ps[i]; }
    }
    forall x | x in ActiveParticipants(init) ensures x in ActiveParticipants(ps) {
      var i :| 0 <= i < |init| && init[i].active && init[i].employee == x;
      assert ps[i] == init[i];
    }
    if last.active { assert ps[|init|] == last; }
  }

  /** With one record per employee, the active set is as large as the number
      of active records (getActiveParticipants().size()). */
  lemma {:induction false} ActiveParticipantsSize(ps: seq<Participant>)
    requires UniqueEmployees(ps)
    ensures |ActiveParticipants(ps)| == ActiveCount(ps)
  {
    if ps != [] {
      var init := ps[..|ps| - 1];
      var last := ps[|ps| - 1];
      assert ps == init + [last];
      ActiveParticipantsSize(init);
      ActiveParticipantsSnoc(init, last);
      if last.active {
        forall i | 0 <= i < |init| ensures init[i].employee != last.employee {
          assert ps[i].employee.id != ps[|ps| - 1].employee.id;
        }
        assert last.employee !in ActiveParticipants(init);
      }
    }
  }

  /** hasParticipantLeft(id) holds iff that employee's record has a leave time
      and is inactive. */
  lemma HasParticipantLeftIffRecordLeft(ps: seq<Participant>, employeeId: int)
    requires UniqueEmployees(ps)
    ensures HasParticipantLeft(ps, employeeId) <==>
            RecordOf(ps, employeeId).Some?
            && ps[RecordOf(ps, employeeId).value].lastLeftAt.Some?
            && !ps[RecordOf(ps, employeeId).value].active
  {
    if HasParticipantLeft(ps, employeeId) {
      var i :| 0 <= i < |ps| && ps[i].employee.id == employeeId && ps[i].lastLeftAt.Some? && !ps[i].active;
      RecordOfUnique(ps, employeeId, i);
    }
  }

  /** A group room shows its name; a direct room shows the name of a
      participant other than the caller, active or not, or "알 수 없음". */
  lemma DisplayNameForCases(r: Room, currentUserId: string)
    ensures r.isGroupChat ==> DisplayNameFor(r, currentUserId) == Ok(r.name)
    ensures !r.isGroupChat && DisplayNameFor(r, currentUserId).Ok? ==>
            DisplayNameFor(r, currentUserId) == Ok(Some("알 수 없음"))
            || exists i :: 0 <= i < |r.participants|
                 && r.participants[i].employee.user.Some?
                 && r.participants[i].employee.user != Some(currentUserId)
                 && DisplayNameFor(r, currentUserId) == Ok(r.participants[i].employee.name)
    ensures !r.isGroupChat && DisplayNameFor(r, currentUserId) == Ok(Some("알 수 없음")) ==>
            (forall i :: 0 <= i < |r.participants| ==>
               r.participants[i].employee.user.None? || r.participants[i].employee.user == Some(currentUserId))
            || exists i :: 0 <= i < |r.participants| && r.participants[i].employee.name == Some("알 수 없음")
  {
  }

  // ---------------------------------------------------------------------
  // The entity

  /** The JPA entity: the participant set and the activity fields are
      updated in place. */
  class ChatRoom {
    var id: Option<int>
    var name: Option<string>
    var createdBy: Option<string>
    var createdAt: int
    var lastActivity: int
    var isGroupChat: bool
    var lastMessageContent: Option<string>
    var participants: seq<ChatRoomParticipant>

    /** Distinct record objects, at most one per employee. */
    ghost predicate Valid()
      reads this, participants
    {
      (forall i, j :: 0 <= i < j < |participants| ==> participants[i] != participants[j])
      && UniqueEmployees(Records())
    }

    /** The records' current states, in set order. */
    function Records(): (r: seq<Participant>)
      reads this, participants
      ensures |r| == |participants|
      ensures forall i :: 0 <= i < |participants| ==> r[i] == participants[i].Record()
    {
      seq(|participants|, i reads this, participants requires 0 <= i < |participants| => participants[i].Record())
    }

    constructor (name: Option<string>, creatorId: Option<string>, isGroupChat: bool, now: int)
      ensures Valid() && id.None? && participants == [] && lastMessageContent.None?
      ensures this.name == name && createdBy == creatorId && this.isGroupChat == isGroupChat
      ensures createdAt == now && lastActivity == now
    {
      id := None;
      this.name := name;
      createdBy := creatorId;
      this.isGroupChat := isGroupChat;
      createdAt := now;
      lastActivity := now;
      lastMessageContent := None;
      participants := [];
    }

    method AddParticipant(e: Employee, rejoin: bool, now: int) returns (r: Result<(), Exception>)
      requires Valid()
      modifies this`participants, participants
      ensures Valid()
      ensures Records() == Added(old(Records()), e, rejoin, now)
      ensures forall p :: p in participants ==> p in old(participants) || fresh(p)
      ensures r == AddedOutcome(e)
    {
      r := AddedOutcome(e);
      ghost var before := Records();
      match RecordOf(Records(), e.id)
      case Some(i) =>
        var p := participants[i];
        if rejoin && p.lastLeftAt.Some? && !p.active {
          p.Rejoin(now);
          assert forall j :: 0 <= j < |participants| && j != i ==> participants[j] != p;
          assert Records() == before[i := Rejoined(before[i], now)];
        }
      case None =>
        var p := new ChatRoomParticipant(e, now);
        participants := participants + [p];
        assert Records() == before + [Joining(e, now)];
        AddedKeepsUnique(before, e, rejoin, now);
    }

    method RemoveParticipant(e: Employee, now: int) returns (r: Result<(), Exception>)
      requires Valid()
      modifies participants
      ensures Valid()
      ensures Records() == Departed(old(Records()), e.id, now)
      ensures r == DepartedOutcome(old(Records()), e)
    {
      r := DepartedOutcome(Records(), e);
      ghost var before := Records();
      match RecordOf(Records(), e.id)
      case Some(i) =>
        var p := participants[i];
        p.Leave(now);
        assert forall j :: 0 <= j < |participants| && j != i ==> participants[j] != p;
        assert Records() == before[i := Left(before[i], now)];
        DepartedKeepsUnique(before, e.id, now);
      case None =>
    }

    method UpdateLastActivity(now: int)
      modifies this`lastActivity
      ensures lastActivity == now
    {
      lastActivity := now;
    }
  }
}
