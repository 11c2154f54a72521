// ChatRoomService: direct rooms (looked up in both argument orders before
// one is created, with departed parties reactivated on reuse), group rooms,
// the main room, and joining and leaving a room, which deletes the room once
// nobody is active in it.  Each operation is a transition of the room table;
// the service class below performs it against the repository.

module RoomService {
  import opened Common
  import opened Directory
  import opened ChatRoomParticipants
  import opened ChatRooms
  import opened ChatRoomQueries
  import opened Stores

  const DirectChatName: string := "DirectChat"
  const MainRoomName: string := "Main Room"
  const MainRoomCreator: string := "system"

  /** The HTTP status of ResponseStatusException(BAD_REQUEST). */
  const BadRequest: int := 400

  /** The room table: the part of the stores the room service reads and
      writes. */
  datatype Table = Table(rooms: map<int, Room>, nextId: int)

  /** The table after an operation, with what it returned or raised. */
  datatype TableStep<T> = TableStep(t: Table, out: Result<T, Exception>)

  function TableOf(st: Store): Table
  {
    Table(st.rooms, st.nextRoomId)
  }

  function WithTable(st: Store, t: Table): Store
  {
    st.(rooms := t.rooms, nextRoomId := t.nextId)
  }

  /** The room half of Stores.Valid. */
  predicate ValidTable(t: Table)
  {
    && t.nextId >= 1
    && (forall id :: id in t.rooms ==>
          1 <= id < t.nextId && t.rooms[id].id == id && UniqueEmployees(t.rooms[id].participants))
  }

  lemma ValidSplits(st: Store)
    ensures Valid(st) <==> ValidTable(TableOf(st)) && forall k :: 0 <= k < |st.docs| ==> st.docs[k].id == Some(k)
  {
  }

  /** The ids of the employees holding a record. */
  function EmployeeIds(ps: seq<Participant>): set<int>
  {
    set i | 0 <= i < |ps| :: ps[i].employee.id
  }

  /** save of a new room: it is stored under the next id. */
  function Insert(t: Table, r: Room): (Table, Room)
  {
    var saved := r.(id := t.nextId);
    (Table(t.rooms[t.nextId := saved], t.nextId + 1), saved)
  }

  // ---------------------------------------------------------------------
  // Direct rooms

  /** The lookup in the given order and, when that finds nothing, in the
      swapped order. */
  function FindDirectEitherOrder(t: Table, employee1: int, employee2: int): (r: Result<Option<int>, Exception>)
    ensures r.Ok? && r.value.Some? ==>
              r.value.value in t.rooms
              && (DirectMatch(t.rooms[r.value.value], employee1, employee2)
                  || DirectMatch(t.rooms[r.value.value], employee2, employee1))
    ensures r.Err? ==> r.error == IncorrectResultSize
  {
    var first := FindDirectChatRoomByParticipantIds(t.rooms, t.nextId, employee1, employee2);
    if first == Ok(None) then FindDirectChatRoomByParticipantIds(t.rooms, t.nextId, employee2, employee1)
    else first
  }

  /** The records of a reused direct room: each party is added back, with
      rejoin exactly when it has left. */
  function Reactivated(ps: seq<Participant>, e1: Employee, e2: Employee, now: int): seq<Participant>
  {
    Added(Added(ps, e1, HasParticipantLeft(ps, e1.id), now), e2, HasParticipantLeft(ps, e2.id), now)
  }

  /** The common tail of both getOrCreateDirectChatRoom variants: reuse the
      room the lookup finds, or create a "DirectChat" room with both parties. */
  function DirectRoomFor(t: Table, e1: Employee, e2: Employee, creatorId: Option<string>, now: int): TableStep<Room>
  {
    match FindDirectEitherOrder(t, e1.id, e2.id)
    case Err(x) => TableStep(t, Err(x))
    case Ok(Some(id)) =>
      var room := t.rooms[id];
      var room1 := room.(participants := Reactivated(room.participants, e1, e2, now), lastActivity := now);
      TableStep(t.(rooms := t.rooms[room1.id := room1]), Ok(room1))
    case Ok(None) =>
      var room := NewRoom(0, Some(DirectChatName), creatorId, false, now).(
        participants := Added(Added([], e1, false, now), e2, false, now));
      var (t1, saved) := Insert(t, room);
      TableStep(t1, Ok(saved))
  }

  /** getOrCreateDirectChatRoom(user1Id, user2Id): both users must have an
      account and an employee, checked before any room is looked up. */
  function GetOrCreateDirectChatRoomSpec(t: Table, users: map<string, User>, staff: seq<Employee>,
                                         user1Id: string, user2Id: string, now: int): TableStep<Room>
  {
    if user1Id !in users || user2Id !in users then TableStep(t, Err(IllegalState))
    else
      match (EmployeeByUserId(staff, user1Id), EmployeeByUserId(staff, user2Id))
      case (Some(e1), Some(e2)) => DirectRoomFor(t, e1, e2, Some(user1Id), now)
      case _ => TableStep(t, Err(IllegalState))
  }

  /** getOrCreateDirectChatRoomByEmployeeId: both employees must exist
      (BAD_REQUEST otherwise), and both must have a user. */
  function GetOrCreateDirectChatRoomByEmployeeIdSpec(t: Table, staff: seq<Employee>,
                                                     employee1Id: int, employee2Id: int, now: int): TableStep<Room>
  {
    match EmployeeById(staff, employee1Id)
    case None => TableStep(t, Err(ResponseStatus(BadRequest)))
    case Some(e1) =>
      match EmployeeById(staff, employee2Id)
      case None => TableStep(t, Err(ResponseStatus(BadRequest)))
      case Some(e2) =>
        if e1.user.None? || e2.user.None? then TableStep(t, Err(NullPointer))
        else DirectRoomFor(t, e1, e2, e1.user, now)
  }

  // ---------------------------------------------------------------------
  // Group rooms and the main room

  /** One entry of the participant id list: Long.parseLong, then findById. */
  function LookupListed(staff: seq<Employee>, participantId: string): (r: Result<Employee, Exception>)
    ensures r.Ok? ==> r.value in staff && ParseLong(Some(participantId)) == Some(r.value.id)
    ensures r.Err? ==> r.error == NumberFormat || r.error == Runtime
  {
    match ParseLong(Some(participantId))
    case None => Err(NumberFormat)
    case Some(pk) =>
      match EmployeeById(staff, pk)
      case None => Err(Runtime)
      case Some(e) => Ok(e)
  }

  /** One pass of createGroupChatRoom's loop: the lookup, then the outcome
      of addParticipant, which fails for an employee without a user. */
  function ListedStep(staff: seq<Employee>, participantId: string): (r: Result<Employee, Exception>)
    ensures r.Ok? <==> LookupListed(staff, participantId).Ok? && LookupListed(staff, participantId).value.user.Some?
    ensures r.Ok? ==> r == LookupListed(staff, participantId)
    ensures r.Err? && LookupListed(staff, participantId).Ok? ==> r.error == NullPointer
    ensures LookupListed(staff, participantId).Err? ==> r == LookupListed(staff, participantId)
  {
    match LookupListed(staff, participantId)
    case Err(x) => Err(x)
    case Ok(e) => if AddedOutcome(e).Err? then Err(AddedOutcome(e).error) else Ok(e)
  }

  /** The loop of createGroupChatRoom: each listed employee is added without
      rejoin; the first entry that fails to parse, to resolve or to be
      added ends it. */
  function AddEach(ps: seq<Participant>, staff: seq<Employee>, ids: seq<string>, now: int): Result<seq<Participant>, Exception>
    decreases |ids|
  {
    if ids == [] then Ok(ps)
    else
      match ListedStep(staff, ids[0])
      case Err(x) => Err(x)
      case Ok(e) => AddEach(Added(ps, e, false, now), staff, ids[1..], now)
  }

  /** The numbers the listed ids parse to. */
  function ParsedIds(ids: seq<string>): set<int>
  {
    set k, n | 0 <= k < |ids| && n == ParseLong(Some(ids[k])) && n.Some? :: n.value
  }

  /** createGroupChatRoom: the empty group room is saved first, then every
      listed employee is added; a null list fails at the loop. */
  function CreateGroupChatRoomSpec(t: Table, staff: seq<Employee>, name: Option<string>,
                                   participantIds: Option<seq<string>>, creatorId: string, now: int): TableStep<Room>
  {
    var (t1, room) := Insert(t, NewRoom(0, name, Some(creatorId), true, now));
    if participantIds.None? then TableStep(t1, Err(NullPointer))
    else
      match AddEach(room.participants, staff, participantIds.value, now)
      case Err(x) => TableStep(t1, Err(x))
      case Ok(ps) =>
        var room1 := room.(participants := ps);
        TableStep(t1.(rooms := t1.rooms[room1.id := room1]), Ok(room1))
  }

  /** createChatRoom(name, creatorId, isGroupChat): an empty room. */
  function CreateChatRoomSpec(t: Table, name: Option<string>, creatorId: Option<string>, isGroupChat: bool, now: int): (Table, Room)
  {
    Insert(t, NewRoom(0, name, creatorId, isGroupChat, now))
  }

  /** getMainChatRoom: the first room whose name contains "Main Room", or a
      new group room of that name created by "system". */
  function MainChatRoomSpec(t: Table, now: int): (Table, Room)
  {
    var found := FindByNameContaining(t.rooms, t.nextId, MainRoomName);
    if found != [] then (t, t.rooms[found[0]])
    else CreateChatRoomSpec(t, Some(MainRoomName), Some(MainRoomCreator), true, now)
  }

  /** joinMainChatRoom(employee): unless the employee is active there, it is
      added without rejoin and the activity refreshed. */
  function JoinMainChatRoomSpec(t: Table, employee: Employee, now: int): TableStep<Room>
  {
    var (t1, main) := MainChatRoomSpec(t, now);
    if employee.user.None? then TableStep(t1, Err(NullPointer))
    else if HasActiveParticipant(main.participants, employee.user) then TableStep(t1, Ok(main))
    else
      var main1 := main.(participants := Added(main.participants, employee, false, now), lastActivity := now);
      TableStep(t1.(rooms := t1.rooms[main1.id := main1]), Ok(main1))
  }

  // ---------------------------------------------------------------------
  // Joining and leaving

  /** addUserToChatRoom(roomId, userId): the room and the user's employee
      must exist; the employee is added with rejoin. */
  function AddUserToChatRoomSpec(t: Table, staff: seq<Employee>, roomId: int, userId: string, now: int): TableStep<Room>
  {
    if roomId !in t.rooms then TableStep(t, Err(Runtime))
    else
      match EmployeeByUserId(staff, userId)
      case None => TableStep(t, Err(Runtime))
      case Some(e) =>
        var room := t.rooms[roomId];
        var room1 := room.(participants := Added(room.participants, e, true, now), lastActivity := now);
        TableStep(t.(rooms := t.rooms[room1.id := room1]), Ok(room1))
  }

  /** removeUserFromChatRoom(roomId, userId): the room and the user's
      employee must exist; whether the user was active only decides a log
      line.  The record leaves; a room left with nobody active is deleted and
      null returned. */
  function RemoveUserFromChatRoomSpec(t: Table, staff: seq<Employee>, roomId: int, userId: string, now: int): TableStep<Option<Room>>
  {
    if roomId !in t.rooms then TableStep(t, Err(Runtime))
    else
      match EmployeeByUserId(staff, userId)
      case None => TableStep(t, Err(Runtime))
      case Some(e) =>
        var room := t.rooms[roomId];
        var room1 := room.(participants := Departed(room.participants, e.id, now), lastActivity := now);
        if ActiveParticipants(room1.participants) == {} then TableStep(t.(rooms := t.rooms - {room1.id}), Ok(None))
        else TableStep(t.(rooms := t.rooms[room1.id := room1]), Ok(Some(room1)))
  }

  /** getChatRoomParticipants(roomId): the user ids of the active members,
      empty for a missing room; an active member without a user fails the
      mapping. */
  function ParticipantUserIds(t: Table, roomId: int): Result<set<string>, Exception>
  {
    if roomId !in t.rooms then Ok({})
    else if HasUserlessActive(t.rooms[roomId].participants) then Err(NullPointer)
    else Ok(set e | e in ActiveParticipants(t.rooms[roomId].participants) :: e.user.value)
  }

  /** ChatRoomRequestDto as toDto fills it. */
  datatype RoomDto = RoomDto(id: int, displayName: Option<string>, groupChat: bool, lastActivity: int)

  /** toDto(room, currentUserId): a group room is shown under its own name;
      a direct room under a non-null label, the name of a member other than
      the caller or "알 수 없음", and the conversion fails only when the
      member it picks has a null name. */
  function ToDto(room: Room, currentUserId: string): (r: Result<RoomDto, Exception>)
    ensures r.Ok? ==> r.value.id == room.id && r.value.groupChat == room.isGroupChat
                      && r.value.lastActivity == room.lastActivity
    ensures room.isGroupChat ==> r.Ok? && r.value.displayName == room.name
    ensures !room.isGroupChat ==>
              (r.Err? <==> OtherParty(room.participants, currentUserId).Some?
                           && OtherParty(room.participants, currentUserId).value.name.None?)
    ensures r.Err? ==> r.error == NullPointer
    ensures r.Ok? && !room.isGroupChat ==>
              && r.value.displayName.Some?
              && (r.value.displayName == Some("알 수 없음")
                  || exists i :: 0 <= i < |room.participants|
                       && room.participants[i].employee.user.Some?
                       && room.participants[i].employee.user != Some(currentUserId)
                       && r.value.displayName == room.participants[i].employee.name)
  {
    DisplayNameForCases(room, currentUserId);
    match DisplayNameFor(room, currentUserId)
    case Err(x) => Err(x)
    case Ok(name) => Ok(RoomDto(room.id, name, room.isGroupChat, room.lastActivity))
  }

  // ---------------------------------------------------------------------
  // The service

  /** The service over the room repository and the directory tables. */
  class ChatRoomService {
    const rooms: RoomRepository
    const org: Org

    constructor (rooms: RoomRepository, org: Org)
      ensures this.rooms == rooms && this.org == org
    {
      this.rooms := rooms;
      this.org := org;
    }

    /** The room table as one value. */
    function Current(): Table
      reads rooms
    {
      Table(rooms.rooms, rooms.nextId)
    }

    method DirectRoom(e1: Employee, e2: Employee, creatorId: Option<string>, now: int) returns (r: Result<Room, Exception>)
      modifies rooms
      ensures TableStep(Current(), r) == DirectRoomFor(old(Current()), e1, e2, creatorId, now)
    {
      var found := FindDirectChatRoomByParticipantIds(rooms.rooms, rooms.nextId, e1.id, e2.id);
      if found == Ok(None) {
        found := FindDirectChatRoomByParticipantIds(rooms.rooms, rooms.nextId, e2.id, e1.id);
      }
      if found.Err? {
        return Err(found.error);
      }
      assert found == FindDirectEitherOrder(old(Current()), e1.id, e2.id);
      if found.value.Some? {
        var existingRoom := rooms.rooms[found.value.value];
        ghost var ps := existingRoom.participants;
        var user1NeedsRejoin := HasParticipantLeft(existingRoom.participants, e1.id);
        var user2NeedsRejoin := HasParticipantLeft(existingRoom.participants, e2.id);
        existingRoom := existingRoom.(participants := Added(existingRoom.participants, e1, user1NeedsRejoin, now));
        existingRoom := existingRoom.(participants := Added(existingRoom.participants, e2, user2NeedsRejoin, now));
        existingRoom := existingRoom.(lastActivity := now);
        assert existingRoom.participants == Reactivated(ps, e1, e2, now);
        rooms.Put(existingRoom);
        return Ok(existingRoom);
      }
      var newRoom := NewRoom(0, Some(DirectChatName), creatorId, false, now);
      newRoom := newRoom.(participants := Added(newRoom.participants, e1, false, now));
      newRoom := newRoom.(participants := Added(newRoom.participants, e2, false, now));
      newRoom := newRoom.(lastActivity := now);
      assert newRoom.participants == Added(Added([], e1, false, now), e2, false, now);
      var id := rooms.Insert(newRoom);
      r := Ok(rooms.rooms[id]);
    }

    method GetOrCreateDirectChatRoom(user1Id: string, user2Id: string, now: int) returns (r: Result<Room, Exception>)
      modifies rooms
      ensures TableStep(Current(), r)
              == GetOrCreateDirectChatRoomSpec(old(Current()), org.users, org.employees, user1Id, user2Id, now)
    {
      if user1Id !in org.users || user2Id !in org.users {
        return Err(IllegalState);
      }
      var user1 := EmployeeByUserId(org.employees, user1Id);
      if user1.None? {
        return Err(IllegalState);
      }
      var user2 := EmployeeByUserId(org.employees, user2Id);
      if user2.None? {
        return Err(IllegalState);
      }
      r := DirectRoom(user1.value, user2.value, Some(user1Id), now);
    }

    method GetOrCreateDirectChatRoomByEmployeeId(employee1Id: int, employee2Id: int, now: int) returns (r: Result<Room, Exception>)
      modifies rooms
      ensures TableStep(Current(), r)
              == GetOrCreateDirectChatRoomByEmployeeIdSpec(old(Current()), org.employees, employee1Id, employee2Id, now)
    {
      var employee1 := EmployeeById(org.employees, employee1Id);
      if employee1.None? {
        return Err(ResponseStatus(BadRequest));
      }
      var employee2 := EmployeeById(org.employees, employee2Id);
      if employee2.None? {
        return Err(ResponseStatus(BadRequest));
      }
      if employee1.value.user.None? || employee2.value.user.None? {
        return Err(NullPointer);
      }
      r := DirectRoom(employee1.value, employee2.value, employee1.value.user, now);
    }

    method CreateGroupChatRoom(name: Option<string>, participantIds: Option<seq<string>>, creatorId: string, now: int)
      returns (r: Result<Room, Exception>)
      modifies rooms
      ensures TableStep(Current(), r)
              == CreateGroupChatRoomSpec(old(Current()), org.employees, name, participantIds, creatorId, now)
    {
      var id := rooms.Insert(NewRoom(0, name, Some(creatorId), true, now));
      var chatRoom := rooms.rooms[id];
      ghost var saved := rooms.rooms;
      if participantIds.None? {
        return Err(NullPointer);
      }
      var ids := participantIds.value;
      var i := 0;
      while i < |ids|
        invariant 0 <= i <= |ids|
        invariant rooms.rooms == saved && rooms.nextId == id + 1
        invariant chatRoom == saved[id].(participants := chatRoom.participants)
        invariant AddEach(saved[id].participants, org.employees, ids, now)
                  == AddEach(chatRoom.participants, org.employees, ids[i..], now)
      {
        assert ids[i..] == [ids[i]] + ids[i + 1..];
        var pk := ParseLong(Some(ids[i]));
        if pk.None? {
          return Err(NumberFormat);
        }
        var employee := EmployeeById(org.employees, pk.value);
        if employee.None? {
          return Err(Runtime);
        }
        chatRoom := chatRoom.(participants := Added(chatRoom.participants, employee.value, false, now));
        if AddedOutcome(employee.value).Err? {
          return Err(AddedOutcome(employee.value).error);
        }
        i := i + 1;
      }
      rooms.Put(chatRoom);
      r := Ok(chatRoom);
    }

    method CreateChatRoom(name: Option<string>, creatorId: Option<string>, isGroupChat: bool, now: int) returns (room: Room)
      modifies rooms
      ensures (Current(), room) == CreateChatRoomSpec(old(Current()), name, creatorId, isGroupChat, now)
    {
      var id := rooms.Insert(NewRoom(0, name, creatorId, isGroupChat, now));
      room := rooms.rooms[id];
    }

    method GetMainChatRoom(now: int) returns (room: Room)
      modifies rooms
      ensures (Current(), room) == MainChatRoomSpec(old(Current()), now)
    {
      var mainRooms := FindByNameContaining(rooms.rooms, rooms.nextId, MainRoomName);
      if mainRooms != [] {
        room := rooms.rooms[mainRooms[0]];
      } else {
        room := CreateChatRoom(Some(MainRoomName), Some(MainRoomCreator), true, now);
      }
    }

    method JoinMainChatRoom(employee: Employee, now: int) returns (r: Result<Room, Exception>)
      modifies rooms
      ensures TableStep(Current(), r) == JoinMainChatRoomSpec(old(Current()), employee, now)
    {
      var mainRoom := GetMainChatRoom(now);
      if employee.user.None? {
        return Err(NullPointer);
      }
      if !HasActiveParticipant(mainRoom.participants, employee.user) {
        mainRoom := mainRoom.(participants := Added(mainRoom.participants, employee, false, now));
        mainRoom := mainRoom.(lastActivity := now);
        rooms.Put(mainRoom);
      }
      r := Ok(mainRoom);
    }

    method AddUserToChatRoom(roomId: int, userId: string, now: int) returns (r: Result<Room, Exception>)
      modifies rooms
      ensures TableStep(Current(), r) == AddUserToChatRoomSpec(old(Current()), org.employees, roomId, userId, now)
    {
      if roomId !in rooms.rooms {
        return Err(Runtime);
      }
      var room := rooms.rooms[roomId];
      var employee := EmployeeByUserId(org.employees, userId);
      if employee.None? {
        return Err(Runtime);
      }
      room := room.(participants := Added(room.participants, employee.value, true, now));
      room := room.(lastActivity := now);
      rooms.Put(room);
      r := Ok(room);
    }

    method RemoveUserFromChatRoom(roomId: int, userId: string, now: int) returns (r: Result<Option<Room>, Exception>)
      modifies rooms
      ensures TableStep(Current(), r) == RemoveUserFromChatRoomSpec(old(Current()), org.employees, roomId, userId, now)
    {
      if roomId !in rooms.rooms {
        return Err(Runtime);
      }
      var room := rooms.rooms[roomId];
      var employee := EmployeeByUserId(org.employees, userId);
      if employee.None? {
        return Err(Runtime);
      }
      room := room.(participants := Departed(room.participants, employee.value.id, now));
      room := room.(lastActivity := now);
      if ActiveParticipants(room.participants) == {} {
        rooms.Delete(room.id);
        return Ok(None);
      }
      rooms.Put(room);
      r := Ok(Some(room));
    }
  }
}
