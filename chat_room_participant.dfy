// ChatRoomParticipant: one employee's membership record in one room.
// Leaving is soft: the record stays, marked inactive with the time it left.

module ChatRoomParticipants {
  import opened Common
  import opened Directory

  /** The persistent state of a membership record. */
  datatype Participant = Participant(
    employee: Employee,
    joinedAt: int,
    lastLeftAt: Option<int>,
    active: bool)

  /** The record the convenience constructor creates at time `now`. */
  function Joining(e: Employee, now: int): Participant
  {
    Participant(e, now, None, true)
  }

  /** leave(): inactive, left at `now`. */
  function Left(p: Participant, now: int): Participant
  {
    p.(active := false, lastLeftAt := Some(now))
  }

  /** rejoin(): active again, joined at `now`; the time it last left is kept. */
  function Rejoined(p: Participant, now: int): Participant
  {
    p.(active := true, joinedAt := now)
  }

  /** A record whose history fits a clock that has reached `now`: every time
      stamp is in the past, an inactive record has left after it joined, and
      an active record that once left rejoined no earlier than that. */
  predicate ConsistentAt(p: Participant, now: int)
  {
    && p.joinedAt <= now
    && (p.lastLeftAt.Some? ==> p.lastLeftAt.value <= now)
    && (!p.active ==> p.lastLeftAt.Some? && p.joinedAt <= p.lastLeftAt.value)
    && (p.active && p.lastLeftAt.Some? ==> p.lastLeftAt.value <= p.joinedAt)
  }

  lemma JoiningIsFreshAndConsistent(e: Employee, now: int)
    ensures Joining(e, now).active && Joining(e, now).joinedAt == now
    ensures Joining(e, now).lastLeftAt == None && Joining(e, now).employee == e
    ensures ConsistentAt(Joining(e, now), now)
  {
  }

  /** Leaving keeps the join time, and preserves consistency as the clock
      moves forward. */
  lemma LeftKeepsJoinTime(p: Participant, before: int, now: int)
    requires ConsistentAt(p, before) && before <= now
    ensures Left(p, now).joinedAt == p.joinedAt && Left(p, now).employee == p.employee
    ensures !Left(p, now).active && Left(p, now).lastLeftAt == Some(now)
    ensures ConsistentAt(Left(p, now), now)
  {
  }

  /** Rejoining keeps the time it last left, and preserves consistency as the
      clock moves forward. */
  lemma RejoinedKeepsLeaveTime(p: Participant, before: int, now: int)
    requires ConsistentAt(p, before) && before <= now
    ensures Rejoined(p, now).lastLeftAt == p.lastLeftAt && Rejoined(p, now).employee == p.employee
    ensures Rejoined(p, now).active && Rejoined(p, now).joinedAt == now
    ensures ConsistentAt(Rejoined(p, now), now)
  {
  }

  /** With a clock that does not run backwards, leaving and then rejoining
      gives an active record that left no later than it rejoined. */
  lemma LeaveThenRejoin(p: Participant, t1: int, t2: int)
    requires t1 <= t2
    ensures Rejoined(Left(p, t1), t2).active
    ensures Rejoined(Left(p, t1), t2).lastLeftAt == Some(t1)
    ensures Rejoined(Left(p, t1), t2).joinedAt == t2
    ensures Rejoined(Left(p, t1), t2).lastLeftAt.value <= Rejoined(Left(p, t1), t2).joinedAt
  {
  }

  /** The JPA entity: its fields are updated in place by leave and rejoin. */
  class ChatRoomParticipant {
    const employee: Employee
    var joinedAt: int
    var lastLeftAt: Option<int>
    var active: bool

    function Record(): Participant
      reads this
    {
      Participant(employee, joinedAt, lastLeftAt, active)
    }

    constructor (employee: Employee, now: int)
      ensures Record() == Joining(employee, now)
    {
      this.employee := employee;
      joinedAt := now;
      lastLeftAt := None;
      active := true;
    }

    method Leave(now: int)
      modifies this
      ensures Record() == Left(old(Record()), now)
    {
      active := false;
      lastLeftAt := Some(now);
    }

    method Rejoin(now: int)
      modifies this
      ensures Record() == Rejoined(old(Record()), now)
    {
      active := true;
      joinedAt := now;
    }
  }
}
