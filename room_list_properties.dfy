// What getUserChatRoomsWithLastMessage guarantees: one entry per room the
// user is active in, each describing its room, most recently active first.

module RoomListProperties {
  import opened Common
  import opened Ordering
  import opened Directory
  import opened ChatRoomParticipants
  import opened ChatRooms
  import opened ChatRoomQueries
  import opened Stores
  import opened MessageService

  /** An entry describes a stored room the user is active in, with that
      room's name, kind, activity time, active count, listed preview and the
      user's unread count there. */
  predicate ListedFor(st: Store, staff: seq<Employee>, item: RoomListItem, u: string)
  {
    && item.id in st.rooms
    && var room := st.rooms[item.id];
    && HasActiveParticipant(room.participants, Some(u))
    && item.name == room.name && item.isGroupChat == room.isGroupChat
    && item.lastActivity == room.lastActivity
    && item.unreadCount == GetUnreadCount(st, staff, item.id, u)
    && item.activeParticipantCount == |ActiveParticipants(room.participants)|
    && item.lastMessageContent == ListedPreview(st.docs, room)
  }

  /** The entry built for a stored room describes it. */
  lemma ListItemListed(st: Store, staff: seq<Employee>, id: int, u: string)
    requires Valid(st) && id in st.rooms && HasActiveParticipant(st.rooms[id].participants, Some(u))
    requires ListItem(st, staff, st.rooms[id], u).Ok?
    ensures ListItem(st, staff, st.rooms[id], u).value.id == id
    ensures ListedFor(st, staff, ListItem(st, staff, st.rooms[id], u).value, u)
  {
    assert st.rooms[id].id == id;
  }

  /** A stored room is among the loaded rooms exactly when the user is
      active in it. */
  lemma ParticipantRoomsExact(st: Store, u: string, id: int)
    requires Valid(st) && id in st.rooms
    ensures HasActiveParticipant(st.rooms[id].participants, Some(u)) <==>
              exists k :: 0 <= k < |ParticipantRooms(st, u)| && ParticipantRooms(st, u)[k] == st.rooms[id]
  {
    var ids := FindByParticipantUserId(st.rooms, st.nextRoomId, u);
    var chatRooms := ParticipantRooms(st, u);
    FindByParticipantUserIdExact(st.rooms, st.nextRoomId, u, id);
    HasActiveParticipantIffActiveEmployee(st.rooms[id].participants, Some(u));
    if HasActiveParticipant(st.rooms[id].participants, Some(u)) {
      var k :| 0 <= k < |ids| && ids[k] == id;
      assert chatRooms[k] == st.rooms[id];
    }
    if k :| 0 <= k < |chatRooms| && chatRooms[k] == st.rooms[id] {
      assert chatRooms[k] == st.rooms[ids[k]];
      assert st.rooms[ids[k]].id == ids[k] && st.rooms[id].id == id;
      assert ids[k] == id;
    }
  }

  /** Each loaded room is the stored room under its own id. */
  lemma ParticipantRoomsStored(st: Store, u: string, k: int)
    requires Valid(st) && 0 <= k < |ParticipantRooms(st, u)|
    ensures var room := ParticipantRooms(st, u)[k];
      room.id in st.rooms && st.rooms[room.id] == room
  {
    var ids := FindByParticipantUserId(st.rooms, st.nextRoomId, u);
    assert ParticipantRooms(st, u)[k] == st.rooms[ids[k]];
  }

  /** When the list is built, each room the user is active in contributes
      its entry. */
  lemma EntryOfActiveRoom(st: Store, staff: seq<Employee>, u: string, id: int)
    requires Valid(st) && id in st.rooms && HasActiveParticipant(st.rooms[id].participants, Some(u))
    requires ListItems(st, staff, ParticipantRooms(st, u), u).Ok?
    ensures ListItem(st, staff, st.rooms[id], u).Ok?
    ensures ListItem(st, staff, st.rooms[id], u).value in ListItems(st, staff, ParticipantRooms(st, u), u).value
  {
    var chatRooms := ParticipantRooms(st, u);
    FilterMapOkProperties(chatRooms, ActiveFor(u), EntryFor(st, staff, u));
    ParticipantRoomsExact(st, u, id);
    var k :| 0 <= k < |chatRooms| && chatRooms[k] == st.rooms[id];
    assert ActiveFor(u)(chatRooms[k]);
    assert EntryFor(st, staff, u)(chatRooms[k]) == ListItem(st, staff, st.rooms[id], u);
  }

  /** Sorting the entries keeps exactly the same entries. */
  lemma SortedItemsSame(items: seq<RoomListItem>)
    ensures forall x :: x in SortBy(items, NegatedActivity) <==> x in items
  {
    forall x ensures x in SortBy(items, NegatedActivity) <==> x in items {
      assert x in SortBy(items, NegatedActivity) <==> x in multiset(SortBy(items, NegatedActivity));
      assert x in items <==> x in multiset(items);
    }
  }

  /** The sorted entries are most recently active first. */
  lemma SortedItemsByActivity(items: seq<RoomListItem>)
    ensures var sorted := SortBy(items, NegatedActivity);
      forall i, j :: 0 <= i < j < |sorted| ==> sorted[i].lastActivity >= sorted[j].lastActivity
  {
    var sorted := SortBy(items, NegatedActivity);
    SortBySorted(items, NegatedActivity);
    forall i, j | 0 <= i < j < |sorted| ensures sorted[i].lastActivity >= sorted[j].lastActivity {
      assert NegatedActivity(sorted[i]) <= NegatedActivity(sorted[j]);
    }
  }

  /** getUserChatRoomsWithLastMessage fails exactly when building the
      entries does, and otherwise sorts them. */
  lemma GetUserChatRoomsSorts(st: Store, staff: seq<Employee>, u: string)
    ensures var items := ListItems(st, staff, ParticipantRooms(st, u), u);
      var r := GetUserChatRoomsWithLastMessage(st, staff, u);
      (r.Ok? <==> items.Ok?) && (r.Ok? ==> r.value == SortBy(items.value, NegatedActivity))
  {
  }

  /** getUserChatRoomsWithLastMessage succeeds exactly when every room the
      user is active in can be listed, that is, its display name can be
      worked out. */
  lemma GetUserChatRoomsSucceeds(st: Store, staff: seq<Employee>, u: string)
    requires Valid(st)
    ensures GetUserChatRoomsWithLastMessage(st, staff, u).Ok? <==>
              forall id :: id in st.rooms && HasActiveParticipant(st.rooms[id].participants, Some(u)) ==>
                DisplayNameFor(st.rooms[id], u).Ok?
  {
    var chatRooms := ParticipantRooms(st, u);
    GetUserChatRoomsSorts(st, staff, u);
    FilterMapOkProperties(chatRooms, ActiveFor(u), EntryFor(st, staff, u));
    forall id | id in st.rooms && HasActiveParticipant(st.rooms[id].participants, Some(u))
      ensures ListItem(st, staff, st.rooms[id], u).Ok? <==> DisplayNameFor(st.rooms[id], u).Ok?
    {
    }
    if GetUserChatRoomsWithLastMessage(st, staff, u).Ok? {
      forall id | id in st.rooms && HasActiveParticipant(st.rooms[id].participants, Some(u))
        ensures ListItem(st, staff, st.rooms[id], u).Ok?
      {
        EntryOfActiveRoom(st, staff, u, id);
      }
    } else {
      var k :| 0 <= k < |chatRooms| && ActiveFor(u)(chatRooms[k]) && !EntryFor(st, staff, u)(chatRooms[k]).Ok?;
      ParticipantRoomsStored(st, u, k);
      var id := chatRooms[k].id;
      assert !ListItem(st, staff, st.rooms[id], u).Ok?;
    }
  }

  /** getUserChatRoomsWithLastMessage: on success every entry describes
      a room the user is active in. */
  lemma GetUserChatRoomsSound(st: Store, staff: seq<Employee>, u: string)
    requires Valid(st)
    ensures var r := GetUserChatRoomsWithLastMessage(st, staff, u);
      r.Ok? ==> forall i :: 0 <= i < |r.value| ==> ListedFor(st, staff, r.value[i], u)
  {
    var chatRooms := ParticipantRooms(st, u);
    var items := ListItems(st, staff, chatRooms, u);
    GetUserChatRoomsSorts(st, staff, u);
    FilterMapOkProperties(chatRooms, ActiveFor(u), EntryFor(st, staff, u));
    if items.Ok? {
      var sorted := SortBy(items.value, NegatedActivity);
      SortedItemsSame(items.value);
      forall i | 0 <= i < |sorted| ensures ListedFor(st, staff, sorted[i], u) {
        assert sorted[i] in items.value;
        var j :| 0 <= j < |items.value| && items.value[j] == sorted[i];
        assert ImageOf(chatRooms, ActiveFor(u), EntryFor(st, staff, u), items.value[j]);
        var k :| 0 <= k < |chatRooms| && ActiveFor(u)(chatRooms[k]) && EntryFor(st, staff, u)(chatRooms[k]) == Ok(items.value[j]);
        ParticipantRoomsStored(st, u, k);
        ListItemListed(st, staff, chatRooms[k].id, u);
      }
    }
  }

  /** getUserChatRoomsWithLastMessage: on success every room the user is
      active in has an entry. */
  lemma GetUserChatRoomsComplete(st: Store, staff: seq<Employee>, u: string)
    requires Valid(st)
    ensures var r := GetUserChatRoomsWithLastMessage(st, staff, u);
      r.Ok? ==> forall id :: id in st.rooms && HasActiveParticipant(st.rooms[id].participants, Some(u)) ==>
                  exists i :: 0 <= i < |r.value| && r.value[i].id == id
  {
    var chatRooms := ParticipantRooms(st, u);
    var items := ListItems(st, staff, chatRooms, u);
    GetUserChatRoomsSorts(st, staff, u);
    if items.Ok? {
      var sorted := SortBy(items.value, NegatedActivity);
      SortedItemsSame(items.value);
      forall id | id in st.rooms && HasActiveParticipant(st.rooms[id].participants, Some(u))
        ensures exists i :: 0 <= i < |sorted| && sorted[i].id == id
      {
        EntryOfActiveRoom(st, staff, u, id);
        var item := ListItem(st, staff, st.rooms[id], u).value;
        ListItemListed(st, staff, id, u);
        assert item in sorted;
        var i :| 0 <= i < |sorted| && sorted[i] == item;
      }
    }
  }

  /** getUserChatRoomsWithLastMessage: the entries are most recently active
      first. */
  lemma GetUserChatRoomsOrdered(st: Store, staff: seq<Employee>, u: string)
    ensures var r := GetUserChatRoomsWithLastMessage(st, staff, u);
      r.Ok? ==> forall i, j :: 0 <= i < j < |r.value| ==> r.value[i].lastActivity >= r.value[j].lastActivity
  {
    GetUserChatRoomsSorts(st, staff, u);
    var items := ListItems(st, staff, ParticipantRooms(st, u), u);
    if items.Ok? {
      SortedItemsByActivity(items.value);
    }
  }
}
