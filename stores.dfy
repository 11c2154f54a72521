// The stores the chat services share: the relational room table (rooms with
// their membership records, keyed by an identity counter), the Mongo
// message collection, and the broker's log of published frames.

module Stores {
  import opened Common
  import opened Directory
  import opened ChatRoomParticipants
  import opened ChatRooms
  import opened ChatMessages
  import opened ChatMessageDtos

  /** A frame published through the broker.  A map payload's missing
      `lastMessageContent` key is None. */
  datatype Event =
    | MessageFrame(roomId: int, dto: MessageDto)                 // a message DTO on /topic/chat/{roomId}
    | EntityFrame(roomId: int, message: Message)                 // the message entity itself on /topic/chat/{roomId}
    | UnreadFrame(roomId: int, readerId: Option<string>, counts: map<string, int>, lastMessageContent: Option<string>)
    | ReadFrame(roomId: int, messageId: Option<MessageId>, userId: string)   // /topic/chat/{roomId}/read
    | ParticipantsFrame(roomId: int, active: set<Employee>)      // /topic/chat/{roomId}/participants

  /** The state of the shared stores. */
  datatype Store = Store(
    rooms: map<int, Room>,
    nextRoomId: int,
    docs: seq<Message>,
    events: seq<Event>,
    files: set<string>)

  /** The stores after an operation, with what it returned or raised.
      Writes made before an exception stay in place. */
  datatype Step<T> = Step(st: Store, out: Result<T, Exception>)

  /** Rooms are stored under their own id, below the counter, with one record
      per employee; each message document sits at the position its id names. */
  predicate Valid(st: Store)
  {
    && st.nextRoomId >= 1
    && (forall id :: id in st.rooms ==>
          1 <= id < st.nextRoomId && st.rooms[id].id == id && UniqueEmployees(st.rooms[id].participants))
    && (forall k :: 0 <= k < |st.docs| ==> st.docs[k].id == Some(k))
  }

  // ---------------------------------------------------------------------
  // The message collection

  /** findById on the collection. */
  function FindDoc(docs: seq<Message>, id: MessageId): (r: Option<Message>)
    ensures r.Some? ==> r.value in docs && r.value.id == Some(id)
    ensures r.None? ==> forall k :: 0 <= k < |docs| ==> docs[k].id != Some(id)
  {
    FindFirst(docs, (m: Message) => m.id == Some(id))
  }

  /** MongoRepository.save: a document without an id is inserted under a new
      one; a document with an id replaces the stored one with that id, or is
      inserted under it.  Returns the new collection and the saved document. */
  function SaveDoc(docs: seq<Message>, m: Message): (r: (seq<Message>, Message))
    ensures r.1 in r.0 && r.1 == m.(id := r.1.id) && r.1.id.Some?
    ensures m.id.Some? ==> r.1 == m
  {
    match m.id
    case None =>
      var saved := m.(id := Some(|docs|));
      (docs + [saved], saved)
    case Some(k) =>
      match FirstIndex(docs, (d: Message) => d.id == Some(k))
      case Some(i) =>
        assert docs[i := m][i] == m;
        (docs[i := m], m)
      case None => (docs + [m], m)
  }

  /** In a valid collection a new document gets the next position, and a
      stored one is replaced in place; nothing else moves. */
  lemma SaveDocInValid(docs: seq<Message>, m: Message)
    requires forall k :: 0 <= k < |docs| ==> docs[k].id == Some(k)
    requires m.id.Some? ==> m.id.value < |docs|
    ensures m.id.None? ==> SaveDoc(docs, m).0 == docs + [m.(id := Some(|docs|))]
    ensures m.id.Some? ==> SaveDoc(docs, m).0 == docs[m.id.value := m]
    ensures var d := SaveDoc(docs, m).0; forall k :: 0 <= k < |d| ==> d[k].id == Some(k)
  {
    if m.id.Some? {
      assert docs[m.id.value].id == Some(m.id.value);
    }
  }

  // ---------------------------------------------------------------------
  // The repositories as objects

  /** The chat_rooms table with its participant rows. */
  class RoomRepository {
    var rooms: map<int, Room>
    var nextId: int

    constructor ()
      ensures rooms == map[] && nextId == 1
    {
      rooms := map[];
      nextId := 1;
    }

    /** save of a new room: the identity counter supplies its id. */
    method Insert(r: Room) returns (id: int)
      modifies this
      ensures id == old(nextId) && nextId == old(nextId) + 1
      ensures rooms == old(rooms)[id := r.(id := id)]
    {
      id := nextId;
      rooms := rooms[id := r.(id := id)];
      nextId := nextId + 1;
    }

    /** save of a stored room. */
    method Put(r: Room)
      modifies this`rooms
      ensures rooms == old(rooms)[r.id := r]
    {
      rooms := rooms[r.id := r];
    }

    /** delete. */
    method Delete(id: int)
      modifies this`rooms
      ensures rooms == old(rooms) - {id}
    {
      rooms := rooms - {id};
    }
  }

  /** The chat_messages collection. */
  class MessageRepository {
    var docs: seq<Message>

    constructor ()
      ensures docs == []
    {
      docs := [];
    }

    method Save(m: Message) returns (saved: Message)
      modifies this
      ensures (docs, saved) == SaveDoc(old(docs), m)
    {
      match m.id
      case None =>
        saved := m.(id := Some(|docs|));
        docs := docs + [saved];
      case Some(k) =>
        var i := FirstIndex(docs, (d: Message) => d.id == Some(k));
        saved := m;
        if i.Some? {
          docs := docs[i.value := m];
        } else {
          docs := docs + [m];
        }
    }
  }

  /** The broker: every published frame, in order. */
  class Broker {
    var events: seq<Event>

    constructor ()
      ensures events == []
    {
      events := [];
    }

    method Send(e: Event)
      modifies this
      ensures events == old(events) + [e]
    {
      events := events + [e];
    }
  }

  /** The upload directory: the names of the stored files. */
  class UploadDirectory {
    var names: set<string>

    constructor ()
      ensures names == {}
    {
      names := {};
    }

    method Add(name: string)
      modifies this
      ensures names == old(names) + {name}
    {
      names := names + {name};
    }

    method Remove(name: string)
      modifies this
      ensures names == old(names) - {name}
    {
      names := names - {name};
    }
  }
}
