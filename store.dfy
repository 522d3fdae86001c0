/**
  The room routes: a store of room documents keyed by internal id, with one
  method per command handler. Each handler that changes an existing room looks
  it up, runs its owner/member check, changes the loaded document, writes it back
  and, only once the write has gone through, appends its broadcast to the event
  log. Creating a room broadcasts nothing; reading and listing rooms change
  nothing and broadcast nothing.

  The outcome of the store's write, the clock and the user lookup that supplies
  a username are inputs: `persistOk`, `now` and `username`.
 */
module RoomStore {
  import opened Aggregate
  import opened Membership
  import opened Notes

  class Store {
    /** Room documents by internal key. */
    var rooms: map<RoomKey, Room>
    /** Everything broadcast so far, in order. */
    var events: seq<Event>
    /** Sources of fresh room keys and note ids. */
    var nextKey: RoomKey
    var nextNoteId: NoteId

    ghost predicate Valid()
      reads this
    {
      && (forall k :: k in rooms ==> k < nextKey)
      && (forall k :: k in rooms ==> WellFormed(rooms[k]) && NoteIdsBelow(rooms[k].notes, nextNoteId))
      && SlugsUnique(rooms)
    }

    constructor ()
      ensures Valid() && rooms == map[] && events == []
    {
      rooms, events := map[], [];
      nextKey, nextNoteId := 0, 0;
    }

    /** POST /: create a room owned by `caller`. The slug is checked against the
        pattern before it is looked up; a held slug is a conflict. */
    method CreateRoom(caller: UserId, name: string, description: string, slug: Option<string>, persistOk: bool)
      returns (r: Result<RoomKey>)
      requires Valid()
      modifies this
      ensures Valid() && events == old(events) && nextNoteId == old(nextNoteId)
      ensures !SlugAccepted(slug) ==> r == Err(InvalidSlug) && rooms == old(rooms)
      ensures SlugAccepted(slug) && SlugHeld(old(rooms), slug.value) ==>
                r == Err(SlugTaken) && rooms == old(rooms)
      ensures SlugAccepted(slug) && !SlugHeld(old(rooms), slug.value) && !persistOk ==>
                r == Err(Internal) && rooms == old(rooms)
      ensures SlugAccepted(slug) && !SlugHeld(old(rooms), slug.value) && persistOk ==>
                && r.Ok? && r.value !in old(rooms)
                && rooms == old(rooms)[r.value := NewRoom(slug.value, name, description, caller)]
    {
      if slug.None? || slug.value == "" || !ValidSlug(slug.value) {
        return Err(InvalidSlug);
      }
      var s := slug.value;
      if exists k :: k in rooms && rooms[k].slug == s {
        return Err(SlugTaken);
      }
      var room := NewRoom(s, name, description, caller);
      if !persistOk {
        return Err(Internal);
      }
      var key := nextKey;
      rooms := rooms[key := room];
      nextKey := nextKey + 1;
      r := Ok(key);
    }

    /** GET /available: the rooms `caller` owns or is a member of. */
    method Available(caller: UserId) returns (listed: map<RoomKey, Room>)
      ensures listed.Keys <= rooms.Keys
      ensures forall k :: k in rooms ==> (k in listed <==> CanRead(rooms[k], caller))
      ensures forall k :: k in listed ==> listed[k] == rooms[k]
    {
      listed := map k | k in rooms && CanRead(rooms[k], caller) :: rooms[k];
    }

    /** GET /:id: a missing room is reported before access is checked; only the
        owner and the members may read it. */
    method GetRoom(caller: UserId, key: RoomKey) returns (r: Result<Room>)
      ensures key !in rooms ==> r == Err(RoomNotFound)
      ensures key in rooms && !CanRead(rooms[key], caller) ==> r == Err(Forbidden(AccessDenied))
      ensures key in rooms && CanRead(rooms[key], caller) ==> r == Ok(rooms[key])
    {
      if key !in rooms {
        return Err(RoomNotFound);
      }
      var room := rooms[key];
      var isOwner := room.owner == caller;
      var isMember := caller in room.members;
      if !isOwner && !isMember {
        return Err(Forbidden(AccessDenied));
      }
      r := Ok(room);
    }

    /** POST /join/:roomId: append `caller` to the members of the room holding
        `slug`. The membership change is written before the caller's username
        is looked up, so a failed lookup answers UserNotFound with the change
        already made and nothing broadcast. */
    method JoinBySlug(caller: UserId, slug: string, username: Option<string>, persistOk: bool)
      returns (r: Result<RoomKey>)
      requires Valid()
      modifies this
      ensures Valid() && nextKey == old(nextKey) && nextNoteId == old(nextNoteId)
      ensures !SlugHeld(old(rooms), slug) ==>
                r == Err(RoomNotFound) && rooms == old(rooms) && events == old(events)
      ensures SlugHeld(old(rooms), slug) ==>
                var k := RoomWithSlug(old(rooms), slug);
                var room := old(rooms)[k];
                && (IsMember(room, caller) ==>
                      r == Err(AlreadyMember) && rooms == old(rooms) && events == old(events))
                && (!IsMember(room, caller) && !persistOk ==>
                      r == Err(Internal) && rooms == old(rooms) && events == old(events))
                && (!IsMember(room, caller) && persistOk ==>
                      && rooms == old(rooms)[k := room.(members := room.members + [caller])]
                      && (username.None? ==> r == Err(UserNotFound) && events == old(events))
                      && (username.Some? ==>
                            r == Ok(k) && events == old(events) + [UserJoined(k, caller, username.value)]))
    {
      if !exists k :: k in rooms && rooms[k].slug == slug {
        return Err(RoomNotFound);
      }
      var key :| key in rooms && rooms[key].slug == slug;
      assert key == RoomWithSlug(rooms, slug);
      var room := rooms[key];
      if caller in room.members {
        return Err(AlreadyMember);
      }
      room := room.(members := room.members + [caller]);
      if !persistOk {
        return Err(Internal);
      }
      JoinPreservesWellFormed(rooms[key], caller);
      rooms := rooms[key := room];
      if username.None? {
        return Err(UserNotFound);
      }
      events := events + [UserJoined(key, caller, username.value)];
      r := Ok(key);
    }

    /** POST /:id/leave: the owner is refused before membership is looked at;
        otherwise a member is filtered out of `members`. As with joining, the
        username lookup comes after the write. */
    method Leave(caller: UserId, key: RoomKey, username: Option<string>, persistOk: bool)
      returns (r: Result<()>)
      requires Valid()
      modifies this
      ensures Valid() && nextKey == old(nextKey) && nextNoteId == old(nextNoteId)
      ensures key !in old(rooms) ==>
                r == Err(RoomNotFound) && rooms == old(rooms) && events == old(events)
      ensures key in old(rooms) ==>
                var room := old(rooms)[key];
                && (IsOwner(room, caller) ==>
                      r == Err(Forbidden(OwnerCannotLeave)) && rooms == old(rooms) && events == old(events))
                && (!IsOwner(room, caller) && !IsMember(room, caller) ==>
                      r == Err(Forbidden(NotAMember)) && rooms == old(rooms) && events == old(events))
                && (!IsOwner(room, caller) && IsMember(room, caller) && !persistOk ==>
                      r == Err(Internal) && rooms == old(rooms) && events == old(events))
                && (!IsOwner(room, caller) && IsMember(room, caller) && persistOk ==>
                      && rooms == old(rooms)[key := room.(members := Without(room.members, caller))]
                      && (username.None? ==> r == Err(UserNotFound) && events == old(events))
                      && (username.Some? ==>
                            r == Ok(()) && events == old(events) + [UserLeft(key, caller, username.value)]))
    {
      if key !in rooms {
        return Err(RoomNotFound);
      }
      var room := rooms[key];
      if room.owner == caller {
        return Err(Forbidden(OwnerCannotLeave));
      }
      if caller !in room.members {
        return Err(Forbidden(NotAMember));
      }
      room := room.(members := Without(room.members, caller));
      if !persistOk {
        return Err(Internal);
      }
      LeavePreservesWellFormed(rooms[key], caller);
      rooms := rooms[key := room];
      if username.None? {
        return Err(UserNotFound);
      }
      events := events + [UserLeft(key, caller, username.value)];
      r := Ok(());
    }

    /** DELETE /:id: only the owner may delete; the room goes with all of its
        notes, and `room-deleted` is broadcast after the delete. */
    method DeleteRoom(caller: UserId, key: RoomKey, persistOk: bool) returns (r: Result<()>)
      requires Valid()
      modifies this
      ensures Valid() && nextKey == old(nextKey) && nextNoteId == old(nextNoteId)
      ensures key !in old(rooms) ==>
                r == Err(RoomNotFound) && rooms == old(rooms) && events == old(events)
      ensures key in old(rooms) && !IsOwner(old(rooms)[key], caller) ==>
                r == Err(Forbidden(OnlyOwnerDeletesRoom)) && rooms == old(rooms) && events == old(events)
      ensures key in old(rooms) && IsOwner(old(rooms)[key], caller) && !persistOk ==>
                r == Err(Internal) && rooms == old(rooms) && events == old(events)
      ensures key in old(rooms) && IsOwner(old(rooms)[key], caller) && persistOk ==>
                && r == Ok(())
                && rooms == old(rooms) - {key}
                && events == old(events) + [RoomDeleted(key)]
    {
      if key !in rooms {
        return Err(RoomNotFound);
      }
      if rooms[key].owner != caller {
        return Err(Forbidden(OnlyOwnerDeletesRoom));
      }
      if !persistOk {
        return Err(Internal);
      }
      rooms := rooms - {key};
      events := events + [RoomDeleted(key)];
      r := Ok(());
    }

    /** POST /:id/notes: a member appends a note stamped with `now` and with
        the caller as editor. The stored note gets an id no note of the room
        carries (`id`, which the handler never hands back); the answer and the
        broadcast are the plain object the handler built, without that id. */
    method CreateNote(caller: UserId, key: RoomKey, title: string, content: string, now: int, persistOk: bool)
      returns (r: Result<NoteBody>, ghost id: NoteId)
      requires Valid()
      modifies this
      ensures Valid() && nextKey == old(nextKey)
      ensures key !in old(rooms) ==>
                r == Err(RoomNotFound) && rooms == old(rooms) && events == old(events)
      ensures key in old(rooms) && !IsMember(old(rooms)[key], caller) ==>
                r == Err(Forbidden(AccessDenied)) && rooms == old(rooms) && events == old(events)
      ensures key in old(rooms) && IsMember(old(rooms)[key], caller) && !persistOk ==>
                r == Err(Internal) && rooms == old(rooms) && events == old(events)
      ensures key in old(rooms) && IsMember(old(rooms)[key], caller) && persistOk ==>
                var room := old(rooms)[key];
                var body := NoteBody(title, content, now, caller);
                && r == Ok(body)
                && (forall n :: n in room.notes ==> n.id != id)
                && rooms == old(rooms)[key := room.(notes := room.notes + [Note(id, title, content, now, caller)])]
                && events == old(events) + [NoteCreated(key, body)]
    {
      id := nextNoteId;
      if key !in rooms {
        return Err(RoomNotFound), id;
      }
      var room := rooms[key];
      if caller !in room.members {
        return Err(Forbidden(AccessDenied)), id;
      }
      var newNote := NoteBody(title, content, now, caller);
      var stored := Note(nextNoteId, title, content, now, caller);
      if !persistOk {
        return Err(Internal), id;
      }
      AppendFresh(room.notes, stored, nextNoteId);
      rooms := rooms[key := room.(notes := room.notes + [stored])];
      nextNoteId := nextNoteId + 1;
      events := events + [NoteCreated(key, newNote)];
      r := Ok(newNote);
    }

    /** PUT /:id/notes/:noteId: membership is checked before the note is looked
        up; a blank title or content keeps the old value, while the edit time and
        the editor are always refreshed. No other note changes. */
    method UpdateNote(caller: UserId, key: RoomKey, noteId: NoteId,
                      title: Option<string>, content: Option<string>, now: int, persistOk: bool)
      returns (r: Result<Note>)
      requires Valid()
      modifies this
      ensures Valid() && nextKey == old(nextKey) && nextNoteId == old(nextNoteId)
      ensures key !in old(rooms) ==>
                r == Err(RoomNotFound) && rooms == old(rooms) && events == old(events)
      ensures key in old(rooms) && !IsMember(old(rooms)[key], caller) ==>
                r == Err(Forbidden(AccessDenied)) && rooms == old(rooms) && events == old(events)
      ensures key in old(rooms) && IsMember(old(rooms)[key], caller) ==>
                var room := old(rooms)[key];
                && (FindNote(room.notes, noteId).None? ==>
                      r == Err(NoteNotFound) && rooms == old(rooms) && events == old(events))
                && (FindNote(room.notes, noteId).Some? && !persistOk ==>
                      r == Err(Internal) && rooms == old(rooms) && events == old(events))
                && (FindNote(room.notes, noteId).Some? && persistOk ==>
                      var i := FindNote(room.notes, noteId).value;
                      var revised := Revised(room.notes[i], title, content, now, caller);
                      && r == Ok(revised)
                      && rooms == old(rooms)[key := room.(notes := room.notes[i := revised])]
                      && events == old(events) + [NoteUpdated(key, noteId, revised)])
    {
      if key !in rooms {
        return Err(RoomNotFound);
      }
      var room := rooms[key];
      if caller !in room.members {
        return Err(Forbidden(AccessDenied));
      }
      var found := FindNote(room.notes, noteId);
      if found.None? {
        return Err(NoteNotFound);
      }
      var i := found.value;
      var revised := Revised(room.notes[i], title, content, now, caller);
      if !persistOk {
        return Err(Internal);
      }
      ReplaceKeepsIds(room.notes, i, revised, nextNoteId);
      rooms := rooms[key := room.(notes := room.notes[i := revised])];
      events := events + [NoteUpdated(key, noteId, revised)];
      r := Ok(revised);
    }

    /** DELETE /:id/notes/:noteId: ownership is checked before the note is looked
        up, so a member who is not the owner is refused even for a note that
        does not exist. The rest of the notes keep their order. */
    method DeleteNote(caller: UserId, key: RoomKey, noteId: NoteId, persistOk: bool) returns (r: Result<()>)
      requires Valid()
      modifies this
      ensures Valid() && nextKey == old(nextKey) && nextNoteId == old(nextNoteId)
      ensures key !in old(rooms) ==>
                r == Err(RoomNotFound) && rooms == old(rooms) && events == old(events)
      ensures key in old(rooms) && !IsOwner(old(rooms)[key], caller) ==>
                r == Err(Forbidden(OnlyOwnerDeletesNotes)) && rooms == old(rooms) && events == old(events)
      ensures key in old(rooms) && IsOwner(old(rooms)[key], caller) ==>
                var room := old(rooms)[key];
                && (FindNote(room.notes, noteId).None? ==>
                      r == Err(NoteNotFound) && rooms == old(rooms) && events == old(events))
                && (FindNote(room.notes, noteId).Some? && !persistOk ==>
                      r == Err(Internal) && rooms == old(rooms) && events == old(events))
                && (FindNote(room.notes, noteId).Some? && persistOk ==>
                      var i := FindNote(room.notes, noteId).value;
                      && r == Ok(())
                      && rooms == old(rooms)[key := room.(notes := RemoveAt(room.notes, i))]
                      && events == old(events) + [NoteDeleted(key, noteId)])
    {
      if key !in rooms {
        return Err(RoomNotFound);
      }
      var room := rooms[key];
      if room.owner != caller {
        return Err(Forbidden(OnlyOwnerDeletesNotes));
      }
      var found := FindNote(room.notes, noteId);
      if found.None? {
        return Err(NoteNotFound);
      }
      if !persistOk {
        return Err(Internal);
      }
      var i := found.value;
      RemoveFound(room.notes, noteId, i);
      RemoveKeepsBelow(room.notes, i, nextNoteId);
      var room' := room.(notes := RemoveAt(room.notes, i));
      assert WellFormed(room') && NoteIdsBelow(room'.notes, nextNoteId);
      rooms := rooms[key := room.(notes := RemoveAt(room.notes, i))];
      events := events + [NoteDeleted(key, noteId)];
      r := Ok(());
    }
  }
}
