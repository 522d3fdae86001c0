/**
  Clients of the store: what a caller can conclude from the handlers'
  contracts alone, over sequences of commands.
 */
module Scenario {
  import opened Aggregate
  import opened Membership
  import opened RoomStore
  import Notes

  /** Joining a room and then leaving it, both with the writes going through,
      puts the store's rooms back exactly as they were. */
  method JoinThenLeaveRestores(store: Store, caller: UserId, slug: string, username: string)
    returns (joined: Result<RoomKey>, left: Result<()>)
    requires store.Valid()
    modifies store
    ensures store.Valid()
    ensures joined.Ok? ==> left == Ok(()) && store.rooms == old(store.rooms)
    ensures joined.Err? ==> left == Err(joined.error) && store.rooms == old(store.rooms)
  {
    joined := store.JoinBySlug(caller, slug, Some(username), true);
    if joined.Err? {
      left := Err(joined.error);
      return;
    }
    ghost var k := RoomWithSlug(old(store.rooms), slug);
    ghost var before := old(store.rooms)[k];
    assert joined.value == k;
    assert caller != before.owner;
    left := store.Leave(caller, joined.value, Some(username), true);
    JoinThenLeave(before.members, caller);
    assert before.(members := before.members) == before;
    assert store.rooms == old(store.rooms);
  }

  /** The owner creating a note and then deleting it, both writes going
      through, puts the store's rooms back exactly as they were. */
  method NoteRoundTrip(store: Store, owner: UserId, key: RoomKey, title: string, content: string, now: int)
    returns (created: Result<NoteBody>, id: NoteId, deleted: Result<()>)
    requires store.Valid() && key in store.rooms && store.rooms[key].owner == owner
    modifies store
    ensures store.Valid()
    ensures created == Ok(NoteBody(title, content, now, owner)) && deleted == Ok(())
    ensures store.rooms == old(store.rooms)
    ensures store.events == old(store.events) + [NoteCreated(key, NoteBody(title, content, now, owner)),
                                                 NoteDeleted(key, id)]
  {
    ghost var before := store.rooms[key];
    assert IsMember(before, owner);
    ghost var stored;
    created, stored := store.CreateNote(owner, key, title, content, now, true);
    // The answer carries no id: the owner reads it from the stored room.
    var notes := store.rooms[key].notes;
    id := notes[|notes| - 1].id;
    assert id == stored;
    Notes.CreateThenDelete(before.notes, Note(stored, title, content, now, owner));
    deleted := store.DeleteNote(owner, key, id, true);
    assert before.(notes := before.notes) == before;
  }

  /** An end-to-end session: U1 creates room "TEAM01"; U2 joins it
      (and a second join is refused), writes a note, blanks its title while
      changing its content, is refused deleting it, and U1, who may not leave,
      deletes the room, after which U2 can no longer read it. */
  method Walkthrough(u1: UserId, u2: UserId, now: int)
    returns (members: seq<UserId>, rejoin: Result<RoomKey>, updated: Result<Note>,
             memberDelete: Result<()>, ownerLeave: Result<()>, published: seq<Event>,
             finalRead: Result<Room>)
    requires u1 != u2
    ensures members == [u1, u2]
    ensures rejoin == Err(AlreadyMember)
    ensures updated.Ok? && updated.value.title == "Plan" && updated.value.content == "v2"
    ensures updated.Ok? && updated.value.lastUpdated == now + 1 && updated.value.updatedBy == u2
    ensures memberDelete == Err(Forbidden(OnlyOwnerDeletesNotes))
    ensures ownerLeave == Err(Forbidden(OwnerCannotLeave))
    ensures |published| == 4 && published[0].UserJoined? && published[1].NoteCreated?
    ensures published[2].NoteUpdated? && published[3].RoomDeleted?
    ensures finalRead == Err(RoomNotFound)
  {
    var store := new Store();
    var key;
    key, members, rejoin := Gather(store, u1, u2);
    updated, memberDelete := Edit(store, key, u1, u2, now);
    ownerLeave, finalRead := Close(store, key, u1, u2);
    published := store.events;
  }

  /** U1 creates "TEAM01" and U2 joins it twice. */
  method Gather(store: Store, u1: UserId, u2: UserId)
    returns (key: RoomKey, members: seq<UserId>, rejoin: Result<RoomKey>)
    requires store.Valid() && store.rooms == map[] && store.events == [] && u1 != u2
    modifies store
    ensures store.Valid()
    ensures store.rooms == map[key := Room("TEAM01", "Team", "planning", u1, [u1, u2], [])]
    ensures store.events == [UserJoined(key, u2, "u2name")]
    ensures members == [u1, u2] && rejoin == Err(AlreadyMember)
  {
    var slug := "TEAM01";
    assert ValidSlug(slug);
    ghost var room := NewRoom(slug, "Team", "planning", u1);
    var created := store.CreateRoom(u1, "Team", "planning", Some(slug), true);
    key := created.value;
    assert store.rooms == map[key := room];

    var joined := store.JoinBySlug(u2, slug, Some("u2name"), true);
    assert RoomWithSlug(map[key := room], slug) == key;
    assert room.members + [u2] == [u1, u2];
    ghost var room1 := room.(members := [u1, u2]);
    assert store.rooms == map[key := room1];
    members := store.rooms[key].members;

    rejoin := store.JoinBySlug(u2, slug, Some("u2name"), true);
    assert RoomWithSlug(map[key := room1], slug) == key;
  }

  /** U2 writes a note, updates it with a blank title, and may not delete it. */
  method Edit(store: Store, key: RoomKey, u1: UserId, u2: UserId, now: int)
    returns (updated: Result<Note>, memberDelete: Result<()>)
    requires store.Valid() && store.rooms == map[key := Room("TEAM01", "Team", "planning", u1, [u1, u2], [])]
    requires u1 != u2
    modifies store
    ensures store.Valid() && store.rooms.Keys == {key} && store.rooms[key].owner == u1
    ensures |store.events| == |old(store.events)| + 2 && store.events[..|old(store.events)|] == old(store.events)
    ensures store.events[|old(store.events)|].NoteCreated? && store.events[|old(store.events)| + 1].NoteUpdated?
    ensures updated.Ok? && updated.value.title == "Plan" && updated.value.content == "v2"
    ensures updated.Ok? && updated.value.lastUpdated == now + 1 && updated.value.updatedBy == u2
    ensures memberDelete == Err(Forbidden(OnlyOwnerDeletesNotes))
  {
    ghost var room := store.rooms[key];
    ghost var log := store.events;
    assert IsMember(room, u2);
    var note;
    ghost var stored;
    note, stored := store.CreateNote(u2, key, "Plan", "v1", now, true);
    var id := store.rooms[key].notes[0].id;
    ghost var created := Note(stored, "Plan", "v1", now, u2);
    ghost var room2 := room.(notes := [created]);
    assert room.notes + [created] == [created];
    assert store.rooms == map[key := room2];
    assert Notes.FindNote(room2.notes, id) == Some(0);
    assert IsMember(room2, u2) && !IsOwner(room2, u2);
    ghost var log2 := store.events;
    assert log2 == log + [NoteCreated(key, NoteBody("Plan", "v1", now, u2))];

    updated := store.UpdateNote(u2, key, id, Some(""), Some("v2"), now + 1, true);
    ghost var revised := Notes.Revised(created, Some(""), Some("v2"), now + 1, u2);
    assert updated == Ok(revised);
    assert room2.notes[0 := revised] == [revised];
    assert store.rooms == map[key := room2.(notes := [revised])];
    assert store.events == log2 + [NoteUpdated(key, id, revised)];

    memberDelete := store.DeleteNote(u2, key, id, true);
  }

  /** U1 may not leave, deletes the room, and U2 can no longer read it. */
  method Close(store: Store, key: RoomKey, u1: UserId, u2: UserId)
    returns (ownerLeave: Result<()>, finalRead: Result<Room>)
    requires store.Valid() && store.rooms.Keys == {key} && store.rooms[key].owner == u1
    modifies store
    ensures store.Valid() && store.rooms == map[]
    ensures store.events == old(store.events) + [RoomDeleted(key)]
    ensures ownerLeave == Err(Forbidden(OwnerCannotLeave))
    ensures finalRead == Err(RoomNotFound)
  {
    ownerLeave := store.Leave(u1, key, Some("u1name"), true);
    var deleted := store.DeleteRoom(u1, key, true);
    finalRead := store.GetRoom(u2, key);
  }
}
