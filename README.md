# Rooms and notes of the real-time notes backend, in Dafny

This project models the room routes of a collaborative notes server
(`backend/routes/rooms.js`). A room is a document kept under an internal key. It
has a user-chosen slug (`roomId`, 4 to 20 letters or digits, unique across the
store), a name, a description, an owner, an ordered list of members and an ordered
list of embedded notes. Each note holds `id`, `title`, `content`, `lastUpdated`
and `updatedBy`.

Nine command handlers work on that store:

- create a room
- list the caller's rooms
- read one room
- join by slug
- leave
- delete a room
- create, update and delete a note

Each handler on an existing room (all but create and list) looks the room up
and fails with "not found" if it is absent. It then runs an owner or member
check. Reading a room stops there: it returns the stored room and changes and
broadcasts nothing. The handlers that change a room (join, leave, delete a room,
and the three note handlers) then change the loaded document and write it back.
Only after the write succeeds do they broadcast an event to the room's topic.
Creating a room writes the new document and broadcasts nothing.

Files and modules:

- `aggregate.dfy` (`Aggregate`): the room and note values, the error datatype that
  replaces HTTP statuses (`Status` maps it back), the broadcast events, the slug
  rule, the owner/member predicates, and the room invariant `WellFormed`. The
  invariant says the slug matches, the owner is a member, no member is listed
  twice, and note ids are unique within the room.
- `membership.dfy` (`Membership`): `Without`, the member filter used by leave,
  and the lemmas about joining and leaving.
- `notes.dfy` (`Notes`): lookup of a note by id, the field update with the rule
  that a blank value keeps the old one, and removal by position.
- `store.dfy` (`RoomStore`): class `Store`. It holds the room map, the log of
  broadcast events, and the counters that supply fresh room keys and note ids.
  It has one method per handler. Every mutating method keeps `Valid()`, which
  requires every room to be well formed and every slug to be unique. Each one
  states, case by case and in the source's order of checks, the result, the new
  room map and the new event log.
- `scenario.dfy` (`Scenario`): clients that use only the handlers' contracts.
  Join-then-leave restores the store. An owner's create-then-delete of a note
  restores the store. An end-to-end session: U1 creates room "TEAM01", U2 joins,
  writes and edits a note and is refused deleting it, U1 is refused leaving and
  deletes the room, and U2's next read is not found.

Inputs the source takes from outside:

- The caller's user id is a parameter. In the source it comes from the verified
  token.
- The current time is `now`.
- The result of the store's write is `persistOk`. When the write fails, the
  handler answers `Internal`, and neither the rooms nor the events change.
- Join and leave look up the caller's username after the write. That lookup is
  `username: Option<string>`. A failed lookup answers `UserNotFound` with the
  membership change already saved and nothing broadcast, as in the code.
- The create-note handler answers with, and broadcasts, the plain note object
  it built, which has no id. The model's answer and its `NoteCreated` event are
  a `NoteBody` without an id. The id the stored note receives is a ghost
  result of `CreateNote`, and a client reads it back from the stored room.

Status and error facts the model keeps:

- Both refusals in leave and the refusal in delete-note are 403 answers. They
  are modelled as `Forbidden(...)`, each with its own reason.
- "Slug taken" and "already a member" are 400 answers, like a malformed slug.
- `lastUpdated` is set to the current time. The model takes `now` as given and
  does not claim that it increases.

## Model

| member | source | states |
|---|---|---|
| `Aggregate.Status` | backend/routes/rooms.js:27-345 | each failure is answered with its status: 400 for a bad or taken slug and an existing member, 403 for every refusal, 404 for a missing room, note or user, 500 for a failed write |
| `Aggregate.ValidSlug` | backend/routes/rooms.js:32 | the anchored pattern: 4 to 20 characters, every one a letter or a digit; a matching slug is never empty |
| `Aggregate.SlugAccepted` | backend/routes/rooms.js:32 | the create handler's first test: a missing or empty slug is refused, and an accepted slug is present with 4 to 20 characters |
| `Aggregate.IsOwner` | backend/routes/rooms.js:169 | the owner test (the stored owner id equals the caller's, also at 97, 212 and 323); the owner of a well-formed room is always a member, so a member test never shuts the owner out |
| `Aggregate.IsMember` | backend/routes/rooms.js:127-134 | `members.includes` as the join guard: appending a caller it refuses to find keeps a duplicate-free member list duplicate-free (the same test at 98-100, 174, 239 and 279) |
| `Aggregate.CanRead` | backend/routes/rooms.js:96-102 | the owner-or-member read test grants, in a well-formed room, exactly the members, so it agrees with the member test of the note handlers |
| `Aggregate.SlugExamples` | backend/routes/rooms.js:31-32 | on examples: TEAM01, abcd and a 20-character slug are accepted; abc, a 21-character slug, team-01, "team 01" and the empty string are refused |
| `Aggregate.AcceptedIffMatches` | backend/routes/rooms.js:32 | the presence test before the pattern adds nothing: a slug is accepted exactly when it is given and matches |
| `Aggregate.NewRoom` | backend/routes/rooms.js:44-50 | a new room is well formed, its owner is the creator, its members are exactly the creator, it has no notes, and only the creator may read it |
| `Membership.Without` | backend/routes/rooms.js:179 | the member filter keeps exactly the members other than the caller and never grows the list |
| `Membership.WithoutAppend` | backend/routes/rooms.js:179 | filtering a concatenation filters each part |
| `Membership.WithoutAbsent` | backend/routes/rooms.js:179 | filtering out a user who is not listed leaves the list unchanged |
| `Membership.LeaveKeepsOrder` | backend/routes/rooms.js:178-180 | leaving removes exactly the caller; the members before and after keep their relative order |
| `Membership.JoinThenLeave` | backend/routes/rooms.js:134 | appending a non-member and then filtering them out gives back the original member list |
| `Membership.WithoutDistinct` | backend/routes/rooms.js:179 | the filter never introduces a duplicate member |
| `Membership.LeavePreservesWellFormed` | backend/routes/rooms.js:168-180 | removing anyone but the owner keeps the room well formed, so the owner stays a member |
| `Membership.JoinPreservesWellFormed` | backend/routes/rooms.js:127-134 | appending a user who is not yet a member keeps the room well formed and makes that user a member |
| `Notes.FindNote` | backend/routes/rooms.js:284-288 | the note lookup gives the first position holding that id, or nothing exactly when no note has the id |
| `Notes.FoundIsUnique` | backend/routes/rooms.js:327 | with room-unique ids, the lookup finds the one note that carries the id |
| `Notes.Blank` | backend/routes/rooms.js:291-292 | JavaScript falsiness of a body field: a missing value or the empty string is falsy, and any non-empty string is truthy |
| `Notes.Patch` | backend/routes/rooms.js:291-292 | a missing or empty value keeps the previous field, and any other value replaces it |
| `Notes.Revised` | backend/routes/rooms.js:290-294 | an update keeps the note's id, overwrites title and content only with non-blank values, and always sets the edit time and the editor |
| `Notes.ReviseIdempotent` | backend/routes/rooms.js:290-294 | repeating the same update by the same editor at the same time changes nothing further |
| `Notes.BlankUpdateKeepsText` | backend/routes/rooms.js:291-292 | an update with an empty title and no content keeps both texts and the id |
| `Notes.RemoveAt` | backend/routes/rooms.js:332 | removing the note at a position shortens the list by one, and every other note keeps its relative order |
| `Notes.RemoveFound` | backend/routes/rooms.js:327-333 | after removing the note found for an id, ids stay unique and no note with that id is left |
| `Notes.RemoveFoundKeepsOthers` | backend/routes/rooms.js:332 | after that removal, the notes left are exactly the notes with a different id |
| `Notes.RemoveKeepsBelow` | backend/routes/rooms.js:332 | a removal keeps every remaining note id among those already handed out |
| `Notes.ReplaceKeepsIds` | backend/routes/rooms.js:290-296 | replacing a note with its revision keeps note ids unique |
| `Notes.AppendFresh` | backend/routes/rooms.js:243-251 | appending a note with a newly handed-out id keeps ids unique, and the lookup then finds that note at the end |
| `Notes.CreateThenDelete` | backend/routes/rooms.js:250 | appending a note with a fresh id and then removing it by that id gives back the original note list |
| `RoomStore.Store.CreateRoom` | backend/routes/rooms.js:27-56 | a missing or malformed slug is refused before uniqueness is checked, a held slug is refused, a failed write changes nothing, and otherwise exactly one room is added under a fresh key with the caller as owner and only member; no event is broadcast |
| `RoomStore.Store.Available` | backend/routes/rooms.js:59-71 | the listing holds exactly the stored rooms that the caller owns or is a member of |
| `RoomStore.Store.GetRoom` | backend/routes/rooms.js:74-113 | an absent room is not found before access is checked; anyone but the owner or a member is refused; otherwise the stored room is returned |
| `RoomStore.Store.JoinBySlug` | backend/routes/rooms.js:116-157 | an unknown slug is not found; an existing member is refused; otherwise the caller is appended to that room's members, nothing else changes, and `user-joined` is broadcast only after the write and a successful username lookup |
| `RoomStore.Store.Leave` | backend/routes/rooms.js:160-200 | the owner is refused before membership is checked and a non-member is refused; otherwise the caller is filtered out of members and `user-left` is broadcast only after the write and a successful username lookup |
| `RoomStore.Store.DeleteRoom` | backend/routes/rooms.js:203-227 | an absent room is not found and anyone but the owner is refused; otherwise the room and all its notes leave the store, no other room changes, and `room-deleted` follows the delete |
| `RoomStore.Store.CreateNote` | backend/routes/rooms.js:230-263 | only members may add a note; the note goes at the end with the given text, time `now` and the caller as editor, under an id no note of the room has; the answer and the `note-created` broadcast, which follows the write, are the note without its id |
| `RoomStore.Store.UpdateNote` | backend/routes/rooms.js:266-311 | membership is checked before the note is looked up; the found note becomes its revision, all other notes and rooms are unchanged, and `note-updated` follows the write |
| `RoomStore.Store.DeleteNote` | backend/routes/rooms.js:314-345 | ownership is checked before the note is looked up, so a member who is not the owner is refused; otherwise exactly that note is removed, the rest keep their order, and `note-deleted` follows the write |
| `Scenario.JoinThenLeaveRestores` | backend/routes/rooms.js:116-200 | a successful join followed by a leave of the same user always succeeds and restores every room exactly; a failed join changes nothing |
| `Scenario.NoteRoundTrip` | backend/routes/rooms.js:230-345 | the owner's create-then-delete of a note, with the id read back from the stored room, succeeds, restores every room exactly, and broadcasts `note-created` then `note-deleted` |
| `Scenario.Walkthrough` | backend/routes/rooms.js:27-345 | end to end: create, join (a second join is refused), create a note, update it with a blank title and new content (title kept, content replaced), refused member delete, refused owner leave, room delete, and then reading the room is not found; four events in order |
| `Scenario.Gather` | backend/routes/rooms.js:27-157 | after creating "TEAM01" and one join, the room's members are the creator then the joiner and one `user-joined` was broadcast; a repeated join is refused |
| `Scenario.Edit` | backend/routes/rooms.js:230-345 | a member's note update with an empty title keeps the title and replaces the content, and the same member may not delete the note |
| `Scenario.Close` | backend/routes/rooms.js:160-227 | the owner may not leave, the owner's delete empties the store and broadcasts `room-deleted`, and a later read is not found |

## Left out

- The token-checking middleware (`backend/routes/rooms.js:9-24`) calls into a JSON web token library. The caller's user id is a parameter instead.
- The population of owner, members and `updatedBy` with user records in the read handlers (`backend/routes/rooms.js:79-82`). The model returns stored ids. Two effects of population are not modelled: a room whose owner record is missing makes the read handler fail with 500; and population drops members whose user record is missing, so the test at `backend/routes/rooms.js:98-100` refuses such a member with 403, where `RoomStore.Store.GetRoom` answers `Ok`.
- The user lookup after join and leave is an oracle parameter. A lookup that throws, rather than finding nothing, is not modelled apart from `UserNotFound`.
- Failures of the store's reads (`findOne`, `findById`), and malformed ids in the path that the store refuses with 500. Keys are naturals, so a malformed id cannot be written. Only the failure of the final write is modelled.
- Schema validation of rooms and notes: `backend/models/Room.js` is not part of this model, so any name, description, title and content is accepted. A missing title or content in a new note is modelled as a string.
- Request-body values are strings or absent. JavaScript's other falsy values (`null`, `0`, `false`) count as absent.
- RoomStore.Store.DeleteNote: takes `note.remove()` (`backend/routes/rooms.js:332`) to pull the note from the room's note array, as document-array subdocuments do in Mongoose up to version 6. The source does not pin the Mongoose version; where subdocuments have no `remove()` (later versions use `deleteOne()`), the call throws, the catch at `backend/routes/rooms.js:342-344` answers 500, and no note can be deleted. That behaviour is not modelled.
- RoomStore.Store.Available: returns the rooms as a map by key. The order in which the store returns them is not modelled.
- Time is the integer `now`. The model does not claim that successive updates carry increasing times.
- Room keys and note ids come from counters in the store. They stand for the store's generated object ids.
- The broadcast hub (`backend/server.js`) is not modelled: sessions attaching to topics, delivery, events relayed from one client to others, and the client-declared identity on the socket handshake. The event log records what the handlers publish, in order.
- The read-modify-write race between concurrent handlers, where the last write wins, is not modelled. Handlers run one at a time.
- HTTP response bodies other than the result value are not modelled.
