/**
  The Room aggregate of the real-time notes backend: a room document with its
  embedded, ordered notes, the typed errors its handlers answer with, the events
  they broadcast to a room's topic, the slug rule and the owner/member checks.
 */
module Aggregate {

  /** Opaque identifiers. The document store hands out object ids; here they are
      naturals, and equality is all the handlers ever ask of them. */
  type UserId = nat
  type RoomKey = nat
  type NoteId = nat

  datatype Option<T> = None | Some(value: T)

  /** A note embedded in a room. Only the most recent editor is kept. */
  datatype Note = Note(id: NoteId, title: string, content: string, lastUpdated: int, updatedBy: UserId)

  /** A room document: `slug` is the user-chosen `roomId`, distinct from the
      store's internal key under which the room is kept. */
  datatype Room = Room(
    slug: string,
    name: string,
    description: string,
    owner: UserId,
    members: seq<UserId>,
    notes: seq<Note>)

  /** Reasons given with a 403 answer. */
  datatype Denial =
    | AccessDenied           // not owner/member (get room), not a member (notes)
    | OwnerCannotLeave
    | NotAMember             // leave by a user who is not in members
    | OnlyOwnerDeletesRoom
    | OnlyOwnerDeletesNotes

  /** The handlers' failure answers, in place of HTTP status codes. */
  datatype Error =
    | InvalidSlug
    | SlugTaken
    | RoomNotFound
    | AlreadyMember
    | NoteNotFound
    | UserNotFound
    | Forbidden(why: Denial)
    | Internal               // the store's write failed

  datatype Result<T> = Ok(value: T) | Err(error: Error)

  /** The HTTP status each failure is answered with. */
  function Status(e: Error): (code: nat)
    ensures code == 400 <==> e == InvalidSlug || e == SlugTaken || e == AlreadyMember
    ensures code == 403 <==> e.Forbidden?
    ensures code == 404 <==> e == RoomNotFound || e == NoteNotFound || e == UserNotFound
    ensures code == 500 <==> e == Internal
  {
    match e
    case InvalidSlug | SlugTaken | AlreadyMember => 400
    case Forbidden(_) => 403
    case RoomNotFound | NoteNotFound | UserNotFound => 404
    case Internal => 500
  }

  /** The plain note object the create handler builds, answers with and
      broadcasts: it carries no id, since the id is only given to the embedded
      copy that the room stores. */
  datatype NoteBody = NoteBody(title: string, content: string, lastUpdated: int, updatedBy: UserId)

  /** What the handlers broadcast. Every event goes to the topic of the room it
      names, and that room's key is also the payload's `roomId`. */
  datatype Event =
    | UserJoined(room: RoomKey, user: UserId, username: string)
    | UserLeft(room: RoomKey, user: UserId, username: string)
    | RoomDeleted(room: RoomKey)
    | NoteCreated(room: RoomKey, body: NoteBody)
    | NoteUpdated(room: RoomKey, noteId: NoteId, note: Note)
    | NoteDeleted(room: RoomKey, noteId: NoteId)

  // ---------------------------------------------------------------------------
  // The slug rule: /^[a-zA-Z0-9]{4,20}$/

  predicate IsAlphanumeric(c: char) {
    ('a' <= c <= 'z') || ('A' <= c <= 'Z') || ('0' <= c <= '9')
  }

  /** The whole string matches the pattern: anchored at both ends, 4 to 20
      characters, each a letter or a digit. A matching slug is never empty. */
  predicate ValidSlug(s: string): (ok: bool)
    ensures ok ==> s != "" && |s| <= 20
    ensures ok <==> 4 <= |s| <= 20 && forall c :: c in s ==> IsAlphanumeric(c)
  {
    4 <= |s| <= 20 && forall i :: 0 <= i < |s| ==> IsAlphanumeric(s[i])
  }

  /** The create handler's first test: the slug is present, not empty, and
      matches the pattern. */
  predicate SlugAccepted(slug: Option<string>): (ok: bool)
    ensures ok ==> slug.Some? && 4 <= |slug.value| <= 20
    ensures slug.None? || slug.value == "" ==> !ok
  {
    slug.Some? && slug.value != "" && ValidSlug(slug.value)
  }

  /** "TEAM01" is accepted; slugs that are too short, too long, or carry a
      character outside [a-zA-Z0-9] are not. */
  lemma SlugExamples()
    ensures ValidSlug("TEAM01") && ValidSlug("abcd") && ValidSlug("0123456789abcdefABCD")
    ensures !ValidSlug("abc") && !ValidSlug("0123456789abcdefABCDE")
    ensures !ValidSlug("team-01") && !ValidSlug("team 01") && !ValidSlug("")
  {
    assert "team-01"[4] == '-';
    assert "team 01"[4] == ' ';
  }

  /** The presence test adds nothing to the pattern: a matching slug is never
      empty, so exactly the present slugs that match are accepted. */
  lemma AcceptedIffMatches(slug: Option<string>)
    ensures SlugAccepted(slug) <==> slug.Some? && ValidSlug(slug.value)
  {
    if slug.Some? && ValidSlug(slug.value) {
      assert |slug.value| >= 4;
    }
  }

  // ---------------------------------------------------------------------------
  // Authorization

  /** `room.owner.toString() === userId`: the stored owner id is the caller's
      id. The owner of a well-formed room is always one of its members, which
      is what lets the note handlers test membership alone. */
  predicate IsOwner(r: Room, u: UserId): (ok: bool)
    ensures ok && WellFormed(r) ==> IsMember(r, u)
  {
    r.owner == u
  }

  /** `members.includes(u)`: some position of the member list holds `u`. Used
      as the join guard, it is what keeps the list free of duplicates. */
  predicate IsMember(r: Room, u: UserId): (ok: bool)
    ensures !ok && Distinct(r.members) ==> Distinct(r.members + [u])
  {
    u in r.members
  }

  /** Reading a room is allowed to its owner and to its members; in a
      well-formed room those are exactly the members, so the read handler and
      the note handlers grant the same users. */
  predicate CanRead(r: Room, u: UserId): (ok: bool)
    ensures WellFormed(r) ==> (ok <==> IsMember(r, u))
  {
    IsOwner(r, u) || IsMember(r, u)
  }

  // ---------------------------------------------------------------------------
  // The room invariant

  predicate Distinct<T(==)>(s: seq<T>) {
    forall i, j :: 0 <= i < j < |s| ==> s[i] != s[j]
  }

  /** Note ids are unique within their room. */
  predicate NoteIdsDistinct(notes: seq<Note>) {
    forall i, j :: 0 <= i < j < |notes| ==> notes[i].id != notes[j].id
  }

  /** Every note id was handed out before `next`. */
  predicate NoteIdsBelow(notes: seq<Note>, next: NoteId) {
    forall i :: 0 <= i < |notes| ==> notes[i].id < next
  }

  /** What every stored room satisfies: its slug matches the rule, the owner is
      a member, nobody is listed twice, and its note ids are unique. */
  predicate WellFormed(r: Room) {
    ValidSlug(r.slug) && r.owner in r.members && Distinct(r.members) && NoteIdsDistinct(r.notes)
  }

  /** A room as the create handler builds it. */
  function NewRoom(slug: string, name: string, description: string, owner: UserId): (r: Room)
    requires ValidSlug(slug)
    ensures WellFormed(r) && r.members == [owner] && r.notes == []
    ensures IsOwner(r, owner) && forall u :: CanRead(r, u) <==> u == owner
  {
    Room(slug, name, description, owner, [owner], [])
  }

  // ---------------------------------------------------------------------------
  // Stores of rooms

  /** Some room in `rooms` holds `slug`. */
  predicate SlugHeld(rooms: map<RoomKey, Room>, slug: string) {
    exists k :: k in rooms && rooms[k].slug == slug
  }

  /** No two rooms hold the same slug. */
  predicate SlugsUnique(rooms: map<RoomKey, Room>) {
    forall k1, k2 :: k1 in rooms && k2 in rooms && rooms[k1].slug == rooms[k2].slug ==> k1 == k2
  }

  /** The room holding `slug`; with unique slugs there is only one. */
  ghost function RoomWithSlug(rooms: map<RoomKey, Room>, slug: string): (k: RoomKey)
    requires SlugHeld(rooms, slug)
    ensures k in rooms && rooms[k].slug == slug
  {
    var k :| k in rooms && rooms[k].slug == slug; k
  }
}
