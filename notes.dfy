/**
  The ordered note collection of a room: lookup by id, the field update with its
  "a blank value keeps the old one" rule, and removal by position.
 */
module Notes {
  import opened Aggregate

  /** `notes.id(noteId)`: the position of the first note carrying `id`, if any. */
  function FindNote(notes: seq<Note>, id: NoteId): (r: Option<nat>)
    ensures r.None? <==> forall j :: 0 <= j < |notes| ==> notes[j].id != id
    ensures r.Some? ==> r.value < |notes| && notes[r.value].id == id
    ensures r.Some? ==> forall j :: 0 <= j < r.value ==> notes[j].id != id
  {
    if notes == [] then None
    else if notes[0].id == id then Some(0)
    else match FindNote(notes[1..], id)
      case None => None
      case Some(k) => Some(k + 1)
  }

  /** With unique ids, the note found is the only note carrying that id. */
  lemma FoundIsUnique(notes: seq<Note>, id: NoteId, j: nat)
    requires NoteIdsDistinct(notes) && j < |notes| && notes[j].id == id
    ensures FindNote(notes, id) == Some(j)
  {
  }

  /** JavaScript truthiness of an optional string field of the request body:
      a missing value and the empty string are falsy. */
  predicate Blank(v: Option<string>): (falsy: bool)
    ensures v.Some? && |v.value| > 0 ==> !falsy
    ensures falsy ==> v.None? || |v.value| == 0
  {
    v.None? || v.value == ""
  }

  /** `given || previous`: a blank value never clobbers the stored one. */
  function Patch(previous: string, given: Option<string>): (r: string)
    ensures Blank(given) ==> r == previous
    ensures !Blank(given) ==> r == given.value
    ensures r == previous || r == given.value
  {
    if Blank(given) then previous else given.value
  }

  /** The note after an update by `editor` at time `now`: id kept, each field
      overwritten only by a non-blank value, edit time and editor refreshed. */
  function Revised(n: Note, title: Option<string>, content: Option<string>, now: int, editor: UserId): (m: Note)
    ensures m.id == n.id
    ensures m.title == (if Blank(title) then n.title else title.value)
    ensures m.content == (if Blank(content) then n.content else content.value)
    ensures m.lastUpdated == now && m.updatedBy == editor
  {
    n.(title := Patch(n.title, title), content := Patch(n.content, content),
       lastUpdated := now, updatedBy := editor)
  }

  /** Repeating the same update at the same time by the same editor changes
      nothing more. */
  lemma ReviseIdempotent(n: Note, title: Option<string>, content: Option<string>, now: int, editor: UserId)
    ensures Revised(Revised(n, title, content, now, editor), title, content, now, editor)
         == Revised(n, title, content, now, editor)
  {
  }

  /** An update that supplies only blank values touches nothing but the edit
      time and the editor. */
  lemma BlankUpdateKeepsText(n: Note, now: int, editor: UserId)
    ensures var m := Revised(n, Some(""), None, now, editor);
            m.title == n.title && m.content == n.content && m.id == n.id
  {
  }

  /** `note.remove()` on the embedded array: the note at position `i` is gone and
      every other note keeps its relative order. */
  function RemoveAt(notes: seq<Note>, i: nat): (r: seq<Note>)
    requires i < |notes|
    ensures |r| == |notes| - 1
    ensures forall j :: 0 <= j < i ==> r[j] == notes[j]
    ensures forall j :: i <= j < |r| ==> r[j] == notes[j + 1]
  {
    notes[..i] + notes[i + 1..]
  }

  /** Removing the note found for `id` leaves ids unique and leaves no note
      with that id behind. */
  lemma RemoveFound(notes: seq<Note>, id: NoteId, i: nat)
    requires NoteIdsDistinct(notes) && FindNote(notes, id) == Some(i)
    ensures NoteIdsDistinct(RemoveAt(notes, i))
    ensures FindNote(RemoveAt(notes, i), id).None?
  {
    var r := RemoveAt(notes, i);
    forall a, b | 0 <= a < b < |r| ensures r[a].id != r[b].id {
      var a' := if a < i then a else a + 1;
      var b' := if b < i then b else b + 1;
      assert r[a] == notes[a'] && r[b] == notes[b'];
    }
  }

  /** Removing the note found for `id` loses no other note: what remains is
      exactly the notes with a different id. */
  lemma RemoveFoundKeepsOthers(notes: seq<Note>, id: NoteId, i: nat)
    requires NoteIdsDistinct(notes) && FindNote(notes, id) == Some(i)
    ensures forall n :: n in RemoveAt(notes, i) <==> n in notes && n.id != id
  {
    var r := RemoveAt(notes, i);
    forall n ensures n in r <==> n in notes && n.id != id {
      if n in r {
        var j :| 0 <= j < |r| && r[j] == n;
        var j' := if j < i then j else j + 1;
        assert notes[j'] == n && j' != i;
      }
      if n in notes && n.id != id {
        var j :| 0 <= j < |notes| && notes[j] == n;
        assert j != i;
        assert r[if j < i then j else j - 1] == n;
      }
    }
  }

  /** Removing a note keeps every remaining id below the next one to hand out. */
  lemma RemoveKeepsBelow(notes: seq<Note>, i: nat, next: NoteId)
    requires NoteIdsBelow(notes, next) && i < |notes|
    ensures NoteIdsBelow(RemoveAt(notes, i), next)
  {
    var r := RemoveAt(notes, i);
    forall j | 0 <= j < |r| ensures r[j].id < next {
      assert r[j] == notes[if j < i then j else j + 1];
    }
  }

  /** Replacing the note at `i` with one carrying the same id keeps ids unique
      and bounded, and changes no other note. */
  lemma ReplaceKeepsIds(notes: seq<Note>, i: nat, m: Note, next: NoteId)
    requires NoteIdsDistinct(notes) && NoteIdsBelow(notes, next)
    requires i < |notes| && m.id == notes[i].id
    ensures NoteIdsDistinct(notes[i := m]) && NoteIdsBelow(notes[i := m], next)
  {
  }

  /** Appending a note with an id never handed out keeps ids unique and bounded. */
  lemma AppendFresh(notes: seq<Note>, m: Note, next: NoteId)
    requires NoteIdsDistinct(notes) && NoteIdsBelow(notes, next) && m.id == next
    ensures NoteIdsDistinct(notes + [m]) && NoteIdsBelow(notes + [m], next + 1)
    ensures FindNote(notes + [m], m.id) == Some(|notes|)
  {
    var s := notes + [m];
    forall a | 0 <= a < |notes| ensures s[a] == notes[a] && s[a].id < m.id {
    }
    assert s[|notes|] == m;
    var f := FindNote(s, m.id);
    assert f.Some?;
    assert f.value == |notes|;
  }

  /** Creating a note and then deleting it by the id it was given restores the
      note list exactly. */
  lemma CreateThenDelete(notes: seq<Note>, m: Note)
    requires forall n :: n in notes ==> n.id != m.id
    ensures FindNote(notes + [m], m.id) == Some(|notes|)
    ensures RemoveAt(notes + [m], |notes|) == notes
  {
    var s := notes + [m];
    forall j | 0 <= j < |notes| ensures s[j].id != m.id {
      assert s[j] == notes[j] && notes[j] in notes;
    }
    assert s[|notes|] == m;
    assert s[..|notes|] == notes;
  }
}
