/**
 * The process-wide store the repository functions work on: the three tables and
 * their key sequences, updated in place by one method per operation. Each method
 * is proved to leave exactly the tables its specification function describes.
 */
module NoteStore {
  import opened Wrappers
  import opened Tables
  import opened TableLemmas
  import opened Input

  class Store {
    /** `notes`: key to text. */
    var notes: map<int, string>
    /** `tags`, in insertion order. */
    var tags: seq<Tag>
    /** `note_tags`: key to row. */
    var noteTags: map<int, NoteTag>
    /** The next key of each table's sequence. */
    var nextNoteId: int
    var nextTagId: int
    var nextNoteTagId: int

    /** The tables as a value. */
    function Snapshot(): Db
      reads this
    {
      Db(notes, tags, noteTags, nextNoteId, nextTagId, nextNoteTagId)
    }

    /** Referential integrity and fresh keys. */
    predicate Valid()
      reads this
    {
      Tables.Valid(Snapshot())
    }

    /** A freshly created, empty schema. */
    constructor ()
      ensures Valid() && Snapshot() == Empty
    {
      notes := map[];
      tags := [];
      noteTags := map[];
      nextNoteId := 1;
      nextTagId := 1;
      nextNoteTagId := 1;
    }

    /**
     * The lookup loop of `add_note(text, tag_names)`: for each name in turn, the key
     * of the earliest stored tag with exactly that name, or else a tag constructed
     * with that name and the next unused tag key. Nothing is stored yet, so later
     * names do not see the tags constructed for earlier ones.
     */
    method ResolveTags(names: seq<string>) returns (chosen: seq<int>, created: seq<Tag>)
      ensures Resolution(chosen, created) == Resolve(tags, nextTagId, names)
    {
      chosen, created := [], [];
      var i := 0;
      while i < |names|
        invariant 0 <= i <= |names|
        invariant Resolution(chosen, created) == Resolve(tags, nextTagId, names[..i])
      {
        var name := names[i];
        assert names[..i + 1][..i] == names[..i];
        match FirstTagNamed(tags, name) {
          case Some(j) =>
            chosen := chosen + [tags[j].id];
          case None =>
            var tag := Tag(nextTagId + |created|, name);
            chosen := chosen + [tag.id];
            created := created + [tag];
        }
        i := i + 1;
      }
      assert names[..i] == names;
    }

    /**
     * `add_note(text, tag_names)`: resolve the names, then store in one commit the
     * note, the constructed tags and one join row per name.
     */
    method AddNote(text: string, tagNames: seq<string>)
      requires Valid()
      modifies this
      ensures Valid()
      ensures Snapshot() == AfterAdd(old(Snapshot()), text, tagNames)
    {
      ghost var before := Snapshot();
      var chosen, created := ResolveTags(tagNames);
      notes, tags, noteTags, nextNoteId, nextTagId, nextNoteTagId :=
        notes[nextNoteId := text],
        tags + created,
        noteTags + JoinRows(nextNoteTagId, nextNoteId, chosen),
        nextNoteId + 1,
        nextTagId + |created|,
        nextNoteTagId + |chosen|;
      assert Snapshot() == AfterAdd(before, text, tagNames);
      AddPreservesValid(before, text, tagNames);
    }

    /**
     * `delete_note(note_id)`: when the note exists, delete its join rows and then
     * the note; otherwise do nothing.
     */
    method DeleteNote(noteId: int)
      requires Valid()
      modifies this
      ensures Valid()
      ensures Snapshot() == AfterDelete(old(Snapshot()), noteId)
    {
      DeletePreservesValid(Snapshot(), noteId);
      if noteId in notes {
        noteTags := RowsNotOf(noteTags, noteId);
        notes := notes - {noteId};
      }
    }

    /** `edit_note(note_id, new_text)`: overwrite the note's text when it exists. */
    method EditNote(noteId: int, text: string)
      requires Valid()
      modifies this
      ensures Valid()
      ensures Snapshot() == AfterEdit(old(Snapshot()), noteId, text)
    {
      EditPreservesValid(Snapshot(), noteId, text);
      if noteId in notes {
        notes := notes[noteId := text];
      }
    }
  }

  /**
   * The add button: strip the note text and, when it is not blank, add it with the
   * tags parsed from the tag field; a blank text leaves the store as it was.
   */
  method SubmitNote(store: Store, noteField: string, tagField: string)
    requires store.Valid()
    modifies store
    ensures store.Valid()
    ensures Blank(noteField) ==> store.Snapshot() == old(store.Snapshot())
    ensures !Blank(noteField) ==>
      store.Snapshot() == AfterAdd(old(store.Snapshot()), Strip(noteField), ParseTags(tagField))
  {
    match ParseAddInput(noteField, tagField)
    case None =>
    case Some(request) =>
      store.AddNote(request.text, request.tagNames);
  }
}
