/**
 * The note/tag schema as plain values: the three tables, the referential-integrity
 * invariant, the tag lookup, and the effect of each repository operation on a
 * snapshot of the tables.
 *
 * Surrogate keys are modelled as serial counters that start at 1 and are never
 * reused, one per table.
 */
module Tables {
  import opened Wrappers

  /** A row of `tags`: its key and its (not necessarily unique) name. */
  datatype Tag = Tag(id: int, name: string)

  /** A row of `note_tags` without its key: the note it links and the tag it links. */
  datatype NoteTag = NoteTag(noteId: int, tagId: int)

  /**
   * The whole store. `notes` maps a note's key to its text, `tags` keeps the tag rows
   * in insertion order (a lookup takes the earliest match), `noteTags` maps a join
   * row's key to the row. The `next…` fields are the values each key sequence hands
   * out next.
   */
  datatype Db = Db(
    notes: map<int, string>,
    tags: seq<Tag>,
    noteTags: map<int, NoteTag>,
    nextNoteId: int,
    nextTagId: int,
    nextNoteTagId: int)

  /** The tables of a freshly created schema. */
  const Empty: Db := Db(map[], [], map[], 1, 1, 1)

  /** Some row of `tags` has key `id`. */
  predicate HasTag(tags: seq<Tag>, id: int)
  {
    exists i :: 0 <= i < |tags| && tags[i].id == id
  }

  /** Some join row links note `noteId` to tag `tagId`. */
  predicate Linked(noteTags: map<int, NoteTag>, noteId: int, tagId: int)
  {
    exists k :: k in noteTags && noteTags[k] == NoteTag(noteId, tagId)
  }

  /** Note keys lie in [1, next note key). */
  predicate NoteKeysValid(notes: map<int, string>, nextNoteId: int)
  {
    && 1 <= nextNoteId
    && forall id :: id in notes ==> 1 <= id < nextNoteId
  }

  /** Tag keys lie in [1, next tag key) and increase along the table. */
  predicate TagKeysValid(tags: seq<Tag>, nextTagId: int)
  {
    && 1 <= nextTagId
    && (forall i :: 0 <= i < |tags| ==> 1 <= tags[i].id < nextTagId)
    && (forall i, j :: 0 <= i < j < |tags| ==> tags[i].id < tags[j].id)
  }

  /** The join row keyed `k` has a key in range and refers to an existing note and tag. */
  predicate JoinRowValid(db: Db, k: int)
    requires k in db.noteTags
  {
    && 1 <= k < db.nextNoteTagId
    && db.noteTags[k].noteId in db.notes
    && HasTag(db.tags, db.noteTags[k].tagId)
  }

  /**
   * The invariant every operation keeps: keys lie below their sequence's next value
   * (so a fresh key never collides), tag keys increase along the table, and every
   * join row refers to an existing note and an existing tag.
   */
  predicate Valid(db: Db)
  {
    && NoteKeysValid(db.notes, db.nextNoteId)
    && TagKeysValid(db.tags, db.nextTagId)
    && 1 <= db.nextNoteTagId
    && (forall k :: k in db.noteTags ==> JoinRowValid(db, k))
  }

  /** The position of the earliest tag row at or after position `i` whose name is exactly `name`. */
  function FirstTagNamedFrom(tags: seq<Tag>, name: string, i: nat): (r: Option<nat>)
    requires i <= |tags|
    ensures r.Some? ==> i <= r.value < |tags| && tags[r.value].name == name
    ensures r.Some? ==> forall k :: i <= k < r.value ==> tags[k].name != name
    ensures r.None? <==> forall k :: i <= k < |tags| ==> tags[k].name != name
    decreases |tags| - i
  {
    if i == |tags| then None
    else if tags[i].name == name then Some(i)
    else FirstTagNamedFrom(tags, name, i + 1)
  }

  /**
   * The position of the earliest tag row whose name is exactly `name`, or None
   * when there is no such row (the `filter_by(names=…).first()` lookup).
   */
  function FirstTagNamed(tags: seq<Tag>, name: string): (r: Option<nat>)
    ensures r.Some? ==> r.value < |tags| && tags[r.value].name == name
    ensures r.Some? ==> forall i :: 0 <= i < r.value ==> tags[i].name != name
    ensures r.None? <==> forall i :: 0 <= i < |tags| ==> tags[i].name != name
  {
    FirstTagNamedFrom(tags, name, 0)
  }

  /** Any row that has the name while no earlier row has it is the one the lookup finds. */
  lemma EarliestMatchIsFirst(tags: seq<Tag>, name: string)
    ensures forall j :: 0 <= j < |tags| && tags[j].name == name && (forall p :: 0 <= p < j ==> tags[p].name != name) ==>
      FirstTagNamed(tags, name) == Some(j)
  {
    forall j | 0 <= j < |tags| && tags[j].name == name && (forall p :: 0 <= p < j ==> tags[p].name != name)
      ensures FirstTagNamed(tags, name) == Some(j)
    {
      var f := FirstTagNamed(tags, name);
      assert f.Some?;
      assert !(f.value < j) && !(j < f.value);
    }
  }

  /**
   * What the lookup loop of `add_note` produces for the names it has seen so far:
   * the key of the tag chosen for each name, and the tag rows it had to construct.
   */
  datatype Resolution = Resolution(chosen: seq<int>, created: seq<Tag>)

  /**
   * The find-or-create loop over `names`, processed left to right. Each lookup sees
   * only `tags`, the table as it stood before the call, because the tags built by
   * earlier iterations are not stored until the note is. A name with no stored match
   * gets a new tag, whose key is the next one the tag sequence will hand out.
   */
  function Resolve(tags: seq<Tag>, nextTagId: int, names: seq<string>): (r: Resolution)
    ensures |r.chosen| == |names|
    decreases |names|
  {
    if names == [] then Resolution([], [])
    else
      var prev := Resolve(tags, nextTagId, names[..|names| - 1]);
      var name := names[|names| - 1];
      match FirstTagNamed(tags, name)
      case Some(j) => Resolution(prev.chosen + [tags[j].id], prev.created)
      case None =>
        var t := Tag(nextTagId + |prev.created|, name);
        Resolution(prev.chosen + [t.id], prev.created + [t])
  }

  /** The join rows, keyed from `firstKey` on, that link `noteId` to each of `tagIds` in turn. */
  function JoinRows(firstKey: int, noteId: int, tagIds: seq<int>): (r: map<int, NoteTag>)
    ensures forall k :: k in r <==> firstKey <= k < firstKey + |tagIds|
    ensures forall i :: 0 <= i < |tagIds| ==> r[firstKey + i] == NoteTag(noteId, tagIds[i])
  {
    if tagIds == [] then map[]
    else
      var last := |tagIds| - 1;
      JoinRows(firstKey, noteId, tagIds[..last])[firstKey + last := NoteTag(noteId, tagIds[last])]
  }

  /**
   * The tables after `add_note(text, names)` commits: one new note, the tags the
   * lookup loop constructed appended in order, and one join row per entry of `names`.
   */
  function AfterAdd(db: Db, text: string, names: seq<string>): (r: Db)
  {
    var res := Resolve(db.tags, db.nextTagId, names);
    Db(db.notes[db.nextNoteId := text],
       db.tags + res.created,
       db.noteTags + JoinRows(db.nextNoteTagId, db.nextNoteId, res.chosen),
       db.nextNoteId + 1,
       db.nextTagId + |res.created|,
       db.nextNoteTagId + |res.chosen|)
  }

  /** The join rows that do not belong to note `noteId`. */
  function RowsNotOf(noteTags: map<int, NoteTag>, noteId: int): (r: map<int, NoteTag>)
    ensures forall k :: k in r <==> k in noteTags && noteTags[k].noteId != noteId
    ensures forall k :: k in r ==> r[k] == noteTags[k]
  {
    map k | k in noteTags && noteTags[k].noteId != noteId :: noteTags[k]
  }

  /**
   * The tables after `delete_note(noteId)`: nothing when there is no such note,
   * otherwise its join rows and then the note itself are gone. Tags are kept.
   */
  function AfterDelete(db: Db, noteId: int): (r: Db)
  {
    if noteId !in db.notes then db
    else db.(notes := db.notes - {noteId}, noteTags := RowsNotOf(db.noteTags, noteId))
  }

  /** The tables after `edit_note(noteId, text)`: nothing when there is no such note. */
  function AfterEdit(db: Db, noteId: int, text: string): (r: Db)
  {
    if noteId !in db.notes then db
    else db.(notes := db.notes[noteId := text])
  }

  /**
   * `search_notes_by_tag(name)`: the notes (key to text) joined to the earliest tag
   * named exactly `name`; no notes when there is no such tag. Join rows are followed
   * only to notes that exist, as the SQL join does.
   */
  function SearchNotesByTag(db: Db, name: string): (r: map<int, string>)
    ensures (forall i :: 0 <= i < |db.tags| ==> db.tags[i].name != name) ==> r == map[]
    ensures forall id :: id in r ==> id in db.notes && r[id] == db.notes[id]
    ensures FirstTagNamed(db.tags, name).Some? ==>
      forall id :: id in r <==> id in db.notes && Linked(db.noteTags, id, db.tags[FirstTagNamed(db.tags, name).value].id)
  {
    match FirstTagNamed(db.tags, name)
    case None => map[]
    case Some(j) => map id | id in db.notes && Linked(db.noteTags, id, db.tags[j].id) :: db.notes[id]
  }
}
