# Notes with tags: a verified model of the note/tag repository

The program is a small desktop note keeper. Notes are stored in a relational
database together with free-form tags. A many-to-many join table links them. The
repository layer offers four operations:

- `add_note(text, tag_names)` finds or creates a tag for each name, then stores a
  note linked to those tags.
- `delete_note(note_id)` removes a note and its links.
- `edit_note(note_id, new_text)` replaces a note's text.
- `search_notes_by_tag(tag_name)` returns the notes linked to the first tag with
  exactly that name.

The window's "add" button strips the note text and ignores blank text. It cuts
the tag field at commas and strips every piece.

This project models that core in Dafny:

- `Tables` (`tables.dfy`) holds the schema as values. `Db` has the `notes`,
  `tags` and `note_tags` tables and one key sequence per table. The module also
  defines:
  - the referential-integrity invariant `Valid`;
  - the tag lookup `FirstTagNamed`. It returns the earliest matching row, a
    choice for `.first()` without an ordering (see "## Left out");
  - the find-or-create loop `Resolve`;
  - the effect of each operation, as `AfterAdd`, `AfterDelete` and `AfterEdit`;
  - the query `SearchNotesByTag`.
- `TableLemmas` (`table_lemmas.dfy`) proves what each operation promises. It
  covers:
  - which tag `add_note` picks for each name and when it creates one;
  - that `add_note` only adds;
  - that `delete_note` and `edit_note` have effect and frame conditions and do
    nothing on a missing id;
  - that every operation preserves `Valid`;
  - how each operation changes every later search.
- `NoteStore` (`store.dfy`) holds the process-wide store: the class `Store`,
  whose fields are the three tables. `AddNote`, `DeleteNote` and `EditNote`
  update the fields in place, and each is proved to produce exactly the tables its specification
  function gives. The lookup loop of `add_note` is the method `ResolveTags`.
  `SubmitNote` is the add button.
- `Input` (`input.dfy`) holds the parsing: Python's `strip`, `split(',')` and the
  handler's guard and list comprehension. It proves a split/join round trip both
  ways, and that typed tags parse back to themselves.

Modelling decisions:

- **Keys.** Keys come from serial sequences that start at 1 and are never reused.
  The invariant keeps every key below its sequence's next value, so a fresh key
  never collides.
- **Tag table.** The tag table is a sequence in insertion order. Tag names are
  not unique, and `.first()` has no ordering, so the model picks the earliest
  matching row.
- **Lookups in `add_note`.** Each lookup sees only the tags stored before the
  call. The tags the loop constructs are not in the session until the note is
  added. So a name that is new and given twice yields two tags with that name
  (`RepeatedNewNameCreatesTwoTags`). Distinct names keep a table of unique names
  unique (`AddKeepsNamesUnique`).
- **Join rows.** `add_note` stores one join row per entry of `tag_names`, in
  order, with consecutive keys. Repeated entries are included.
- **Empty tag field.** Splitting an empty string yields one empty piece. A blank
  tag field therefore attaches a tag named by the empty string
  (`Input.BlankTagField`).
- **Search results.** A search result is a map from note key to text. The order
  and repetition of the ORM's result list are not modelled. A join row counts
  only when its note exists, as an SQL join behaves.
- **Whitespace.** `strip` removes the characters for which Python's
  `str.isspace()` holds.

## Model

| member | source | states |
|---|---|---|
| Tables.Valid | 112/main.py:13-55 | The schema's integrity: note and tag keys lie below their sequence's next value, tag keys increase along the table, and every `note_tags` row refers to an existing note and an existing tag. |
| Tables.FirstTagNamed | 112/main.py:66 | The lookup finds a row with exactly that name and no earlier such row, and finds nothing exactly when no row has that name. |
| Tables.FirstTagNamedFrom | 112/main.py:66 | The same lookup, starting from a given position. |
| Tables.JoinRows | 112/main.py:71-73 | The join rows for a new note have exactly the consecutive keys from the first free one, and the i-th links the note to the i-th chosen tag. |
| Tables.Resolve | 112/main.py:65-70 | The find-or-create loop: one chosen key per entry. Its meaning is stated by TableLemmas.ResolveChosen, ResolveCreatedAbsent, ResolveCreatedChosen and ResolveCreatedKeys. |
| Tables.AfterAdd | 112/main.py:64-73 | The tables after `add_note`. It has no contract of its own; TableLemmas.AddOnlyAdds, AddNoteRows, AddLinksEntry, AddCreatesOnlyAbsent and AddPreservesValid state its meaning. |
| Tables.AfterDelete | 112/main.py:75-82 | The tables after `delete_note`. It has no contract of its own; TableLemmas.DeleteEffect, MissingNoteIsNoOp and DeletePreservesValid state its meaning. |
| Tables.AfterEdit | 112/main.py:84-88 | The tables after `edit_note`. It has no contract of its own; TableLemmas.EditEffect, MissingNoteIsNoOp and EditPreservesValid state its meaning. |
| Tables.SearchNotesByTag | 112/main.py:90-92 | No tag with that name gives no notes. Otherwise the result is exactly the existing notes that a join row links to the tag the lookup finds, each with its stored text. |
| TableLemmas.SearchFindsLinkedNotes | 112/main.py:90-92 | For the earliest tag named exactly `name`, the search returns exactly the existing notes linked to it, with their stored text. |
| TableLemmas.ResolveChosen | 112/main.py:65-70 | For every name, the chosen tag is the earliest stored tag with exactly that name when there is one, and otherwise a constructed tag with that name. |
| TableLemmas.ResolveCreatedAbsent | 112/main.py:68-69 | A tag is constructed only for a name that no stored tag carries. |
| TableLemmas.ResolveCreatedChosen | 112/main.py:68-70 | Every constructed tag is the one chosen for some entry with its name. |
| TableLemmas.ResolveCreatedKeys | 112/main.py:68-72 | At most one tag is constructed per entry of `tag_names`, and the constructed tags get consecutive fresh keys. |
| TableLemmas.AllKnownCreatesNothing | 112/main.py:66-69 | When every name already has a stored tag, no tag is created. |
| TableLemmas.FirstTagNamedPrefix | 112/main.py:66 | Appending tag rows never changes a lookup that already succeeds. |
| TableLemmas.FirstTagNamedSuffix | 112/main.py:66 | A lookup that fails on the old rows finds the earliest match among the appended rows. |
| TableLemmas.AddPreservesValid | 112/main.py:64-73 | `add_note` keeps the integrity invariant. |
| TableLemmas.AddOnlyAdds | 112/main.py:64-73 | `add_note` adds one note with a fresh key and the given text. Every old note, old tag row and old join row stays as it was. |
| TableLemmas.AddNoteRows | 112/main.py:71-73 | The new note has exactly one join row per entry of `tag_names`. |
| TableLemmas.AddLinksEntry | 112/main.py:65-73 | The join row for entry i links the new note to a stored tag named `tag_names[i]`. That tag is the earliest existing tag with the name when one exists. |
| TableLemmas.AddCreatesOnlyAbsent | 112/main.py:66-70 | Every tag row `add_note` adds carries one of the given names. No old tag carries that name. When all names exist, no tag is added. |
| TableLemmas.SecondAddReusesTag | 112/main.py:66-69 | Once a name has been added, a later `add_note` never creates another tag with that name. |
| TableLemmas.AddKeepsNamesUnique | 112/main.py:64-73 | With distinct names and unique stored names, tag names stay unique. |
| TableLemmas.RepeatedNewNameCreatesTwoTags | 112/main.py:65-70 | A new name given twice in one call creates two tags with that name. |
| TableLemmas.MissingNoteIsNoOp | 112/main.py:75-77 | `delete_note` and `edit_note` on a missing key leave the whole store unchanged. |
| TableLemmas.DeleteEffect | 112/main.py:75-82 | Deleting an existing note removes it and exactly its join rows. All tags stay, including orphans, and so do all other notes and join rows. Integrity is kept. |
| TableLemmas.DeletePreservesValid | 112/main.py:75-82 | `delete_note` keeps the integrity invariant, whether or not the note exists. |
| TableLemmas.EditEffect | 112/main.py:84-88 | Editing an existing note changes only that note's text. Keys, other notes, tags and join rows are untouched. |
| TableLemmas.EditPreservesValid | 112/main.py:84-88 | `edit_note` keeps the integrity invariant, whether or not the note exists. |
| TableLemmas.LinkedAfterAdd | 112/main.py:71-73 | After `add_note`, a note is linked to a tag exactly when it was before, or it is the new note and the tag was chosen. |
| TableLemmas.SearchAfterAddStoredName | 112/main.py:90-92 | For a name already stored, a search after `add_note` returns the earlier result, plus the new note when the name was given. |
| TableLemmas.SearchAfterAddUnknownName | 112/main.py:90-92 | A name neither stored nor given still finds nothing after `add_note`. |
| TableLemmas.SearchAfterAddFirstUse | 112/main.py:90-92 | A name given for the first time finds exactly the new note. |
| TableLemmas.SearchAfterAdd | 112/main.py:90-92 | A search after `add_note` returns the earlier result, plus the new note exactly when the name was one of `tag_names`. |
| TableLemmas.SearchAfterDelete | 112/main.py:90-92 | A search after `delete_note` returns the earlier result without the deleted note. |
| TableLemmas.SearchAfterEdit | 112/main.py:90-92 | A search after `edit_note` returns the same notes, with the edited note's new text. |
| NoteStore.Store.constructor | 112/main.py:57-61 | A new store holds empty tables and satisfies the invariant. |
| NoteStore.Store.ResolveTags | 112/main.py:65-70 | The lookup loop returns, for the names processed in order, exactly the chosen keys and constructed tags of the find-or-create specification. |
| NoteStore.Store.AddNote | 112/main.py:64-73 | The fields end up as the tables after `add_note`, and the invariant is kept. |
| NoteStore.Store.DeleteNote | 112/main.py:75-82 | The fields end up as the tables after `delete_note`, and the invariant is kept. |
| NoteStore.Store.EditNote | 112/main.py:84-88 | The fields end up as the tables after `edit_note`, and the invariant is kept. |
| NoteStore.SubmitNote | 112/main.py:148-152 | A blank note text leaves the store unchanged. Otherwise the store gains the stripped text with the parsed tags. |
| Input.IsSpace | 112/main.py:149-152 | The characters `strip()` removes: those for which Python's `str.isspace()` holds. It has no contract of its own; Input.Strip states what removing them means. |
| Input.LeadingSpaces | 112/main.py:149-150 | The count of leading whitespace characters, stopping at the first non-whitespace one. |
| Input.TrailingSpaces | 112/main.py:149-150 | The count of trailing whitespace characters, stopping at the last non-whitespace one. |
| Input.Strip | 112/main.py:149-150 | The result is the slice of the input between its outer whitespace, it has no whitespace at either end, and it is empty exactly when the input is blank. |
| Input.StripTrimmed | 112/main.py:152 | A string without outer whitespace strips to itself. |
| Input.StripIdempotent | 112/main.py:152 | Stripping twice is stripping once. |
| Input.Split | 112/main.py:150 | Splitting at commas yields at least one piece, no piece contains the separator, and joining the pieces gives back the input. |
| Input.SplitJoin | 112/main.py:150 | Splitting pieces that were joined without separators inside gives back those pieces. |
| Input.ParseTags | 112/main.py:150-152 | One tag per comma-separated piece of the stripped field. Each tag is that piece stripped, and has no comma and no outer whitespace. |
| Input.BlankTagField | 112/main.py:150-152 | A blank tag field gives the single empty tag name. |
| Input.SingleTag | 112/main.py:150-152 | A field without commas gives one tag: the stripped field. |
| Input.JoinTrimmed | 112/main.py:150-152 | Joining stripped pieces with a comma gives a string with no outer whitespace. |
| Input.ParseTagsJoin | 112/main.py:150-152 | Tags without commas or outer whitespace, typed comma-separated, parse back to exactly those tags. |
| Input.ParseAddInput | 112/main.py:148-152 | No request exactly when the note text is blank. Otherwise the request holds the non-empty stripped text and the parsed tags. |

## Left out

- The window, its widgets, the list display, the selection and text dialogs, and the icon (112/main.py:95-193). These are GUI calls. Only the add handler is modelled.
- The other button handlers (112/main.py:157-181). The delete handler passes the selected note's key to `delete_note`. The edit handler calls `edit_note` only when the dialog is accepted with non-empty text, which is not stripped. The search handler strips the typed name and searches only when it is not empty. These guards are not modelled; the operations they call are.
- The database engine, the connection string, `create_all`, the session and `commit` (112/main.py:57-61, 72-73, 81-82, 88). Each operation is modelled as one atomic change of the tables. Database errors and rollback are not modelled.
- Concurrent writers and the race in find-or-create. The program runs on a single thread.
- The order of `session.query(Note).all()` in the list display (112/main.py:184). It is unspecified.
- Tables.FirstTagNamed: `.first()` (112/main.py:67, 91) has no ORDER BY, so the database may return any row with the name. The model always takes the earliest row. TableLemmas.AddLinksEntry's "earliest" clause, and searches by a name stored more than once, depend on that choice.
- NoteStore.Store.constructor: it gives the empty tables of a first start. The database persists between runs, and `create_all` keeps the rows already stored (112/main.py:58-61). A restart with stored rows is covered only through the lemmas, which hold for every snapshot that satisfies `Valid`.
- Tables.SearchNotesByTag: the result is a map from note key to text. The order and any repetition of the ORM's `tag.notes` list are not modelled.
- Tables.AfterAdd: one join row per entry of `tag_names`, repeated entries included. Whether the ORM merges a tag object that appears twice in the list is not modelled.
- Tables.Tag: the 50-character limit of the `names` column is not enforced. PostgreSQL rejects a longer name, and that error path is left out along with the other database errors.
- Input.IsSpace: Python's whitespace set is written out as a fixed list of code points. Unicode database updates are not tracked.
