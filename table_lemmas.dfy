/**
 * Properties of the repository operations on the tables: what `add_note` reuses,
 * creates and links, that every operation keeps referential integrity and leaves
 * the rest of the store alone, and how each operation changes what a search by
 * tag name returns.
 */
module TableLemmas {
  import opened Wrappers
  import opened Tables

  /** The key the find-or-create loop assigns to `name` is the right tag's key. */
  predicate ChosenFor(tags: seq<Tag>, created: seq<Tag>, name: string, id: int)
  {
    match FirstTagNamed(tags, name)
    case Some(j) => id == tags[j].id
    case None => exists k :: 0 <= k < |created| && created[k] == Tag(id, name)
  }

  /** No two rows of `tags` carry the same name. */
  predicate UniqueNames(tags: seq<Tag>)
  {
    forall i, j :: 0 <= i < j < |tags| ==> tags[i].name != tags[j].name
  }

  /** No name occurs twice in `names`. */
  predicate Distinct(names: seq<string>)
  {
    forall i, j :: 0 <= i < j < |names| ==> names[i] != names[j]
  }

  //
  // The find-or-create loop
  //

  /** One more iteration of the loop: what the last entry adds to the earlier entries' result. */
  lemma ResolveLast(tags: seq<Tag>, next: int, names: seq<string>)
    requires names != []
    ensures var n := |names| - 1;
      var prev := Resolve(tags, next, names[..n]);
      var r := Resolve(tags, next, names);
      && r.chosen[..n] == prev.chosen
      && match FirstTagNamed(tags, names[n])
         case Some(j) => r.created == prev.created && r.chosen[n] == tags[j].id
         case None =>
           && r.created == prev.created + [Tag(next + |prev.created|, names[n])]
           && r.chosen[n] == next + |prev.created|
  {
  }

  /** The loop keys the tags it constructs consecutively from the next tag key. */
  lemma {:induction false} ResolveCreatedKeys(tags: seq<Tag>, next: int, names: seq<string>, r: Resolution)
    requires r == Resolve(tags, next, names)
    ensures |r.created| <= |names|
    ensures forall k :: 0 <= k < |r.created| ==> r.created[k].id == next + k
    decreases |names|
  {
    if names != [] {
      var n := |names| - 1;
      ResolveCreatedKeys(tags, next, names[..n], Resolve(tags, next, names[..n]));
    }
  }

  /** The loop constructs a tag only for a name that no stored tag carries. */
  lemma {:induction false} ResolveCreatedAbsent(tags: seq<Tag>, next: int, names: seq<string>, r: Resolution)
    requires r == Resolve(tags, next, names)
    ensures forall k, j :: 0 <= k < |r.created| && 0 <= j < |tags| ==> tags[j].name != r.created[k].name
    decreases |names|
  {
    if names != [] {
      var n := |names| - 1;
      ResolveCreatedAbsent(tags, next, names[..n], Resolve(tags, next, names[..n]));
      ResolveLast(tags, next, names);
    }
  }

  /** Every tag the loop constructs is the one chosen for some entry carrying its name. */
  lemma {:induction false} ResolveCreatedChosen(tags: seq<Tag>, next: int, names: seq<string>, r: Resolution)
    requires r == Resolve(tags, next, names)
    ensures forall k :: 0 <= k < |r.created| ==>
      exists i :: 0 <= i < |names| && names[i] == r.created[k].name && r.chosen[i] == r.created[k].id
    decreases |names|
  {
    if names != [] {
      var n := |names| - 1;
      var prev := Resolve(tags, next, names[..n]);
      ResolveCreatedChosen(tags, next, names[..n], prev);
      ResolveLast(tags, next, names);
      assert |names[..n]| == n;
      forall k | 0 <= k < |r.created|
        ensures exists i :: 0 <= i < |names| && names[i] == r.created[k].name && r.chosen[i] == r.created[k].id
      {
        if k < |prev.created| {
          assert r.created[k] == prev.created[k];
          var i :| 0 <= i < n && names[..n][i] == prev.created[k].name && prev.chosen[i] == prev.created[k].id;
          assert names[i] == names[..n][i] && r.chosen[i] == prev.chosen[i];
        } else {
          assert names[n] == r.created[k].name && r.chosen[n] == r.created[k].id;
        }
      }
    }
  }

  /**
   * For every entry the loop chooses the earliest stored tag with that exact name
   * when there is one, and otherwise a tag it constructed with that name.
   */
  lemma {:induction false} ResolveChosen(tags: seq<Tag>, next: int, names: seq<string>, r: Resolution)
    requires r == Resolve(tags, next, names)
    ensures forall i :: 0 <= i < |names| ==> ChosenFor(tags, r.created, names[i], r.chosen[i])
    decreases |names|
  {
    if names != [] {
      var n := |names| - 1;
      var prev := Resolve(tags, next, names[..n]);
      ResolveChosen(tags, next, names[..n], prev);
      ResolveLast(tags, next, names);
      forall i | 0 <= i < |names|
        ensures ChosenFor(tags, r.created, names[i], r.chosen[i])
      {
        if i < n {
          assert names[..n][i] == names[i] && r.chosen[i] == prev.chosen[i];
          assert ChosenFor(tags, prev.created, names[i], r.chosen[i]);
          match FirstTagNamed(tags, names[i])
          case Some(j) =>
          case None =>
            var k :| 0 <= k < |prev.created| && prev.created[k] == Tag(r.chosen[i], names[i]);
            assert r.created[k] == prev.created[k];
        } else {
          match FirstTagNamed(tags, names[i])
          case Some(j) =>
          case None =>
            assert r.created[|prev.created|] == Tag(r.chosen[i], names[i]);
        }
      }
    }
  }

  /** When every name already has a stored tag, the loop constructs no tag at all. */
  lemma AllKnownCreatesNothing(tags: seq<Tag>, next: int, names: seq<string>)
    requires forall i :: 0 <= i < |names| ==> exists j :: 0 <= j < |tags| && tags[j].name == names[i]
    ensures Resolve(tags, next, names).created == []
  {
    var r := Resolve(tags, next, names);
    ResolveCreatedAbsent(tags, next, names, r);
    ResolveCreatedChosen(tags, next, names, r);
  }

  //
  // Tag lookup over an appended table
  //

  /** Appending rows never changes a lookup that already succeeds. */
  lemma FirstTagNamedPrefix(a: seq<Tag>, b: seq<Tag>, name: string, j: nat)
    requires FirstTagNamed(a, name) == Some(j)
    ensures FirstTagNamed(a + b, name) == Some(j)
  {
    var ab := a + b;
    assert ab[j] == a[j];
    assert forall i :: 0 <= i < j ==> ab[i] == a[i];
  }

  /** A lookup that fails on the old rows finds, in the appended ones, their earliest match. */
  lemma FirstTagNamedSuffix(a: seq<Tag>, b: seq<Tag>, name: string)
    requires FirstTagNamed(a, name).None?
    ensures FirstTagNamed(a + b, name) == match FirstTagNamed(b, name)
      case None => None
      case Some(k) => Some(|a| + k)
  {
    var ab := a + b;
    match FirstTagNamed(b, name)
    case None =>
      forall i | 0 <= i < |ab| ensures ab[i].name != name {
        if i >= |a| { assert ab[i] == b[i - |a|]; } else { assert ab[i] == a[i]; }
      }
    case Some(k) =>
      assert ab[|a| + k] == b[k];
      forall i | 0 <= i < |a| + k ensures ab[i].name != name {
        if i >= |a| { assert ab[i] == b[i - |a|]; } else { assert ab[i] == a[i]; }
      }
  }

  /** A key stored in `a` is still stored once `b` is appended, and so is every key of `b`. */
  lemma HasTagAppend(a: seq<Tag>, b: seq<Tag>)
    ensures forall id :: HasTag(a, id) ==> HasTag(a + b, id)
    ensures forall k :: 0 <= k < |b| ==> HasTag(a + b, b[k].id)
  {
    forall id | HasTag(a, id) ensures HasTag(a + b, id) {
      var j :| 0 <= j < |a| && a[j].id == id;
      assert (a + b)[j] == a[j];
    }
    forall k | 0 <= k < |b| ensures HasTag(a + b, b[k].id) {
      assert (a + b)[|a| + k] == b[k];
    }
  }

  //
  // add_note
  //

  /** Tags appended by `add_note` keep tag keys in range and increasing. */
  lemma AddTagsValid(tags: seq<Tag>, next: int, names: seq<string>)
    requires TagKeysValid(tags, next)
    ensures var created := Resolve(tags, next, names).created;
      TagKeysValid(tags + created, next + |created|)
  {
    var res := Resolve(tags, next, names);
    var created := res.created;
    var all := tags + created;
    var n := |tags|;
    ResolveCreatedKeys(tags, next, names, res);
    forall i | 0 <= i < |all| ensures 1 <= all[i].id < next + |created| {
      if i >= n { assert all[i] == created[i - n]; }
    }
    forall i, j | 0 <= i < j < |all| ensures all[i].id < all[j].id {
      if i < n && j >= n {
        assert all[i] == tags[i] && all[j] == created[j - n];
      } else if i >= n {
        assert all[i] == created[i - n] && all[j] == created[j - n];
      }
    }
  }

  /** Each join row after `add_note` refers to an existing note and an existing tag. */
  lemma AddJoinRowValid(db: Db, text: string, names: seq<string>, k: int)
    requires Valid(db)
    requires k in AfterAdd(db, text, names).noteTags
    ensures JoinRowValid(AfterAdd(db, text, names), k)
  {
    var res := Resolve(db.tags, db.nextTagId, names);
    var r := AfterAdd(db, text, names);
    var rows := JoinRows(db.nextNoteTagId, db.nextNoteId, res.chosen);
    HasTagAppend(db.tags, res.created);
    if k in rows {
      var i := k - db.nextNoteTagId;
      assert r.noteTags[k] == NoteTag(db.nextNoteId, res.chosen[i]);
      ResolveChosen(db.tags, db.nextTagId, names, res);
      assert ChosenFor(db.tags, res.created, names[i], res.chosen[i]);
      match FirstTagNamed(db.tags, names[i])
      case Some(j) =>
        assert HasTag(db.tags, res.chosen[i]);
      case None =>
        var c :| 0 <= c < |res.created| && res.created[c] == Tag(res.chosen[i], names[i]);
    } else {
      assert r.noteTags[k] == db.noteTags[k];
      assert JoinRowValid(db, k);
    }
  }

  /** `add_note` keeps referential integrity and the key invariants. */
  lemma AddPreservesValid(db: Db, text: string, names: seq<string>)
    requires Valid(db)
    ensures Valid(AfterAdd(db, text, names))
  {
    var r := AfterAdd(db, text, names);
    AddTagsValid(db.tags, db.nextTagId, names);
    forall k | k in r.noteTags ensures JoinRowValid(r, k) {
      AddJoinRowValid(db, text, names, k);
    }
  }

  /**
   * `add_note` only adds: the note gets a fresh key and the given text, every
   * existing note and join row is kept as it was, and the old tag rows stay in
   * place with the new ones after them.
   */
  lemma AddOnlyAdds(db: Db, text: string, names: seq<string>, r: Db)
    requires Valid(db) && r == AfterAdd(db, text, names)
    ensures db.nextNoteId !in db.notes
    ensures r.notes.Keys == db.notes.Keys + {db.nextNoteId}
    ensures r.notes[db.nextNoteId] == text
    ensures forall id :: id in db.notes ==> r.notes[id] == db.notes[id]
    ensures |db.tags| <= |r.tags| && r.tags[..|db.tags|] == db.tags
    ensures forall k :: k in db.noteTags ==> k in r.noteTags && r.noteTags[k] == db.noteTags[k]
  {
    var res := Resolve(db.tags, db.nextTagId, names);
    var rows := JoinRows(db.nextNoteTagId, db.nextNoteId, res.chosen);
    forall k | k in db.noteTags ensures k in r.noteTags && r.noteTags[k] == db.noteTags[k] {
      assert JoinRowValid(db, k);
      assert k !in rows;
    }
  }

  /**
   * The new note's join rows are exactly the ones keyed from the next join key on,
   * one for each entry of `names`.
   */
  lemma AddNoteRows(db: Db, text: string, names: seq<string>, r: Db)
    requires Valid(db) && r == AfterAdd(db, text, names)
    ensures forall k :: (k in r.noteTags && r.noteTags[k].noteId == db.nextNoteId)
                    <==> db.nextNoteTagId <= k < db.nextNoteTagId + |names|
  {
    var res := Resolve(db.tags, db.nextTagId, names);
    var rows := JoinRows(db.nextNoteTagId, db.nextNoteId, res.chosen);
    forall k | db.nextNoteTagId <= k < db.nextNoteTagId + |names|
      ensures k in r.noteTags && r.noteTags[k].noteId == db.nextNoteId
    {
      var i := k - db.nextNoteTagId;
      assert rows[db.nextNoteTagId + i] == NoteTag(db.nextNoteId, res.chosen[i]);
    }
  }

  /**
   * Entry `i` of `names` gets the join row keyed `nextNoteTagId + i`, which links
   * the new note to a tag named exactly `names[i]`; when a tag of that name was
   * stored already, it is the earliest such tag.
   */
  lemma AddLinksEntry(db: Db, text: string, names: seq<string>, i: int, r: Db)
    requires 0 <= i < |names| && r == AfterAdd(db, text, names)
    ensures db.nextNoteTagId + i in r.noteTags
    ensures r.noteTags[db.nextNoteTagId + i].noteId == db.nextNoteId
    ensures exists t :: 0 <= t < |r.tags| && r.tags[t] == Tag(r.noteTags[db.nextNoteTagId + i].tagId, names[i])
    ensures forall j ::
              (0 <= j < |db.tags| && db.tags[j].name == names[i] && forall p :: 0 <= p < j ==> db.tags[p].name != names[i])
              ==> r.noteTags[db.nextNoteTagId + i].tagId == db.tags[j].id
  {
    var res := Resolve(db.tags, db.nextTagId, names);
    var key := db.nextNoteTagId + i;
    assert r.noteTags[key] == NoteTag(db.nextNoteId, res.chosen[i]);
    ResolveChosen(db.tags, db.nextTagId, names, res);
    assert ChosenFor(db.tags, res.created, names[i], res.chosen[i]);
    EarliestMatchIsFirst(db.tags, names[i]);
    match FirstTagNamed(db.tags, names[i])
    case Some(q) =>
      assert r.tags[q] == db.tags[q];
    case None =>
      var c :| 0 <= c < |res.created| && res.created[c] == Tag(res.chosen[i], names[i]);
      assert r.tags[|db.tags| + c] == res.created[c];
  }

  /**
   * `add_note` constructs a tag only for a name of `names` that no stored tag
   * carries, and none at all when every name is already stored.
   */
  lemma AddCreatesOnlyAbsent(db: Db, text: string, names: seq<string>, r: Db)
    requires r == AfterAdd(db, text, names)
    ensures forall t :: |db.tags| <= t < |r.tags| ==> r.tags[t].name in names
    ensures forall t, j :: |db.tags| <= t < |r.tags| && 0 <= j < |db.tags| ==> db.tags[j].name != r.tags[t].name
    ensures (forall i :: 0 <= i < |names| ==> exists j :: 0 <= j < |db.tags| && db.tags[j].name == names[i])
      ==> r.tags == db.tags
  {
    var res := Resolve(db.tags, db.nextTagId, names);
    ResolveCreatedAbsent(db.tags, db.nextTagId, names, res);
    ResolveCreatedChosen(db.tags, db.nextTagId, names, res);
    var n := |db.tags|;
    forall t | n <= t < |r.tags| ensures r.tags[t].name in names {
      assert r.tags[t] == res.created[t - n];
      var i :| 0 <= i < |names| && names[i] == res.created[t - n].name && res.chosen[i] == res.created[t - n].id;
    }
    forall t, j | n <= t < |r.tags| && 0 <= j < n ensures db.tags[j].name != r.tags[t].name {
      assert r.tags[t] == res.created[t - n];
    }
    if forall i :: 0 <= i < |names| ==> exists j :: 0 <= j < |db.tags| && db.tags[j].name == names[i] {
      AllKnownCreatesNothing(db.tags, db.nextTagId, names);
    }
  }

  /**
   * Sequential calls share tags: once a note was added with tag name `name`, a
   * later `add_note` naming it again constructs no second tag called `name`.
   */
  lemma SecondAddReusesTag(db: Db, text1: string, names1: seq<string>, text2: string, names2: seq<string>, name: string)
    requires name in names1
    ensures var db1 := AfterAdd(db, text1, names1);
      var db2 := AfterAdd(db1, text2, names2);
      forall t :: |db1.tags| <= t < |db2.tags| ==> db2.tags[t].name != name
  {
    var db1 := AfterAdd(db, text1, names1);
    var db2 := AfterAdd(db1, text2, names2);
    var i :| 0 <= i < |names1| && names1[i] == name;
    AddLinksEntry(db, text1, names1, i, db1);
    AddCreatesOnlyAbsent(db1, text2, names2, db2);
  }

  /**
   * Distinct names keep tag names unique: when no two stored tags share a name and
   * no name repeats in `names`, no two tags share a name afterwards either.
   */
  lemma AddKeepsNamesUnique(db: Db, text: string, names: seq<string>)
    requires UniqueNames(db.tags) && Distinct(names)
    ensures UniqueNames(AfterAdd(db, text, names).tags)
  {
    var res := Resolve(db.tags, db.nextTagId, names);
    var r := AfterAdd(db, text, names);
    ResolveCreatedKeys(db.tags, db.nextTagId, names, res);
    ResolveCreatedAbsent(db.tags, db.nextTagId, names, res);
    ResolveCreatedChosen(db.tags, db.nextTagId, names, res);
    var n := |db.tags|;
    forall p, q | 0 <= p < q < |r.tags| ensures r.tags[p].name != r.tags[q].name {
      if q >= n && p < n {
        assert r.tags[q] == res.created[q - n] && r.tags[p] == db.tags[p];
      } else if p >= n {
        var a, b := res.created[p - n], res.created[q - n];
        assert r.tags[p] == a && r.tags[q] == b;
        var i :| 0 <= i < |names| && names[i] == a.name && res.chosen[i] == a.id;
        var j :| 0 <= j < |names| && names[j] == b.name && res.chosen[j] == b.id;
        assert a.id != b.id;
      }
    }
  }

  /**
   * Repeating a name that no stored tag carries, in one call, constructs two tags
   * with that name: every lookup of the loop sees only the rows stored before it.
   */
  lemma RepeatedNewNameCreatesTwoTags(db: Db, text: string, name: string)
    requires forall j :: 0 <= j < |db.tags| ==> db.tags[j].name != name
    ensures var r := AfterAdd(db, text, [name, name]);
      && |r.tags| == |db.tags| + 2
      && r.tags[|db.tags|].name == name && r.tags[|db.tags| + 1].name == name
  {
    var next := db.nextTagId;
    assert FirstTagNamed(db.tags, name).None?;
    assert [name, name][..1] == [name];
    assert [name][..0] == [];
    assert Resolve(db.tags, next, [name]) == Resolution([next], [Tag(next, name)]);
    assert Resolve(db.tags, next, [name, name])
        == Resolution([next, next + 1], [Tag(next, name), Tag(next + 1, name)]);
  }

  //
  // delete_note and edit_note
  //

  /** On a key that names no note, `delete_note` and `edit_note` change nothing. */
  lemma MissingNoteIsNoOp(db: Db, noteId: int, text: string)
    requires noteId !in db.notes
    ensures AfterDelete(db, noteId) == db && AfterEdit(db, noteId, text) == db
  {
  }

  /**
   * `delete_note` on an existing note removes that note and every join row that
   * refers to it, and nothing else: all tags stay (orphans included), as do every
   * other note and join row. Referential integrity is kept.
   */
  lemma DeleteEffect(db: Db, noteId: int)
    requires Valid(db) && noteId in db.notes
    ensures var r := AfterDelete(db, noteId);
      && Valid(r)
      && r.notes.Keys == db.notes.Keys - {noteId}
      && (forall id :: id in r.notes ==> r.notes[id] == db.notes[id])
      && r.tags == db.tags
      && (forall k :: k in r.noteTags <==> k in db.noteTags && db.noteTags[k].noteId != noteId)
      && (forall k :: k in r.noteTags ==> r.noteTags[k] == db.noteTags[k])
  {
  }

  /**
   * `edit_note` on an existing note changes that note's text and nothing else.
   * Referential integrity is kept.
   */
  lemma EditEffect(db: Db, noteId: int, text: string)
    requires Valid(db) && noteId in db.notes
    ensures var r := AfterEdit(db, noteId, text);
      && Valid(r)
      && r.notes.Keys == db.notes.Keys
      && r.notes[noteId] == text
      && (forall id :: id in r.notes && id != noteId ==> r.notes[id] == db.notes[id])
      && r.tags == db.tags && r.noteTags == db.noteTags
  {
  }

  /** Deleting a note never invalidates the store, existing or not. */
  lemma DeletePreservesValid(db: Db, noteId: int)
    requires Valid(db)
    ensures Valid(AfterDelete(db, noteId))
  {
    if noteId in db.notes { DeleteEffect(db, noteId); }
  }

  /** Editing a note never invalidates the store, existing or not. */
  lemma EditPreservesValid(db: Db, noteId: int, text: string)
    requires Valid(db)
    ensures Valid(AfterEdit(db, noteId, text))
  {
    if noteId in db.notes { EditEffect(db, noteId, text); }
  }

  //
  // Searching after each operation
  //

  /**
   * Adding to a join table rows with keys above all stored keys, the i-th linking
   * `noteId` to `tagIds[i]`, adds exactly those links.
   */
  lemma LinkedAfterJoinRows(stored: map<int, NoteTag>, first: int, noteId: int, tagIds: seq<int>, n: int, t: int)
    requires forall k :: k in stored ==> k < first
    ensures Linked(stored + JoinRows(first, noteId, tagIds), n, t) <==> Linked(stored, n, t) || (n == noteId && t in tagIds)
  {
    var rows := JoinRows(first, noteId, tagIds);
    var all := stored + rows;
    if Linked(all, n, t) {
      var k :| k in all && all[k] == NoteTag(n, t);
      if k in rows {
        assert tagIds[k - first] == t;
      } else {
        assert stored[k] == NoteTag(n, t);
      }
    }
    if Linked(stored, n, t) {
      var k :| k in stored && stored[k] == NoteTag(n, t);
      assert all[k] == NoteTag(n, t);
    }
    if n == noteId && t in tagIds {
      var i :| 0 <= i < |tagIds| && tagIds[i] == t;
      assert all[first + i] == NoteTag(n, t);
    }
  }

  /** The join rows after `add_note` link exactly the old pairs plus the new note to each chosen key. */
  lemma LinkedAfterAdd(db: Db, text: string, names: seq<string>, noteId: int, tagId: int)
    requires Valid(db)
    ensures var r := AfterAdd(db, text, names);
      Linked(r.noteTags, noteId, tagId) <==>
        Linked(db.noteTags, noteId, tagId)
        || (noteId == db.nextNoteId && tagId in Resolve(db.tags, db.nextTagId, names).chosen)
  {
    var res := Resolve(db.tags, db.nextTagId, names);
    assert forall k :: k in db.noteTags ==> k < db.nextNoteTagId by {
      forall k | k in db.noteTags ensures k < db.nextNoteTagId { assert JoinRowValid(db, k); }
    }
    LinkedAfterJoinRows(db.noteTags, db.nextNoteTagId, db.nextNoteId, res.chosen, noteId, tagId);
  }

  /** An entry whose chosen key is that of a stored tag carries that tag's name. */
  lemma ChosenStoredTagNamed(tags: seq<Tag>, next: int, names: seq<string>, res: Resolution, i: nat, j: nat)
    requires TagKeysValid(tags, next) && res == Resolve(tags, next, names)
    requires i < |names| && j < |tags| && res.chosen[i] == tags[j].id
    requires FirstTagNamed(tags, tags[j].name) == Some(j)
    ensures names[i] == tags[j].name
  {
    ResolveChosen(tags, next, names, res);
    assert ChosenFor(tags, res.created, names[i], res.chosen[i]);
    match FirstTagNamed(tags, names[i])
    case Some(q) =>
    case None =>
      var k :| 0 <= k < |res.created| && res.created[k] == Tag(res.chosen[i], names[i]);
      ResolveCreatedKeys(tags, next, names, res);
  }

  /** The loop chooses an already stored tag exactly for the entries carrying its name. */
  lemma ChosenStoredTag(db: Db, names: seq<string>, j: nat)
    requires TagKeysValid(db.tags, db.nextTagId)
    requires j < |db.tags| && FirstTagNamed(db.tags, db.tags[j].name) == Some(j)
    ensures db.tags[j].id in Resolve(db.tags, db.nextTagId, names).chosen <==> db.tags[j].name in names
  {
    var res := Resolve(db.tags, db.nextTagId, names);
    var name := db.tags[j].name;
    if name in names {
      var i :| 0 <= i < |names| && names[i] == name;
      ResolveChosen(db.tags, db.nextTagId, names, res);
      assert ChosenFor(db.tags, res.created, names[i], res.chosen[i]);
    }
    if db.tags[j].id in res.chosen {
      var i :| 0 <= i < |res.chosen| && res.chosen[i] == db.tags[j].id;
      ChosenStoredTagNamed(db.tags, db.nextTagId, names, res, i, j);
    }
  }

  /** The note `add_note` is about to create has no join rows yet. */
  lemma FreshNoteUnlinked(db: Db, tagId: int)
    requires Valid(db)
    ensures !Linked(db.noteTags, db.nextNoteId, tagId)
  {
  }

  /** No existing join row refers to a key the tag sequence has not handed out yet. */
  lemma FreshTagUnlinked(db: Db, noteId: int, tagId: int)
    requires Valid(db) && tagId >= db.nextTagId
    ensures !Linked(db.noteTags, noteId, tagId)
  {
  }

  /**
   * `search_notes_by_tag(name)` returns exactly the existing notes, with their text,
   * that a join row links to the earliest tag named exactly `name`.
   */
  lemma SearchFindsLinkedNotes(db: Db, name: string, j: nat)
    requires j < |db.tags| && db.tags[j].name == name
    requires forall p :: 0 <= p < j ==> db.tags[p].name != name
    ensures forall id :: id in SearchNotesByTag(db, name) <==> id in db.notes && Linked(db.noteTags, id, db.tags[j].id)
    ensures forall id :: id in SearchNotesByTag(db, name) ==> SearchNotesByTag(db, name)[id] == db.notes[id]
  {
    EarliestMatchIsFirst(db.tags, name);
  }

  /**
   * A search by a stored name over a store that only grew: the earlier rows of the
   * tag table are kept, one note was added, and the join rows to the matching tag
   * are the old ones plus, when `linked`, one for the new note.
   */
  lemma SearchAfterGrowth(db: Db, r: Db, name: string, j: nat, id: int, text: string, linked: bool)
    requires FirstTagNamed(db.tags, name) == Some(j)
    requires |db.tags| <= |r.tags| && r.tags[..|db.tags|] == db.tags
    requires id !in db.notes && r.notes == db.notes[id := text]
    requires !Linked(db.noteTags, id, db.tags[j].id)
    requires forall nid :: Linked(r.noteTags, nid, db.tags[j].id)
                       <==> Linked(db.noteTags, nid, db.tags[j].id) || (nid == id && linked)
    ensures SearchNotesByTag(r, name)
         == if linked then SearchNotesByTag(db, name)[id := text] else SearchNotesByTag(db, name)
  {
    FirstTagNamedPrefix(db.tags, r.tags[|db.tags|..], name, j);
    assert db.tags + r.tags[|db.tags|..] == r.tags;
  }

  /** Searching by a name that was already stored, after `add_note`. */
  lemma SearchAfterAddStoredName(db: Db, text: string, names: seq<string>, name: string, j: nat)
    requires Valid(db) && FirstTagNamed(db.tags, name) == Some(j)
    ensures SearchNotesByTag(AfterAdd(db, text, names), name)
         == if name in names then SearchNotesByTag(db, name)[db.nextNoteId := text]
            else SearchNotesByTag(db, name)
  {
    var r := AfterAdd(db, text, names);
    var tagId := db.tags[j].id;
    AddOnlyAdds(db, text, names, r);
    ChosenStoredTag(db, names, j);
    FreshNoteUnlinked(db, tagId);
    forall nid ensures Linked(r.noteTags, nid, tagId)
                   <==> Linked(db.noteTags, nid, tagId) || (nid == db.nextNoteId && name in names)
    {
      LinkedAfterAdd(db, text, names, nid, tagId);
    }
    SearchAfterGrowth(db, r, name, j, db.nextNoteId, text, name in names);
  }

  /** A search whose matching tag is linked to exactly one note finds exactly that note. */
  lemma SearchSingleLink(r: Db, name: string, p: nat, id: int)
    requires FirstTagNamed(r.tags, name) == Some(p) && id in r.notes
    requires forall nid :: Linked(r.noteTags, nid, r.tags[p].id) <==> nid == id
    ensures SearchNotesByTag(r, name) == map[id := r.notes[id]]
  {
  }

  /** A name that neither the stored tags nor `names` carry still finds nothing after `add_note`. */
  lemma SearchAfterAddUnknownName(db: Db, text: string, names: seq<string>, name: string)
    requires FirstTagNamed(db.tags, name).None? && name !in names
    ensures SearchNotesByTag(AfterAdd(db, text, names), name) == map[]
  {
    var r := AfterAdd(db, text, names);
    AddCreatesOnlyAbsent(db, text, names, r);
    forall t | 0 <= t < |r.tags| ensures r.tags[t].name != name {
      if t < |db.tags| { assert r.tags[t] == db.tags[t]; }
    }
  }

  /**
   * For a name of `names` that no stored tag carries, the loop constructs a tag of
   * that name; the earliest one, at position `c` of the constructed tags, has a key
   * not handed out before and is chosen for some entry.
   */
  lemma FirstUseCreatesTag(tags: seq<Tag>, next: int, names: seq<string>, name: string, res: Resolution)
    returns (c: nat)
    requires res == Resolve(tags, next, names)
    requires FirstTagNamed(tags, name).None? && name in names
    ensures FirstTagNamed(res.created, name) == Some(c)
    ensures res.created[c].id >= next && res.created[c].id in res.chosen
  {
    var i :| 0 <= i < |names| && names[i] == name;
    ResolveChosen(tags, next, names, res);
    assert ChosenFor(tags, res.created, names[i], res.chosen[i]);
    var k :| 0 <= k < |res.created| && res.created[k] == Tag(res.chosen[i], name);
    assert res.created[k].name == name;
    c := FirstTagNamed(res.created, name).value;
    ResolveCreatedKeys(tags, next, names, res);
    ResolveCreatedChosen(tags, next, names, res);
    var e :| 0 <= e < |names| && names[e] == res.created[c].name && res.chosen[e] == res.created[c].id;
  }

  /** After `add_note`, a tag key not handed out before is linked to the new note only, and only if chosen. */
  lemma LinkedFreshTagAfterAdd(db: Db, text: string, names: seq<string>, tagId: int)
    requires Valid(db) && tagId >= db.nextTagId
    ensures forall nid :: Linked(AfterAdd(db, text, names).noteTags, nid, tagId)
                      <==> nid == db.nextNoteId && tagId in Resolve(db.tags, db.nextTagId, names).chosen
  {
    forall nid
      ensures Linked(AfterAdd(db, text, names).noteTags, nid, tagId)
          <==> nid == db.nextNoteId && tagId in Resolve(db.tags, db.nextTagId, names).chosen
    {
      LinkedAfterAdd(db, text, names, nid, tagId);
      FreshTagUnlinked(db, nid, tagId);
    }
  }

  /** For such a name, the earliest tag so named after `add_note` is a constructed one. */
  lemma FirstUseTagAfterAdd(db: Db, text: string, names: seq<string>, name: string)
    returns (p: nat, tagId: int)
    requires FirstTagNamed(db.tags, name).None? && name in names
    ensures FirstTagNamed(AfterAdd(db, text, names).tags, name) == Some(p)
    ensures AfterAdd(db, text, names).tags[p].id == tagId
    ensures tagId >= db.nextTagId && tagId in Resolve(db.tags, db.nextTagId, names).chosen
  {
    var res := Resolve(db.tags, db.nextTagId, names);
    var c := FirstUseCreatesTag(db.tags, db.nextTagId, names, name, res);
    FirstTagNamedSuffix(db.tags, res.created, name);
    p := |db.tags| + c;
    tagId := res.created[c].id;
    assert (db.tags + res.created)[p] == res.created[c];
  }

  /** A name of `names` that no stored tag carried finds exactly the new note after `add_note`. */
  lemma SearchAfterAddFirstUse(db: Db, text: string, names: seq<string>, name: string)
    requires Valid(db) && FirstTagNamed(db.tags, name).None? && name in names
    ensures SearchNotesByTag(AfterAdd(db, text, names), name) == map[db.nextNoteId := text]
  {
    var p, tagId := FirstUseTagAfterAdd(db, text, names, name);
    LinkedFreshTagAfterAdd(db, text, names, tagId);
    SearchSingleLink(AfterAdd(db, text, names), name, p, db.nextNoteId);
  }

  /**
   * After `add_note(text, names)` a search by `name` returns what it returned before,
   * plus the new note exactly when `name` is one of `names`.
   */
  lemma SearchAfterAdd(db: Db, text: string, names: seq<string>, name: string)
    requires Valid(db)
    ensures SearchNotesByTag(AfterAdd(db, text, names), name)
         == if name in names then SearchNotesByTag(db, name)[db.nextNoteId := text]
            else SearchNotesByTag(db, name)
  {
    match FirstTagNamed(db.tags, name)
    case Some(j) =>
      SearchAfterAddStoredName(db, text, names, name, j);
    case None =>
      if name in names {
        SearchAfterAddFirstUse(db, text, names, name);
      } else {
        SearchAfterAddUnknownName(db, text, names, name);
      }
  }

  /** After `delete_note(noteId)` a search returns what it returned before, without that note. */
  lemma SearchAfterDelete(db: Db, noteId: int, name: string)
    ensures SearchNotesByTag(AfterDelete(db, noteId), name) == SearchNotesByTag(db, name) - {noteId}
  {
    if noteId in db.notes {
      var r := AfterDelete(db, noteId);
      var before := SearchNotesByTag(db, name);
      var after := SearchNotesByTag(r, name);
      match FirstTagNamed(db.tags, name)
      case None =>
      case Some(j) =>
        var tagId := db.tags[j].id;
        forall nid ensures nid in after <==> nid in before && nid != noteId {
          if nid in before && nid != noteId {
            var k :| k in db.noteTags && db.noteTags[k] == NoteTag(nid, tagId);
            assert r.noteTags[k] == NoteTag(nid, tagId);
          }
          if nid in after {
            var k :| k in r.noteTags && r.noteTags[k] == NoteTag(nid, tagId);
            assert db.noteTags[k] == NoteTag(nid, tagId);
          }
        }
    }
  }

  /** After `edit_note(noteId, text)` a search returns the same notes, that one with its new text. */
  lemma SearchAfterEdit(db: Db, noteId: int, text: string, name: string)
    ensures var before := SearchNotesByTag(db, name);
      SearchNotesByTag(AfterEdit(db, noteId, text), name)
        == if noteId in before then before[noteId := text] else before
  {
  }
}
