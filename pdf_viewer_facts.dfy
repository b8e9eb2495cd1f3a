/**
 * What the viewer's note-list updates promise: a save touches one note's
 * text or appends one note, a delete removes exactly the notes with an id
 * and keeps the order of the rest, a drag moves only the dragged note, and
 * the per-page filter commutes with all of them.
 */
module PdfViewerFacts {
  import opened Records
  import opened PdfViewer

  // ---------------------------------------------------------------------
  // Ids
  // ---------------------------------------------------------------------

  lemma IdsAppend(a: seq<Note>, b: seq<Note>)
    ensures Ids(a + b) == Ids(a) + Ids(b)
  {
    assert forall i :: 0 <= i < |a + b| ==> Ids(a + b)[i] == (Ids(a) + Ids(b))[i];
  }

  /** Uniqueness depends on the ids alone. */
  lemma UniqueIdsByIds(a: seq<Note>, b: seq<Note>)
    requires Ids(a) == Ids(b)
    ensures UniqueIds(a) <==> UniqueIds(b)
  {
    assert |a| == |b|;
    assert forall i :: 0 <= i < |a| ==> a[i].id == Ids(a)[i] == b[i].id;
  }

  lemma UniqueIdsSnoc(notes: seq<Note>, n: Note)
    requires UniqueIds(notes) && n.id !in Ids(notes)
    ensures UniqueIds(notes + [n])
  {
    forall i, j | 0 <= i < j < |notes| + 1
      ensures (notes + [n])[i].id != (notes + [n])[j].id
    {
      if j == |notes| {
        assert Ids(notes)[i] == notes[i].id;
      }
    }
  }

  /** `findIndex` depends on the ids alone. */
  lemma {:induction false} FirstIndexOfByIds(a: seq<Note>, b: seq<Note>, id: string)
    requires Ids(a) == Ids(b)
    ensures FirstIndexOf(a, id) == FirstIndexOf(b, id)
    decreases |a|
  {
    if a != [] {
      assert |a| == |b|;
      assert a[0].id == Ids(a)[0] == b[0].id;
      assert Ids(a[1..]) == Ids(a)[1..];
      assert Ids(b[1..]) == Ids(b)[1..];
      FirstIndexOfByIds(a[1..], b[1..], id);
    }
  }

  // ---------------------------------------------------------------------
  // Saving
  // ---------------------------------------------------------------------

  /**
   * A modal save of a note whose id is in the list changes only the text of
   * the first note with that id; length, order and every other note stay.
   */
  lemma UpsertExisting(notes: seq<Note>, selected: Note, text: string)
    requires selected.id in Ids(notes)
    ensures var r := UpsertText(notes, selected, text);
      var i := FirstIndexOf(notes, selected.id).value;
      |r| == |notes| && r[i] == notes[i].(text := text)
      && forall j :: 0 <= j < |notes| && j != i ==> r[j] == notes[j]
  {
  }

  /** A modal save of a note whose id is not in the list appends it with the new text. */
  lemma UpsertNew(notes: seq<Note>, selected: Note, text: string)
    requires selected.id !in Ids(notes)
    ensures UpsertText(notes, selected, text) == notes + [selected.(text := text)]
  {
  }

  /** The ids after a modal save: unchanged, or the new id appended. */
  lemma UpsertIds(notes: seq<Note>, selected: Note, text: string)
    ensures Ids(UpsertText(notes, selected, text)) ==
      if selected.id in Ids(notes) then Ids(notes) else Ids(notes) + [selected.id]
  {
    var r := UpsertText(notes, selected, text);
    if selected.id in Ids(notes) {
      assert forall j :: 0 <= j < |r| ==> Ids(r)[j] == Ids(notes)[j];
    } else {
      IdsAppend(notes, [selected.(text := text)]);
    }
  }

  /** A modal save keeps ids unique. */
  lemma UpsertKeepsUniqueIds(notes: seq<Note>, selected: Note, text: string)
    requires UniqueIds(notes)
    ensures UniqueIds(UpsertText(notes, selected, text))
  {
    UpsertIds(notes, selected, text);
    if selected.id in Ids(notes) {
      UniqueIdsByIds(notes, UpsertText(notes, selected, text));
    } else {
      UniqueIdsSnoc(notes, selected.(text := text));
    }
  }

  /** After a modal save, looking the selected id up finds a note with the saved text. */
  lemma SaveThenLookup(notes: seq<Note>, selected: Note, text: string)
    ensures var r := UpsertText(notes, selected, text);
      FirstIndexOf(r, selected.id).Some? && r[FirstIndexOf(r, selected.id).value].text == text
  {
    var r := UpsertText(notes, selected, text);
    UpsertIds(notes, selected, text);
    if selected.id in Ids(notes) {
      FirstIndexOfByIds(notes, r, selected.id);
    } else {
      IdsAppend(notes, [selected.(text := text)]);
      assert Ids(r)[|notes|] == selected.id;
    }
  }

  /**
   * The sidebar save is the modal save restricted to notes already in the
   * list: with the id present they agree, with it absent nothing changes.
   */
  lemma UpdateAgreesWithUpsert(notes: seq<Note>, selected: Note, text: string)
    ensures UpdateText(notes, selected.id, text) ==
      if selected.id in Ids(notes) then UpsertText(notes, selected, text) else notes
  {
  }

  // ---------------------------------------------------------------------
  // Deleting
  // ---------------------------------------------------------------------

  /** The filter distributes over concatenation, so the survivors keep their order. */
  lemma {:induction false} RemoveByIdAppend(a: seq<Note>, b: seq<Note>, id: string)
    ensures RemoveById(a + b, id) == RemoveById(a, id) + RemoveById(b, id)
    decreases |b|
  {
    if b == [] {
      assert a + b == a;
    } else {
      var init := b[..|b| - 1];
      assert (a + b)[..|a + b| - 1] == a + init;
      assert (a + b)[|a + b| - 1] == b[|b| - 1];
      RemoveByIdAppend(a, init, id);
    }
  }

  /** Deleting an id no note has changes nothing. */
  lemma {:induction false} RemoveAbsent(notes: seq<Note>, id: string)
    requires id !in Ids(notes)
    ensures RemoveById(notes, id) == notes
    decreases |notes|
  {
    if notes != [] {
      var init, last := notes[..|notes| - 1], notes[|notes| - 1];
      assert id !in Ids(init) by {
        forall i | 0 <= i < |init|
          ensures Ids(init)[i] != id
        {
          assert Ids(init)[i] == Ids(notes)[i];
        }
      }
      assert last.id != id by {
        assert last.id == Ids(notes)[|notes| - 1];
      }
      RemoveAbsent(init, id);
      assert init + [last] == notes;
    }
  }

  /** Exactly the notes with the id are removed: their number is what the list shrinks by. */
  lemma {:induction false} RemoveByIdCount(notes: seq<Note>, id: string)
    ensures |RemoveById(notes, id)| + multiset(Ids(notes))[id] == |notes|
    decreases |notes|
  {
    if notes != [] {
      var init := notes[..|notes| - 1];
      var last := notes[|notes| - 1];
      assert init + [last] == notes;
      IdsAppend(init, [last]);
      assert Ids([last]) == [last.id];
      RemoveByIdCount(init, id);
    }
  }

  /** A delete keeps ids unique. */
  lemma {:induction false} RemoveKeepsUniqueIds(notes: seq<Note>, id: string)
    requires UniqueIds(notes)
    ensures UniqueIds(RemoveById(notes, id))
    decreases |notes|
  {
    if notes != [] {
      var init := notes[..|notes| - 1];
      var last := notes[|notes| - 1];
      assert UniqueIds(init);
      RemoveKeepsUniqueIds(init, id);
      if last.id != id {
        var r := RemoveById(init, id);
        UniqueIdsSnoc(r, last);
      }
    }
  }

  /** Deleting a note that a modal save has just added restores the list. */
  lemma DeleteUndoesNewSave(notes: seq<Note>, selected: Note, text: string)
    requires selected.id !in Ids(notes)
    ensures RemoveById(UpsertText(notes, selected, text), selected.id) == notes
  {
    var added := selected.(text := text);
    RemoveByIdAppend(notes, [added], selected.id);
    RemoveAbsent(notes, selected.id);
    assert [added][..0] == [];
  }

  // ---------------------------------------------------------------------
  // Dragging
  // ---------------------------------------------------------------------

  /**
   * A drag move changes only the position of the notes with the dragged id,
   * each coordinate clamped to [0, 100]; every other note and every other
   * field is kept.
   */
  lemma MoveOnlyDragged(notes: seq<Note>, id: string, x: real, y: real)
    ensures var r := MoveNote(notes, id, x, y);
      |r| == |notes|
      && (forall i :: 0 <= i < |notes| ==>
            r[i].id == notes[i].id && r[i].page == notes[i].page && r[i].text == notes[i].text)
      && (forall i :: 0 <= i < |notes| && notes[i].id != id ==> r[i] == notes[i])
      && (forall i :: 0 <= i < |notes| && notes[i].id == id ==>
            r[i].x == Clamp(x) && r[i].y == Clamp(y)
            && 0.0 <= r[i].x <= 100.0 && 0.0 <= r[i].y <= 100.0)
  {
  }

  /** A drag move keeps the ids, so it keeps them unique. */
  lemma MoveKeepsIds(notes: seq<Note>, id: string, x: real, y: real)
    ensures Ids(MoveNote(notes, id, x, y)) == Ids(notes)
    ensures UniqueIds(notes) ==> UniqueIds(MoveNote(notes, id, x, y))
  {
    var r := MoveNote(notes, id, x, y);
    assert forall i :: 0 <= i < |notes| ==> Ids(r)[i] == Ids(notes)[i];
    UniqueIdsByIds(notes, r);
  }

  lemma MoveAppend(a: seq<Note>, b: seq<Note>, id: string, x: real, y: real)
    ensures MoveNote(a + b, id, x, y) == MoveNote(a, id, x, y) + MoveNote(b, id, x, y)
  {
  }

  // ---------------------------------------------------------------------
  // Per-page filtering
  // ---------------------------------------------------------------------

  lemma {:induction false} NotesOnPageAppend(a: seq<Note>, b: seq<Note>, page: int)
    ensures NotesOnPage(a + b, page) == NotesOnPage(a, page) + NotesOnPage(b, page)
    decreases |b|
  {
    if b == [] {
      assert a + b == a;
    } else {
      var init := b[..|b| - 1];
      assert (a + b)[..|a + b| - 1] == a + init;
      assert (a + b)[|a + b| - 1] == b[|b| - 1];
      NotesOnPageAppend(a, init, page);
    }
  }

  /** The notes shown on a page after a drag are the page's notes, dragged. */
  lemma {:induction false} MoveCommutesWithPage(notes: seq<Note>, id: string, x: real, y: real, page: int)
    ensures NotesOnPage(MoveNote(notes, id, x, y), page) == MoveNote(NotesOnPage(notes, page), id, x, y)
    decreases |notes|
  {
    if notes != [] {
      var init := notes[..|notes| - 1];
      var last := notes[|notes| - 1];
      var moved := MoveNote(notes, id, x, y);
      assert moved[..|moved| - 1] == MoveNote(init, id, x, y);
      MoveCommutesWithPage(init, id, x, y, page);
      var tail := if last.page == page then [last] else [];
      MoveAppend(NotesOnPage(init, page), tail, id, x, y);
    }
  }

  /** The notes shown on a page after a delete are the page's notes, filtered. */
  lemma {:induction false} RemoveCommutesWithPage(notes: seq<Note>, id: string, page: int)
    ensures NotesOnPage(RemoveById(notes, id), page) == RemoveById(NotesOnPage(notes, page), id)
    decreases |notes|
  {
    if notes != [] {
      var init := notes[..|notes| - 1];
      var last := notes[|notes| - 1];
      RemoveCommutesWithPage(init, id, page);
      var kept := if last.id != id then [last] else [];
      NotesOnPageAppend(RemoveById(init, id), kept, page);
      var shown := if last.page == page then [last] else [];
      RemoveByIdAppend(NotesOnPage(init, page), shown, id);
      assert [last][..0] == [];
    }
  }

  /** A note added by a modal save is listed last among its page's notes. */
  lemma NewNoteShownLastOnItsPage(notes: seq<Note>, selected: Note, text: string)
    requires selected.id !in Ids(notes)
    ensures NotesOnPage(UpsertText(notes, selected, text), selected.page)
      == NotesOnPage(notes, selected.page) + [selected.(text := text)]
  {
    var added := selected.(text := text);
    assert (notes + [added])[..|notes|] == notes;
  }
}
