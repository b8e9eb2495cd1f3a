/**
 * The PDF viewer's in-memory notes and the event handling around them.
 *
 * The list updates (`findIndex`, `filter`, `map` and the spread copies of
 * the `setNotes` callbacks) are pure functions on `seq<Note>`; the
 * component's state fields and the handlers that set them step by step are
 * the class `ViewerState`. Pixel-to-percent conversion is left to the
 * caller: drag and click positions arrive as percentages.
 */
module PdfViewer {
  import opened Records

  // ---------------------------------------------------------------------
  // Note-list operations
  // ---------------------------------------------------------------------

  /** `Math.min(a, b)`. */
  function Min(a: real, b: real): real
  {
    if a <= b then a else b
  }

  /** `Math.max(a, b)`. */
  function Max(a: real, b: real): real
  {
    if a >= b then a else b
  }

  /** `Math.max(0, Math.min(100, v))`: a position kept on the page. */
  function Clamp(v: real): (r: real)
    ensures 0.0 <= r <= 100.0
    ensures 0.0 <= v <= 100.0 ==> r == v
    ensures v < 0.0 ==> r == 0.0
    ensures v > 100.0 ==> r == 100.0
  {
    Max(0.0, Min(100.0, v))
  }

  /** The ids of the notes, in list order. */
  function Ids(notes: seq<Note>): (r: seq<string>)
    ensures |r| == |notes| && forall i :: 0 <= i < |notes| ==> r[i] == notes[i].id
  {
    seq(|notes|, i requires 0 <= i < |notes| => notes[i].id)
  }

  /** No two notes share an id. */
  predicate UniqueIds(notes: seq<Note>)
  {
    forall i, j :: 0 <= i < j < |notes| ==> notes[i].id != notes[j].id
  }

  /** `notes.findIndex(note => note.id === id)`, with `None` for `-1`. */
  function FirstIndexOf(notes: seq<Note>, id: string): (r: Option<nat>)
    ensures r.Some? ==> r.value < |notes| && notes[r.value].id == id
    ensures r.Some? ==> forall j :: 0 <= j < r.value ==> notes[j].id != id
    ensures r.None? <==> id !in Ids(notes)
  {
    if notes == [] then None
    else if notes[0].id == id then Some(0)
    else
      match FirstIndexOf(notes[1..], id)
      case None => None
      case Some(i) => Some(i + 1)
  }

  /** The copy `[...notes]` with the note at `i` given the text `text`. */
  function WithTextAt(notes: seq<Note>, i: nat, text: string): seq<Note>
    requires i < |notes|
  {
    notes[i := notes[i].(text := text)]
  }

  /**
   * The modal save: the first note with the selected note's id gets the
   * new text; when there is none, the selected note is appended with it.
   */
  function UpsertText(notes: seq<Note>, selected: Note, text: string): (r: seq<Note>)
    ensures |r| == if selected.id in Ids(notes) then |notes| else |notes| + 1
  {
    match FirstIndexOf(notes, selected.id)
    case Some(i) => WithTextAt(notes, i, text)
    case None => notes + [selected.(text := text)]
  }

  /**
   * The sidebar save: the first note with id `id` gets the new text; when
   * there is none the list is returned as it was.
   */
  function UpdateText(notes: seq<Note>, id: string, text: string): (r: seq<Note>)
    ensures |r| == |notes|
    ensures id !in Ids(notes) ==> r == notes
  {
    match FirstIndexOf(notes, id)
    case Some(i) => WithTextAt(notes, i, text)
    case None => notes
  }

  /** `notes.filter(note => note.id !== id)`. */
  function RemoveById(notes: seq<Note>, id: string): (r: seq<Note>)
    ensures forall n :: n in r <==> n in notes && n.id != id
    ensures |r| <= |notes|
  {
    if notes == [] then []
    else
      var last := notes[|notes| - 1];
      RemoveById(notes[..|notes| - 1], id) + (if last.id != id then [last] else [])
  }

  /**
   * The drag move: every note with the dragged id is put at the clamped
   * position; all other notes are copied as they were.
   */
  function MoveNote(notes: seq<Note>, id: string, x: real, y: real): (r: seq<Note>)
    ensures |r| == |notes|
  {
    seq(|notes|, i requires 0 <= i < |notes| =>
      if notes[i].id == id then notes[i].(x := Clamp(x), y := Clamp(y)) else notes[i])
  }

  /** `notes.filter(note => note.page === page)`: the notes shown and counted for a page. */
  function NotesOnPage(notes: seq<Note>, page: int): (r: seq<Note>)
    ensures forall n :: n in r <==> n in notes && n.page == page
    ensures |r| <= |notes|
  {
    if notes == [] then []
    else
      var last := notes[|notes| - 1];
      NotesOnPage(notes[..|notes| - 1], page) + (if last.page == page then [last] else [])
  }

  // ---------------------------------------------------------------------
  // Page navigation
  // ---------------------------------------------------------------------

  /** The keys the viewer distinguishes. */
  datatype Key = ArrowLeft | ArrowUp | ArrowRight | ArrowDown | OtherKey

  predicate IsBack(key: Key)
  {
    key == ArrowLeft || key == ArrowUp
  }

  predicate IsForward(key: Key)
  {
    key == ArrowRight || key == ArrowDown
  }

  /** The page an arrow key asks for, if any. */
  function ArrowTarget(key: Key, currentPage: int, totalPages: int): (r: Option<int>)
    ensures r.Some? <==>
      (IsBack(key) && currentPage > 1) || (IsForward(key) && currentPage < totalPages)
    ensures r.Some? && IsBack(key) ==> r.value == currentPage - 1 && 1 <= r.value
    ensures r.Some? && IsForward(key) ==> r.value == currentPage + 1 && r.value <= totalPages
    ensures r.Some? && 1 <= currentPage <= totalPages ==> 1 <= r.value <= totalPages
  {
    if IsBack(key) then
      if currentPage > 1 then Some(currentPage - 1) else None
    else if IsForward(key) then
      if currentPage < totalPages then Some(currentPage + 1) else None
    else None
  }

  /**
   * The page-number input: `parsed` is the result of `parseInt` (`None` for
   * `NaN`); the page is changed only to a number in `[1, totalPages]`.
   */
  function PageInputTarget(parsed: Option<int>, totalPages: int): (r: Option<int>)
    ensures r.Some? <==> parsed.Some? && 1 <= parsed.value <= totalPages
    ensures r.Some? ==> r.value == parsed.value && 1 <= r.value <= totalPages
  {
    match parsed
    case Some(n) => if 1 <= n && n <= totalPages then Some(n) else None
    case None => None
  }

  // ---------------------------------------------------------------------
  // The viewer's state and its handlers
  // ---------------------------------------------------------------------

  class ViewerState {
    var isNoteMode: bool
    var notes: seq<Note>
    var selectedNote: Option<Note>
    var noteText: string
    var isDragging: bool
    var draggedNoteId: Option<string>
    var wasDragging: bool
    var editingNoteId: Option<string>
    var isModalEditing: bool

    /**
     * A drag is in progress exactly when a dragged note id is set. Every
     * handler keeps this, but it is a documented invariant only: the drag
     * handlers test `isDragging` and the truthiness of `draggedNoteId` on
     * their own, as the source does, since an empty id is set yet falsy.
     */
    ghost predicate Valid()
      reads this
    {
      isDragging == draggedNoteId.Some?
    }

    /** The initial `useState` values. */
    constructor ()
      ensures Valid()
      ensures !isNoteMode && notes == [] && selectedNote == None && noteText == ""
      ensures !isDragging && draggedNoteId == None && !wasDragging
      ensures editingNoteId == None && !isModalEditing
    {
      isNoteMode := false;
      notes := [];
      selectedNote := None;
      noteText := "";
      isDragging := false;
      draggedNoteId := None;
      wasDragging := false;
      editingNoteId := None;
      isModalEditing := false;
    }

    /** Arrow keys are ignored while a modal edit, a drag or a sidebar edit is going on. */
    predicate NavigationBlocked()
      reads this
    {
      isModalEditing || isDragging || Truthy(editingNoteId)
    }

    /** The keydown handler: the page it asks `onPageChange` for, if any. */
    method KeyDown(key: Key, currentPage: int, totalPages: int) returns (target: Option<int>)
      ensures NavigationBlocked() ==> target == None
      ensures !NavigationBlocked() ==> target == ArrowTarget(key, currentPage, totalPages)
    {
      if isModalEditing || isDragging || Truthy(editingNoteId) {
        return None;
      }
      target := ArrowTarget(key, currentPage, totalPages);
    }

    /** The note-mode toggle button. */
    method ToggleNoteMode()
      requires Valid()
      modifies this
      ensures Valid()
      ensures isNoteMode == !old(isNoteMode)
      ensures notes == old(notes) && selectedNote == old(selectedNote) && noteText == old(noteText)
      ensures isDragging == old(isDragging) && draggedNoteId == old(draggedNoteId)
      ensures wasDragging == old(wasDragging) && editingNoteId == old(editingNoteId)
      ensures isModalEditing == old(isModalEditing)
    {
      isNoteMode := !isNoteMode;
    }

    /**
     * A click on the page opens the modal on a pending note with empty text
     * at the clicked position; `id` is the clock reading `Date.now()`.
     */
    method PageClick(id: string, currentPage: int, x: real, y: real)
      requires Valid()
      modifies this
      ensures Valid()
      ensures notes == old(notes)
      ensures var effective := old(isNoteMode && !isDragging && !wasDragging);
        if effective then
          selectedNote == Some(Note(id, currentPage, x, y, "")) && noteText == "" && isModalEditing
        else
          selectedNote == old(selectedNote) && noteText == old(noteText)
          && isModalEditing == old(isModalEditing)
      ensures isNoteMode == old(isNoteMode) && isDragging == old(isDragging)
      ensures draggedNoteId == old(draggedNoteId) && wasDragging == old(wasDragging)
      ensures editingNoteId == old(editingNoteId)
    {
      if !isNoteMode || isDragging || wasDragging {
        return;
      }
      selectedNote := Some(Note(id, currentPage, x, y, ""));
      noteText := "";
      isModalEditing := true;
    }

    /**
     * A click on a note marker: outside a drag and in note mode it opens the
     * modal on that note with its text.
     */
    method NoteClick(note: Note)
      requires Valid()
      modifies this
      ensures Valid()
      ensures notes == old(notes)
      ensures var effective := old(!isDragging && isNoteMode);
        if effective then
          selectedNote == Some(note) && noteText == note.text && isModalEditing
        else
          selectedNote == old(selectedNote) && noteText == old(noteText)
          && isModalEditing == old(isModalEditing)
      ensures isNoteMode == old(isNoteMode) && isDragging == old(isDragging)
      ensures draggedNoteId == old(draggedNoteId) && wasDragging == old(wasDragging)
      ensures editingNoteId == old(editingNoteId)
    {
      if isDragging || !isNoteMode {
        return;
      }
      selectedNote := Some(note);
      noteText := note.text;
      isModalEditing := true;
    }

    /** A click on a note's text in the sidebar starts editing it there. */
    method SidebarNoteClick(note: Note)
      requires Valid()
      modifies this
      ensures Valid()
      ensures editingNoteId == Some(note.id) && noteText == note.text
      ensures notes == old(notes) && selectedNote == old(selectedNote)
      ensures isNoteMode == old(isNoteMode) && isDragging == old(isDragging)
      ensures draggedNoteId == old(draggedNoteId) && wasDragging == old(wasDragging)
      ensures isModalEditing == old(isModalEditing)
    {
      editingNoteId := Some(note.id);
      noteText := note.text;
    }

    /** Typing in the modal's or the sidebar's text area. */
    method EditText(text: string)
      requires Valid()
      modifies this
      ensures Valid()
      ensures noteText == text
      ensures notes == old(notes) && selectedNote == old(selectedNote)
      ensures isNoteMode == old(isNoteMode) && isDragging == old(isDragging)
      ensures draggedNoteId == old(draggedNoteId) && wasDragging == old(wasDragging)
      ensures editingNoteId == old(editingNoteId) && isModalEditing == old(isModalEditing)
    {
      noteText := text;
    }

    /**
     * The save button. In the modal the selected note is upserted with the
     * typed text and the modal closes; in the sidebar the note being edited
     * gets the typed text and the edit ends. Without a selected (resp. a
     * truthy edited) note nothing happens.
     */
    method NoteSave()
      requires Valid()
      modifies this
      ensures Valid()
      ensures old(isModalEditing) && old(selectedNote).Some? ==>
        notes == UpsertText(old(notes), old(selectedNote).value, old(noteText))
        && selectedNote == None && noteText == "" && !isModalEditing
        && editingNoteId == old(editingNoteId)
      ensures !old(isModalEditing) && old(Truthy(editingNoteId)) ==>
        notes == UpdateText(old(notes), old(editingNoteId).value, old(noteText))
        && editingNoteId == None && noteText == ""
        && selectedNote == old(selectedNote) && isModalEditing == old(isModalEditing)
      ensures (if old(isModalEditing) then old(selectedNote).None? else !old(Truthy(editingNoteId))) ==>
        notes == old(notes) && selectedNote == old(selectedNote) && noteText == old(noteText)
        && editingNoteId == old(editingNoteId) && isModalEditing == old(isModalEditing)
      ensures isNoteMode == old(isNoteMode) && isDragging == old(isDragging)
      ensures draggedNoteId == old(draggedNoteId) && wasDragging == old(wasDragging)
    {
      if isModalEditing {
        if selectedNote.None? {
          return;
        }
        notes := UpsertText(notes, selectedNote.value, noteText);
        selectedNote := None;
        noteText := "";
        isModalEditing := false;
      } else {
        if !Truthy(editingNoteId) {
          return;
        }
        notes := UpdateText(notes, editingNoteId.value, noteText);
        editingNoteId := None;
        noteText := "";
      }
    }

    /**
     * The delete button: removes every note with the selected (modal) or
     * edited (sidebar) note's id and ends that edit.
     */
    method NoteDelete()
      requires Valid()
      modifies this
      ensures Valid()
      ensures old(isModalEditing) && old(selectedNote).Some? ==>
        notes == RemoveById(old(notes), old(selectedNote).value.id)
        && selectedNote == None && noteText == "" && !isModalEditing
        && editingNoteId == old(editingNoteId)
      ensures !old(isModalEditing) && old(Truthy(editingNoteId)) ==>
        notes == RemoveById(old(notes), old(editingNoteId).value)
        && editingNoteId == None && noteText == ""
        && selectedNote == old(selectedNote) && isModalEditing == old(isModalEditing)
      ensures (if old(isModalEditing) then old(selectedNote).None? else !old(Truthy(editingNoteId))) ==>
        notes == old(notes) && selectedNote == old(selectedNote) && noteText == old(noteText)
        && editingNoteId == old(editingNoteId) && isModalEditing == old(isModalEditing)
      ensures isNoteMode == old(isNoteMode) && isDragging == old(isDragging)
      ensures draggedNoteId == old(draggedNoteId) && wasDragging == old(wasDragging)
    {
      if isModalEditing {
        if selectedNote.None? {
          return;
        }
        notes := RemoveById(notes, selectedNote.value.id);
        selectedNote := None;
        noteText := "";
        isModalEditing := false;
      } else {
        if !Truthy(editingNoteId) {
          return;
        }
        notes := RemoveById(notes, editingNoteId.value);
        editingNoteId := None;
        noteText := "";
      }
    }

    /** A click on the modal's backdrop closes it and clears the typed text. */
    method DismissModal()
      requires Valid()
      modifies this
      ensures Valid()
      ensures selectedNote == None && noteText == "" && !isModalEditing
      ensures notes == old(notes) && editingNoteId == old(editingNoteId)
      ensures isNoteMode == old(isNoteMode) && isDragging == old(isDragging)
      ensures draggedNoteId == old(draggedNoteId) && wasDragging == old(wasDragging)
    {
      selectedNote := None;
      noteText := "";
      isModalEditing := false;
    }

    /** The modal's cancel button closes it but keeps the typed text. */
    method CancelModal()
      requires Valid()
      modifies this
      ensures Valid()
      ensures selectedNote == None && !isModalEditing
      ensures noteText == old(noteText)
      ensures notes == old(notes) && editingNoteId == old(editingNoteId)
      ensures isNoteMode == old(isNoteMode) && isDragging == old(isDragging)
      ensures draggedNoteId == old(draggedNoteId) && wasDragging == old(wasDragging)
    {
      selectedNote := None;
      isModalEditing := false;
    }

    /** The sidebar's cancel button ends the edit and clears the typed text. */
    method CancelSidebarEdit()
      requires Valid()
      modifies this
      ensures Valid()
      ensures editingNoteId == None && noteText == ""
      ensures notes == old(notes) && selectedNote == old(selectedNote)
      ensures isModalEditing == old(isModalEditing)
      ensures isNoteMode == old(isNoteMode) && isDragging == old(isDragging)
      ensures draggedNoteId == old(draggedNoteId) && wasDragging == old(wasDragging)
    {
      editingNoteId := None;
      noteText := "";
    }

    /** Mouse down on a note marker: in note mode, a drag of that note begins. */
    method DragStart(noteId: string)
      requires Valid()
      modifies this
      ensures Valid()
      ensures old(isNoteMode) ==>
        isDragging && !wasDragging && draggedNoteId == Some(noteId)
      ensures !old(isNoteMode) ==>
        isDragging == old(isDragging) && wasDragging == old(wasDragging)
        && draggedNoteId == old(draggedNoteId)
      ensures notes == old(notes) && selectedNote == old(selectedNote) && noteText == old(noteText)
      ensures isNoteMode == old(isNoteMode) && editingNoteId == old(editingNoteId)
      ensures isModalEditing == old(isModalEditing)
    {
      if !isNoteMode {
        return;
      }
      isDragging := true;
      wasDragging := false;
      draggedNoteId := Some(noteId);
    }

    /**
     * Mouse move over the page, at position (`x`, `y`) in percent: while a
     * note is dragged in note mode, it is moved there (clamped) and the drag
     * is remembered so that the click ending it is ignored.
     */
    method DragMove(x: real, y: real)
      requires Valid()
      modifies this
      ensures Valid()
      ensures var effective := old(isDragging && Truthy(draggedNoteId) && isNoteMode);
        if effective then
          wasDragging && notes == MoveNote(old(notes), old(draggedNoteId).value, x, y)
        else
          wasDragging == old(wasDragging) && notes == old(notes)
      ensures isNoteMode == old(isNoteMode) && isDragging == old(isDragging)
      ensures draggedNoteId == old(draggedNoteId) && selectedNote == old(selectedNote)
      ensures noteText == old(noteText) && editingNoteId == old(editingNoteId)
      ensures isModalEditing == old(isModalEditing)
    {
      if !isDragging || !Truthy(draggedNoteId) || !isNoteMode {
        return;
      }
      wasDragging := true;
      notes := MoveNote(notes, draggedNoteId.value, x, y);
    }

    /** Mouse up or leave: the drag ends; `wasDragging` stays set until the cooldown. */
    method DragEnd()
      requires Valid()
      modifies this
      ensures Valid()
      ensures !isDragging && draggedNoteId == None
      ensures wasDragging == old(wasDragging) && notes == old(notes)
      ensures isNoteMode == old(isNoteMode) && selectedNote == old(selectedNote)
      ensures noteText == old(noteText) && editingNoteId == old(editingNoteId)
      ensures isModalEditing == old(isModalEditing)
    {
      isDragging := false;
      draggedNoteId := None;
    }

    /** The timer set by a drag end fires: clicks on the page count again. */
    method DragCooldownElapsed()
      requires Valid()
      modifies this
      ensures Valid()
      ensures !wasDragging
      ensures notes == old(notes) && isDragging == old(isDragging)
      ensures draggedNoteId == old(draggedNoteId)
      ensures isNoteMode == old(isNoteMode) && selectedNote == old(selectedNote)
      ensures noteText == old(noteText) && editingNoteId == old(editingNoteId)
      ensures isModalEditing == old(isModalEditing)
    {
      wasDragging := false;
    }
  }
}
