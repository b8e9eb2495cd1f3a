/**
 * The file browser's list: the order in which entries are shown, the rules
 * that decide when dragging a file onto a card moves it, and the
 * confirm/cancel flow of a delete.
 */
module FileList {
  import opened Records

  // ---------------------------------------------------------------------
  // Display order
  // ---------------------------------------------------------------------

  /**
   * The comparator of `sortedFiles`: a folder before a file, otherwise the
   * more recently updated entry first (`b.updatedAt - a.updatedAt`).
   */
  function Compare(a: FileItem, b: FileItem): (r: int)
    ensures r < 0 <==>
      (a.kind == Folder && b.kind == File) || (a.kind == b.kind && a.updatedAt > b.updatedAt)
    ensures r > 0 <==>
      (a.kind == File && b.kind == Folder) || (a.kind == b.kind && a.updatedAt < b.updatedAt)
    ensures r == 0 <==> a.kind == b.kind && a.updatedAt == b.updatedAt
  {
    if a.kind == Folder && b.kind == File then -1
    else if a.kind == File && b.kind == Folder then 1
    else
      assert a.kind == b.kind by { if a.kind == File { assert b.kind == File; } }
      b.updatedAt - a.updatedAt
  }

  /** Inserts `f` after every entry that the comparator does not put after it. */
  function InsertFile(s: seq<FileItem>, f: FileItem): (r: seq<FileItem>)
    ensures |r| == |s| + 1
  {
    if s == [] || Compare(s[|s| - 1], f) <= 0 then s + [f]
    else InsertFile(s[..|s| - 1], f) + [s[|s| - 1]]
  }

  /**
   * `[...files].sort(compare)`: a stable sort of a copy, so `files` itself is
   * left as it was.
   */
  function SortFiles(files: seq<FileItem>): (r: seq<FileItem>)
    ensures |r| == |files|
  {
    if files == [] then [] else InsertFile(SortFiles(files[..|files| - 1]), files[|files| - 1])
  }

  /** No entry is put after a later one by the comparator. */
  predicate InDisplayOrder(s: seq<FileItem>)
  {
    forall i, j :: 0 <= i < j < |s| ==> Compare(s[i], s[j]) <= 0
  }

  /** The entries of one kind updated at one instant, in order: the comparator's ties. */
  function Ties(s: seq<FileItem>, kind: FileKind, updatedAt: int): seq<FileItem>
  {
    if s == [] then []
    else
      var last := s[|s| - 1];
      Ties(s[..|s| - 1], kind, updatedAt)
        + (if last.kind == kind && last.updatedAt == updatedAt then [last] else [])
  }

  // ---------------------------------------------------------------------
  // Moving by drag and drop
  // ---------------------------------------------------------------------

  /** A call `onFileMove(fileId, targetFolderId)`; `None` is the root. */
  datatype Move = Move(fileId: string, targetFolderId: Option<string>)

  /**
   * A drop target is acceptable for the dragged entry: the root (`null`) or
   * a folder other than the one the entry is already in. Nothing dragged
   * compares as `undefined`, which no folder id equals.
   */
  predicate AcceptsDrop(dragged: Option<FileItem>, target: Option<FileItem>)
  {
    target.None?
    || (target.value.kind == Folder && (dragged.None? || Some(target.value.id) != dragged.value.parentId))
  }

  /**
   * `handleDragOver`: the value it stores (`Some(v)` sets `dragOverFolder`
   * to `v`: a folder's id, or null for the root card), or `None` when the
   * state is left as it was.
   */
  function DragOverHighlight(dragged: Option<FileItem>, target: Option<FileItem>): (r: Option<Option<string>>)
    ensures r.Some? <==> AcceptsDrop(dragged, target)
    ensures target.Some? && target.value.kind == File ==> r.None?
    ensures r.Some? ==> r.value == (if target.None? then None else Some(target.value.id))
  {
    if target.Some? && target.value.kind == File then None
    else if AcceptsDrop(dragged, target) then
      Some(if target.None? then None else Some(target.value.id))
    else None
  }

  /** `handleDrop`: the move it asks for, if any. */
  function DropMove(dragged: Option<FileItem>, target: Option<FileItem>): (r: Option<Move>)
    ensures r.Some? <==> dragged.Some? && AcceptsDrop(dragged, target)
    ensures target.Some? && target.value.kind == File ==> r.None?
    ensures r.Some? ==> r.value.fileId == dragged.value.id
    ensures r.Some? && target.None? ==> r.value.targetFolderId == None
    ensures r.Some? && target.Some? ==>
      target.value.kind == Folder && r.value.targetFolderId == Some(target.value.id)
      && r.value.targetFolderId != dragged.value.parentId
  {
    if target.Some? && target.value.kind == File then None
    else if dragged.Some? && AcceptsDrop(dragged, target) then
      Some(Move(dragged.value.id, if target.None? then None else Some(target.value.id)))
    else None
  }

  // ---------------------------------------------------------------------
  // The list's state and its handlers
  // ---------------------------------------------------------------------

  class FileListState {
    var draggedFile: Option<FileItem>
    var dragOverFolder: Option<string>
    var fileToDelete: Option<FileItem>

    /** Only files are ever dragged. */
    ghost predicate Valid()
      reads this
    {
      draggedFile.Some? ==> draggedFile.value.kind == File
    }

    constructor ()
      ensures Valid()
      ensures draggedFile == None && dragOverFolder == None && fileToDelete == None
    {
      draggedFile := None;
      dragOverFolder := None;
      fileToDelete := None;
    }

    /** Picking up an entry: only a file becomes the dragged entry. */
    method DragStart(file: FileItem)
      requires Valid()
      modifies this
      ensures Valid()
      ensures draggedFile == if file.kind == File then Some(file) else old(draggedFile)
      ensures dragOverFolder == old(dragOverFolder) && fileToDelete == old(fileToDelete)
    {
      if file.kind == File {
        draggedFile := Some(file);
      }
    }

    /** Dragging over a card: acceptable targets are highlighted. */
    method DragOver(target: Option<FileItem>)
      requires Valid()
      modifies this
      ensures Valid()
      ensures dragOverFolder ==
        match DragOverHighlight(old(draggedFile), target)
        case Some(v) => v
        case None => old(dragOverFolder)
      ensures draggedFile == old(draggedFile) && fileToDelete == old(fileToDelete)
    {
      if target.Some? && target.value.kind == File {
        return;
      }
      if target.None? || (target.value.kind == Folder
        && (draggedFile.None? || Some(target.value.id) != draggedFile.value.parentId))
      {
        dragOverFolder := if target.None? then None else Some(target.value.id);
      }
    }

    /** Leaving a card clears the highlight. */
    method DragLeave()
      requires Valid()
      modifies this
      ensures Valid()
      ensures dragOverFolder == None
      ensures draggedFile == old(draggedFile) && fileToDelete == old(fileToDelete)
    {
      dragOverFolder := None;
    }

    /**
     * Dropping on a card: the highlight is cleared, the move (if any) is
     * returned, and the dragged entry is dropped, except on a file card,
     * where the handler returns before that reset.
     */
    method Drop(target: Option<FileItem>) returns (move: Option<Move>)
      requires Valid()
      modifies this
      ensures Valid()
      ensures move == DropMove(old(draggedFile), target)
      ensures dragOverFolder == None
      ensures draggedFile == if target.Some? && target.value.kind == File then old(draggedFile) else None
      ensures fileToDelete == old(fileToDelete)
    {
      dragOverFolder := None;
      if target.Some? && target.value.kind == File {
        return None;
      }
      move := None;
      if draggedFile.Some? && (target.None?
        || (target.value.kind == Folder && Some(target.value.id) != draggedFile.value.parentId))
      {
        move := Some(Move(draggedFile.value.id, if target.None? then None else Some(target.value.id)));
      }
      draggedFile := None;
    }

    /** The delete button of an entry asks for confirmation. */
    method DeleteClick(file: FileItem)
      requires Valid()
      modifies this
      ensures Valid()
      ensures fileToDelete == Some(file)
      ensures draggedFile == old(draggedFile) && dragOverFolder == old(dragOverFolder)
    {
      fileToDelete := Some(file);
    }

    /** Confirming: the pending entry's id is passed to `onFileDelete` and the dialog closes. */
    method ConfirmDelete() returns (deleted: Option<string>)
      requires Valid()
      modifies this
      ensures Valid()
      ensures deleted == if old(fileToDelete).Some? then Some(old(fileToDelete).value.id) else None
      ensures fileToDelete == None
      ensures draggedFile == old(draggedFile) && dragOverFolder == old(dragOverFolder)
    {
      deleted := None;
      if fileToDelete.Some? {
        deleted := Some(fileToDelete.value.id);
        fileToDelete := None;
      }
    }

    /** Cancelling closes the dialog without deleting anything. */
    method CancelDelete()
      requires Valid()
      modifies this
      ensures Valid()
      ensures fileToDelete == None
      ensures draggedFile == old(draggedFile) && dragOverFolder == old(dragOverFolder)
    {
      fileToDelete := None;
    }
  }
}
