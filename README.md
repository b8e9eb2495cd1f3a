# PDF lecture notes: a verified model of the reading-order and note logic

This project models, in Dafny, the logic of a web application for reading PDF
lecture slides and pinning notes on them. Five parts of its code are modelled:

- **Page text reconstruction** (`records.dfy`, `text_extractor.dfy`, and the
  lemma files `text_extractor_facts.dfy` and `text_extractor_examples.dfy`).
  The text items of one PDF page are grouped into lines by their rounded
  baseline y, within a tolerance of 5. A line is keyed by the y of the
  fragment that opened it, and that key never moves. A fragment joins the
  smallest existing key within tolerance (the order of `Object.keys` for
  non-negative integer keys). A matched key of 0 is falsy, though: the
  fragment then goes to the line keyed by its own y, opening it if absent,
  even when a non-zero key is within tolerance. Lines are emitted top-down, and
  fragments left to right by a stable sort on x. The page text is the lines
  joined by `"\n"`, each line's fragments joined by one space.
  - The source's `forEach` grouping, its in-place `group.sort` and its
    per-page assembly are modelled as imperative methods.
  - Each method is proved equal to a functional specification, and the
    properties are proved about that specification.
- **The PDF viewer's notes** (`pdf_viewer.dfy`, `pdf_viewer_facts.dfy`).
  - Pure functions model the note-list updates: upsert on modal save,
    update-only on sidebar save, delete by id, a clamped drag move and the
    per-page filter.
  - The class `ViewerState` holds the viewer's state fields. Its handlers
    decide which events have an effect: arrow keys, the page input, page
    clicks, note clicks, save, delete, cancel, and drag start/move/end.
- **The file list** (`file_list.dfy`, `file_list_facts.dfy`).
  - The display order is a stable sort: folders first, then most recently
    updated first.
  - Drag-over and drop guards decide when a file is moved and where.
  - Deleting goes through a confirm/cancel flow.
- **The breadcrumb** (`breadcrumb.dfy`). This is the `while` loop that walks
  `parentId` links through the stored documents and collects the path from
  the outermost folder reached down to the current one.
- **The AI quota** (`ai_usage.dfy`).
  - Loading uses the existing usage record, or initialises one when there is
    none.
  - Decrementing is applied only after the backend call resolves, and
    floors the quota at zero.

Backend calls, the clock (`Date.now()`) and pointer positions are
parameters. The document store is a map from document id to entry.

Four behaviours of the code are worth stating plainly:

- **Line keys are fixed.** A fragment is compared with each line's fixed
  key, not with its nearest neighbour. Fragments at y 100, 104 and 108,
  arriving in that order, give two lines: 104 joins 100, and 108 (8 units
  from the key 100) opens its own. `GroupingDependsOnOrder` shows this.
- **Notes are not persisted.** The viewer keeps notes only in component
  state and never writes them back to the store.
- **Decrement failures propagate.** `decrementUsage` has no `catch`: a
  rejected backend decrement reaches its caller and leaves the local quota
  unchanged.
- **The local quota is floored.** The local update floors the quota at zero
  with `Math.max`.

## Model

| member | source | states |
|---|---|---|
| `TextExtractor.ReplaceNewlines` | src/utils/textExtractor.ts:37 | same length; every `"\n"` becomes a space and every other character is kept |
| `TextExtractor.Fragments` | src/utils/textExtractor.ts:22-25 | at most one fragment per item: the items with a string that does not trim to empty, in input order; `FragmentsSnoc` states that a kept item adds exactly its fragment and a skipped item adds nothing, and `FragmentsAppend` that fragments of a concatenation concatenate |
| `TextExtractorFacts.FragmentsSnoc` | src/utils/textExtractor.ts:22-25 | appending an item appends its fragment (newlines replaced, position kept) exactly when it has a string that does not trim to empty, and nothing otherwise |
| `TextExtractor.FindNearKey` | src/utils/textExtractor.ts:28-31 | `find` over the keys in ascending order: a result is the smallest key within 5 of y; no result means no key is within 5 |
| `TextExtractor.GroupKey` | src/utils/textExtractor.ts:28-31 | the key is within 5 of y; it is y itself or the non-zero smallest near key; a non-zero smallest near key is always the one chosen (`\|\| y` only covers none or 0) |
| `TextExtractor.AddToGroups` | src/utils/textExtractor.ts:33-39 | pushing a fragment adds exactly its chosen key to the key set, creating that group when absent; `AddToGroupsGrows` states that existing groups only grow at their end |
| `TextExtractor.GroupAll` | src/utils/textExtractor.ts:22-41 | the groups the `forEach` builds: every group holds at least one fragment; `GroupingSound` and `GroupsOnlyGrow` characterise keys and contents |
| `TextExtractor.DescendingKeysOrdered` | src/utils/textExtractor.ts:44-45 | the line keys in emission order are exactly the group keys, each once, in strictly descending order (top of page first) |
| `TextExtractor.GroupFragments` | src/utils/textExtractor.ts:17-41 | the `forEach` loop builds exactly the groups of the kept fragments, each fragment pushed in input order to the key chosen for it |
| `TextExtractor.InsertIntoSorted` | src/utils/textExtractor.ts:47 | one in-place insertion step: the first i+1 cells become the stable insertion of cell i into the sorted prefix; the rest is untouched |
| `TextExtractor.SortByX` | src/utils/textExtractor.ts:47 | the stable sort by x keeps the line's length; `SortByXSorted`, `SortByXPermutes` and `SortByXStable` state that it is sorted, a permutation and stable |
| `TextExtractor.SortLineInPlace` | src/utils/textExtractor.ts:47 | the in-place `group.sort((a, b) => a.x - b.x)` leaves the array equal to the stable sort by x of its old contents |
| `TextExtractor.SortedLineText` | src/utils/textExtractor.ts:46-51 | a line's text is its fragments sorted by x, joined by one space |
| `TextExtractor.ExtractPageText` | src/utils/textExtractor.ts:16-53 | the per-page body returns exactly the page text of its items |
| `TextExtractor.PageText` | src/utils/textExtractor.ts:44-51 | the text of a page with no items is empty; `PageTextNewlines` and `PageTextEmptyIff` give its line structure, and `ExtractPageText` is proved to compute it |
| `TextExtractorFacts.SkippedItemContributesNothing` | src/utils/textExtractor.ts:23 | an item without a string, or whose string trims to empty, can be removed without changing the page text |
| `TextExtractorFacts.GroupingSound` | src/utils/textExtractor.ts:24-39 | every kept fragment is placed at an existing key within 5 of its y; the keys are exactly the placements; each group holds exactly the fragments placed at its key, in input order |
| `TextExtractorFacts.GroupsOnlyGrow` | src/utils/textExtractor.ts:33-39 | later fragments never change an earlier fragment's key; every existing key stays, and each group only grows at its end |
| `TextExtractorFacts.AddToGroupsGrows` | src/utils/textExtractor.ts:33-39 | pushing one fragment keeps every key and extends existing groups at their end |
| `TextExtractorFacts.ZeroKeyNeverJoined` | src/utils/textExtractor.ts:31 | with a line keyed 0, a fragment at y in 1..5 goes to the line keyed by its own y (opening it if absent) instead of joining line 0, even when another key is within tolerance |
| `TextExtractorFacts.SortByXSorted` | src/utils/textExtractor.ts:47 | within a line, fragments are in ascending x |
| `TextExtractorFacts.SortByXPermutes` | src/utils/textExtractor.ts:47 | sorting a line keeps exactly its fragments (same multiset) |
| `TextExtractorFacts.SortByXStable` | src/utils/textExtractor.ts:47 | fragments with equal x keep their arrival order |
| `TextExtractorFacts.PageTextNewlines` | src/utils/textExtractor.ts:37-51 | the page text has exactly one `"\n"` fewer than it has lines, and none when no item is kept |
| `TextExtractorFacts.PageTextEmptyIff` | src/utils/textExtractor.ts:51 | the page text is empty if and only if no item is kept |
| `TextExtractorExamples.SameLineReadsLeftToRight` | src/utils/textExtractor.ts:28-51 | two fragments within tolerance share a line and read left to right, joined by one space |
| `TextExtractorExamples.DistantLinesTopFirst` | src/utils/textExtractor.ts:28-51 | two fragments more than 5 apart are two lines, the higher one first, joined by `"\n"` |
| `TextExtractorExamples.ToleranceBoundary` | src/utils/textExtractor.ts:20-31 | y 100 and 105 form one line; y 100 and 106 form two |
| `TextExtractorExamples.BlankItemDropped` | src/utils/textExtractor.ts:23 | a whitespace-only item before a text item leaves only that item's text |
| `TextExtractorExamples.ZeroKeySplitsLine` | src/utils/textExtractor.ts:31 | fragments at y 0 and y 3 give two lines although they are within tolerance |
| `TextExtractorExamples.ZeroKeyBypassesNearKey` | src/utils/textExtractor.ts:28-31 | with lines keyed 0 and 3, a fragment at y 2 opens its own line although 3 is near; a fragment at y 3 joins the existing line 3 |
| `TextExtractorExamples.GroupingDependsOnOrder` | src/utils/textExtractor.ts:28-39 | fragments at y 100, 104, 108 group 104 with 100; in reverse order 104 groups with 108 |
| `PdfViewer.Clamp` | src/components/PDFViewer.tsx:233-234 | the result lies in [0, 100], equals the input inside that range, and is 0 below it and 100 above it |
| `PdfViewer.FirstIndexOf` | src/components/PDFViewer.tsx:138-140 | `findIndex`: a result is the first index whose note has the id; no result means no note has it |
| `PdfViewer.UpsertText` | src/components/PDFViewer.tsx:137-153 | the modal save keeps the length when the selected id is listed and adds exactly one note otherwise; `UpsertExisting`, `UpsertNew`, `UpsertIds` and `SaveThenLookup` state the contents |
| `PdfViewer.UpdateText` | src/components/PDFViewer.tsx:160-173 | the sidebar save keeps the length and returns the list unchanged when no note has the id; `UpdateAgreesWithUpsert` ties it to the modal save |
| `PdfViewer.RemoveById` | src/components/PDFViewer.tsx:182 | a note remains if and only if it was in the list and its id differs from the target; the list never grows |
| `PdfViewer.MoveNote` | src/components/PDFViewer.tsx:228-238 | the drag map keeps the length; `MoveOnlyDragged`, `MoveKeepsIds` and `MoveAppend` state which notes change and how |
| `PdfViewer.NotesOnPage` | src/components/PDFViewer.tsx:380-381 | the notes shown for a page are exactly the list's notes whose page is that page |
| `PdfViewer.ArrowTarget` | src/components/PDFViewer.tsx:53-62 | back keys ask for page-1 only above page 1; forward keys ask for page+1 only below the last page; from a page in [1, total] the target stays in [1, total] |
| `PdfViewer.PageInputTarget` | src/components/PDFViewer.tsx:301-306 | the page input changes the page exactly when the parsed number is in [1, total], and then to that number |
| `PdfViewer.ViewerState.KeyDown` | src/components/PDFViewer.tsx:52-63 | no page is requested while modal editing, dragging or sidebar editing; otherwise the arrow-key target |
| `PdfViewer.ViewerState.constructor` | src/components/PDFViewer.tsx:34-47 | the initial state: not in note mode, no notes, nothing selected, dragged or edited |
| `PdfViewer.ViewerState.ToggleNoteMode` | src/components/PDFViewer.tsx:322 | flips note mode and nothing else |
| `PdfViewer.ViewerState.PageClick` | src/components/PDFViewer.tsx:97-115 | only in note mode and neither dragging nor just after a drag: the modal opens on a pending note with empty text on the current page; the note list is not changed |
| `PdfViewer.ViewerState.NoteClick` | src/components/PDFViewer.tsx:117-126 | outside a drag and in note mode, the modal opens on the clicked note with its text; the notes are not changed |
| `PdfViewer.ViewerState.SidebarNoteClick` | src/components/PDFViewer.tsx:128-131 | the sidebar edits the clicked note, starting from its text |
| `PdfViewer.ViewerState.EditText` | src/components/PDFViewer.tsx:496 | typing sets the pending text and nothing else |
| `PdfViewer.ViewerState.NoteSave` | src/components/PDFViewer.tsx:133-177 | the modal save upserts the selected note and closes the modal; the sidebar save updates the edited note and ends the edit; with nothing selected or edited nothing changes |
| `PdfViewer.ViewerState.NoteDelete` | src/components/PDFViewer.tsx:179-192 | removes every note with the selected or edited id and ends that edit; with nothing selected or edited nothing changes |
| `PdfViewer.ViewerState.DismissModal` | src/components/PDFViewer.tsx:575-579 | the backdrop click closes the modal and clears the typed text |
| `PdfViewer.ViewerState.CancelModal` | src/components/PDFViewer.tsx:603-606 | the modal's cancel closes it but keeps the typed text |
| `PdfViewer.ViewerState.CancelSidebarEdit` | src/components/PDFViewer.tsx:509-512 | the sidebar's cancel ends the edit and clears the typed text |
| `PdfViewer.ViewerState.DragStart` | src/components/PDFViewer.tsx:205-215 | only in note mode: a drag of that note begins and the just-dragged flag is reset |
| `PdfViewer.ViewerState.DragMove` | src/components/PDFViewer.tsx:217-239 | only while dragging a truthy id in note mode: the dragged notes move to the clamped position and the just-dragged flag is set |
| `PdfViewer.ViewerState.DragEnd` | src/components/PDFViewer.tsx:241-245 | the drag ends: dragging flag and dragged id both cleared; the just-dragged flag stays |
| `PdfViewer.ViewerState.DragCooldownElapsed` | src/components/PDFViewer.tsx:246-248 | the timer after a drag clears the just-dragged flag and nothing else |
| `PdfViewerFacts.UpsertExisting` | src/components/PDFViewer.tsx:141-148 | saving a note whose id is listed changes only the text of the first note with that id; length and order are kept |
| `PdfViewerFacts.UpsertNew` | src/components/PDFViewer.tsx:149-152 | saving a note whose id is not listed appends it, with the new text, at the end |
| `PdfViewerFacts.UpsertIds` | src/components/PDFViewer.tsx:137-153 | the ids after a modal save are the old ids, or the old ids plus the new one at the end |
| `PdfViewerFacts.UpsertKeepsUniqueIds` | src/components/PDFViewer.tsx:137-153 | a modal save keeps ids unique |
| `PdfViewerFacts.SaveThenLookup` | src/components/PDFViewer.tsx:137-153 | after a modal save, looking up the saved id finds a note with the saved text |
| `PdfViewerFacts.UpdateAgreesWithUpsert` | src/components/PDFViewer.tsx:160-173 | the sidebar save equals the modal save when the id is listed, and returns the list unchanged otherwise |
| `PdfViewerFacts.RemoveByIdAppend` | src/components/PDFViewer.tsx:182 | delete distributes over concatenation, so the remaining notes keep their relative order |
| `PdfViewerFacts.RemoveAbsent` | src/components/PDFViewer.tsx:188 | deleting an id that no note has changes nothing |
| `PdfViewerFacts.RemoveByIdCount` | src/components/PDFViewer.tsx:182 | the list shrinks by exactly the number of notes with the id |
| `PdfViewerFacts.RemoveKeepsUniqueIds` | src/components/PDFViewer.tsx:182 | a delete keeps ids unique |
| `PdfViewerFacts.DeleteUndoesNewSave` | src/components/PDFViewer.tsx:149-182 | deleting a note just added by a modal save restores the list |
| `PdfViewerFacts.MoveOnlyDragged` | src/components/PDFViewer.tsx:228-238 | a drag move keeps length, ids, pages and texts; notes with other ids are unchanged; dragged notes get the clamped coordinates, inside [0, 100] |
| `PdfViewerFacts.MoveKeepsIds` | src/components/PDFViewer.tsx:228-238 | a drag move keeps the list of ids, hence their uniqueness |
| `PdfViewerFacts.MoveAppend` | src/components/PDFViewer.tsx:229 | the move maps each note on its own, so it distributes over concatenation |
| `PdfViewerFacts.NotesOnPageAppend` | src/components/PDFViewer.tsx:470-471 | the per-page filter distributes over concatenation, keeping order |
| `PdfViewerFacts.MoveCommutesWithPage` | src/components/PDFViewer.tsx:228-238 | the notes shown on a page after a drag are that page's notes, moved |
| `PdfViewerFacts.RemoveCommutesWithPage` | src/components/PDFViewer.tsx:182 | the notes shown on a page after a delete are that page's notes, filtered |
| `PdfViewerFacts.NewNoteShownLastOnItsPage` | src/components/PDFViewer.tsx:151 | a note added by a modal save is listed last among its page's notes |
| `FileList.Compare` | src/components/files/FileList.tsx:85-96 | negative exactly when a folder meets a file, or the kinds match and the first is newer; zero exactly for the same kind and time |
| `FileList.SortFiles` | src/components/files/FileList.tsx:85-96 | the sorted copy has the length of the list; `SortFilesPermutes`, `SortFilesOrdered`, `FoldersFirstNewestFirst`, `SortFilesStable` and `SortFilesIdempotent` state the order |
| `FileList.DragOverHighlight` | src/components/files/FileList.tsx:34-44 | the value `handleDragOver` stores: it sets the highlight state exactly for the root card or a folder other than the dragged entry's parent, and never for a file card; it stores the folder's id, or null for the root card, which is also the value meaning no card is highlighted |
| `FileList.DropMove` | src/components/files/FileList.tsx:52-66 | a move is asked for exactly when a file is dragged onto the root or onto a folder other than its parent; it moves that file there and never onto a file card; dropped on a folder card it never moves the file into the folder it is already in, while a drop on the root card is always asked for, even for a file already at the root |
| `FileList.FileListState.constructor` | src/components/files/FileList.tsx:24-26 | nothing dragged, highlighted or pending deletion |
| `FileList.FileListState.DragStart` | src/components/files/FileList.tsx:28-32 | only a file becomes the dragged entry |
| `FileList.FileListState.DragOver` | src/components/files/FileList.tsx:34-44 | sets the highlight as the drag-over rule says, or leaves it |
| `FileList.FileListState.DragLeave` | src/components/files/FileList.tsx:46-50 | clears the highlight |
| `FileList.FileListState.Drop` | src/components/files/FileList.tsx:52-66 | clears the highlight; returns the move the drop rule gives; clears the dragged entry except on a file card |
| `FileList.FileListState.DeleteClick` | src/components/files/FileList.tsx:68-71 | the entry becomes the one pending deletion |
| `FileList.FileListState.ConfirmDelete` | src/components/files/FileList.tsx:73-78 | deletes the pending entry's id, if any, and clears it |
| `FileList.FileListState.CancelDelete` | src/components/files/FileList.tsx:80-82 | clears the pending entry without deleting |
| `FileListFacts.SortFilesPermutes` | src/components/files/FileList.tsx:85 | the sorted copy holds exactly the entries of the list |
| `FileListFacts.SortFilesOrdered` | src/components/files/FileList.tsx:85-96 | no entry of the sorted copy is put after a later one by the comparator |
| `FileListFacts.FoldersFirstNewestFirst` | src/components/files/FileList.tsx:87-95 | every folder precedes every file; within a kind, `updatedAt` does not increase |
| `FileListFacts.SortFilesStable` | src/components/files/FileList.tsx:90-95 | entries of the same kind and time keep their input order |
| `FileListFacts.SortFilesIdempotent` | src/components/files/FileList.tsx:85-96 | sorting the sorted copy again changes nothing |
| `FileListFacts.HighlightMatchesDrop` | src/components/files/FileList.tsx:34-66 | while a file is dragged, the drag-over sets the highlight state exactly when a drop on the same card moves the file, and the value it sets is the move's destination folder (null for the root) |
| `Breadcrumb.Parent` | src/components/files/Breadcrumb.tsx:23-29 | the walk moves on exactly when `parentId` is truthy and names a stored document, to that document with its id |
| `Breadcrumb.PathFrom` | src/components/files/Breadcrumb.tsx:21-33 | the path ends with the start folder, begins with a folder the walk stops at, links each folder to the next by `parentId`, and has at most one folder per lookup plus one |
| `Breadcrumb.FolderPath` | src/components/files/Breadcrumb.tsx:15-36 | no folder gives the empty path; otherwise the folder is last, the first folder has no reachable parent, and neighbours are parent and child |
| `Breadcrumb.GetFolderPath` | src/components/files/Breadcrumb.tsx:15-36 | the `while` loop that prepends each folder reached returns exactly that path |
| `Breadcrumb.SelfParentNeverStops` | src/components/files/Breadcrumb.tsx:21-33 | a folder whose stored parent is itself is never left: no number of lookups ends the walk |
| `Breadcrumb.CycleNeverStops` | src/components/files/Breadcrumb.tsx:21-33 | a folder the walk returns to after one or more lookups is never left: no number of lookups ends the walk |
| `Breadcrumb.StopsWithinStoreSize` | src/components/files/Breadcrumb.tsx:21-33 | a walk that ends at all ends within as many lookups as there are stored documents, so the loop's precondition excludes only walks that never end |
| `Breadcrumb.PathFromFuel` | src/components/files/Breadcrumb.tsx:21-33 | allowing more lookups does not change where the walk stops or what it collects |
| `AiUsage.Decremented` | src/context/AIUsageContext.tsx:43-49 | no usage stays none; otherwise the quota drops by one, or to 0 at or below zero, and is never negative; the user id is copied |
| `AiUsage.DecrementedTimes` | src/context/AIUsageContext.tsx:43-49 | repeated decrements keep no usage as none, and after at least one the quota is non-negative; n decrements of a usage with quota q leave max(0, q - n) and copy the rest of the record |
| `AiUsage.LoadedUsage` | src/context/AIUsageContext.tsx:26-34 | an existing record is used as is; with none, the initialised one is used; a failed lookup sets nothing |
| `AiUsage.UsageProvider.constructor` | src/context/AIUsageContext.tsx:21 | no usage is loaded at first |
| `AiUsage.UsageProvider.LoadAIUsage` | src/context/AIUsageContext.tsx:24-35 | without a user id nothing happens; initialisation is called exactly when the lookup found nothing; the loaded usage is stored, or the state kept on failure |
| `AiUsage.UsageProvider.DecrementUsage` | src/context/AIUsageContext.tsx:39-50 | without a user id nothing happens; a rejected backend decrement propagates and leaves the usage; a resolved one applies the floored decrement |

## Left out

- Loading the PDF, fetching each page's text content and storing the page
  texts: pdfjs is not part of this model. The model starts from a page's
  items with their x and y already taken from the transform.
- The `Math.round` of the y coordinate is taken as done; y is a natural
  number. Negative y and keys beyond the array-index range (2^32 - 2) are
  not modelled: `Object.keys` orders those differently.
- x is an integer. Floating-point x and the comparator's arithmetic on
  floats are not modelled.
- The trim test uses the white-space and line-terminator characters of
  `String.prototype.trim` as a predicate on characters.
- `Note` has the five fields the viewer sets (id, page, x, y, text). The
  viewer's `Note` type is imported from a module that is not part of this
  model. The record in `src/types/auth.ts` lists further fields (fileId,
  userId, dates) that the viewer neither sets nor reads.
- Note positions are percentages given by the caller. The
  pixel-to-percent conversion on the element's bounding box is DOM geometry
  in floating point, and is left out. So are `NaN` positions.
- `PdfViewer.ViewerState.DragMove`: the container element is assumed
  mounted; the `containerRef.current` test is not modelled.
- `PdfViewer.ViewerState.DragCooldownElapsed`: the 100 ms timer is an
  explicit event. Its timing relative to other events is not modelled.
- `PdfViewer.ViewerState.NoteClick` includes the marker's `onClick` guard
  (not dragging, in note mode). `scrollIntoView` is left out.
- `PdfViewer.ViewerState.KeyDown` and `PdfViewer.PageInputTarget` return
  the requested page instead of calling `onPageChange`. `parseInt` is a
  parameter, with `None` for `NaN`.
- React's batching of state updates is not modelled. Each handler is one
  atomic step over the state fields.
- Text extraction on demand, PDF export (`savePDF`), rendering, CSS and
  `confirm`/`alert` are not modelled.
- `FileList.DragOverHighlight` models the state `handleDragOver` stores,
  not the card styling. The root card's styling (src/components/files/FileList.tsx:104)
  compares that state with `"root"`, while the handler stores null for it, so
  the root card is never drawn highlighted even though a drop on it moves the
  file. Rendering is not modelled, so this mismatch is stated here only.
- The Firestore `Timestamp.toDate()` conversion in the comparator is not
  modelled; `updatedAt` is an integer timestamp.
- `Breadcrumb.GetFolderPath` and `Breadcrumb.FolderPath` require the walk
  to stop within as many lookups as there are stored documents.
  `StopsWithinStoreSize` proves that every walk that stops at all does so
  within that bound, so only walks on which the source loops forever are
  excluded; `CycleNeverStops` shows that a folder chain with a cycle is
  such a walk. A failing `getDoc` (a rejected promise) is not modelled: the
  store lookup is total.
- `AiUsage.Usage` holds only `userId` and `remainingQuota`. The record's
  declaration is in a module that is not part of this model, and the
  update copies every other field unchanged.
- `src/utils/firebase.ts`, the analysis API route, pages, layout, header
  and toolbar are not part of this model. They are calls to Firestore,
  Storage or the language-model API, plus routing.
