/**
 * Records shared by the file browser, the breadcrumb and the PDF viewer:
 * files and folders of the user's library, positional notes on a page, and
 * the optional values the UI state keeps.
 */
module Records {

  /** A value that may be absent (`null` / `undefined` in the application). */
  datatype Option<+T> = None | Some(value: T)

  /**
   * JavaScript truthiness of an optional string: `null` and the empty
   * string are both falsy.
   */
  predicate Truthy(s: Option<string>)
  {
    s.Some? && s.value != ""
  }

  /** The two kinds of library entries: `"file"` and `"folder"`. */
  datatype FileKind = File | Folder

  /**
   * An entry of the user's library. Dates are timestamps in milliseconds;
   * `parentId` is `None` for entries at the root.
   */
  datatype FileItem = FileItem(
    id: string,
    name: string,
    kind: FileKind,
    parentId: Option<string>,
    userId: string,
    createdAt: int,
    updatedAt: int,
    fileUrl: Option<string>,
    fileSize: Option<int>,
    fileType: Option<string>
  )

  /**
   * A note pinned on a page of the open PDF, as the viewer builds it:
   * `x` and `y` are percentages of the rendered page's width and height.
   */
  datatype Note = Note(id: string, page: int, x: real, y: real, text: string)
}
