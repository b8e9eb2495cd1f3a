/**
 * What the file list's order promises (the same entries, folders first,
 * newest first within a kind, ties in their original order) and how the
 * drag-over highlight and the drop agree.
 */
module FileListFacts {
  import opened Records
  import opened FileList

  // ---------------------------------------------------------------------
  // Inserting one entry
  // ---------------------------------------------------------------------

  lemma {:induction false} InsertFilePermutes(s: seq<FileItem>, f: FileItem)
    ensures multiset(InsertFile(s, f)) == multiset(s) + multiset{f}
    decreases |s|
  {
    if s != [] && Compare(s[|s| - 1], f) > 0 {
      var init := s[..|s| - 1];
      InsertFilePermutes(init, f);
      assert s == init + [s[|s| - 1]];
    }
  }

  lemma {:induction false} InsertFileOrdered(s: seq<FileItem>, f: FileItem)
    requires InDisplayOrder(s)
    ensures InDisplayOrder(InsertFile(s, f))
    decreases |s|
  {
    if s != [] && Compare(s[|s| - 1], f) > 0 {
      var init, last := s[..|s| - 1], s[|s| - 1];
      InsertFileOrdered(init, f);
      InsertFilePermutes(init, f);
      var r := InsertFile(init, f);
      forall i | 0 <= i < |r|
        ensures Compare(r[i], last) <= 0
      {
        assert r[i] in multiset(r);
        if r[i] != f {
          assert r[i] in multiset(init);
          var j :| 0 <= j < |init| && init[j] == r[i];
          assert s[j] == r[i];
        }
      }
    }
  }

  lemma {:induction false} InsertFileStable(s: seq<FileItem>, f: FileItem, kind: FileKind, t: int)
    ensures Ties(InsertFile(s, f), kind, t) ==
      Ties(s, kind, t) + (if f.kind == kind && f.updatedAt == t then [f] else [])
    decreases |s|
  {
    if s == [] || Compare(s[|s| - 1], f) <= 0 {
      TiesSnoc(s, f, kind, t);
    } else {
      var init, last := s[..|s| - 1], s[|s| - 1];
      var r := InsertFile(init, f);
      assert InsertFile(s, f) == r + [last];
      InsertFileStable(init, f, kind, t);
      TiesSnoc(r, last, kind, t);
      TiesSnoc(init, last, kind, t);
      assert init + [last] == s;
    }
  }

  lemma TiesSnoc(s: seq<FileItem>, x: FileItem, kind: FileKind, t: int)
    ensures Ties(s + [x], kind, t) == Ties(s, kind, t) + (if x.kind == kind && x.updatedAt == t then [x] else [])
  {
    assert (s + [x])[..|s|] == s;
  }

  // ---------------------------------------------------------------------
  // The sorted copy
  // ---------------------------------------------------------------------

  /** `sortedFiles` holds exactly the entries of `files`. */
  lemma {:induction false} SortFilesPermutes(files: seq<FileItem>)
    ensures multiset(SortFiles(files)) == multiset(files)
    decreases |files|
  {
    if files != [] {
      var init := files[..|files| - 1];
      SortFilesPermutes(init);
      InsertFilePermutes(SortFiles(init), files[|files| - 1]);
      assert files == init + [files[|files| - 1]];
    }
  }

  lemma {:induction false} SortFilesOrdered(files: seq<FileItem>)
    ensures InDisplayOrder(SortFiles(files))
    decreases |files|
  {
    if files != [] {
      SortFilesOrdered(files[..|files| - 1]);
      InsertFileOrdered(SortFiles(files[..|files| - 1]), files[|files| - 1]);
    }
  }

  /**
   * Every folder is shown before every file, and within a kind the entries
   * are shown newest first.
   */
  lemma FoldersFirstNewestFirst(files: seq<FileItem>)
    ensures var r := SortFiles(files);
      (forall i, j :: 0 <= i < j < |r| ==> !(r[i].kind == File && r[j].kind == Folder))
      && (forall i, j :: 0 <= i < j < |r| && r[i].kind == r[j].kind ==> r[i].updatedAt >= r[j].updatedAt)
  {
    SortFilesOrdered(files);
  }

  /** Entries the comparator ties keep their order in `files` (the sort is stable). */
  lemma {:induction false} SortFilesStable(files: seq<FileItem>, kind: FileKind, t: int)
    ensures Ties(SortFiles(files), kind, t) == Ties(files, kind, t)
    decreases |files|
  {
    if files != [] {
      var init := files[..|files| - 1];
      SortFilesStable(init, kind, t);
      InsertFileStable(SortFiles(init), files[|files| - 1], kind, t);
    }
  }

  /** Sorting an already sorted copy changes nothing. */
  lemma {:induction false} SortFilesIdempotent(files: seq<FileItem>)
    ensures SortFiles(SortFiles(files)) == SortFiles(files)
  {
    SortFilesOrdered(files);
    SortedIsFixed(SortFiles(files));
  }

  lemma {:induction false} SortedIsFixed(s: seq<FileItem>)
    requires InDisplayOrder(s)
    ensures SortFiles(s) == s
    decreases |s|
  {
    if s != [] {
      var init, last := s[..|s| - 1], s[|s| - 1];
      assert InDisplayOrder(init) by {
        forall i, j | 0 <= i < j < |init|
          ensures Compare(init[i], init[j]) <= 0
        {
          assert init[i] == s[i] && init[j] == s[j];
        }
      }
      SortedIsFixed(init);
      if init != [] {
        assert Compare(init[|init| - 1], last) <= 0 by {
          assert init[|init| - 1] == s[|s| - 2];
        }
      }
      assert SortFiles(s) == InsertFile(init, last);
      assert init + [last] == s;
    }
  }

  // ---------------------------------------------------------------------
  // Drag and drop
  // ---------------------------------------------------------------------

  /**
   * While a file is dragged, the drag-over sets the highlight state exactly
   * when dropping on the same card moves the file, and the value it sets is
   * the move's destination folder: a folder's id, or null for the root card.
   * Null is also the state meaning that no card is highlighted, so the root
   * card is never drawn highlighted.
   */
  lemma HighlightMatchesDrop(dragged: FileItem, target: Option<FileItem>)
    ensures DragOverHighlight(Some(dragged), target).Some? <==> DropMove(Some(dragged), target).Some?
    ensures DropMove(Some(dragged), target).Some? ==>
      DragOverHighlight(Some(dragged), target).value == DropMove(Some(dragged), target).value.targetFolderId
  {
  }
}
