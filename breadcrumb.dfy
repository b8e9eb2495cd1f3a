/**
 * The breadcrumb's ancestor walk: from the current folder, follow
 * `parentId` links through the stored documents and collect the folders
 * from the outermost one reached down to the current one.
 *
 * The document store is a map from document id to the stored entry; a
 * looked-up entry takes the document id as its `id`, as the spread
 * `{ id: parentDoc.id, ...parentDoc.data() }` does for documents whose data
 * has no `id` field of its own.
 */
module Breadcrumb {
  import opened Records

  type Store = map<string, FileItem>

  /**
   * The parent the walk moves to from `f`: none when `parentId` is falsy
   * (`null` or `""`) or names no stored document.
   */
  function Parent(store: Store, f: FileItem): (r: Option<FileItem>)
    ensures r.Some? <==> Truthy(f.parentId) && f.parentId.value in store
    ensures r.Some? ==> r.value == store[f.parentId.value].(id := f.parentId.value)
  {
    if Truthy(f.parentId) && f.parentId.value in store then
      var pid := f.parentId.value;
      Some(store[pid].(id := pid))
    else None
  }

  /** The walk from `f` stops after at most `fuel` successful lookups. */
  predicate StopsWithin(store: Store, f: FileItem, fuel: nat)
    decreases fuel
  {
    match Parent(store, f)
    case None => true
    case Some(p) => fuel > 0 && StopsWithin(store, p, fuel - 1)
  }

  /** The folders the walk collects from `f`: outermost first, `f` last. */
  function PathFrom(store: Store, f: FileItem, fuel: nat): (r: seq<FileItem>)
    requires StopsWithin(store, f, fuel)
    ensures 1 <= |r| <= fuel + 1
    ensures r[|r| - 1] == f
    ensures Parent(store, r[0]).None?
    ensures forall i :: 0 <= i < |r| - 1 ==> Parent(store, r[i + 1]) == Some(r[i])
    decreases fuel
  {
    match Parent(store, f)
    case None => [f]
    case Some(p) => PathFrom(store, p, fuel - 1) + [f]
  }

  /**
   * The path shown for `folder`: empty for no folder. An acyclic chain of
   * `parentId` links visits each stored document at most once, so a walk
   * that terminates does so within `|store|` lookups.
   */
  function FolderPath(store: Store, folder: Option<FileItem>): (r: seq<FileItem>)
    requires folder.Some? ==> StopsWithin(store, folder.value, |store|)
    ensures folder.None? <==> r == []
    ensures folder.Some? ==> r[|r| - 1] == folder.value && Parent(store, r[0]).None?
    ensures forall i :: 0 <= i < |r| - 1 ==> Parent(store, r[i + 1]) == Some(r[i])
  {
    match folder
    case None => []
    case Some(f) => PathFrom(store, f, |store|)
  }

  /** `getFolderPath`: the `while` loop that prepends each folder reached. */
  method GetFolderPath(store: Store, folder: Option<FileItem>) returns (path: seq<FileItem>)
    requires folder.Some? ==> StopsWithin(store, folder.value, |store|)
    ensures path == FolderPath(store, folder)
  {
    path := [];
    var current := folder;
    ghost var fuel: nat := |store|;
    while current.Some?
      invariant current.Some? ==> StopsWithin(store, current.value, fuel)
      invariant current.Some? ==> FolderPath(store, folder) == PathFrom(store, current.value, fuel) + path
      invariant current.None? ==> path == FolderPath(store, folder)
      decreases fuel
    {
      var f := current.value;
      path := [f] + path;
      if Truthy(f.parentId) {
        var pid := f.parentId.value;
        if pid in store {
          current := Some(store[pid].(id := pid));
          fuel := fuel - 1;
        } else {
          break;
        }
      } else {
        break;
      }
    }
  }

  /**
   * The loop has no guard against cycles: a folder whose stored parent
   * names itself as parent is revisited forever, so no number of lookups
   * ends the walk.
   */
  lemma {:induction false} SelfParentNeverStops(store: Store, f: FileItem, fuel: nat)
    requires Truthy(f.parentId) && f.parentId.value in store
    requires store[f.parentId.value].parentId == f.parentId
    ensures !StopsWithin(store, f, fuel)
    decreases fuel
  {
    var p := Parent(store, f).value;
    if fuel > 0 {
      SelfParentNeverStops(store, p, fuel - 1);
    }
  }

  /** More lookups allowed do not change where the walk ends or what it collects. */
  lemma {:induction false} PathFromFuel(store: Store, f: FileItem, fuel: nat, more: nat)
    requires StopsWithin(store, f, fuel) && fuel <= more
    ensures StopsWithin(store, f, more)
    ensures PathFrom(store, f, more) == PathFrom(store, f, fuel)
    decreases fuel
  {
    match Parent(store, f)
    case None =>
    case Some(p) => PathFromFuel(store, p, fuel - 1, more - 1);
  }

  // ---------------------------------------------------------------------
  // The precondition is exactly termination
  // ---------------------------------------------------------------------

  /** The folder reached after `k` successful lookups from `f`, if the walk gets that far. */
  function Ancestor(store: Store, f: FileItem, k: nat): Option<FileItem>
    decreases k
  {
    if k == 0 then Some(f)
    else
      match Parent(store, f)
      case None => None
      case Some(p) => Ancestor(store, p, k - 1)
  }

  /** A walk that stops within `fuel` lookups from `f` stops from every folder it reaches. */
  lemma {:induction false} StopsAlong(store: Store, f: FileItem, fuel: nat, k: nat)
    requires StopsWithin(store, f, fuel) && Ancestor(store, f, k).Some?
    ensures k <= fuel && StopsWithin(store, Ancestor(store, f, k).value, fuel - k)
    decreases k
  {
    if k > 0 {
      StopsAlong(store, Parent(store, f).value, fuel - 1, k - 1);
    }
  }

  lemma {:induction false} NotStopsAlong(store: Store, f: FileItem, fuel: nat, k: nat)
    requires Ancestor(store, f, k).Some?
    requires fuel >= k ==> !StopsWithin(store, Ancestor(store, f, k).value, fuel - k)
    ensures !StopsWithin(store, f, fuel)
    decreases k
  {
    if k > 0 && fuel > 0 {
      NotStopsAlong(store, Parent(store, f).value, fuel - 1, k - 1);
    }
  }

  /**
   * The loop has no guard against cycles: a folder the walk comes back to
   * after `k` lookups is revisited forever, so no number of lookups ends it.
   */
  lemma {:induction false} CycleNeverStops(store: Store, f: FileItem, k: nat, fuel: nat)
    requires k >= 1 && Ancestor(store, f, k) == Some(f)
    ensures !StopsWithin(store, f, fuel)
    decreases fuel
  {
    if fuel >= k {
      CycleNeverStops(store, f, k, fuel - k);
    }
    NotStopsAlong(store, f, fuel, k);
  }

  /** Along a parent chain, walking `b - a` steps up from `r[b]` reaches `r[a]`. */
  lemma {:induction false} ChainAncestor(store: Store, r: seq<FileItem>, a: nat, b: nat)
    requires a <= b < |r|
    requires forall i :: 0 <= i < |r| - 1 ==> Parent(store, r[i + 1]) == Some(r[i])
    ensures Ancestor(store, r[b], b - a) == Some(r[a])
    decreases b - a
  {
    if a < b {
      assert Parent(store, r[b]) == Some(r[b - 1]);
      ChainAncestor(store, r, a, b - 1);
    }
  }

  /** The walk needs exactly one lookup per folder above the start. */
  lemma {:induction false} PathStops(store: Store, f: FileItem, fuel: nat)
    requires StopsWithin(store, f, fuel)
    ensures StopsWithin(store, f, |PathFrom(store, f, fuel)| - 1)
    decreases fuel
  {
    match Parent(store, f)
    case None =>
    case Some(p) => PathStops(store, p, fuel - 1);
  }

  lemma {:induction false} DistinctWithin(ids: seq<string>, keys: set<string>)
    requires forall i :: 0 <= i < |ids| ==> ids[i] in keys
    requires forall i, j :: 0 <= i < j < |ids| ==> ids[i] != ids[j]
    ensures |ids| <= |keys|
  {
    if ids != [] {
      var x := ids[|ids| - 1];
      DistinctWithin(ids[..|ids| - 1], keys - {x});
    }
  }

  /**
   * A walk that ends at all ends within `|store|` lookups: every folder
   * above the start is a distinct stored document, since a repeated one
   * would be a cycle. So the precondition of `FolderPath` and
   * `GetFolderPath` excludes only the walks on which the source loops forever.
   */
  lemma StopsWithinStoreSize(store: Store, f: FileItem, fuel: nat)
    requires StopsWithin(store, f, fuel)
    ensures StopsWithin(store, f, |store|)
  {
    var r := PathFrom(store, f, fuel);
    var n := |r| - 1;
    var ids := seq(n, i requires 0 <= i < n => r[i].id);
    forall i | 0 <= i < n
      ensures ids[i] in store && r[i] == store[ids[i]].(id := ids[i])
    {
      assert Parent(store, r[i + 1]) == Some(r[i]);
    }
    forall i, j | 0 <= i < j < n
      ensures ids[i] != ids[j]
    {
      if ids[i] == ids[j] {
        assert r[i] == r[j];
        ChainAncestor(store, r, i, j);
        CycleNeverStops(store, r[j], j - i, fuel - (n - j));
        ChainAncestor(store, r, j, n);
        StopsAlong(store, f, fuel, n - j);
        assert false;
      }
    }
    DistinctWithin(ids, store.Keys);
    PathStops(store, f, fuel);
    PathFromFuel(store, f, n, |store|);
  }
}
